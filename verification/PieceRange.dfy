// Byte ranges to piece ranges: torrent::get_pieces_range and
// torrent::get_pieces_read_ahead_range.
module PieceRange {
  // What the functions ask of the torrent. pieceEnd is piece_index_end(): an
  // exclusive end by its use, the last piece by its body. It is taken to be one
  // of the two: the last piece, or one past it.
  datatype Torrent = Torrent(pieceLength: int, numPieces: int, pieceEnd: int, total: nat)

  // The metadata of a non-empty torrent.
  ghost predicate HasMetadata(t: Torrent) {
    && t.pieceLength > 0 && t.total > 0
    && t.numPieces == (t.total - 1) / t.pieceLength + 1
    && t.numPieces - 1 <= t.pieceEnd <= t.numPieces
  }

  datatype PiecesRange = PiecesRange(begin: int, end: int, startOffset: int, dataSize: nat)

  // A default-constructed pieces_range_t.
  const NoRange := PiecesRange(-1, -1, -1, 0)

  // ----- C++ division truncates toward zero -----

  function TruncDiv(a: int, b: int): int
    requires b > 0
  {
    if a >= 0 then a / b else -((-a) / b)
  }

  function TruncMod(a: int, b: int): int
    requires b > 0
  {
    a - TruncDiv(a, b) * b
  }

  // ----- what the range means -----

  // One past the piece of the last byte asked for.
  function TrueEnd(pl: nat, at: nat, size: nat): nat
    requires pl > 0
  {
    if size == 0 then at / pl + 1 else (at + size - 1) / pl + 1
  }

  // Piece p holds at least one of the bytes at .. at + size.
  ghost predicate Overlaps(pl: nat, p: nat, at: nat, size: nat) {
    p * pl < at + size && at < (p + 1) * pl
  }

  lemma DivBounds(x: nat, pl: nat)
    requires pl > 0
    ensures x / pl * pl <= x < (x / pl + 1) * pl
  {
  }

  lemma MulMonotone(a: nat, b: nat, pl: nat)
    requires a <= b
    ensures a * pl <= b * pl
  {
  }

  // The interval from the first piece to TrueEnd is exactly the set of pieces
  // the bytes touch.
  lemma CoverIsExact(pl: nat, at: nat, size: nat, p: nat)
    requires pl > 0 && size > 0
    ensures at / pl <= p < TrueEnd(pl, at, size) <==> Overlaps(pl, p, at, size)
  {
    var first, last := at / pl, (at + size - 1) / pl;
    DivBounds(at, pl);
    DivBounds(at + size - 1, pl);
    if p < first { MulMonotone(p + 1, first, pl); }
    else { MulMonotone(first + 1, p + 1, pl); }
    if p > last { MulMonotone(last + 1, p, pl); }
    else { MulMonotone(p, last, pl); }
  }

  lemma DivUnique(x: nat, pl: nat, k: nat)
    requires pl > 0 && k * pl <= x < (k + 1) * pl
    ensures x / pl == k
  {
    DivBounds(x, pl);
    if x / pl < k { MulMonotone(x / pl + 1, k, pl); }
    if x / pl > k { MulMonotone(k + 1, x / pl, pl); }
  }

  lemma Distribute(a: nat, b: nat, pl: nat)
    ensures (a + b) * pl == a * pl + b * pl
  {
  }

  lemma DivAdd(k: nat, x: nat, pl: nat)
    requires pl > 0
    ensures (k * pl + x) / pl == k + x / pl
  {
    var q := x / pl;
    DivBounds(x, pl);
    Distribute(k, q, pl);
    Distribute(k, q + 1, pl);
    DivUnique(k * pl + x, pl, k + q);
  }

  lemma DivMonotone(x: nat, y: nat, pl: nat)
    requires pl > 0 && x <= y
    ensures 0 <= x / pl <= y / pl
  {
    var a, b := x / pl, y / pl;
    DivBounds(x, pl);
    DivBounds(y, pl);
    if b < a { MulMonotone(b + 1, a, pl); }
  }

  // Rounding up, as the code does it, counts the pieces that x > 0 bytes need.
  lemma RoundUp(x: nat, pl: nat)
    requires pl > 0 && x > 0
    ensures (if TruncMod(x, pl) != 0 then TruncDiv(x, pl) + 1 else TruncDiv(x, pl)) == (x - 1) / pl + 1
  {
    var q := x / pl;
    DivBounds(x, pl);
    if x == q * pl {
      assert (q - 1 + 1) * pl == q * pl && (q - 1) * pl == q * pl - pl;
      DivUnique(x - 1, pl, q - 1);
    } else {
      DivUnique(x - 1, pl, q);
    }
  }

  // ----- get_pieces_range -----

  // file_storage::map_file inside the torrent: quotient and remainder.
  function MapFile(t: Torrent, at: nat): (int, int)
    requires t.pieceLength > 0
  {
    (at / t.pieceLength, at % t.pieceLength)
  }

  method EnsurePieceRangeValid(t: Torrent, range: PiecesRange) returns (r: PiecesRange)
    ensures r == range.(end := if range.end > t.pieceEnd then t.pieceEnd else range.end)
  {
    r := range;
    if r.end > t.pieceEnd {
      r := r.(end := t.pieceEnd);
    }
  }

  // The result in terms of the piece of the last byte: a single piece is never
  // clipped, more than numPieces further pieces give no range at all.
  function RangeOf(t: Torrent, at: nat, size: nat): PiecesRange {
    if t.pieceLength <= 0 then NoRange
    else
      var first, end := at / t.pieceLength, TrueEnd(t.pieceLength, at, size);
      if end == first + 1 then PiecesRange(first, first + 1, at % t.pieceLength, size)
      else if end - first - 1 > t.numPieces then NoRange
      else PiecesRange(first, if end > t.pieceEnd then t.pieceEnd else end, at % t.pieceLength, size)
  }

  lemma OnePieceIsEnough(pl: nat, at: nat, size: nat)
    requires pl > 0 && size <= pl - at % pl
    ensures TrueEnd(pl, at, size) == at / pl + 1
  {
    var first := at / pl;
    DivBounds(at, pl);
    Distribute(first, 1, pl);
    if size > 0 { DivUnique(at + size - 1, pl, first); }
  }

  lemma SplitDivMod(x: nat, pl: nat)
    requires pl > 0
    ensures x == x / pl * pl + x % pl && x % pl < pl
  {
  }

  lemma AdditionalPieces(pl: nat, at: nat, size: nat)
    requires pl > 0 && pl - at % pl < size
    ensures var rest := size - (pl - at % pl);
            (if TruncMod(rest, pl) != 0 then TruncDiv(rest, pl) + 1 else TruncDiv(rest, pl))
            == TrueEnd(pl, at, size) - at / pl - 1
  {
    SplitDivMod(at, pl);
    LastPiece(pl, at / pl, at % pl, size);
    RoundUp(size - (pl - at % pl), pl);
  }

  lemma LastPiece(pl: nat, first: nat, start: nat, size: nat)
    requires start < pl && pl - start < size
    ensures (first * pl + start + size - 1) / pl == first + 1 + (size - (pl - start) - 1) / pl
  {
    var rest := size - (pl - start) - 1;
    Distribute(first, 1, pl);
    DivAdd(first + 1, rest, pl);
    assert first * pl + start + size - 1 == (first + 1) * pl + rest;
  }

  // at is the file's start plus the offset in it.
  method GetPiecesRange(t: Torrent, at: nat, size: nat) returns (range: PiecesRange)
    ensures range == RangeOf(t, at, size)
  {
    var pieceLen := t.pieceLength;
    if pieceLen <= 0 {
      return NoRange;
    }
    var (piece, start) := MapFile(t, at);
    range := PiecesRange(piece, piece, start, size);
    range := range.(end := range.end + 1);
    var sizeToGet: int := size;
    var bytesInFirstPiece := pieceLen - start;
    if bytesInFirstPiece >= sizeToGet {
      OnePieceIsEnough(pieceLen, at, size);
      return;
    }
    sizeToGet := sizeToGet - bytesInFirstPiece;
    var modulusRest := TruncMod(sizeToGet, pieceLen);
    var additional := TruncDiv(sizeToGet, pieceLen);
    if modulusRest != 0 {
      additional := additional + 1;
    }
    AdditionalPieces(pieceLen, at, size);
    if additional > t.numPieces {
      return NoRange;
    }
    range := range.(end := range.end + additional);
    range := EnsurePieceRangeValid(t, range);
  }

  // The piece of a byte inside the torrent is at most the last one, so the
  // range is never inverted and loops that run until piece == end stop.
  lemma FirstPieceInBounds(t: Torrent, at: nat)
    requires HasMetadata(t) && at < t.total
    ensures 0 <= at / t.pieceLength < t.numPieces && at / t.pieceLength <= t.pieceEnd
  {
    DivMonotone(at, t.total - 1, t.pieceLength);
  }

  // Inside the torrent the range is never inverted, and it starts with the
  // right offset in the right piece.
  lemma RangeIsOrdered(t: Torrent, at: nat, size: nat)
    requires HasMetadata(t) && at < t.total
    ensures var r := RangeOf(t, at, size);
            && r.begin <= r.end <= t.pieceEnd + 1
            && (r != NoRange ==> 0 <= r.begin < t.numPieces && r.dataSize == size
                                 && r.begin * t.pieceLength + r.startOffset == at && 0 <= r.startOffset < t.pieceLength)
  {
    hide TrueEnd;
    FirstPieceInBounds(t, at);
    SplitDivMod(at, t.pieceLength);
    EndBehindFirst(t.pieceLength, at, size);
  }

  lemma EndBehindFirst(pl: nat, at: nat, size: nat)
    requires pl > 0
    ensures TrueEnd(pl, at, size) >= at / pl + 1
  {
    if size > 0 { DivMonotone(at, at + size - 1, pl); }
  }

  // The range is the minimal cover of the bytes exactly when the true end is
  // not past piece_index_end(), or one piece is enough.
  lemma RangeIsMinimalCover(t: Torrent, at: nat, size: nat)
    requires HasMetadata(t) && at < t.total && size > 0
    ensures var r, first, end := RangeOf(t, at, size), at / t.pieceLength, TrueEnd(t.pieceLength, at, size);
            (forall p: nat :: r.begin <= p < r.end <==> Overlaps(t.pieceLength, p, at, size))
            <==> end <= t.pieceEnd || end == first + 1
  {
    var pl, r := t.pieceLength, RangeOf(t, at, size);
    var first, end := at / pl, TrueEnd(pl, at, size);
    FirstPieceInBounds(t, at);
    DivMonotone(at, at + size - 1, pl);
    forall p: nat ensures first <= p < end <==> Overlaps(pl, p, at, size) {
      CoverIsExact(pl, at, size, p);
    }
    if !(end <= t.pieceEnd || end == first + 1) {
      assert Overlaps(pl, end - 1, at, size) && r.end <= end - 1;
    }
  }

  // Clipping costs the last of several pieces: of the two pieces of this
  // torrent a read of both gets the first only.
  lemma ClippedRead()
    ensures var t := Torrent(4, 2, 1, 8);
            HasMetadata(t) && RangeOf(t, 0, 8) == PiecesRange(0, 1, 0, 8) && TrueEnd(4, 0, 8) == 2
  {
  }

  // With piece_index_end() one past the last piece it gets both.
  lemma BothPieces(t: Torrent)
    requires t == Torrent(4, 2, 2, 8)
    ensures HasMetadata(t) && RangeOf(t, 0, 8) == PiecesRange(0, 2, 0, 8)
  {
    DivUnique(0, 4, 0);
    DivUnique(7, 4, 1);
  }

  // Inside the torrent the range is empty exactly when more than numPieces
  // further pieces are asked for, or when the bytes start in the piece that
  // piece_index_end() names and go on behind it.
  lemma EmptyRangeExactly(t: Torrent, at: nat, size: nat)
    requires HasMetadata(t) && at < t.total
    ensures var first, end := at / t.pieceLength, TrueEnd(t.pieceLength, at, size);
            RangeOf(t, at, size).begin == RangeOf(t, at, size).end
            <==> end > first + 1 && (end - first - 1 > t.numPieces || first == t.pieceEnd)
  {
    hide TrueEnd;
    FirstPieceInBounds(t, at);
    EndBehindFirst(t.pieceLength, at, size);
  }

  // No range is the pair -1, -1: without metadata, and for too many pieces.
  lemma NoRangeIs(t: Torrent, at: nat, size: nat)
    ensures t.pieceLength <= 0 ==> RangeOf(t, at, size) == PiecesRange(-1, -1, -1, 0)
    ensures t.pieceLength > 0 && TrueEnd(t.pieceLength, at, size) > at / t.pieceLength + 1
            && TrueEnd(t.pieceLength, at, size) - at / t.pieceLength - 1 > t.numPieces ==>
              RangeOf(t, at, size) == PiecesRange(-1, -1, -1, 0)
  {
  }

  // Four bytes are there, five are asked for, and the range is empty.
  lemma EmptyRead()
    ensures var t := Torrent(4, 2, 1, 8);
            HasMetadata(t) && RangeOf(t, 4, 5) == PiecesRange(1, 1, 0, 5)
  {
  }

  // ----- get_pieces_read_ahead_range -----

  // How many pieces the read-ahead asks for: rounding up, except that a size
  // below one piece asks for two, by truncation of the negative rest.
  function ReadAheadPieces(pl: nat, size: nat): nat
    requires pl > 0
  {
    if size == 0 then 0 else if size < pl then 2 else (size - 1) / pl + 1
  }

  // Enough pieces for the size, and for a size of at least one piece no more.
  lemma ReadAheadCovers(pl: nat, size: nat, k: nat)
    requires pl > 0
    ensures k * pl < size ==> k < ReadAheadPieces(pl, size)
    ensures size >= pl && k < ReadAheadPieces(pl, size) ==> k * pl < size
  {
    if size > 0 {
      DivBounds(size - 1, pl);
      var q := (size - 1) / pl;
      if k <= q { MulMonotone(k, q, pl); } else { MulMonotone(q + 1, k, pl); }
      if size < pl { DivUnique(size - 1, pl, 0); }
    }
  }

  lemma ReadAheadCount(pl: nat, size: nat)
    requires pl > 0
    ensures var more := size - pl;
            1 + TruncDiv(more, pl) + (if TruncMod(more, pl) != 0 then 1 else 0) == ReadAheadPieces(pl, size)
  {
    if size > pl {
      RoundUp(size - pl, pl);
      DivAdd(1, size - pl - 1, pl);
    } else if size == pl {
      ZeroMultiple(pl);
    } else if size > 0 {
      BelowOne(pl - size, pl);
    } else {
      OneMultiple(pl);
    }
  }

  lemma ZeroMultiple(pl: nat)
    requires pl > 0
    ensures TruncDiv(0, pl) == 0 && TruncMod(0, pl) == 0 && (pl - 1) / pl == 0
  {
  }

  lemma OneMultiple(pl: int)
    requires pl > 0
    ensures TruncDiv(-pl, pl) == -1 && TruncMod(-pl, pl) == 0
  {
  }

  lemma BelowOne(x: int, pl: int)
    requires 0 < x < pl
    ensures TruncDiv(-x, pl) == 0 && TruncMod(-x, pl) == -x
  {
    DivUnique(x, pl, 0);
  }

  method GetPiecesReadAheadRange(t: Torrent, fromPiece: int, readAheadSize: nat) returns (range: PiecesRange)
    ensures t.pieceLength <= 0 ==> range == NoRange
    ensures t.pieceLength > 0 ==>
              var end := fromPiece + ReadAheadPieces(t.pieceLength, readAheadSize);
              range == PiecesRange(fromPiece, if end > t.pieceEnd then t.pieceEnd else end, -1, readAheadSize)
  {
    var pieceLen := t.pieceLength;
    if pieceLen <= 0 {
      return NoRange;
    }
    range := PiecesRange(fromPiece, fromPiece, -1, readAheadSize);
    range := range.(end := range.end + 1);
    var more := readAheadSize - pieceLen;
    var modulusRest := TruncMod(more, pieceLen);
    var additional := TruncDiv(more, pieceLen);
    if modulusRest != 0 {
      additional := additional + 1;
    }
    ReadAheadCount(pieceLen, readAheadSize);
    range := range.(end := range.end + additional);
    range := EnsurePieceRangeValid(t, range);
  }
}
