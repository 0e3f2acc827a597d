// file::read and file::seek over the streaming cache: blocking reads that
// stitch whole pieces into the caller's buffer.
module TorrentFile {
  import opened Wrappers
  import opened Bytes
  import opened PieceRange
  import opened StreamingCache

  function Min(a: int, b: int): int { if a < b then a else b }

  // Where piece p starts, cut off at the end of the content.
  function PieceStart(pl: nat, total: nat, p: int): (s: nat)
    ensures s <= total
  {
    if p < 0 then 0 else Min(p * pl, total)
  }

  function PieceBytes(content: seq<byte>, pl: nat, p: int): seq<byte> {
    if p < 0 then []
    else
      MulMonotone(p, p + 1, pl);
      content[PieceStart(pl, |content|, p)..PieceStart(pl, |content|, p + 1)]
  }

  // Every piece of the torrent as a successful read delivers it.
  function Truth(content: seq<byte>, pl: nat): int -> seq<byte> {
    p => PieceBytes(content, pl, p)
  }

  // What reading pieces in order yields: each from its start offset on.
  function Rest(c: CachePiece): seq<byte> {
    if c.buffer.Some? && 0 <= c.startOffset <= c.dataSize <= |c.buffer.value|
    then c.buffer.value[c.startOffset..c.dataSize] else []
  }

  function Flat(pieces: seq<CachePiece>): seq<byte> {
    if pieces == [] then [] else Flat(pieces[..|pieces| - 1]) + Rest(pieces[|pieces| - 1])
  }

  lemma NthPiece(truth: int -> seq<byte>, range: PiecesRange, i: nat)
    requires i < range.end - range.begin
    ensures var ps := TruePieces(truth, range).pieces;
            |ps| == range.end - range.begin
            && ps[i] == TruePiece(truth, range.begin + i).(startOffset := if i == 0 then range.startOffset else 0)
  {
  }

  // The part of piece p from byte at on.
  lemma RestOfPiece(content: seq<byte>, pl: nat, p: nat, at: nat)
    requires pl > 0 && at < |content| && p * pl <= at < p * pl + pl
    ensures at <= PieceStart(pl, |content|, p + 1)
    ensures Rest(TruePiece(Truth(content, pl), p).(startOffset := at - p * pl))
            == content[at..PieceStart(pl, |content|, p + 1)]
  {
  }

  lemma WholePiece(content: seq<byte>, pl: nat, p: nat)
    ensures PieceStart(pl, |content|, p) <= PieceStart(pl, |content|, p + 1)
    ensures Rest(TruePiece(Truth(content, pl), p))
            == content[PieceStart(pl, |content|, p)..PieceStart(pl, |content|, p + 1)]
  {
  }

  // The pieces of a range, true and read from the range's start offset, are the
  // content from that byte to the end of the range's last piece.
  lemma {:induction false} FlatIsContent(content: seq<byte>, pl: nat, at: nat, range: PiecesRange, m: nat)
    requires pl > 0 && at < |content|
    requires 0 <= range.begin < range.end && 0 < m <= range.end - range.begin
    requires at == range.begin * pl + range.startOffset && 0 <= range.startOffset < pl
    ensures at <= PieceStart(pl, |content|, range.begin + m)
    ensures |TruePieces(Truth(content, pl), range).pieces| == range.end - range.begin
    ensures Flat(TruePieces(Truth(content, pl), range).pieces[..m])
            == content[at..PieceStart(pl, |content|, range.begin + m)]
    decreases m
  {
    hide TruePieces, PieceStart, Truth, TruePiece, Rest;
    var truth := Truth(content, pl);
    var pieces, p := TruePieces(truth, range).pieces, range.begin + m - 1;
    NthPiece(truth, range, m - 1);
    assert pieces[..m][..m - 1] == pieces[..m - 1];
    if m == 1 {
      RestOfPiece(content, pl, p, at);
      assert Flat(pieces[..0]) == [];
    } else {
      FlatIsContent(content, pl, at, range, m - 1);
      WholePiece(content, pl, p);
      OffsetZero(truth, p);
      var x, y := PieceStart(pl, |content|, p), PieceStart(pl, |content|, p + 1);
      assert range.begin + (m - 1) == p;
      assert pieces[m - 1] == TruePiece(truth, p);
      assert Flat(pieces[..m]) == Flat(pieces[..m - 1]) + Rest(pieces[m - 1]);
      assert content[at..x] + content[x..y] == content[at..y];
    }
  }

  lemma OffsetZero(truth: int -> seq<byte>, p: int)
    ensures TruePiece(truth, p).(startOffset := 0) == TruePiece(truth, p)
  {
  }

  lemma {:induction false} FlatPrefix(pieces: seq<CachePiece>, i: nat)
    requires i <= |pieces|
    ensures Flat(pieces[..i]) <= Flat(pieces)
    decreases |pieces| - i
  {
    if i == |pieces| {
      assert pieces[..i] == pieces;
    } else {
      assert pieces[..i + 1][..i] == pieces[..i];
      FlatPrefix(pieces, i + 1);
    }
  }

  // memcpy
  method CopyBytes(buffer: array<byte>, at: nat, src: seq<byte>)
    requires at + |src| <= buffer.Length
    modifies buffer
    ensures buffer[..at + |src|] == old(buffer[..at]) + src && buffer[at + |src|..] == old(buffer[at + |src|..])
  {
    for i := 0 to |src|
      invariant buffer[..at + i] == old(buffer[..at]) + src[..i]
      invariant buffer[at + i..] == old(buffer[at + i..])
    {
      buffer[at + i] := src[i];
    }
  }

  // The fields a delivered piece has: bytes_left() and buffer_begin() are in range.
  predicate Readable(c: CachePiece) {
    c.IsValid() && 0 <= c.startOffset <= c.dataSize == |c.buffer.value|
  }

  lemma FlatStep(pieces: seq<CachePiece>, i: nat)
    requires i < |pieces| && Readable(pieces[i])
    ensures Flat(pieces[..i + 1]) == Flat(pieces[..i]) + Rest(pieces[i])
  {
    assert pieces[..i + 1][..i] == pieces[..i];
  }

  lemma RestPrefix(c: CachePiece, n: nat)
    requires Readable(c) && n <= c.dataSize - c.startOffset
    ensures |Rest(c)| == c.dataSize - c.startOffset
    ensures c.buffer.value[c.startOffset..c.startOffset + n] == Rest(c)[..n]
  {
    SliceOfSlice(c.buffer.value, c.startOffset, c.dataSize, n);
  }

  lemma SliceOfSlice<T>(s: seq<T>, a: nat, b: nat, n: nat)
    requires a + n <= b <= |s|
    ensures s[a..b][..n] == s[a..a + n]
  {
  }

  // One memcpy of the copy loop; flat is what the pieces before gave.
  method CopyPiece(buffer: array<byte>, ghost flat: seq<byte>, at: nat, stillToCopy: nat, c: CachePiece)
    returns (k: nat)
    requires Readable(c) && at == |flat| && at + stillToCopy <= buffer.Length && buffer[..at] == flat
    modifies buffer
    ensures k == Min(|Rest(c)|, stillToCopy)
    ensures buffer[..at + k] == (flat + Rest(c))[..at + k] && buffer[at + k..] == old(buffer[at + k..])
  {
    k := Min(c.dataSize - c.startOffset, stillToCopy);
    RestPrefix(c, k);
    hide Rest;
    CopyBytes(buffer, at, c.buffer.value[c.startOffset..c.startOffset + k]);
    assert (flat + Rest(c))[..at + k] == flat + Rest(c)[..k];
  }

  // The copy loop of file::read.
  method CopyPieces(buffer: array<byte>, n: nat, pieces: seq<CachePiece>) returns (done: nat)
    requires n <= buffer.Length && forall i :: 0 <= i < |pieces| ==> Readable(pieces[i])
    modifies buffer
    ensures done == Min(n, |Flat(pieces)|)
    ensures buffer[..done] == Flat(pieces)[..done] && buffer[done..] == old(buffer[done..])
  {
    hide Flat, Rest, Readable;
    var stillToCopy := n;
    done := 0;
    var i := 0;
    FlatNothing(pieces);
    while i < |pieces|
      invariant i <= |pieces| && done + stillToCopy == n
      invariant done == |Flat(pieces[..i])| && buffer[..done] == Flat(pieces[..i])
      invariant buffer[done..] == old(buffer[done..])
    {
      ghost var upTo := Flat(pieces[..i + 1]);
      FlatStep(pieces, i);
      FlatPrefix(pieces, i + 1);
      var k := CopyPiece(buffer, Flat(pieces[..i]), done, stillToCopy, pieces[i]);
      done := done + k;
      stillToCopy := stillToCopy - k;
      i := i + 1;
      assert buffer[..done] == upTo[..done];
      if stillToCopy == 0 {
        return;
      }
    }
    assert pieces[..i] == pieces;
  }

  lemma FlatNothing(pieces: seq<CachePiece>)
    ensures Flat(pieces[..0]) == []
  {
  }

  lemma TruePiecesReadable(truth: int -> seq<byte>, range: PiecesRange)
    requires range.begin < range.end && 0 <= range.startOffset <= |truth(range.begin)|
    ensures var ps := TruePieces(truth, range).pieces;
            && |ps| == range.end - range.begin && ps[|ps| - 1].piece == range.end - 1
            && forall i :: 0 <= i < |ps| ==> Readable(ps[i])
  {
    var ps := TruePieces(truth, range).pieces;
    forall i | 0 <= i < |ps| ensures Readable(ps[i]) && ps[i].piece == range.begin + i {
      NthPiece(truth, range, i);
    }
  }

  // What goes on around a call: before each request of its range, before each
  // poll, and before each request of the read-ahead.
  datatype Around = Around(between: int -> seq<Event>, polls: seq<Poll>, ahead: int -> seq<Event>)

  // Asking for the bytes at .. at + n and waiting for them.
  function Fetch(t: Torrent, content: seq<byte>, at: nat, n: nat, s: State, env: Around): (State, CachePieces)
    requires HasMetadata(t) && at < t.total && env.polls != []
  {
    RangeIsOrdered(t, at, n);
    var range, truth := RangeOf(t, at, n), Truth(content, t.pieceLength);
    Wait(RequestAll(s, range.begin, range.end, env.between, truth), range, env.polls, truth)
  }

  // The requests of a read-ahead from a piece on.
  function ReadAhead(t: Torrent, content: seq<byte>, piece: int, size: nat, s: State, env: Around): State
    requires HasMetadata(t) && piece <= t.pieceEnd
  {
    var end := piece + ReadAheadPieces(t.pieceLength, size);
    RequestAll(s, piece, if end > t.pieceEnd then t.pieceEnd else end, env.ahead, Truth(content, t.pieceLength))
  }

  // The read-ahead leaves none of its pieces unserved; it covers the size asked
  // for, two pieces for a size below one, as far as piece_index_end() goes.
  lemma ReadAheadServes(t: Torrent, content: seq<byte>, piece: int, size: nat, s: State, env: Around, p: int)
    requires HasMetadata(t) && piece <= t.pieceEnd && Consistent(s, Truth(content, t.pieceLength))
    requires forall q :: NoFailure(env.ahead(q))
    requires piece <= p < t.pieceEnd && (p - piece) * t.pieceLength < size
    ensures Served(ReadAhead(t, content, piece, size, s, env), p)
  {
    hide Served, RequestAll, Consistent, Truth, NoFailure, ReadAheadPieces;
    var end := piece + ReadAheadPieces(t.pieceLength, size);
    ReadAheadCovers(t.pieceLength, size, p - piece);
    var clipped := if end > t.pieceEnd then t.pieceEnd else end;
    RequestAllServes(s, piece, clipped, env.ahead, Truth(content, t.pieceLength), p);
  }

  // The cache behind a read: that of the fetch, and after pieces were delivered
  // that of the read-ahead from the last of them.
  function AfterReading(t: Torrent, content: seq<byte>, at: nat, n: nat, ahead: nat, s: State, env: Around): State
    requires HasMetadata(t) && at < t.total && env.polls != []
  {
    RangeIsOrdered(t, at, n);
    var (s2, r) := Fetch(t, content, at, n, s, env);
    if r.IsValid() && ahead > 0 then ReadAhead(t, content, RangeOf(t, at, n).end - 1, ahead, s2, env) else s2
  }

  // After a read that delivered, no piece of the read-ahead is unserved.
  lemma ReadingServesAhead(t: Torrent, content: seq<byte>, at: nat, n: nat, ahead: nat, s: State, env: Around, p: int)
    requires HasMetadata(t) && |content| == t.total && at < t.total && env.polls != []
    requires Consistent(s, Truth(content, t.pieceLength)) && forall q :: NoFailure(env.ahead(q))
    requires Fetch(t, content, at, n, s, env).1.IsValid()
    requires var last := RangeOf(t, at, n).end - 1; last <= p < t.pieceEnd && (p - last) * t.pieceLength < ahead
    ensures Served(AfterReading(t, content, at, n, ahead, s, env), p)
  {
    hide Fetch, RangeOf, ReadAhead, Served, Consistent, Truth, NoFailure, PieceStart, Flat, Readable;
    RangeIsOrdered(t, at, n);
    FetchDelivers(t, content, at, n, s, env);
    var last := RangeOf(t, at, n).end - 1;
    if ahead == 0 { MulMonotone(0, p - last, t.pieceLength); }
    ReadAheadServes(t, content, last, ahead, Fetch(t, content, at, n, s, env).0, env, p);
  }

  lemma FirstPollAborts(t: Torrent, content: seq<byte>, at: nat, n: nat, s: State, env: Around)
    requires HasMetadata(t) && at < t.total && env.polls != []
    ensures env.polls[0].abort || env.polls[0].cancel ==> Fetch(t, content, at, n, s, env).1 == AbortPieces
  {
    hide RequestAll, RangeOf;
    RangeIsOrdered(t, at, n);
  }

  // What read returns then: an abort, nothing, or all that the range holds up
  // to n bytes.
  function Count(t: Torrent, at: nat, n: nat, r: CachePieces): int {
    if r.abortRequested then -1
    else if !r.IsValid() || t.pieceLength <= 0 then 0
    else Min(n, PieceStart(t.pieceLength, t.total, RangeOf(t, at, n).end) - at)
  }

  // Fetched pieces are the content from at to the end of the range.
  lemma FetchDelivers(t: Torrent, content: seq<byte>, at: nat, n: nat, s: State, env: Around)
    requires HasMetadata(t) && |content| == t.total && at < t.total && env.polls != []
    requires Consistent(s, Truth(content, t.pieceLength))
    ensures var (s2, r) := Fetch(t, content, at, n, s, env);
            var end := RangeOf(t, at, n).end;
            && Consistent(s2, Truth(content, t.pieceLength))
            && (r.IsValid() ==>
                  && (forall i :: 0 <= i < |r.pieces| ==> Readable(r.pieces[i]))
                  && r.pieces[|r.pieces| - 1].piece == end - 1 <= t.pieceEnd
                  && at <= PieceStart(t.pieceLength, t.total, end)
                  && Flat(r.pieces) == content[at..PieceStart(t.pieceLength, t.total, end)])
  {
    hide Wait, RequestAll, Consistent, Truth, TruePieces, Flat, Readable, PieceStart;
    var truth, range := Truth(content, t.pieceLength), RangeOf(t, at, n);
    RangeIsOrdered(t, at, n);
    RequestAllConsistent(s, range.begin, range.end, env.between, truth);
    WaitDelivers(RequestAll(s, range.begin, range.end, env.between, truth), range, env.polls, truth);
    if range.begin < range.end {
      ReadRange(content, t.pieceLength, at, range);
    }
  }

  class File {
    const t: Torrent
    const content: seq<byte>   // what the torrent's pieces hold
    const fileStart: nat       // of this file in the torrent
    const fileSize: nat
    const cache: StreamingCache
    const hasParent: bool
    var offset: int
    var readAheadSize: nat
    var useBlockingSeek: bool
    ghost var origin: int           // the offset set last by seek
    ghost var delivered: seq<byte>  // the bytes read since

    constructor (t: Torrent, content: seq<byte>, fileStart: nat, fileSize: nat, cache: StreamingCache, readAhead: nat)
      requires HasMetadata(t) && |content| == t.total && fileStart + fileSize <= t.total
      requires Consistent(cache.Abs(), Truth(content, t.pieceLength))
      ensures Valid() && offset == origin == 0 && hasParent && this.cache == cache
      ensures this.t == t && this.content == content && this.fileStart == fileStart && this.fileSize == fileSize
    {
      this.t, this.content, this.fileStart, this.fileSize := t, content, fileStart, fileSize;
      this.cache, hasParent, offset, readAheadSize := cache, true, 0, readAhead;
      useBlockingSeek, origin, delivered := true, 0, [];
    }

    ghost function At(): int
      reads this
    {
      fileStart + offset
    }

    // Reads since the last seek join up to the content behind it.
    ghost predicate Valid()
      reads this, cache
    {
      && HasMetadata(t) && t.pieceLength > 0 && |content| == t.total && fileStart + fileSize <= t.total
      && Consistent(cache.Abs(), Truth(content, t.pieceLength))
      && origin <= offset
      && (0 <= origin && At() <= t.total ==> delivered == content[fileStart + origin..At()])
    }

    method GetPiecesData(at: nat, n: nat, env: Around) returns (pieces: CachePieces)
      requires HasMetadata(t) && at < t.total && env.polls != []
      modifies cache
      ensures (cache.Abs(), pieces) == Fetch(t, content, at, n, old(cache.Abs()), env)
    {
      hide Wait, RequestAll, RangeOf;
      var range := GetPiecesRange(t, at, n);
      RangeIsOrdered(t, at, n);
      pieces := cache.GetPiecesData(range, env.between, env.polls, Truth(content, t.pieceLength));
    }

    method RequestReadAhead(piece: int, env: Around)
      requires HasMetadata(t) && piece <= t.pieceEnd && Consistent(cache.Abs(), Truth(content, t.pieceLength))
      modifies cache
      ensures Consistent(cache.Abs(), Truth(content, t.pieceLength))
      ensures cache.Abs() == ReadAhead(t, content, piece, readAheadSize, old(cache.Abs()), env)
    {
      hide RequestAll, Consistent, Truth;
      var ahead := GetPiecesReadAheadRange(t, piece, readAheadSize);
      var truth := Truth(content, t.pieceLength);
      RequestAllConsistent(cache.Abs(), ahead.begin, ahead.end, env.ahead, truth);
      cache.RequestPieces(ahead, env.ahead, truth);
    }

    // Fetch, copy out, read ahead.
    method ReadAt(buffer: array<byte>, at: nat, n: nat, env: Around) returns (k: int)
      requires HasMetadata(t) && |content| == t.total && Consistent(cache.Abs(), Truth(content, t.pieceLength))
      requires at < t.total && env.polls != [] && n <= buffer.Length
      modifies cache, buffer
      ensures Consistent(cache.Abs(), Truth(content, t.pieceLength))
      ensures k == Count(t, at, n, Fetch(t, content, at, n, old(cache.Abs()), env).1)
      ensures -1 <= k <= n && at + k <= t.total
      ensures k >= 0 ==> buffer[..k] == content[at..at + k]
      ensures buffer[Natural(k)..] == old(buffer[Natural(k)..])
      ensures env.polls[0].abort || env.polls[0].cancel ==> k == -1
      ensures cache.Abs() == AfterReading(t, content, at, n, readAheadSize, old(cache.Abs()), env)
    {
      hide Fetch, Consistent, Truth, Flat, Readable, PieceStart, RangeOf, ReadAhead;
      FirstPollAborts(t, content, at, n, cache.Abs(), env);
      k := 0;
      FetchDelivers(t, content, at, n, cache.Abs(), env);
      var pieces := GetPiecesData(at, n, env);
      if !pieces.IsValid() {
        if pieces.abortRequested {
          k := -1;
        }
        assert Natural(k) == 0 && buffer[0..] == old(buffer[0..]);
        return;
      }
      k := CopyPieces(buffer, n, pieces.pieces);
      assert Natural(k) == k && buffer[k..] == old(buffer[k..]);
      if readAheadSize > 0 {
        RequestReadAhead(pieces.pieces[|pieces.pieces| - 1].piece, env);
      }
    }

    // file::read. k bytes read are the k bytes of the content behind the offset,
    // which moves by k; -1 is an abort, 0 a timeout.
    method Read(buffer: array<byte>, n: nat, env: Around) returns (k: int)
      requires Valid() && env.polls != [] && n <= buffer.Length && 0 <= offset && At() < t.total
      modifies this, cache, buffer
      ensures Valid() && origin == old(origin)
      ensures k == if !hasParent then 0
                   else Count(t, old(At()), n, Fetch(t, content, old(At()), n, old(cache.Abs()), env).1)
      ensures -1 <= k <= n && offset == old(offset) + Natural(k) && At() <= t.total
      ensures buffer[..Natural(k)] == content[old(At())..At()]
      ensures buffer[Natural(k)..] == old(buffer[Natural(k)..])
      ensures delivered == old(delivered) + buffer[..Natural(k)]
      ensures hasParent && (env.polls[0].abort || env.polls[0].cancel) ==> k == -1
      ensures cache.Abs() == if !hasParent then old(cache.Abs())
                             else AfterReading(t, content, old(At()), n, readAheadSize, old(cache.Abs()), env)
    {
      hide Fetch, Consistent, Truth, Count, HasMetadata, AfterReading;
      k := 0;
      if !hasParent {
        return;
      }
      var at := fileStart + offset;
      k := ReadAt(buffer, at, n, env);
      var moved := Natural(k);
      ghost var got := buffer[..moved];
      assert got == content[at..at + moved];
      if 0 <= origin { SliceJoin(content, fileStart + origin, at, at + moved); }
      offset := offset + moved;
      delivered := delivered + got;
    }

    // The cache behind the read-ahead that a seek to the offset asks for.
    ghost function Sought(s: State, env: Around): State
      requires HasMetadata(t) && 0 <= offset < fileSize && fileStart + fileSize <= t.total
      reads this
    {
      if readAheadSize == 0 then s
      else
        FirstPieceInBounds(t, At());
        ReadAhead(t, content, At() / t.pieceLength, readAheadSize, s, env)
    }

    // It leaves none of the pieces ahead of the offset unserved.
    lemma SoughtServes(s: State, env: Around, p: int)
      requires HasMetadata(t) && 0 <= offset < fileSize && fileStart + fileSize <= t.total
      requires Consistent(s, Truth(content, t.pieceLength)) && forall q :: NoFailure(env.ahead(q))
      requires At() / t.pieceLength <= p < t.pieceEnd && (p - At() / t.pieceLength) * t.pieceLength < readAheadSize
      ensures Served(Sought(s, env), p)
    {
      hide ReadAhead, Served, Consistent, Truth, NoFailure;
      FirstPieceInBounds(t, At());
      if readAheadSize == 0 { MulMonotone(0, p - At() / t.pieceLength, t.pieceLength); }
      ReadAheadServes(t, content, At() / t.pieceLength, readAheadSize, s, env, p);
    }

    // The cache behind a seek to the offset: that of the read-ahead, and of a
    // blocking seek's fetch.
    ghost function AfterSeek(s: State, env: Around): State
      requires HasMetadata(t) && 0 <= offset < fileSize && fileStart + fileSize <= t.total && env.polls != []
      reads this
    {
      if useBlockingSeek then Fetch(t, content, At(), 1024 * 16, Sought(s, env), env).0 else Sought(s, env)
    }

    // file::seek. The offset moves even when the target is outside the file and
    // -1 is returned.
    method Seek(off: int, whence: Whence, env: Around) returns (r: int)
      requires Valid() && env.polls != []
      modifies this, cache
      ensures Valid() && (hasParent ==> origin == offset && delivered == [])
      ensures !hasParent ==> r == -1 && offset == old(offset) && delivered == old(delivered)
      ensures hasParent ==> offset == match whence
                                       case Set => off
                                       case Cur => old(offset) + off
                                       case End => fileSize - (if off < 0 then -off else off)
                                       case Other => old(offset)
      ensures hasParent ==> r in {0, -1} && (r == 0 ==> 0 <= offset < fileSize)
      ensures hasParent && 0 <= offset < fileSize && !useBlockingSeek ==> r == 0
      ensures hasParent && 0 <= offset < fileSize && useBlockingSeek ==>
                (r == 0 <==> Fetch(t, content, At(), 1024 * 16, Sought(old(cache.Abs()), env), env).1.IsValid())
      ensures cache.Abs() == if hasParent && 0 <= offset < fileSize then AfterSeek(old(cache.Abs()), env)
                             else old(cache.Abs())
    {
      hide Fetch, Consistent, Truth, Sought, AfterSeek, HasMetadata;
      if !hasParent {
        return -1;
      }
      match whence {
        case Set => offset := off;
        case Cur => offset := offset + off;
        case End => offset := fileSize - (if off < 0 then -off else off);
        case Other =>
      }
      origin, delivered := offset, [];
      r := -1;
      if 0 <= offset < fileSize {
        r := SeekInside(env);
      }
    }

    // What seek does behind an offset inside the file.
    method SeekInside(env: Around) returns (r: int)
      requires HasMetadata(t) && |content| == t.total && Consistent(cache.Abs(), Truth(content, t.pieceLength))
      requires 0 <= offset < fileSize && fileStart + fileSize <= t.total && env.polls != []
      modifies cache
      ensures Consistent(cache.Abs(), Truth(content, t.pieceLength))
      ensures r == if !useBlockingSeek then 0
                   else if Fetch(t, content, At(), 1024 * 16, Sought(old(cache.Abs()), env), env).1.IsValid() then 0
                   else -1
      ensures cache.Abs() == AfterSeek(old(cache.Abs()), env)
    {
      hide Fetch, Consistent, Truth, RequestAll, ReadAhead, RangeOf, PieceStart, Flat, Readable;
      var at := fileStart + offset;
      if readAheadSize > 0 {
        FirstPieceInBounds(t, at);
        var (piece, _) := MapFile(t, at);
        RequestReadAhead(piece, env);
      }
      r := 0;
      if useBlockingSeek {
        FetchDelivers(t, content, at, 1024 * 16, cache.Abs(), env);
        var pieces := GetPiecesData(at, 1024 * 16, env);
        r := if pieces.IsValid() then 0 else -1;
      }
    }
  }

  datatype Whence = Set | Cur | End | Other

  // An empty range never yields pieces, however long one waits.
  lemma {:induction false} EmptyRangeWaits(s: State, range: PiecesRange, polls: seq<Poll>, truth: int -> seq<byte>)
    requires range.begin == range.end && polls != []
    ensures !Wait(s, range, polls, truth).1.IsValid()
    decreases |polls|
  {
    hide TouchUntil, Run, Collect;
    if |polls| > 1 {
      var s1 := Run(s, polls[0].events, truth);
      EmptyRangeWaits(TouchUntil(s1, range.begin, range.end), range, polls[1..], truth);
    }
  }

  // All pieces of a range answered.
  function Answers(begin: int, end: int): seq<Event>
    requires begin <= end
    decreases end - begin
  {
    if begin == end then [] else Answers(begin, end - 1) + [Event.Read(end - 1)]
  }

  lemma {:induction false} AnswersFill(s: State, begin: int, end: int, truth: int -> seq<byte>)
    requires begin <= end
    ensures AllInCache(Run(s, Answers(begin, end), truth), begin, end)
    decreases end - begin
  {
    hide Run;
    if begin < end {
      AnswersFill(s, begin, end - 1, truth);
      var s1 := Run(s, Answers(begin, end - 1), truth);
      RunSnoc(s, Answers(begin, end - 1), Event.Read(end - 1), truth);
      var s2 := Next(s1, Event.Read(end - 1), truth);
      assert Run(s, Answers(begin, end), truth) == s2;
      forall p | begin <= p < end ensures InCache(s2, p) {
        assert p == end - 1 || InCache(s1, p);
      }
    }
  }

  // A range that is not empty is delivered when the session answers.
  lemma AnswersDeliver(t: Torrent, content: seq<byte>, at: nat, n: nat, s: State) returns (env: Around)
    requires HasMetadata(t) && at < t.total && RangeOf(t, at, n).begin < RangeOf(t, at, n).end
    ensures env.polls != [] && Fetch(t, content, at, n, s, env).1.IsValid()
  {
    hide RequestAll, Run, Collect, TouchUntil, RangeOf;
    var range, truth := RangeOf(t, at, n), Truth(content, t.pieceLength);
    var answers := Answers(range.begin, range.end);
    env := Around(_ => [], [Poll(answers, false, false)], _ => []);
    var s0 := RequestAll(s, range.begin, range.end, env.between, truth);
    AnswersFill(s0, range.begin, range.end, truth);
    CollectIsValid(Run(s0, answers, truth), range);
  }

  // A read can give a byte at all exactly when its range is not empty. Where
  // piece_index_end() is the last piece, no read that starts in the last piece
  // and asks for more than a full piece has left ever does.
  lemma DeliversExactly(t: Torrent, content: seq<byte>, at: nat, n: nat, s: State)
    requires HasMetadata(t) && at < t.total && n > 0
    ensures var first, end := at / t.pieceLength, TrueEnd(t.pieceLength, at, n);
            (exists env: Around :: env.polls != [] && Count(t, at, n, Fetch(t, content, at, n, s, env).1) > 0)
            <==> !(end > first + 1 && (end - first - 1 > t.numPieces || first == t.pieceEnd))
  {
    hide Wait, RequestAll, RangeOf, TrueEnd;
    var range := RangeOf(t, at, n);
    RangeIsOrdered(t, at, n);
    EmptyRangeExactly(t, at, n);
    if range.begin == range.end {
      forall env: Around | env.polls != [] ensures Count(t, at, n, Fetch(t, content, at, n, s, env).1) <= 0 {
        NeverDelivers(t, content, at, n, s, env);
      }
    } else {
      var env := AnswersDeliver(t, content, at, n, s);
      PieceAhead(t, at, range);
      assert Count(t, at, n, Fetch(t, content, at, n, s, env).1) > 0;
    }
  }

  lemma NeverDelivers(t: Torrent, content: seq<byte>, at: nat, n: nat, s: State, env: Around)
    requires HasMetadata(t) && at < t.total && env.polls != []
    requires RangeOf(t, at, n).begin == RangeOf(t, at, n).end
    ensures !Fetch(t, content, at, n, s, env).1.IsValid()
  {
    hide Wait, RequestAll, RangeOf;
    var range, truth := RangeOf(t, at, n), Truth(content, t.pieceLength);
    EmptyRangeWaits(RequestAll(s, range.begin, range.end, env.between, truth), range, env.polls, truth);
  }

  lemma PieceAhead(t: Torrent, at: nat, range: PiecesRange)
    requires HasMetadata(t) && at < t.total && 0 <= range.begin < range.end
    requires range.begin * t.pieceLength + range.startOffset == at && range.startOffset < t.pieceLength
    ensures PieceStart(t.pieceLength, t.total, range.end) > at
  {
    Distribute(range.begin, 1, t.pieceLength);
    MulMonotone(range.begin + 1, range.end, t.pieceLength);
  }

  // What a read of 0 bytes means where no piece read fails: the range was empty,
  // or the time was up with a piece of it still being read or to be announced.
  lemma ReadsNothingExactly(t: Torrent, content: seq<byte>, at: nat, n: nat, s: State, env: Around)
    requires HasMetadata(t) && at < t.total && n > 0 && env.polls != [] && Consistent(s, Truth(content, t.pieceLength))
    requires forall p :: NoFailure(env.between(p))
    requires forall i :: 0 <= i < |env.polls| ==> NoFailure(env.polls[i].events)
    ensures var (s2, r) := Fetch(t, content, at, n, s, env);
            var range := RangeOf(t, at, n);
            !r.abortRequested ==>
              (Count(t, at, n, r) == 0
               <==> range.begin == range.end || exists p :: range.begin <= p < range.end && Outstanding(s2, p))
  {
    hide Wait, RequestAll, RangeOf, Consistent, Truth, Served, NoFailure, PieceStart;
    var range, truth := RangeOf(t, at, n), Truth(content, t.pieceLength);
    RangeIsOrdered(t, at, n);
    var asked := RequestAll(s, range.begin, range.end, env.between, truth);
    RequestAllConsistent(s, range.begin, range.end, env.between, truth);
    forall p | range.begin <= p < range.end ensures Served(asked, p) {
      RequestAllServes(s, range.begin, range.end, env.between, truth, p);
    }
    WaitDelivers(asked, range, env.polls, truth);
    WaitEnds(asked, range, env.polls, truth);
    if range.begin < range.end { PieceAhead(t, at, range); }
  }

  // A successful read gives all bytes asked for that exist, exactly unless the
  // range had to be clipped: when piece_index_end() is the last piece, a read of
  // several pieces never gets that last piece.
  lemma ReadsAllUnlessClipped(t: Torrent, content: seq<byte>, at: nat, n: nat, s: State, env: Around)
    requires HasMetadata(t) && at < t.total && env.polls != []
    ensures var r := Fetch(t, content, at, n, s, env).1;
            r.IsValid() ==>
              (Count(t, at, n, r) == Min(n, t.total - at)
               <==> !(t.pieceEnd < t.numPieces && TrueEnd(t.pieceLength, at, n) > t.pieceEnd
                      && TrueEnd(t.pieceLength, at, n) > at / t.pieceLength + 1))
  {
    hide Fetch, RangeOf, Count, TrueEnd;
    var r := Fetch(t, content, at, n, s, env).1;
    RangeIsOrdered(t, at, n);
    if r.IsValid() {
      if RangeOf(t, at, n).begin == RangeOf(t, at, n).end { NeverDelivers(t, content, at, n, s, env); }
      CountUnlessClipped(t, at, n, r);
    }
  }

  // A read does not stop at the end of its file: what it delivers stays inside
  // exactly when no more was asked for, when the file is the torrent's last, or
  // when the range was clipped at a piece that ends inside the file.
  lemma StaysInFileExactly(t: Torrent, content: seq<byte>, fileEnd: nat, at: nat, n: nat, s: State, env: Around)
    requires HasMetadata(t) && at < t.total && at <= fileEnd <= t.total && env.polls != []
    ensures var pl, end := t.pieceLength, TrueEnd(t.pieceLength, at, n);
            var r := Fetch(t, content, at, n, s, env).1;
            r.IsValid() ==>
              (at + Count(t, at, n, r) <= fileEnd
               <==> || at + n <= fileEnd || fileEnd == t.total
                    || (end > t.pieceEnd && end > at / pl + 1 && t.pieceEnd * pl <= fileEnd))
  {
    hide Fetch, RangeOf, Count, TrueEnd;
    var r := Fetch(t, content, at, n, s, env).1;
    RangeIsOrdered(t, at, n);
    if r.IsValid() {
      if RangeOf(t, at, n).begin == RangeOf(t, at, n).end { NeverDelivers(t, content, at, n, s, env); }
      CountStaysInFile(t, fileEnd, at, n, r);
    }
  }

  lemma CountStaysInFile(t: Torrent, fileEnd: nat, at: nat, n: nat, r: CachePieces)
    requires HasMetadata(t) && at < t.total && at <= fileEnd <= t.total && r.IsValid()
    requires RangeOf(t, at, n).begin < RangeOf(t, at, n).end
    ensures var pl, end := t.pieceLength, TrueEnd(t.pieceLength, at, n);
            at + Count(t, at, n, r) <= fileEnd
            <==> || at + n <= fileEnd || fileEnd == t.total
                 || (end > t.pieceEnd && end > at / pl + 1 && t.pieceEnd * pl <= fileEnd)
  {
    hide TrueEnd;
    var pl, end := t.pieceLength, TrueEnd(t.pieceLength, at, n);
    FirstPieceInBounds(t, at);
    if n > 0 {
      EndCovers(pl, at, n);
      if RangeOf(t, at, n).end == end { assert end * pl >= at + n; }
    }
  }

  lemma EndCovers(pl: nat, at: nat, n: nat)
    requires pl > 0 && n > 0
    ensures TrueEnd(pl, at, n) * pl >= at + n
  {
    DivBounds(at + n - 1, pl);
  }

  // Eight bytes read from the start of a file of three: five are the next file's.
  lemma ReadsNextFile(t: Torrent, r: CachePieces)
    requires t == Torrent(4, 2, 2, 8) && r.IsValid()
    ensures HasMetadata(t) && Count(t, 0, 8, r) == 8 > 3
  {
    hide RangeOf, HasMetadata;
    BothPieces(t);
  }

  lemma CountUnlessClipped(t: Torrent, at: nat, n: nat, r: CachePieces)
    requires HasMetadata(t) && at < t.total && r.IsValid()
    requires RangeOf(t, at, n).begin < RangeOf(t, at, n).end
    ensures Count(t, at, n, r) == Min(n, t.total - at)
            <==> !(t.pieceEnd < t.numPieces && TrueEnd(t.pieceLength, at, n) > t.pieceEnd
                   && TrueEnd(t.pieceLength, at, n) > at / t.pieceLength + 1)
  {
    var pl, end := t.pieceLength, TrueEnd(t.pieceLength, at, n);
    var first := at / pl;
    FirstPieceInBounds(t, at);
    DivBounds(at, pl);
    DivBounds(t.total - 1, pl);
    if n > 0 {
      DivBounds(at + n - 1, pl);
      if end > t.pieceEnd && end > first + 1 {
        MulMonotone(t.pieceEnd, end - 1, pl);
        if t.pieceEnd == t.numPieces {
          assert t.pieceEnd * pl >= t.total;
        } else {
          assert t.pieceEnd * pl < t.total && t.pieceEnd * pl < at + n;
        }
      } else {
        assert RangeOf(t, at, n).end == end && end * pl >= at + n;
      }
    }
  }

  lemma SliceJoin(s: seq<byte>, a: nat, b: nat, c: nat)
    requires a <= b <= c <= |s|
    ensures s[a..b] + s[b..c] == s[a..c]
  {
  }

  function Natural(k: int): nat { if k < 0 then 0 else k }

  // A delivered range read from at yields the content up to its last piece.
  lemma ReadRange(content: seq<byte>, pl: nat, at: nat, range: PiecesRange)
    requires pl > 0 && at < |content| && 0 <= range.begin < range.end
    requires at == range.begin * pl + range.startOffset && 0 <= range.startOffset < pl
    ensures var ps := TruePieces(Truth(content, pl), range).pieces;
            && |ps| == range.end - range.begin && ps[|ps| - 1].piece == range.end - 1
            && (forall i :: 0 <= i < |ps| ==> Readable(ps[i]))
            && at <= PieceStart(pl, |content|, range.end)
            && Flat(ps) == content[at..PieceStart(pl, |content|, range.end)]
  {
    hide TruePieces, Truth, Flat, Readable, PieceStart;
    var ps := TruePieces(Truth(content, pl), range).pieces;
    FirstPieceLength(content, pl, at, range.begin);
    TruePiecesReadable(Truth(content, pl), range);
    FlatIsContent(content, pl, at, range, range.end - range.begin);
    assert ps[..range.end - range.begin] == ps;
  }

  lemma FirstPieceLength(content: seq<byte>, pl: nat, at: nat, p: nat)
    requires pl > 0 && at < |content| && p * pl <= at < p * pl + pl
    ensures at - p * pl <= |Truth(content, pl)(p)|
  {
  }
}
