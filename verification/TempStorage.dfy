// temp_storage and temp_disk_io: whole-piece buffers in memory, and a slot
// table with a free list.
module TempStorage {
  import opened Wrappers
  import opened Bytes
  import opened PieceRange

  // ----- piece sizes -----

  function NumPieces(total: nat, pl: nat): nat
    requires pl > 0
  {
    (total + pl - 1) / pl
  }

  // Every piece is full but the last.
  function PieceSize(total: nat, pl: nat, piece: int): int
    requires pl > 0
  {
    var n := NumPieces(total, pl);
    if piece < n - 1 then pl else total - (n - 1) * pl
  }

  lemma LastPieceSize(total: nat, pl: nat)
    requires pl > 0 && total > 0
    ensures NumPieces(total, pl) > 0
    ensures 0 < total - (NumPieces(total, pl) - 1) * pl <= pl
  {
  }

  function SizesUpTo(total: nat, pl: nat, n: nat): int
    requires pl > 0
  {
    if n == 0 then 0 else SizesUpTo(total, pl, n - 1) + PieceSize(total, pl, n - 1)
  }

  lemma {:induction false} FullSizes(total: nat, pl: nat, n: nat)
    requires pl > 0 && n < NumPieces(total, pl)
    ensures SizesUpTo(total, pl, n) == n * pl
  {
    if n > 0 {
      FullSizes(total, pl, n - 1);
      Distribute(n - 1, 1, pl);
    }
  }

  // The piece sizes sum to the total size.
  lemma SizesSumToTotal(total: nat, pl: nat)
    requires pl > 0 && total > 0
    ensures SizesUpTo(total, pl, NumPieces(total, pl)) == total
  {
    LastPieceSize(total, pl);
    FullSizes(total, pl, NumPieces(total, pl) - 1);
  }

  // ----- what a sequence of writes leaves behind -----

  datatype Write = Write(piece: int, offset: nat, data: seq<byte>)

  function Overwrite(s: seq<byte>, offset: nat, data: seq<byte>): (r: seq<byte>)
    requires offset + |data| <= |s|
    ensures |r| == |s|
  {
    s[..offset] + data + s[offset + |data|..]
  }

  ghost predicate Fits(total: nat, pl: nat, w: Write) {
    pl > 0 && 0 <= w.piece < NumPieces(total, pl) && w.offset + |w.data| <= PieceSize(total, pl, w.piece)
  }

  function Zeros(n: nat): (z: seq<byte>)
    ensures |z| == n
  {
    seq(n, _ => 0)
  }

  // Buffers by piece, each of its piece's size.
  ghost predicate Whole(total: nat, pl: nat, m: map<int, seq<byte>>)
    requires pl > 0
  {
    forall p :: p in m ==> |m[p]| == PieceSize(total, pl, p)
  }

  ghost function Allocated(total: nat, pl: nat, m: map<int, seq<byte>>, piece: int): map<int, seq<byte>>
    requires pl > 0 && 0 <= piece < NumPieces(total, pl)
  {
    if piece in m then m else m[piece := Zeros(PieceSize(total, pl, piece))]
  }

  // One write; a piece is allocated whole at its first one.
  ghost function Written(total: nat, pl: nat, m: map<int, seq<byte>>, w: Write): (r: map<int, seq<byte>>)
    requires Fits(total, pl, w) && Whole(total, pl, m)
    ensures Whole(total, pl, r)
  {
    var m0 := Allocated(total, pl, m, w.piece);
    m0[w.piece := Overwrite(m0[w.piece], w.offset, w.data)]
  }

  lemma WrittenIs(total: nat, pl: nat, m: map<int, seq<byte>>, w: Write)
    requires Fits(total, pl, w) && Whole(total, pl, m)
    ensures var m0 := Allocated(total, pl, m, w.piece);
            && w.piece in m0 && |m0[w.piece]| == PieceSize(total, pl, w.piece)
            && Written(total, pl, m, w) == m0[w.piece := Overwrite(m0[w.piece], w.offset, w.data)]
  {
  }

  // The buffers after the writes.
  ghost function Replay(total: nat, pl: nat, log: seq<Write>): (m: map<int, seq<byte>>)
    requires pl > 0 && forall w :: w in log ==> Fits(total, pl, w)
    ensures Whole(total, pl, m)
  {
    if log == [] then map[]
    else Written(total, pl, Replay(total, pl, log[..|log| - 1]), log[|log| - 1])
  }

  predicate Covers(w: Write, p: int, i: nat) { w.piece == p && w.offset <= i < w.offset + |w.data| }

  // The latest byte written to position i of piece p, zero if there is none.
  function Latest(log: seq<Write>, p: int, i: nat): byte {
    if log == [] then 0
    else
      var w := log[|log| - 1];
      if Covers(w, p, i) then w.data[i - w.offset] else Latest(log[..|log| - 1], p, i)
  }

  // The last of several writes wins, byte by byte.
  lemma LastWriteWins(log: seq<Write>, w: Write, p: int, i: nat)
    ensures Latest([], p, i) == 0
    ensures Latest(log + [w], p, i) ==
              if w.piece == p && w.offset <= i < w.offset + |w.data| then w.data[i - w.offset] else Latest(log, p, i)
  {
    assert (log + [w])[..|log|] == log;
  }

  // Exactly the written pieces have buffers, and every byte is the latest write.
  lemma {:induction false} ReplayIsLatest(total: nat, pl: nat, log: seq<Write>, p: int)
    requires pl > 0 && forall w :: w in log ==> Fits(total, pl, w)
    ensures p in Replay(total, pl, log) <==> exists w :: w in log && w.piece == p
    ensures p in Replay(total, pl, log) ==>
              forall i :: 0 <= i < PieceSize(total, pl, p) ==> Replay(total, pl, log)[p][i] == Latest(log, p, i)
  {
    hide PieceSize, NumPieces, Written, Overwrite, Fits;
    if log != [] {
      var before, w := log[..|log| - 1], log[|log| - 1];
      assert log == before + [w] && w in log;
      ReplayIsLatest(total, pl, before, p);
      var m, m2 := Replay(total, pl, before), Replay(total, pl, log);
      WrittenPieces(total, pl, m, w, p);
      if p in m2 {
        forall i | 0 <= i < PieceSize(total, pl, p) ensures m2[p][i] == Latest(log, p, i) {
          WrittenByte(total, pl, m, w, p, i);
          if p !in m { NeverWritten(before, p, i); }
        }
      }
    }
  }

  lemma WrittenPieces(total: nat, pl: nat, m: map<int, seq<byte>>, w: Write, p: int)
    requires Fits(total, pl, w) && Whole(total, pl, m)
    ensures p in Written(total, pl, m, w) <==> p in m || w.piece == p
  {
  }

  lemma WrittenByte(total: nat, pl: nat, m: map<int, seq<byte>>, w: Write, p: int, i: nat)
    requires Fits(total, pl, w) && Whole(total, pl, m)
    requires p in Written(total, pl, m, w) && i < PieceSize(total, pl, p)
    ensures Written(total, pl, m, w)[p][i] ==
              if Covers(w, p, i) then w.data[i - w.offset] else if p in m then m[p][i] else 0
  {
    hide PieceSize, NumPieces;
  }

  lemma {:induction false} NeverWritten(log: seq<Write>, p: int, i: nat)
    requires forall w :: w in log ==> w.piece != p
    ensures Latest(log, p, i) == 0
  {
    if log != [] { NeverWritten(log[..|log| - 1], p, i); }
  }

  lemma ReplayStep(total: nat, pl: nat, log: seq<Write>, w: Write)
    requires pl > 0 && Fits(total, pl, w) && forall v :: v in log ==> Fits(total, pl, v)
    ensures forall v :: v in log + [w] ==> Fits(total, pl, v)
    ensures Replay(total, pl, log + [w]) == Written(total, pl, Replay(total, pl, log), w)
  {
  }

  lemma AllZeros(a: array<byte>)
    requires forall i :: 0 <= i < a.Length ==> a[i] == 0
    ensures a[..] == Zeros(a.Length)
  {
  }

  // ----- temp_storage -----

  // memcpy into a buffer
  method CopyInto(data: array<byte>, offset: nat, b: seq<byte>)
    requires offset + |b| <= data.Length
    modifies data
    ensures data[..] == Overwrite(old(data[..]), offset, b)
  {
    for i := 0 to |b|
      invariant data[..offset + i] == old(data[..offset]) + b[..i]
      invariant data[offset + i..] == old(data[offset + i..])
    {
      data[offset + i] := b[i];
    }
    assert data[..] == data[..offset + |b|] + data[offset + |b|..];
  }

  class TempStorage {
    const total: nat
    const pieceLength: nat
    var fileData: map<int, array<byte>>
    ghost var log: seq<Write>

    ghost function Repr(): set<object>
      reads this
    {
      set p | p in fileData :: fileData[p]
    }

    // Distinct buffers, holding what the writes left behind.
    ghost predicate Valid()
      reads this, Repr()
    {
      && pieceLength > 0 && total > 0
      && (forall w :: w in log ==> Fits(total, pieceLength, w))
      && Distinct()
      && Matches(Replay(total, pieceLength, log))
    }

    ghost predicate Distinct()
      reads this
    {
      forall p, q :: p in fileData && q in fileData && p != q ==> fileData[p] != fileData[q]
    }

    ghost predicate Matches(m: map<int, seq<byte>>)
      reads this, Repr()
    {
      fileData.Keys == m.Keys && forall p :: p in fileData ==> fileData[p][..] == m[p]
    }

    constructor (total: nat, pieceLength: nat)
      requires total > 0 && pieceLength > 0
      ensures Valid() && log == [] && fileData == map[]
      ensures this.total == total && this.pieceLength == pieceLength
    {
      this.total, this.pieceLength, fileData, log := total, pieceLength, map[], [];
    }

    // writev: allocates a piece whole, never replaces a buffer.
    method Writev(b: seq<byte>, piece: int, offset: nat)
      requires Valid() && Fits(total, pieceLength, Write(piece, offset, b))
      modifies this, Repr()
      ensures Valid() && log == old(log) + [Write(piece, offset, b)]
      ensures piece in fileData && forall p :: p in old(fileData) ==> p in fileData && fileData[p] == old(fileData[p])
      ensures fresh(Repr() - old(Repr()))
    {
      hide PieceSize, NumPieces, Replay, Overwrite, Zeros, Written, Whole;
      ghost var w, m := Write(piece, offset, b), Replay(total, pieceLength, log);
      ReplayStep(total, pieceLength, log, w);
      WrittenIs(total, pieceLength, m, w);
      EnsurePiece(piece);
      CopyInPiece(piece, offset, b, Allocated(total, pieceLength, m, piece));
      log := log + [w];
    }

    // The memcpy into the piece's buffer, m being what the buffers hold.
    method CopyInPiece(piece: int, offset: nat, b: seq<byte>, ghost m: map<int, seq<byte>>)
      requires Distinct() && Matches(m) && piece in fileData && piece in m && offset + |b| <= |m[piece]|
      modifies fileData[piece]
      ensures Distinct() && Matches(m[piece := Overwrite(m[piece], offset, b)])
    {
      hide Overwrite;
      assert fileData[piece][..] == m[piece];
      CopyInto(fileData[piece], offset, b);
    }

    // The allocation at its start: a zeroed buffer of the piece's size.
    method EnsurePiece(piece: int)
      requires Valid() && 0 <= piece < NumPieces(total, pieceLength)
      modifies this`fileData
      ensures Distinct()
      ensures Matches(Allocated(total, pieceLength, Replay(total, pieceLength, log), piece))
      ensures piece in fileData && forall p :: p in old(fileData) ==> p in fileData && fileData[p] == old(fileData[p])
      ensures fresh(Repr() - old(Repr()))
    {
      hide Replay, Zeros;
      if piece !in fileData {
        var size := PieceSize(total, pieceLength, piece);
        var data := new byte[size](_ => 0);
        AllZeros(data);
        fileData := fileData[piece := data];
      }
    }

    // readv: at most length bytes from start; end of file when the piece was
    // never written or start is past it.
    method Readv(piece: int, start: nat, length: nat) returns (r: Option<seq<byte>>)
      requires Valid()
      ensures r.Some? <==> (exists w :: w in log && w.piece == piece) && start < PieceSize(total, pieceLength, piece)
      ensures r.Some? ==>
                && (var left := PieceSize(total, pieceLength, piece) - start;
                    |r.value| == if length < left then length else left)
                && forall i :: 0 <= i < |r.value| ==> r.value[i] == Latest(log, piece, start + i)
    {
      hide PieceSize, NumPieces;
      ReplayIsLatest(total, pieceLength, log, piece);
      if piece !in fileData {
        return None;
      }
      var data := fileData[piece];
      if data.Length <= start {
        return None;
      }
      var n := if length < data.Length - start then length else data.Length - start;
      r := Some(data[start..start + n]);
    }
  }

  // ----- temp_disk_io -----

  class TempDiskIo {
    var torrents: seq<TempStorage?>
    var freeSlots: seq<nat>

    // The free list names every empty slot once.
    ghost predicate Valid()
      reads this
    {
      && (forall i, j :: 0 <= i < j < |freeSlots| ==> freeSlots[i] != freeSlots[j])
      && forall i: nat :: i in freeSlots <==> i < |torrents| && torrents[i] == null
    }

    ghost predicate Live(i: nat)
      reads this
    {
      i < |torrents| && torrents[i] != null
    }

    constructor ()
      ensures Valid() && torrents == []
    {
      torrents, freeSlots := [], [];
    }

    // pop
    method Pop() returns (ret: nat)
      requires freeSlots != []
      modifies `freeSlots
      ensures old(freeSlots) == freeSlots + [ret]
    {
      ret := freeSlots[|freeSlots| - 1];
      freeSlots := freeSlots[..|freeSlots| - 1];
    }

    // No live index is handed out again, and the table grows only when every
    // slot is live.
    method NewTorrent(total: nat, pieceLength: nat) returns (idx: nat)
      requires Valid() && total > 0 && pieceLength > 0
      modifies this
      ensures Valid() && !old(Live(idx)) && Live(idx)
      ensures forall i: nat :: i != idx ==> (Live(i) <==> old(Live(i))) && (Live(i) ==> torrents[i] == old(torrents)[i])
      ensures fresh(torrents[idx]) && torrents[idx].Valid() && torrents[idx].log == []
      ensures torrents[idx].total == total && torrents[idx].pieceLength == pieceLength
      ensures |torrents| > |old(torrents)| <==> (forall i: nat :: i < |old(torrents)| ==> old(Live(i)))
      ensures |torrents| == if idx == |old(torrents)| then |old(torrents)| + 1 else |old(torrents)|
    {
      ghost var slots := freeSlots;
      if freeSlots == [] {
        idx := |torrents|;
      } else {
        idx := Pop();
        assert slots[|slots| - 1] == idx;
        assert forall i :: 0 <= i < |freeSlots| ==> freeSlots[i] == slots[i] != idx;
        assert forall i :: i in slots <==> i in freeSlots || i == idx;
      }
      var storage := new TempStorage(total, pieceLength);
      if idx == |torrents| {
        torrents := torrents + [storage];
      } else {
        torrents := torrents[idx := storage];
      }
    }

    method RemoveTorrent(idx: nat)
      requires Valid() && Live(idx)
      modifies this
      ensures Valid() && !Live(idx) && |torrents| == |old(torrents)|
      ensures forall i: nat :: i != idx ==> (Live(i) <==> old(Live(i))) && (Live(i) ==> torrents[i] == old(torrents)[i])
      ensures idx in freeSlots
    {
      ghost var slots := freeSlots;
      torrents := torrents[idx := null];
      freeSlots := freeSlots + [idx];
      assert forall i :: i in freeSlots <==> i in slots || i == idx;
    }
  }
}
