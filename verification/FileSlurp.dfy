// to_string8: read a whole stream into a growable array.
module FileSlurp {
  import opened Bytes
  import opened DynamicArray

  // A std::istream over some content: read takes what is there, up to n, and
  // sets the end flag only when it runs short.
  datatype Cursor = Cursor(pos: nat, eof: bool)

  function AfterRead(length: nat, c: Cursor, n: nat): Cursor
    requires c.pos <= length
  {
    if length - c.pos < n then Cursor(length, true) else Cursor(c.pos + n, c.eof)
  }

  class Stream {
    const content: seq<byte>
    var cursor: Cursor

    ghost predicate Valid()
      reads this
    {
      cursor.pos <= |content|
    }

    constructor (content: seq<byte>)
      ensures Valid() && this.content == content && cursor == Cursor(0, false)
    {
      this.content, cursor := content, Cursor(0, false);
    }

    // read(p, n) followed by gcount()
    method Read(target: array<byte>, at: nat, n: nat) returns (count: nat)
      requires Valid() && !cursor.eof && at + n <= target.Length
      modifies this, target
      ensures Valid() && cursor == AfterRead(|content|, old(cursor), n)
      ensures count == cursor.pos - old(cursor.pos)
      ensures target[..at + count] == old(target[..at]) + content[old(cursor.pos)..cursor.pos]
    {
      count := if |content| - cursor.pos < n then |content| - cursor.pos else n;
      DynamicArray.CopyFrom(target, at, content[cursor.pos..cursor.pos + count]);
      cursor := AfterRead(|content|, cursor, n);
    }
  }

  // calc_reserve_size, or the caller's choice.
  function ReserveSize(requested: nat, fileSize: nat, plain: bool): nat {
    if requested != 0 then requested
    else if plain then fileSize + 2
    else fileSize * 8
  }

  // Between two turns of the loop the array holds what has been read; there is
  // room for another read, or at the end of the file for the zero.
  ghost predicate Slurped(input: Stream, arr: DynamicArray<byte>, readSize: nat)
    reads input, arr, arr.data
  {
    && input.Valid() && arr.Sized() && arr.size == input.cursor.pos && readSize < arr.capacity
    && arr.data[..arr.size] == input.content[..input.cursor.pos]
    && if input.cursor.eof then arr.size < arr.capacity && input.cursor.pos == |input.content|
       else arr.size + readSize <= arr.capacity
  }

  // One turn of the loop.
  method ReadMore(input: Stream, arr: DynamicArray<byte>, readSize: nat)
    requires Slurped(input, arr, readSize) && !input.cursor.eof && arr.extra == 1
    modifies input, arr, arr.data
    ensures Slurped(input, arr, readSize) && (arr.data == old(arr.data) || fresh(arr.data))
    ensures input.cursor == AfterRead(|input.content|, old(input.cursor), readSize)
  {
    ghost var was := input.cursor.pos;
    var count := input.Read(arr.data, arr.size, readSize);
    assert input.content[..input.cursor.pos] == input.content[..was] + input.content[was..input.cursor.pos];
    arr.SizeForce(arr.size + count);
    if !input.cursor.eof {
      if arr.capacity - arr.size < readSize {
        arr.Reserve(arr.capacity * 2);
      }
    }
  }

  // fileSize is the size on disk, which need not be that of the content: it is
  // the compressed size, or 0 for what is not a file.
  //
  // The loop ends because every read but the last moves on; each read has room
  // for a full read size; the end of the file leaves a free slot for the zero.
  method ToString8(input: Stream, requested: nat, fileSize: nat, plain: bool) returns (arr: DynamicArray<byte>)
    requires input.Valid() && input.cursor == Cursor(0, false)
    requires ReserveSize(requested, fileSize, plain) >= 2
    modifies input
    ensures fresh(arr) && arr.Valid() && arr.extra == 1 && arr.zero == 0
    ensures arr.Contents() == input.content && arr.Terminated() && arr.capacity > 0
    ensures input.cursor == Cursor(|input.content|, true)
  {
    var reserveSize := ReserveSize(requested, fileSize, plain);
    arr := new DynamicArray<byte>.WithRoom(1, 0, reserveSize);
    arr.data[0] := 0;
    var readSize := reserveSize - 1;
    while !input.cursor.eof
      invariant fresh(arr) && fresh(arr.data) && arr.extra == 1 && arr.zero == 0
      invariant Slurped(input, arr, readSize)
      decreases |input.content| - input.cursor.pos, if input.cursor.eof then 0 else 1
    {
      ReadMore(input, arr, readSize);
    }
    assert input.content[..|input.content|] == input.content;
    arr.data[arr.size] := 0;
  }

  // ----- when the loop ends -----

  function Reads(length: nat, n: nat, k: nat): (c: Cursor)
    ensures c.pos <= length
  {
    if k == 0 then Cursor(0, false) else AfterRead(length, Reads(length, n, k - 1), n)
  }

  lemma {:induction false} ReadsAdvance(length: nat, n: nat, k: nat)
    requires n > 0
    ensures Reads(length, n, k).eof || Reads(length, n, k).pos >= k
  {
    if k > 0 { ReadsAdvance(length, n, k - 1); }
  }

  lemma {:induction false} EmptyReadsStay(length: nat, k: nat)
    ensures Reads(length, 0, k) == Cursor(0, false)
  {
    if k > 0 { EmptyReadsStay(length, k - 1); }
  }

  // Reading in steps of n reaches the end of a stream exactly when n > 0, that
  // is, for a reserve size of at least 2.
  lemma ReadLoopEnds(length: nat, n: nat)
    ensures (exists k :: Reads(length, n, k).eof) <==> n > 0
  {
    if n > 0 {
      ReadsAdvance(length, n, length + 1);
      assert Reads(length, n, length + 1).eof;
    } else {
      forall k ensures !Reads(length, n, k).eof {
        EmptyReadsStay(length, k);
      }
    }
  }

  // For a plain file the computed reserve size is the least with which one read
  // reaches the end; for a compressed one, one read is enough for a content of
  // less than eight times the size on disk, less one.
  lemma OneReadIsEnough(length: nat, reserve: nat)
    requires reserve > 0
    ensures Reads(length, reserve - 1, 1).eof <==> reserve >= ReserveSize(0, length, true)
    ensures length + 1 < 8 * reserve <==> Reads(length, ReserveSize(0, reserve, false) - 1, 1).eof
  {
    assert Reads(length, reserve - 1, 0) == Cursor(0, false);
  }

  // A size given by the caller is taken as it is.
  lemma RequestedSize(requested: nat, fileSize: nat, plain: bool)
    requires requested != 0
    ensures ReserveSize(requested, fileSize, plain) == requested
  {
  }
}
