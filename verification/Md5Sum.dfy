// md5sum as written: a 64-byte buffer filled in place, a wrapping 64-bit
// position, and a finaliser that works on copies.
module Md5Sum {
  import opened Md5Word
  import opened Md5Spec

  const S1: seq<word> := [7, 12, 17, 22, 7, 12, 17, 22, 7, 12, 17, 22, 7, 12, 17, 22]
  const S2: seq<word> := [5,  9, 14, 20, 5,  9, 14, 20, 5,  9, 14, 20, 5,  9, 14, 20]
  const S3: seq<word> := [4, 11, 16, 23, 4, 11, 16, 23, 4, 11, 16, 23, 4, 11, 16, 23]
  const S4: seq<word> := [6, 10, 15, 21, 6, 10, 15, 21, 6, 10, 15, 21, 6, 10, 15, 21]

  const S: seq<word> := S1 + S2 + S3 + S4

  // The word index formulas of update.
  function G(i: nat): nat
    requires i < 64
  {
    if i < 16 then i
    else if i < 32 then (5 * i + 1) % 16
    else if i < 48 then (3 * i + 5) % 16
    else 7 * i % 16
  }

  function RoundS(i: nat): word
    requires i < 64
  {
    if i < 16 then S1[i] else if i < 32 then S2[i - 16] else if i < 48 then S3[i - 32] else S4[i - 48]
  }

  lemma SByRound(i: nat)
    requires i < 64
    ensures S[i] == RoundS(i)
  {
  }

  lemma ShiftsAgree1(i: nat)
    requires 0 <= i < 16
    ensures RoundS(i) == Shift(i)
  {
    match i
    case 0 => case 1 => case 2 => case 3 => case 4 => case 5 => case 6 => case 7 =>
    case 8 => case 9 => case 10 => case 11 => case 12 => case 13 => case 14 => case 15 =>
  }

  lemma ShiftsAgree2(i: nat)
    requires 16 <= i < 32
    ensures RoundS(i) == Shift(i)
  {
    match i
    case 16 => case 17 => case 18 => case 19 => case 20 => case 21 => case 22 => case 23 =>
    case 24 => case 25 => case 26 => case 27 => case 28 => case 29 => case 30 => case 31 =>
  }

  lemma ShiftsAgree3(i: nat)
    requires 32 <= i < 48
    ensures RoundS(i) == Shift(i)
  {
    match i
    case 32 => case 33 => case 34 => case 35 => case 36 => case 37 => case 38 => case 39 =>
    case 40 => case 41 => case 42 => case 43 => case 44 => case 45 => case 46 => case 47 =>
  }

  lemma ShiftsAgree4(i: nat)
    requires 48 <= i < 64
    ensures RoundS(i) == Shift(i)
  {
    match i
    case 48 => case 49 => case 50 => case 51 => case 52 => case 53 => case 54 => case 55 =>
    case 56 => case 57 => case 58 => case 59 => case 60 => case 61 => case 62 => case 63 =>
  }

  lemma OrderAgrees2(i: nat)
    requires 16 <= i < 32
    ensures G(i) == WordIndex(i)
  {
    match i
    case 16 => case 17 => case 18 => case 19 => case 20 => case 21 => case 22 => case 23 =>
    case 24 => case 25 => case 26 => case 27 => case 28 => case 29 => case 30 => case 31 =>
  }

  lemma OrderAgrees3(i: nat)
    requires 32 <= i < 48
    ensures G(i) == WordIndex(i)
  {
    match i
    case 32 => case 33 => case 34 => case 35 => case 36 => case 37 => case 38 => case 39 =>
    case 40 => case 41 => case 42 => case 43 => case 44 => case 45 => case 46 => case 47 =>
  }

  lemma OrderAgrees4(i: nat)
    requires 48 <= i < 64
    ensures G(i) == WordIndex(i)
  {
    match i
    case 48 => case 49 => case 50 => case 51 => case 52 => case 53 => case 54 => case 55 =>
    case 56 => case 57 => case 58 => case 59 => case 60 => case 61 => case 62 => case 63 =>
  }

  // The flat shift table and the index formulas are the tables of section 3.4.
  lemma TablesAgree(i: nat)
    requires i < 64
    ensures S[i] == Shift(i) && G(i) == WordIndex(i)
  {
    SByRound(i);
    hide Shift, RoundS;
    if i < 16 {
      ShiftsAgree1(i);
    } else if i < 32 {
      ShiftsAgree2(i);
      OrderAgrees2(i);
    } else if i < 48 {
      ShiftsAgree3(i);
      OrderAgrees3(i);
    } else {
      ShiftsAgree4(i);
      OrderAgrees4(i);
    }
  }

  // The choice of f in update.
  function F(i: nat, b: word, c: word, d: word): word
    requires i < 64
  {
    if i < 16 then (b & c) | (!b & d)
    else if i < 32 then (d & b) | (!d & c)
    else if i < 48 then b ^ c ^ d
    else c ^ (b | !d)
  }

  lemma FIsAux(i: nat, b: word, c: word, d: word)
    requires i < 64
    ensures F(i, b, c, d) == Aux(i, b, c, d)
  {
    if 16 <= i < 32 { FIsAuxG(b, c, d); }
  }

  lemma FIsAuxG(b: word, c: word, d: word)
    ensures (d & b) | (!d & c) == AuxG(b, c, d)
  {
  }

  // The new b2 of a step.
  function NewB(b: word, a: word, f: word, k: word, m: word, s: word): word
    requires s < 32
  {
    b + RotL(a + f + k + m, s)
  }

  lemma NewBIsMix(b: word, a: word, f: word, k: word, m: word, s: word)
    requires s < 32
    ensures NewB(b, a, f, k, m, s) == Mix(b, a, f, m, k, s)
  {
  }

  lemma StepIsOperation(a: word, b: word, c: word, d: word, x: seq<word>, i: nat)
    requires i < 64 && |x| == 16
    ensures S[i] < 32 && G(i) < 16
    ensures NewB(b, a, F(i, b, c, d), T[i], x[G(i)], S[i]) == Operation(a, b, c, d, x, i)
  {
    hide F, G, Aux, Shift, WordIndex, NewB, Mix;
    TablesAgree(i);
    ShiftsInRange(i);
    FIsAux(i, b, c, d);
    NewBIsMix(b, a, Aux(i, b, c, d), T[i], x[WordIndex(i)], Shift(i));
  }

  // The rotating registers a2, b2, c2, d2 after i steps are the fixed registers
  // of the specification seen through their roles.
  ghost predicate Rotated(r: seq<word>, i: nat, a: word, b: word, c: word, d: word)
    requires |r| == 4 && i <= 64
  {
    a == r[Role(i, 0)] && b == r[Role(i, 1)] && c == r[Role(i, 2)] && d == r[Role(i, 3)]
  }

  lemma RotatedStep(r: seq<word>, x: seq<word>, i: nat, a: word, b: word, c: word, d: word)
    requires |r| == 4 && |x| == 16 && i < 64 && Rotated(r, i, a, b, c, d)
    ensures Rotated(RoundStep(r, x, i), i + 1, d, Operation(a, b, c, d, x, i), b, c)
  {
    hide Operation, Role;
    RolesRotate(i);
    RolesDiffer(i);
  }

  lemma RolesRotate(i: nat)
    requires i < 64
    ensures Role(i + 1, 0) == Role(i, 3) && Role(i + 1, 1) == Role(i, 0)
    ensures Role(i + 1, 2) == Role(i, 1) && Role(i + 1, 3) == Role(i, 2)
  {
  }

  lemma RolesDiffer(i: nat)
    requires i < 64
    ensures Role(i, 0) != Role(i, 1) && Role(i, 0) != Role(i, 2) && Role(i, 0) != Role(i, 3)
  {
  }

  method LoadBlock(chunk: seq<byte>) returns (m: seq<word>)
    requires |chunk| == 64
    ensures m == BlockWords(chunk)
  {
    hide LoadWord;
    m := [];
    for i := 0 to 16
      invariant m == BlockWords(chunk)[..i]
    {
      m := m + [LoadWord(chunk, 4 * i)];
    }
  }

  // state::update on a copy of hash_.
  method Update(h: Hash, chunk: seq<byte>) returns (h2: Hash)
    requires |chunk| == 64
    ensures h2 == Compress(h, chunk)
  {
    hide BlockWords, AddTo, F, G, NewB, Operation, Role, Rotated, RoundStep;
    var m := LoadBlock(chunk);
    ghost var x, r := BlockWords(chunk), [h.a, h.b, h.c, h.d];
    var a2, b2, c2, d2 := h.a, h.b, h.c, h.d;
    RotatedStart(r);
    for i := 0 to 64
      invariant Rotated(Rounds(r, x, i), i, a2, b2, c2, d2)
    {
      StepIsOperation(a2, b2, c2, d2, x, i);
      RotatedStep(Rounds(r, x, i), x, i, a2, b2, c2, d2);
      a2, b2, c2, d2 := d2, NewB(b2, a2, F(i, b2, c2, d2), T[i], m[G(i)], S[i]), b2, c2;
    }
    RotatedEnd(Rounds(r, x, 64), a2, b2, c2, d2);
    h2 := AddTo(h, a2, b2, c2, d2);
  }

  lemma RotatedStart(r: seq<word>)
    requires |r| == 4
    ensures Rotated(r, 0, r[0], r[1], r[2], r[3])
  {
  }

  lemma RotatedEnd(r: seq<word>, a: word, b: word, c: word, d: word)
    requires |r| == 4 && Rotated(r, 64, a, b, c, d)
    ensures r == [a, b, c, d]
  {
  }

  // ----- the buffered writer -----

  // The part of n bytes that fills whole blocks.
  function Full(n: nat): (f: nat)
    ensures f <= n && f % 64 == 0 && n - f == n % 64
  {
    n - n % 64
  }

  // The 64-bit position after n bytes.
  function Wrapped(n: nat): nat { n % TWO64 }

  lemma WrappedMod64(n: nat)
    ensures Wrapped(n) % 64 == n % 64
  {
  }

  // The length field computed from the wrapped position is the RFC's.
  lemma WrappedLength(n: nat)
    ensures Wrapped(n) * 8 % TWO64 == 8 * n % TWO64
  {
    var k := n / TWO64;
    assert 8 * n == Wrapped(n) * 8 + TWO64 * (8 * k);
    WholeTurns(Wrapped(n) * 8, 8 * k);
  }

  lemma WholeTurns(x: nat, k: nat)
    ensures (x + TWO64 * k) % TWO64 == x % TWO64
  {
    var q, d := x / TWO64 + k, (x + TWO64 * k) / TWO64;
    if d < q {} else if d > q {}
  }

  // memcpy
  method CopyInto(a: array<byte>, at: nat, d: seq<byte>)
    requires at + |d| <= a.Length
    modifies a
    ensures a[..at + |d|] == old(a[..at]) + d
  {
    for i := 0 to |d|
      invariant a[..at + i] == old(a[..at]) + d[..i]
    {
      a[at + i] := d[i];
    }
  }

  // std::fill with zero
  method FillZero(a: array<byte>, lo: nat, hi: nat)
    requires lo <= hi <= a.Length
    modifies a
    ensures a[..] == old(a[..lo]) + Zeros(hi - lo) + old(a[hi..])
  {
    for i := lo to hi
      invariant a[..i] == old(a[..lo]) + Zeros(i - lo)
      invariant a[i..] == old(a[i..])
    {
      a[i] := 0;
    }
  }

  class Md5Sum {
    var state: Hash
    var position: nat
    const buffer: array<byte>
    ghost var message: seq<byte>  // everything written

    // The state has absorbed the whole blocks, the buffer starts with the rest.
    ghost predicate Valid()
      reads this, buffer
    {
      && buffer.Length == 64 && position == Wrapped(|message|)
      && state == Blocks(IV, message[..Full(|message|)])
      && buffer[..|message| % 64] == message[Full(|message|)..]
    }

    constructor ()
      ensures Valid() && message == [] && fresh(buffer)
    {
      state, position, message := IV, 0, [];
      buffer := new byte[64](_ => 0);
    }

    lemma PlaceInBuffer()
      requires Valid()
      ensures position % 64 == |message| % 64
    {
      WrappedMod64(|message|);
    }

    // write: any chunk, any number of bytes.
    method Write(data: seq<byte>)
      requires Valid()
      modifies this, buffer
      ensures Valid() && message == old(message) + data
    {
      hide Valid;
      var from := 0;
      while from < |data|
        invariant from <= |data| && Valid() && message == old(message) + data[..from]
      {
        PlaceInBuffer();
        var wrsize := if 64 - position % 64 < |data| - from then 64 - position % 64 else |data| - from;
        WriteSome(data[from..from + wrsize]);
        assert data[..from + wrsize] == data[..from] + data[from..from + wrsize];
        from := from + wrsize;
      }
      assert data[..from] == data;
    }

    // One turn of its loop: bytes that fit the buffer, then maybe one block.
    method WriteSome(d: seq<byte>)
      requires Valid() && 0 < |d| <= 64 - |message| % 64
      modifies this, buffer
      ensures Valid() && message == old(message) + d
    {
      hide Compress, Blocks, Wrapped, Full;
      WrappedMod64(|message|);
      var at := position % 64;
      CopyInto(buffer, at, d);
      ghost var m, f := message, Full(|message|);
      WrappedAdd(|m|, |d|);
      position := (position + |d|) % TWO64;
      message := m + d;
      WrappedMod64(|message|);
      if position % 64 == 0 {
        BlockFilled(m, d);
        OneMoreBlock(m, d);
        assert buffer[..] == m[f..] + d;
        state := Update(state, buffer[..]);
      } else {
        RestGrown(m, d);
      }
    }

    // sum: pads copies of the state and the buffer; the object is unchanged,
    // so writing may go on.
    method Sum() returns (ret: seq<byte>)
      requires Valid()
      ensures ret == Md5(message)
    {
      hide Compress, Blocks, Wrapped, Full, Output, LengthField, Pad, Zeros;
      WrappedMod64(|message|);
      WrappedLength(|message|);
      ghost var f := Full(|message|);
      ghost var rest := message[f..];
      var state2 := state;
      var pos := position % 64;
      var buf2 := new byte[64](_ => 0);
      CopyInto(buf2, 0, buffer[..]);
      assert buf2[..pos] == buffer[..pos] == rest;
      state2 := PadBuffer(buf2, pos, state2);
      PutLength(buf2, position);
      assert buf2[56..] == LengthBytes(|message|);
      state2 := Update(state2, buf2[..]);
      PaddedTail(message);
      ret := PutState(state2);
    }
  }

  // The end-of-message byte and the zero fill; a rest that leaves no room for
  // the length costs a block of its own.
  method PadBuffer(a: array<byte>, pos: nat, h: Hash) returns (h2: Hash)
    requires a.Length == 64 && pos < 64
    modifies a
    ensures pos <= 55 ==> h2 == h && a[..56] == old(a[..pos]) + [0x80] + Zeros(55 - pos)
    ensures pos > 55 ==> h2 == Compress(h, old(a[..pos]) + [0x80] + Zeros(63 - pos)) && a[..56] == Zeros(56)
  {
    hide Compress, Zeros;
    h2 := h;
    a[pos] := 0x80;
    assert a[..pos + 1] == old(a[..pos]) + [0x80];
    if pos <= 55 {
      FillZero(a, pos + 1, 56);
    } else {
      FillZero(a, pos + 1, 64);
      assert a[..] == old(a[..pos]) + [0x80] + Zeros(63 - pos);
      h2 := Update(h2, a[..]);
      FillZero(a, 0, 56);
    }
  }

  // The length field: (position_ * 8) >> (8 * i), in 64 bits, for i = 0..7.
  method PutLength(a: array<byte>, position: nat)
    requires a.Length == 64
    modifies a
    ensures a[..] == old(a[..56]) + LengthField(position * 8 % TWO64)
  {
    hide LengthByte;
    for i := 0 to 8
      invariant a[..56 + i] == old(a[..56]) + LengthField(position * 8 % TWO64)[..i]
    {
      a[56 + i] := LengthByte(position * 8 % TWO64, i);
    }
    ghost var field := LengthField(position * 8 % TWO64);
    assert field[..8] == field && a[..56 + 8] == a[..];
  }

  // The output loop: hash_[i / 4] >> (8 * (i % 4)), cut to a byte, for i = 0..15.
  method PutState(h: Hash) returns (ret: seq<byte>)
    ensures ret == Output(h)
  {
    hide WordByte, Register;
    ret := [];
    for i := 0 to 16
      invariant ret == Output(h)[..i]
    {
      ret := ret + [WordByte(Register(h, i / 4), i % 4)];
    }
  }

  lemma BlocksAppend(h: Hash, d: seq<byte>, b: seq<byte>)
    requires |d| % 64 == 0 && |b| == 64
    ensures |d + b| % 64 == 0 && Blocks(h, d + b) == Compress(Blocks(h, d), b)
  {
  }

  // The padding of a message ends in one block, or in two when the rest leaves
  // no room for the length.
  lemma PaddedTail(m: seq<byte>)
    ensures var f := Full(|m|); var rest, h, len := m[f..], Blocks(IV, m[..f]), LengthBytes(|m|);
            Blocks(IV, Pad(m)) ==
              if |rest| <= 55 then Compress(h, rest + [0x80] + Zeros(55 - |rest|) + len)
              else Compress(Compress(h, rest + [0x80] + Zeros(63 - |rest|)), Zeros(56) + len)
  {
    hide Compress, LengthByte;
    var f := Full(|m|);
    var rest, len := m[f..], LengthBytes(|m|);
    var d := m[..f];
    if |rest| <= 55 {
      var b := rest + [0x80] + Zeros(55 - |rest|) + len;
      assert Pad(m) == d + b;
      BlocksAppend(IV, d, b);
    } else {
      var b1, b2 := rest + [0x80] + Zeros(63 - |rest|), Zeros(56) + len;
      assert Pad(m) == d + b1 + b2;
      BlocksAppend(IV, d, b1);
      BlocksAppend(IV, d + b1, b2);
    }
  }

  lemma WrappedAdd(n: nat, k: nat)
    ensures Wrapped(n + k) == (Wrapped(n) + k) % TWO64
  {
  }

  lemma FullAdd(n: nat, k: nat)
    requires n % 64 + k <= 64
    ensures n % 64 + k < 64 ==> Full(n + k) == Full(n) && (n + k) % 64 == n % 64 + k
    ensures n % 64 + k == 64 ==> Full(n + k) == n + k == Full(n) + 64 && (n + k) % 64 == 0
  {
  }

  lemma BlockFilled(m: seq<byte>, d: seq<byte>)
    requires 0 < |d| <= 64 - |m| % 64 && |m + d| % 64 == 0
    ensures |m| % 64 + |d| == 64 && Full(|m + d|) == |m + d| && (m + d)[..|m + d|] == m + d
  {
    FullAdd(|m|, |d|);
  }

  lemma RestGrown(m: seq<byte>, d: seq<byte>)
    requires 0 < |d| <= 64 - |m| % 64 && |m + d| % 64 != 0
    ensures var f := Full(|m|);
            && Full(|m + d|) == f && |m + d| % 64 == |m| % 64 + |d|
            && (m + d)[..f] == m[..f] && (m + d)[f..] == m[f..] + d
  {
    FullAdd(|m|, |d|);
  }

  lemma OneMoreBlock(m: seq<byte>, d: seq<byte>)
    requires |m| % 64 + |d| == 64 && |m + d| % 64 == 0
    ensures Blocks(IV, m + d) == Compress(Blocks(IV, m[..Full(|m|)]), m[Full(|m|)..] + d)
  {
    hide Compress, Blocks;
    var f := Full(|m|);
    BlocksAppend(IV, m[..f], m[f..] + d);
    assert m + d == m[..f] + (m[f..] + d);
  }
}
