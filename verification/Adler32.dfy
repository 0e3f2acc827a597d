// stb_adler32: Adler-32 with the modulo deferred to the end of each 5552-byte block.
module Adler32 {
  import opened Bytes
  import opened LzFormat

  const ADLER_MOD := 65521
  const BLOCK := 5552

  // An unsigned 32-bit value; assigning a larger sum to one does not verify.
  type u32 = x: int | 0 <= x < 0x1_0000_0000

  datatype Sums = Sums(s1: nat, s2: nat)

  // One byte, as section 8.2 of RFC 1950 does it.
  function Step(s: Sums, b: byte): Sums {
    var s1 := (s.s1 + b) % ADLER_MOD;
    Sums(s1, (s.s2 + s1) % ADLER_MOD)
  }

  function Fold(s: Sums, d: seq<byte>): Sums {
    if d == [] then s else Step(Fold(s, d[..|d| - 1]), d[|d| - 1])
  }

  predicate ValidStart(adler: u32) {
    adler % 0x1_0000 < ADLER_MOD && adler / 0x1_0000 < ADLER_MOD
  }

  function Unpack(adler: u32): Sums { Sums(adler % 0x1_0000, adler / 0x1_0000) }

  function Pack(s: Sums): nat { s.s2 * 0x1_0000 + s.s1 }

  // The checksum of d on top of adler, byte by byte.
  function Adler(adler: u32, d: seq<byte>): nat { Pack(Fold(Unpack(adler), d)) }

  predicate Reduced(s: Sums) { s.s1 < ADLER_MOD && s.s2 < ADLER_MOD }

  lemma {:induction false} FoldReduced(s: Sums, d: seq<byte>)
    requires Reduced(s)
    ensures Reduced(Fold(s, d))
  {
  }

  lemma {:induction false} FoldConcat(s: Sums, x: seq<byte>, y: seq<byte>)
    ensures Fold(s, x + y) == Fold(Fold(s, x), y)
  {
    if y == [] {
      assert x + y == x;
    } else {
      var z := y[..|y| - 1];
      assert (x + y)[..|x + y| - 1] == x + z;
      FoldConcat(s, x, z);
    }
  }

  // Checksums compose over concatenation.
  lemma AdlerConcat(adler: u32, x: seq<byte>, y: seq<byte>)
    requires ValidStart(adler)
    ensures Adler(adler, x) < 0x1_0000_0000 && ValidStart(Adler(adler, x))
    ensures Adler(adler, x + y) == Adler(Adler(adler, x), y)
  {
    hide Fold;
    FoldReduced(Unpack(adler), x);
    FoldConcat(Unpack(adler), x, y);
    UnpackPacked(Fold(Unpack(adler), x));
  }

  lemma UnpackPacked(s: Sums)
    requires Reduced(s)
    ensures Pack(s) < 0x1_0000_0000 && ValidStart(Pack(s)) && Unpack(Pack(s)) == s
  {
    var d := Pack(s) / 0x1_0000;
    if d < s.s2 {} else if d > s.s2 {}
  }

  // Section 2.2 of RFC 1950: s1 is the sum of all bytes, s2 the sum of all s1
  // values, both reduced once at the end.
  function PlainSums(s: Sums, d: seq<byte>): Sums {
    if d == [] then s
    else
      var p := PlainSums(s, d[..|d| - 1]);
      var s1 := p.s1 + d[|d| - 1];
      Sums(s1, p.s2 + s1)
  }

  predicate Congruent(raw: Sums, s: Sums) {
    raw.s1 % ADLER_MOD == s.s1 && raw.s2 % ADLER_MOD == s.s2
  }

  lemma AddByte(raw: Sums, s: Sums, b: byte)
    requires Congruent(raw, s)
    ensures Congruent(Sums(raw.s1 + b, raw.s2 + raw.s1 + b), Step(s, b))
  {
    ModAdd(raw.s1, b);
    ModAdd(raw.s2, raw.s1 + b);
    ModAdd(raw.s1 + b, s.s2);
  }

  lemma ModAdd(a: nat, b: nat)
    ensures (a + b) % ADLER_MOD == (a % ADLER_MOD + b) % ADLER_MOD
  {
  }

  lemma {:induction false} FoldIsPlainSums(s: Sums, d: seq<byte>)
    requires Reduced(s)
    ensures Congruent(PlainSums(s, d), Fold(s, d))
  {
    if d != [] {
      FoldIsPlainSums(s, d[..|d| - 1]);
      AddByte(PlainSums(s, d[..|d| - 1]), Fold(s, d[..|d| - 1]), d[|d| - 1]);
    }
  }

  // The checksum in the terms of section 2.2: s2 above s1, both modulo 65521.
  lemma AdlerIsOfPlainSums(adler: u32, d: seq<byte>)
    requires ValidStart(adler)
    ensures var p := PlainSums(Sums(adler % 0x1_0000, adler / 0x1_0000), d);
            Adler(adler, d) == p.s2 % 65521 * 0x1_0000 + p.s1 % 65521
  {
    hide Fold, PlainSums;
    FoldIsPlainSums(Unpack(adler), d);
  }

  // A byte more adds itself to the plain s1, and that to the plain s2.
  lemma {:induction false} PlainSumsSnoc(s: Sums, d: seq<byte>, b: byte)
    ensures var p, q := PlainSums(s, d), PlainSums(s, d + [b]);
            q.s1 - p.s1 == b && q.s2 - p.s2 == q.s1 && PlainSums(s, []) == s
  {
    assert (d + [b])[..|d|] == d;
  }

  // The checksum of "abc".
  lemma AdlerOfAbc()
    ensures Adler(1, [0x61, 0x62, 0x63]) == 0x024d0127
  {
    hide Fold, Step;
    FoldOfThree(Unpack(1), 0x61, 0x62, 0x63);
    StepsOfAbc();
  }

  lemma StepsOfAbc()
    ensures Step(Sums(1, 0), 0x61) == Sums(98, 98) && Step(Sums(98, 98), 0x62) == Sums(196, 294)
    ensures Step(Sums(196, 294), 0x63) == Sums(295, 589)
  {
  }

  lemma FoldOfThree(s: Sums, a: byte, b: byte, c: byte)
    ensures Fold(s, [a, b, c]) == Step(Step(Step(s, a), b), c)
  {
    hide Fold, Step;
    FoldSnoc(s, [], a);
    FoldSnoc(s, [a], b);
    FoldSnoc(s, [a, b], c);
    assert [] + [a] == [a] && [a] + [b] == [a, b] && [a, b] + [c] == [a, b, c];
  }

  lemma FoldSnoc(s: Sums, d: seq<byte>, b: byte)
    ensures Fold(s, []) == s && Fold(s, d + [b]) == Step(Fold(s, d), b)
  {
    hide Step;
    assert (d + [b])[..|d|] == d;
  }

  // The largest s2 after i bytes of a block.
  function MaxS2(i: nat): nat {
    if i == 0 then 65520 else MaxS2(i - 1) + 65520 + 255 * i
  }

  lemma {:induction false} MaxS2Closed(i: nat)
    ensures 2 * MaxS2(i) == 2 * 65520 * (i + 1) + 255 * i * (i + 1)
  {
    if i > 0 { MaxS2Closed(i - 1); }
  }

  lemma {:induction false} MaxS2Monotone(i: nat, j: nat)
    requires i <= j
    ensures MaxS2(i) <= MaxS2(j)
    decreases j
  {
    if i < j { MaxS2Monotone(i, j - 1); }
  }

  // 5552 is small enough that no sum reaches 2^32.
  lemma BlockFits(i: nat)
    requires i <= BLOCK
    ensures MaxS2(i) < 0x1_0000_0000
  {
    MaxS2Monotone(i, BLOCK);
    MaxS2Closed(BLOCK);
  }

  method AddOne(s1: u32, s2: u32, buffer: seq<byte>, at: nat, ghost i: nat, ghost s: Sums)
    returns (t1: u32, t2: u32)
    requires i < BLOCK && s1 <= 65520 + 255 * i && s2 <= MaxS2(i)
    requires at < |buffer| && Congruent(Sums(s1, s2), Fold(s, buffer[..at]))
    ensures t1 <= 65520 + 255 * (i + 1) && t2 <= MaxS2(i + 1)
    ensures Congruent(Sums(t1, t2), Fold(s, buffer[..at + 1]))
  {
    assert buffer[..at + 1][..at] == buffer[..at];
    BlockFits(i + 1);
    AddByte(Sums(s1, s2), Fold(s, buffer[..at]), buffer[at]);
    t1 := s1 + buffer[at];
    t2 := s2 + t1;
  }

  // The body of the unrolled loop: eight bytes.
  method AddEight(s1: u32, s2: u32, buffer: seq<byte>, at: nat, ghost i: nat, ghost s: Sums)
    returns (t1: u32, t2: u32)
    requires i + 8 <= BLOCK && s1 <= 65520 + 255 * i && s2 <= MaxS2(i)
    requires at + 8 <= |buffer| && Congruent(Sums(s1, s2), Fold(s, buffer[..at]))
    ensures t1 <= 65520 + 255 * (i + 8) && t2 <= MaxS2(i + 8)
    ensures Congruent(Sums(t1, t2), Fold(s, buffer[..at + 8]))
  {
    hide Fold, MaxS2, Congruent;
    t1, t2 := s1, s2;
    for j := 0 to 8
      invariant t1 <= 65520 + 255 * (i + j) && t2 <= MaxS2(i + j)
      invariant Congruent(Sums(t1, t2), Fold(s, buffer[..at + j]))
    {
      t1, t2 := AddOne(t1, t2, buffer, at + j, i + j, s);
    }
  }

  // One block, with the modulo at its end.
  method AddBlock(s1: u32, s2: u32, buffer: seq<byte>, at: nat, blocklen: nat, ghost s: Sums)
    returns (t1: u32, t2: u32)
    requires blocklen <= BLOCK && at + blocklen <= |buffer|
    requires Reduced(Sums(s1, s2)) && Sums(s1, s2) == Fold(s, buffer[..at])
    ensures Reduced(Sums(t1, t2)) && Sums(t1, t2) == Fold(s, buffer[..at + blocklen])
  {
    hide Fold, MaxS2, Congruent;
    SumsStart(Sums(s1, s2), Fold(s, buffer[..at]));
    var i := 0;
    t1, t2 := s1, s2;
    while i + 7 < blocklen
      invariant i <= blocklen
      invariant t1 <= 65520 + 255 * i && t2 <= MaxS2(i)
      invariant Congruent(Sums(t1, t2), Fold(s, buffer[..at + i]))
    {
      t1, t2 := AddEight(t1, t2, buffer, at + i, i, s);
      i := i + 8;
    }
    while i < blocklen
      invariant i <= blocklen
      invariant t1 <= 65520 + 255 * i && t2 <= MaxS2(i)
      invariant Congruent(Sums(t1, t2), Fold(s, buffer[..at + i]))
    {
      t1, t2 := AddOne(t1, t2, buffer, at + i, i, s);
      i := i + 1;
    }
    SumsEnd(Sums(t1, t2), Fold(s, buffer[..at + blocklen]));
    t1, t2 := t1 % ADLER_MOD, t2 % ADLER_MOD;
  }

  lemma SumsStart(raw: Sums, s: Sums)
    requires Reduced(raw) && raw == s
    ensures Congruent(raw, s) && raw.s1 <= 65520 && raw.s2 <= MaxS2(0)
  {
  }

  lemma SumsEnd(raw: Sums, s: Sums)
    requires Congruent(raw, s)
    ensures Sums(raw.s1 % ADLER_MOD, raw.s2 % ADLER_MOD) == s && Reduced(s)
  {
  }

  lemma NothingFolded(s: Sums, d: seq<byte>)
    ensures Fold(s, d[..0]) == s
  {
  }

  // The 32-bit sums never overflow, the first block may be empty, and the
  // result is the byte-by-byte checksum.
  method StbAdler32(adler: u32, buffer: seq<byte>) returns (r: u32)
    requires ValidStart(adler)
    ensures r == Adler(adler, buffer)
  {
    hide Fold;
    NothingFolded(Unpack(adler), buffer);
    var s1: u32, s2: u32 := adler % 0x1_0000, adler / 0x1_0000;
    var buflen, at := |buffer|, 0;
    var blocklen := buflen % BLOCK;
    while buflen > 0
      invariant 0 <= buflen && at + buflen == |buffer|
      invariant blocklen == buflen % BLOCK || (blocklen == BLOCK && buflen % BLOCK == 0)
      invariant Reduced(Sums(s1, s2)) && Sums(s1, s2) == Fold(Unpack(adler), buffer[..at])
      decreases buflen, if blocklen == 0 then 1 else 0
    {
      s1, s2 := AddBlock(s1, s2, buffer, at, blocklen, Unpack(adler));
      at := at + blocklen;
      buflen := buflen - blocklen;
      blocklen := BLOCK;
    }
    assert buffer[..at] == buffer;
    r := s2 * 0x1_0000 + s1;
  }
}
