// The MD5 message digest as RFC 1321 defines it, one shot over a whole message.
module Md5Spec {
  import opened Md5Word

  // Section 3.3
  const IV := Hash(0x67452301, 0xefcdab89, 0x98badcfe, 0x10325476)

  // Section 3.4: the table T, round by round.
  const T1: seq<word> := [
    0xd76aa478, 0xe8c7b756, 0x242070db, 0xc1bdceee, 0xf57c0faf, 0x4787c62a, 0xa8304613, 0xfd469501,
    0x698098d8, 0x8b44f7af, 0xffff5bb1, 0x895cd7be, 0x6b901122, 0xfd987193, 0xa679438e, 0x49b40821]
  const T2: seq<word> := [
    0xf61e2562, 0xc040b340, 0x265e5a51, 0xe9b6c7aa, 0xd62f105d, 0x02441453, 0xd8a1e681, 0xe7d3fbc8,
    0x21e1cde6, 0xc33707d6, 0xf4d50d87, 0x455a14ed, 0xa9e3e905, 0xfcefa3f8, 0x676f02d9, 0x8d2a4c8a]
  const T3: seq<word> := [
    0xfffa3942, 0x8771f681, 0x6d9d6122, 0xfde5380c, 0xa4beea44, 0x4bdecfa9, 0xf6bb4b60, 0xbebfbc70,
    0x289b7ec6, 0xeaa127fa, 0xd4ef3085, 0x04881d05, 0xd9d4d039, 0xe6db99e5, 0x1fa27cf8, 0xc4ac5665]
  const T4: seq<word> := [
    0xf4292244, 0x432aff97, 0xab9423a7, 0xfc93a039, 0x655b59c3, 0x8f0ccc92, 0xffeff47d, 0x85845dd1,
    0x6fa87e4f, 0xfe2ce6e0, 0xa3014314, 0x4e0811a1, 0xf7537e82, 0xbd3af235, 0x2ad7d2bb, 0xeb86d391]

  const T: seq<word> := T1 + T2 + T3 + T4

  // The entry of T by round.
  function RoundT(i: nat): word
    requires i < 64
  {
    if i < 16 then T1[i] else if i < 32 then T2[i - 16] else if i < 48 then T3[i - 32] else T4[i - 48]
  }

  lemma TByRound(i: nat)
    requires i < 64
    ensures T[i] == RoundT(i)
  {
  }

  // Section 3.4: the auxiliary functions, the shift amounts of each round, and
  // the order in which each round visits the words of the block.
  function AuxF(x: word, y: word, z: word): word { (x & y) | (!x & z) }
  function AuxG(x: word, y: word, z: word): word { (x & z) | (y & !z) }
  function AuxH(x: word, y: word, z: word): word { x ^ y ^ z }
  function AuxI(x: word, y: word, z: word): word { y ^ (x | !z) }

  const SHIFTS: seq<seq<word>> := [[7, 12, 17, 22], [5, 9, 14, 20], [4, 11, 16, 23], [6, 10, 15, 21]]

  const ORDER2: seq<nat> := [1, 6, 11, 0, 5, 10, 15, 4, 9, 14, 3, 8, 13, 2, 7, 12]
  const ORDER3: seq<nat> := [5, 8, 11, 14, 1, 4, 7, 10, 13, 0, 3, 6, 9, 12, 15, 2]
  const ORDER4: seq<nat> := [0, 7, 14, 5, 12, 3, 10, 1, 8, 15, 6, 13, 4, 11, 2, 9]

  function Shift(i: nat): word
    requires i < 64
  {
    SHIFTS[i / 16][i % 4]
  }

  function WordIndex(i: nat): (k: nat)
    requires i < 64
    ensures k < 16
  {
    if i < 16 then i else if i < 32 then ORDER2[i - 16] else if i < 48 then ORDER3[i - 32] else ORDER4[i - 48]
  }

  function Aux(i: nat, x: word, y: word, z: word): word
    requires i < 64
  {
    if i < 16 then AuxF(x, y, z) else if i < 32 then AuxG(x, y, z) else if i < 48 then AuxH(x, y, z) else AuxI(x, y, z)
  }

  lemma ShiftsInRange(i: nat)
    requires i < 64
    ensures Shift(i) < 32
  {
  }

  function Mix(b: word, a: word, f: word, x: word, t: word, s: word): word
    requires s < 32
  {
    b + RotL(a + f + x + t, s)
  }

  // a = b + ((a + aux(b,c,d) + X[k] + T[i]) <<< s)
  function Operation(a: word, b: word, c: word, d: word, x: seq<word>, i: nat): word
    requires |x| == 16 && i < 64
  {
    ShiftsInRange(i);
    Mix(b, a, Aux(i, b, c, d), x[WordIndex(i)], T[i], Shift(i))
  }

  // The registers A, B, C, D stay in place; the operation's roles rotate:
  // ABCD, DABC, CDAB, BCDA.
  function Role(i: nat, k: nat): (p: nat)
    requires i <= 64 && k < 4
    ensures p < 4
  {
    (64 - i + k) % 4
  }

  function RoundStep(r: seq<word>, x: seq<word>, i: nat): (r2: seq<word>)
    requires |r| == 4 && |x| == 16 && i < 64
    ensures |r2| == 4
  {
    r[Role(i, 0) := Operation(r[Role(i, 0)], r[Role(i, 1)], r[Role(i, 2)], r[Role(i, 3)], x, i)]
  }

  function Rounds(r: seq<word>, x: seq<word>, n: nat): (r2: seq<word>)
    requires |r| == 4 && |x| == 16 && n <= 64
    ensures |r2| == 4
  {
    if n == 0 then r else RoundStep(Rounds(r, x, n - 1), x, n - 1)
  }

  // Bytes to words, low-order byte first (section 2).
  function LoadWord(b: seq<byte>, i: nat): word
    requires i + 4 <= |b|
  {
    (b[i] as word) | (b[i + 1] as word << 8) | (b[i + 2] as word << 16) | (b[i + 3] as word << 24)
  }

  function BlockWords(b: seq<byte>): (x: seq<word>)
    requires |b| == 64
    ensures |x| == 16
  {
    seq(16, i requires 0 <= i < 16 => LoadWord(b, 4 * i))
  }

  function Compress(h: Hash, b: seq<byte>): Hash
    requires |b| == 64
  {
    var r := Rounds([h.a, h.b, h.c, h.d], BlockWords(b), 64);
    AddTo(h, r[0], r[1], r[2], r[3])
  }

  // Section 3.4, the end of a block: to each register its own old value is added.
  lemma CompressAdds(h: Hash, b: seq<byte>)
    requires |b| == 64
    ensures var r, n := Rounds([h.a, h.b, h.c, h.d], BlockWords(b), 64), Compress(h, b);
            n.a == Plus(h.a, r[0]) && n.b == Plus(h.b, r[1]) && n.c == Plus(h.c, r[2]) && n.d == Plus(h.d, r[3])
  {
    hide Rounds, BlockWords, AddTo, Plus;
    var r := Rounds([h.a, h.b, h.c, h.d], BlockWords(b), 64);
    AddsOwnRegisters(h, r[0], r[1], r[2], r[3]);
  }

  function Blocks(h: Hash, d: seq<byte>): Hash
    requires |d| % 64 == 0
  {
    if d == [] then h else Compress(Blocks(h, d[..|d| - 64]), d[|d| - 64..])
  }

  const TWO64: nat := 0x1_0000_0000_0000_0000

  function Pow256(i: nat): nat { if i == 0 then 1 else 256 * Pow256(i - 1) }

  lemma {:induction false} Pow256Positive(i: nat)
    ensures Pow256(i) > 0
  {
    if i > 0 { Pow256Positive(i - 1); }
  }

  // The i-th base-256 digit of a value, low-order first, and that digit as a byte.
  function LengthDigit(bits: nat, i: nat): (d: nat)
    ensures d < 256
  {
    Pow256Positive(i);
    bits / Pow256(i) % 256
  }

  function LengthByte(bits: nat, i: nat): byte { LengthDigit(bits, i) as byte }

  function LengthField(bits: nat): (s: seq<byte>)
    ensures |s| == 8
  {
    seq(8, i requires 0 <= i < 8 => LengthByte(bits, i))
  }

  // The number that the first n digits stand for.
  function FieldValue(bits: nat, n: nat): nat {
    if n == 0 then 0 else FieldValue(bits, n - 1) + LengthDigit(bits, n - 1) * Pow256(n - 1)
  }

  lemma {:induction false} FieldIsLittleEndian(bits: nat, n: nat)
    ensures Pow256(n) > 0 && FieldValue(bits, n) == bits % Pow256(n)
  {
    if n > 0 {
      FieldIsLittleEndian(bits, n - 1);
      NextDigit(bits, Pow256(n - 1));
    }
  }

  lemma NextDigit(x: nat, m: nat)
    requires m > 0
    ensures x % m + x / m % 256 * m == x % (256 * m)
  {
    var q := x / m;
    var hi, lo := q / 256, q % 256;
    assert x == q * m + x % m && q == 256 * hi + lo;
    TwoDigits(hi, lo, m);
    Multiples(lo, 255, m);
    RemainderIs(x, 256 * m, hi, lo * m + x % m);
  }

  lemma TwoDigits(hi: nat, lo: nat, m: nat)
    ensures (256 * hi + lo) * m == hi * (256 * m) + lo * m
  {
  }

  lemma RemainderIs(x: nat, m: nat, q: nat, r: nat)
    requires r < m && x == q * m + r
    ensures x % m == r
  {
    var d := x / m;
    assert x == d * m + x % m;
    if d < q {
      Multiples(d + 1, q, m);
    } else if d > q {
      Multiples(q + 1, d, m);
    }
  }

  lemma Multiples(a: nat, b: nat, m: nat)
    requires a <= b
    ensures a * m <= b * m
  {
  }

  // The eight bytes of the length field are the digits, low-order first, and
  // these stand for the value.
  lemma LengthFieldValue(bits: nat)
    requires bits < TWO64
    ensures forall i :: 0 <= i < 8 ==> LengthField(bits)[i] == LengthDigit(bits, i) as byte
    ensures LengthDigit(bits, 0) + LengthDigit(bits, 1) * 0x100 + LengthDigit(bits, 2) * 0x1_0000
            + LengthDigit(bits, 3) * 0x100_0000 + LengthDigit(bits, 4) * 0x1_0000_0000
            + LengthDigit(bits, 5) * 0x100_0000_0000 + LengthDigit(bits, 6) * 0x1_0000_0000_0000
            + LengthDigit(bits, 7) * 0x100_0000_0000_0000 == bits
  {
    hide LengthDigit, FieldValue, Pow256;
    PowersOf256();
    FieldIsLittleEndian(bits, 8);
    FieldOfEight(bits);
    BelowMod(bits);
  }

  lemma BelowMod(x: nat)
    requires x < TWO64
    ensures x % TWO64 == x
  {
  }

  lemma PowersOf256()
    ensures Pow256(0) == 1 && Pow256(1) == 0x100 && Pow256(2) == 0x1_0000 && Pow256(3) == 0x100_0000
    ensures Pow256(4) == 0x1_0000_0000 && Pow256(5) == 0x100_0000_0000
    ensures Pow256(6) == 0x1_0000_0000_0000 && Pow256(7) == 0x100_0000_0000_0000 && Pow256(8) == TWO64
  {
  }

  lemma FieldOfEight(bits: nat)
    ensures FieldValue(bits, 8) ==
              LengthDigit(bits, 0) * Pow256(0) + LengthDigit(bits, 1) * Pow256(1) + LengthDigit(bits, 2) * Pow256(2)
              + LengthDigit(bits, 3) * Pow256(3) + LengthDigit(bits, 4) * Pow256(4) + LengthDigit(bits, 5) * Pow256(5)
              + LengthDigit(bits, 6) * Pow256(6) + LengthDigit(bits, 7) * Pow256(7)
  {
    hide LengthDigit, Pow256, FieldValue;
    FieldNext(bits, 0);
    FieldNext(bits, 1);
    FieldNext(bits, 2);
    FieldNext(bits, 3);
    FieldNext(bits, 4);
    FieldNext(bits, 5);
    FieldNext(bits, 6);
    FieldNext(bits, 7);
  }

  lemma FieldNext(bits: nat, n: nat)
    ensures FieldValue(bits, 0) == 0
    ensures FieldValue(bits, n + 1) == FieldValue(bits, n) + LengthDigit(bits, n) * Pow256(n)
  {
  }

  // Section 3.2: the low-order 64 bits of the length in bits.
  function LengthBytes(n: nat): (s: seq<byte>)
    ensures |s| == 8
  {
    LengthField(8 * n % TWO64)
  }

  function Zeros(n: nat): (z: seq<byte>)
    ensures |z| == n
  {
    seq(n, _ => 0)
  }

  // Section 3.1: a one bit, then as few zeros as reach 56 modulo 64.
  function ZeroCount(n: nat): (z: nat)
    ensures z < 64 && (n + 1 + z) % 64 == 56
  {
    var r := n % 64;
    assert n == 64 * (n / 64) + r;
    if r <= 55 then Mod64(n / 64, 56); 55 - r else Mod64(n / 64 + 1, 56); 119 - r
  }

  lemma Mod64(q: nat, r: nat)
    requires r < 64
    ensures (64 * q + r) % 64 == r
  {
    var d := (64 * q + r) / 64;
    if d < q {} else if d > q {}
  }

  lemma PaddedLength(n: nat)
    requires n % 64 == 56
    ensures (n + 8) % 64 == 0
  {
    assert n == 64 * (n / 64) + 56;
    Mod64(n / 64 + 1, 0);
  }

  function Pad(msg: seq<byte>): (p: seq<byte>)
    ensures |p| % 64 == 0
  {
    PaddedLength(|msg| + 1 + ZeroCount(|msg|));
    msg + [0x80] + Zeros(ZeroCount(|msg|)) + LengthBytes(|msg|)
  }

  // Section 3.5: the registers, low-order byte first, A to D.
  function Part(w: word, i: nat): (p: word)
    requires i < 4
    ensures p <= 0xff
  {
    (if i == 0 then w else if i == 1 then w >> 8 else if i == 2 then w >> 16 else w >> 24) & 0xff
  }

  function WordByte(w: word, i: nat): byte
    requires i < 4
  {
    Part(w, i) as byte
  }

  function Register(h: Hash, i: nat): word
    requires i < 4
  {
    if i == 0 then h.a else if i == 1 then h.b else if i == 2 then h.c else h.d
  }

  function Output(h: Hash): (s: seq<byte>)
    ensures |s| == 16
  {
    seq(16, i requires 0 <= i < 16 => WordByte(Register(h, i / 4), i % 4))
  }

  function WordBytes(w: word): seq<byte> { [WordByte(w, 0), WordByte(w, 1), WordByte(w, 2), WordByte(w, 3)] }

  function Four(b0: word, b1: word, b2: word, b3: word): word { b0 | (b1 << 8) | (b2 << 16) | (b3 << 24) }

  lemma FourOfParts(w: word)
    ensures Four(Part(w, 0), Part(w, 1), Part(w, 2), Part(w, 3)) == w
  {
  }

  lemma PartsOfFour(b0: word, b1: word, b2: word, b3: word)
    requires b0 <= 0xff && b1 <= 0xff && b2 <= 0xff && b3 <= 0xff
    ensures var w := Four(b0, b1, b2, b3);
            Part(w, 0) == b0 && Part(w, 1) == b1 && Part(w, 2) == b2 && Part(w, 3) == b3
  {
  }

  lemma IsByteOf(b: byte, w: word, i: nat)
    requires i < 4
    ensures b as word <= 0xff && (b == WordByte(w, i) <==> b as word == Part(w, i))
  {
    hide Part;
  }

  lemma LoadFour(b0: byte, b1: byte, b2: byte, b3: byte)
    ensures LoadWord([b0, b1, b2, b3], 0) == Four(b0 as word, b1 as word, b2 as word, b3 as word)
  {
  }

  // Loading four bytes gives w exactly when they are the bytes of w.
  lemma BytesOfWord(w: word, b0: byte, b1: byte, b2: byte, b3: byte)
    ensures LoadWord([b0, b1, b2, b3], 0) == w <==> [b0, b1, b2, b3] == WordBytes(w)
  {
    hide Four, Part, WordByte, LoadWord;
    LoadFour(b0, b1, b2, b3);
    FourOfParts(w);
    IsByteOf(b0, w, 0);
    IsByteOf(b1, w, 1);
    IsByteOf(b2, w, 2);
    IsByteOf(b3, w, 3);
    PartsOfFour(b0 as word, b1 as word, b2 as word, b3 as word);
  }

  // The digest is the one text of 16 bytes that, loaded the way message words
  // are, gives the registers.
  lemma OutputLoadsBack(h: Hash, s: seq<byte>)
    requires |s| == 16
    ensures s == Output(h) <==> forall i :: 0 <= i < 4 ==> LoadWord(s, 4 * i) == Register(h, i)
  {
    hide WordByte, Register, LoadWord, Output;
    var o := Output(h);
    forall i | 0 <= i < 4
      ensures LoadWord(s, 4 * i) == Register(h, i) <==> forall k :: 4 * i <= k < 4 * i + 4 ==> s[k] == o[k]
    {
      WordOfOutput(h, s, i);
    }
    if forall i :: 0 <= i < 4 ==> LoadWord(s, 4 * i) == Register(h, i) {
      forall k | 0 <= k < 16 ensures s[k] == o[k] {
        assert LoadWord(s, 4 * (k / 4)) == Register(h, k / 4);
      }
    }
  }

  lemma WordOfOutput(h: Hash, s: seq<byte>, i: nat)
    requires |s| == 16 && i < 4
    ensures LoadWord(s, 4 * i) == Register(h, i)
            <==> forall k :: 4 * i <= k < 4 * i + 4 ==> s[k] == Output(h)[k]
  {
    hide WordByte, Register, LoadWord, Output;
    var o, j := Output(h), 4 * i;
    LoadHere(s, j);
    BytesOfWord(Register(h, i), s[j], s[j + 1], s[j + 2], s[j + 3]);
    OutputAt(h, i, 0);
    OutputAt(h, i, 1);
    OutputAt(h, i, 2);
    OutputAt(h, i, 3);
  }

  lemma LoadHere(s: seq<byte>, j: nat)
    requires j + 4 <= |s|
    ensures LoadWord(s, j) == LoadWord([s[j], s[j + 1], s[j + 2], s[j + 3]], 0)
  {
  }

  lemma OutputAt(h: Hash, i: nat, n: nat)
    requires i < 4 && n < 4
    ensures Output(h)[4 * i + n] == WordByte(Register(h, i), n)
  {
    hide WordByte, Register;
    assert (4 * i + n) / 4 == i && (4 * i + n) % 4 == n;
  }

  function Md5(msg: seq<byte>): seq<byte> { Output(Blocks(IV, Pad(msg))) }
}
