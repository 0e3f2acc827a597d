// The byte stream that binary_to_compressed_c.cpp emits, and its meaning.
//
// The repository ships only the writer. The reader below is written from the
// opcode ranges the writer uses and serves as the specification of the stream.
module LzFormat {
  import opened Bytes
  import opened Wrappers

  // What the cast to stb_uchar keeps of a value.
  function Low(v: nat): byte { v % 256 }

  function Out2(v: nat): (s: seq<byte>)
    ensures |s| == 2
  {
    [Low(v / 0x100), Low(v)]
  }

  function Out3(v: nat): (s: seq<byte>)
    ensures |s| == 3
  {
    [Low(v / 0x1_0000), Low(v / 0x100), Low(v)]
  }

  function Out4(v: nat): (s: seq<byte>)
    ensures |s| == 4
  {
    [Low(v / 0x100_0000), Low(v / 0x1_0000), Low(v / 0x100), Low(v)]
  }

  // A byte widened to an unbounded number.
  function At(s: seq<byte>, i: nat): nat
    requires i < |s|
  {
    s[i]
  }

  function In2(s: seq<byte>, i: nat): nat
    requires i + 2 <= |s|
  {
    At(s, i) * 0x100 + At(s, i + 1)
  }

  function In3(s: seq<byte>, i: nat): nat
    requires i + 3 <= |s|
  {
    At(s, i) * 0x1_0000 + At(s, i + 1) * 0x100 + At(s, i + 2)
  }

  function In4(s: seq<byte>, i: nat): nat
    requires i + 4 <= |s|
  {
    In2(s, i) * 0x1_0000 + In2(s, i + 2)
  }

  // The operations of the stream. A match names the opcode family it uses.
  datatype Form = Short | Mid | Far3 | Far3Long | Far6 | Far4

  datatype Op =
    | Literals(data: seq<byte>)
    | Match(form: Form, dist: nat, len: nat)

  // The field ranges of every opcode.
  predicate Fits(op: Op) {
    match op
    case Literals(d) => 0 < |d| <= 0x1_0000
    case Match(Short, dist, len) => 0 < dist <= 0x100 && 0 < len <= 0x80
    case Match(Mid, dist, len) => 0 < dist <= 0x4000 && 0 < len <= 0x100
    case Match(Far3, dist, len) => 0 < dist <= 0x8_0000 && 0 < len <= 0x100
    case Match(Far3Long, dist, len) => 0 < dist <= 0x8_0000 && 0 < len <= 0x1_0000
    case Match(Far6, dist, len) => 0 < dist <= 0x100_0000 && 0 < len <= 0x100
    case Match(Far4, dist, len) => 0 < dist <= 0x100_0000 && 0 < len <= 0x1_0000
  }

  function LiteralHeader(n: nat): seq<byte>
    requires 0 < n <= 0x1_0000
  {
    if n <= 32 then [Low(0x20 + n - 1)]
    else if n <= 2048 then Out2(0x800 + n - 1)
    else Out3(0x7_0000 + n - 1)
  }

  function MatchBytes(form: Form, dist: nat, len: nat): seq<byte>
    requires 0 < dist && 0 < len
  {
    match form
    case Short => [Low(0x80 + len - 1), Low(dist - 1)]
    case Mid => Out2(0x4000 + dist - 1) + [Low(len - 1)]
    case Far3 => Out3(0x18_0000 + dist - 1) + [Low(len - 1)]
    case Far3Long => Out3(0x10_0000 + dist - 1) + Out2(len - 1)
    case Far6 => [0x06] + Out3(dist - 1) + [Low(len - 1)]
    case Far4 => [0x04] + Out3(dist - 1) + Out2(len - 1)
  }

  function OpBytes(op: Op): seq<byte>
    requires Fits(op)
  {
    match op
    case Literals(d) => LiteralHeader(|d|) + d
    case Match(form, dist, len) => MatchBytes(form, dist, len)
  }

  // ----- the reader -----

  function ReadLiterals(s: seq<byte>, at: nat, n: nat): Option<(Op, nat)>
    requires at <= |s|
  {
    if at + n <= |s| then Some((Literals(s[at..at + n]), at + n)) else None
  }

  function ReadMatch(s: seq<byte>): Option<(Op, nat)>
    requires s != [] && s[0] != 0x07 && !(0x08 <= s[0] < 0x10) && !(0x20 <= s[0] < 0x40)
  {
    var b := At(s, 0);
    if b >= 0x80 then
      if |s| < 2 then None else Some((Match(Short, At(s, 1) + 1, b - 0x80 + 1), 2))
    else if b >= 0x40 then
      if |s| < 3 then None else Some((Match(Mid, In2(s, 0) - 0x4000 + 1, At(s, 2) + 1), 3))
    else if b >= 0x18 then
      if |s| < 4 then None else Some((Match(Far3, In3(s, 0) - 0x18_0000 + 1, At(s, 3) + 1), 4))
    else if b >= 0x10 then
      if |s| < 5 then None else Some((Match(Far3Long, In3(s, 0) - 0x10_0000 + 1, In2(s, 3) + 1), 5))
    else if b == 0x06 then
      if |s| < 5 then None else Some((Match(Far6, In3(s, 1) + 1, At(s, 4) + 1), 5))
    else if b == 0x04 then
      if |s| < 6 then None else Some((Match(Far4, In3(s, 1) + 1, In2(s, 4) + 1), 6))
    else None
  }

  // The first operation of s, and how many bytes it takes.
  function ReadOp(s: seq<byte>): (r: Option<(Op, nat)>)
    ensures r.Some? ==> 0 < r.value.1 <= |s|
  {
    if s == [] then None
    else if 0x20 <= s[0] < 0x40 then ReadLiterals(s, 1, At(s, 0) - 0x20 + 1)
    else if 0x08 <= s[0] < 0x10 then
      if |s| < 2 then None else ReadLiterals(s, 2, In2(s, 0) - 0x800 + 1)
    else if s[0] == 0x07 then
      if |s| < 3 then None else ReadLiterals(s, 3, In2(s, 1) + 1)
    else ReadMatch(s)
  }

  // Copying len bytes from dist back, one byte at a time: a copy longer than
  // dist reads bytes that the same copy wrote.
  function CopyBack(out: seq<byte>, dist: nat, len: nat): seq<byte>
    requires 0 < dist <= |out|
    decreases len
  {
    if len == 0 then out else CopyBack(out + [out[|out| - dist]], dist, len - 1)
  }

  // Expand operations onto out until the end opcode; gives the text and the
  // bytes after the end opcode.
  function Expand(s: seq<byte>, out: seq<byte>): Option<(seq<byte>, seq<byte>)>
    decreases |s|
  {
    if |s| >= 2 && s[0] == 0x05 && s[1] == 0xfa then Some((out, s[2..]))
    else match ReadOp(s)
      case None => None
      case Some((Literals(d), n)) => Expand(s[n..], out + d)
      case Some((Match(form, dist, len), n)) =>
        if 0 < dist <= |out| then Expand(s[n..], CopyBack(out, dist, len)) else None
  }

  datatype Decoded = Decoded(data: seq<byte>, length: nat, window: nat, adler: nat)

  // The whole stream: signature, zero high length word, length, window,
  // operations, end opcode, checksum.
  function Decode(s: seq<byte>): Option<Decoded> {
    if |s| < 16 || s[..8] != [0x57, 0xbc, 0, 0, 0, 0, 0, 0] then None
    else match Expand(s[16..], [])
      case None => None
      case Some((data, rest)) =>
        if |rest| != 4 then None
        else Some(Decoded(data, In4(s, 8), In4(s, 12), In4(rest, 0)))
  }

  // ----- properties -----

  lemma Digits2(v: nat, s: seq<byte>, i: nat)
    requires v < 0x1_0000 && i + 2 <= |s| && s[i..i + 2] == Out2(v)
    ensures In2(s, i) == v && At(s, i) == v / 0x100
  {
    assert s[i] == s[i..i + 2][0] && s[i + 1] == s[i..i + 2][1];
  }

  lemma Digits3(v: nat, s: seq<byte>, i: nat)
    requires v < 0x100_0000 && i + 3 <= |s| && s[i..i + 3] == Out3(v)
    ensures In3(s, i) == v && At(s, i) == v / 0x1_0000
  {
    assert s[i] == s[i..i + 3][0] && s[i + 1] == s[i..i + 3][1] && s[i + 2] == s[i..i + 3][2];
    assert v / 0x100 % 0x100 == v / 0x100 - 0x100 * (v / 0x1_0000);
  }

  lemma LiteralsReadBack(d: seq<byte>, tail: seq<byte>)
    requires Fits(Literals(d))
    ensures ReadOp(OpBytes(Literals(d)) + tail) == Some((Literals(d), |OpBytes(Literals(d))|))
  {
    hide ReadMatch;
    var n := |d|;
    var s := LiteralHeader(n) + d + tail;
    var h := |LiteralHeader(n)|;
    assert s[h..h + n] == d;
    if n <= 32 {
    } else if n <= 2048 {
      assert s[0..2] == Out2(0x800 + n - 1);
      Digits2(0x800 + n - 1, s, 0);
    } else {
      assert s[0..3] == Out3(0x7_0000 + n - 1);
      Digits3(0x7_0000 + n - 1, s, 0);
    }
  }

  lemma ShortReadsBack(dist: nat, len: nat, tail: seq<byte>)
    requires Fits(Match(Short, dist, len))
    ensures ReadOp(MatchBytes(Short, dist, len) + tail) == Some((Match(Short, dist, len), 2))
  {
  }

  lemma MidReadsBack(dist: nat, len: nat, tail: seq<byte>)
    requires Fits(Match(Mid, dist, len))
    ensures ReadOp(MatchBytes(Mid, dist, len) + tail) == Some((Match(Mid, dist, len), 3))
  {
    var s := MatchBytes(Mid, dist, len) + tail;
    assert s[0..2] == Out2(0x4000 + dist - 1);
    Digits2(0x4000 + dist - 1, s, 0);
  }

  lemma Far3ReadsBack(dist: nat, len: nat, tail: seq<byte>)
    requires Fits(Match(Far3, dist, len))
    ensures ReadOp(MatchBytes(Far3, dist, len) + tail) == Some((Match(Far3, dist, len), 4))
  {
    var s := MatchBytes(Far3, dist, len) + tail;
    assert s[0..3] == Out3(0x18_0000 + dist - 1);
    Digits3(0x18_0000 + dist - 1, s, 0);
  }

  lemma Far3LongReadsBack(dist: nat, len: nat, tail: seq<byte>)
    requires Fits(Match(Far3Long, dist, len))
    ensures ReadOp(MatchBytes(Far3Long, dist, len) + tail) == Some((Match(Far3Long, dist, len), 5))
  {
    var s := MatchBytes(Far3Long, dist, len) + tail;
    assert s[0..3] == Out3(0x10_0000 + dist - 1);
    assert s[3..5] == Out2(len - 1);
    Digits3(0x10_0000 + dist - 1, s, 0);
    Digits2(len - 1, s, 3);
  }

  lemma Far6ReadsBack(dist: nat, len: nat, tail: seq<byte>)
    requires Fits(Match(Far6, dist, len))
    ensures ReadOp(MatchBytes(Far6, dist, len) + tail) == Some((Match(Far6, dist, len), 5))
  {
    var s := MatchBytes(Far6, dist, len) + tail;
    assert s[1..4] == Out3(dist - 1);
    Digits3(dist - 1, s, 1);
  }

  lemma Far4ReadsBack(dist: nat, len: nat, tail: seq<byte>)
    requires Fits(Match(Far4, dist, len))
    ensures ReadOp(MatchBytes(Far4, dist, len) + tail) == Some((Match(Far4, dist, len), 6))
  {
    var s := MatchBytes(Far4, dist, len) + tail;
    assert s[1..4] == Out3(dist - 1);
    assert s[4..6] == Out2(len - 1);
    Digits3(dist - 1, s, 1);
    Digits2(len - 1, s, 4);
  }

  // Reading undoes writing, whatever follows.
  lemma ReadsBack(op: Op, tail: seq<byte>)
    requires Fits(op)
    ensures ReadOp(OpBytes(op) + tail) == Some((op, |OpBytes(op)|))
  {
    hide ReadOp;
    match op
    case Literals(d) => LiteralsReadBack(d, tail);
    case Match(Short, dist, len) => ShortReadsBack(dist, len, tail);
    case Match(Mid, dist, len) => MidReadsBack(dist, len, tail);
    case Match(Far3, dist, len) => Far3ReadsBack(dist, len, tail);
    case Match(Far3Long, dist, len) => Far3LongReadsBack(dist, len, tail);
    case Match(Far6, dist, len) => Far6ReadsBack(dist, len, tail);
    case Match(Far4, dist, len) => Far4ReadsBack(dist, len, tail);
  }

  // The opcode grammar is a prefix code.
  lemma UniquelyDecodable(a: Op, x: seq<byte>, b: Op, y: seq<byte>)
    requires Fits(a) && Fits(b)
    requires OpBytes(a) + x == OpBytes(b) + y
    ensures a == b && x == y
  {
    ReadsBack(a, x);
    ReadsBack(b, y);
    assert x == (OpBytes(a) + x)[|OpBytes(a)|..];
    assert y == (OpBytes(b) + y)[|OpBytes(b)|..];
  }

  // No operation can be mistaken for the end opcode.
  lemma NotEndOpcode(op: Op, tail: seq<byte>)
    requires Fits(op)
    ensures (OpBytes(op) + tail)[0] != 0x05
  {
    ReadsBack(op, tail);
  }

  // A match that agrees with the text ahead of it reproduces that text, also
  // when it overlaps itself.
  lemma {:induction false} CopyReproduces(text: seq<byte>, q: nat, dist: nat, len: nat)
    requires 0 < dist <= q && q + len <= |text|
    requires forall i :: q <= i < q + len ==> text[i] == text[i - dist]
    ensures CopyBack(text[..q], dist, len) == text[..q + len]
    decreases len
  {
    if len > 0 {
      assert text[..q] + [text[q - dist]] == text[..q + 1];
      CopyReproduces(text, q + 1, dist, len - 1);
    }
  }

  // e takes the reader from output h to output h2 and leaves it before an operation.
  ghost predicate Yields(e: seq<byte>, h: seq<byte>, h2: seq<byte>) {
    forall tail: seq<byte> :: Expand(e + tail, h) == Expand(tail, h2)
  }

  lemma YieldsNothing(h: seq<byte>)
    ensures Yields([], h, h)
  {
    forall tail: seq<byte> ensures Expand([] + tail, h) == Expand(tail, h) {
      assert [] + tail == tail;
    }
  }

  lemma YieldsConcat(e1: seq<byte>, e2: seq<byte>, h0: seq<byte>, h1: seq<byte>, h2: seq<byte>)
    requires Yields(e1, h0, h1) && Yields(e2, h1, h2)
    ensures Yields(e1 + e2, h0, h2)
  {
    hide Expand;
    forall tail: seq<byte> ensures Expand(e1 + e2 + tail, h0) == Expand(tail, h2) {
      assert e1 + e2 + tail == e1 + (e2 + tail);
      assert Expand(e1 + (e2 + tail), h0) == Expand(e2 + tail, h1);
    }
  }

  lemma YieldsLiterals(d: seq<byte>, h: seq<byte>)
    requires Fits(Literals(d))
    ensures Yields(OpBytes(Literals(d)), h, h + d)
  {
    var e := OpBytes(Literals(d));
    forall tail: seq<byte> ensures Expand(e + tail, h) == Expand(tail, h + d) {
      ReadsBack(Literals(d), tail);
      NotEndOpcode(Literals(d), tail);
      assert (e + tail)[|e|..] == tail;
    }
  }

  lemma YieldsMatch(form: Form, dist: nat, len: nat, h: seq<byte>)
    requires Fits(Match(form, dist, len)) && dist <= |h|
    ensures Yields(MatchBytes(form, dist, len), h, CopyBack(h, dist, len))
  {
    var e := MatchBytes(form, dist, len);
    forall tail: seq<byte> ensures Expand(e + tail, h) == Expand(tail, CopyBack(h, dist, len)) {
      ReadsBack(Match(form, dist, len), tail);
      NotEndOpcode(Match(form, dist, len), tail);
      assert (e + tail)[|e|..] == tail;
    }
  }
}
