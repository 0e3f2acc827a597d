// The Base85 printer of binary_to_compressed_c.cpp and a reader of its output:
// C string literals on one side, little-endian words on the other.
module Base85 {
  import opened Bytes
  import opened Wrappers
  import opened LzFormat

  // ----- words and digits -----

  function Encode85Byte(x: nat): char {
    var y := x % 85 + 35;
    (if y >= 92 then y + 1 else y) as char
  }

  function Decode85Char(c: char): nat {
    var y := c as nat;
    if y > 92 then y - 36 else if y >= 35 then y - 35 else 0
  }

  // The printable characters Encode85Byte yields: no quote, no backslash, no line end.
  predicate Plain(c: char) { '#' <= c <= 'x' && c != '\\' }

  lemma CharRoundTrip(x: nat)
    ensures Plain(Encode85Byte(x)) && Decode85Char(Encode85Byte(x)) == x % 85
  {
  }

  // *(unsigned int*)p on a little-endian machine.
  function Word(b: seq<byte>): nat
    requires |b| == 4
  {
    At(b, 0) + 0x100 * At(b, 1) + 0x1_0000 * At(b, 2) + 0x100_0000 * At(b, 3)
  }

  function WordBytes(w: nat): seq<byte> {
    [Low(w), Low(w / 0x100), Low(w / 0x1_0000), Low(w / 0x100_0000)]
  }

  // n base-85 digits, least significant first, and their value.
  function Digits(w: nat, n: nat): (c: seq<char>)
    ensures |c| == n
    decreases n
  {
    if n == 0 then [] else [Encode85Byte(w)] + Digits(w / 85, n - 1)
  }

  function Value(c: seq<char>): nat {
    if c == [] then 0 else Decode85Char(c[0]) + 85 * Value(c[1..])
  }

  function Pow85(n: nat): nat { if n == 0 then 1 else 85 * Pow85(n - 1) }

  lemma WordRoundTrip(b: seq<byte>)
    requires |b| == 4
    ensures WordBytes(Word(b)) == b && Word(b) < 0x1_0000_0000
  {
    var w := Word(b);
    assert w / 0x100 == At(b, 1) + 0x100 * At(b, 2) + 0x1_0000 * At(b, 3);
    assert w / 0x1_0000 == At(b, 2) + 0x100 * At(b, 3);
    assert w / 0x100_0000 == At(b, 3);
  }

  lemma {:induction false} DigitsRoundTrip(w: nat, n: nat)
    requires w < Pow85(n)
    ensures Value(Digits(w, n)) == w
    ensures forall i :: 0 <= i < n ==> Plain(Digits(w, n)[i])
    decreases n
  {
    if n > 0 {
      CharRoundTrip(w);
      DigitsRoundTrip(w / 85, n - 1);
      assert Digits(w, n)[1..] == Digits(w / 85, n - 1);
    }
  }

  // Five digits hold every 32-bit word.
  lemma FiveDigitsSuffice()
    ensures Pow85(5) > 0x1_0000_0000
  {
  }

  // All characters for whole words of bytes, and back.
  function Chars(b: seq<byte>): (c: seq<char>)
    requires |b| % 4 == 0
    ensures |c| == |b| / 4 * 5 && |c| % 5 == 0
  {
    if b == [] then []
    else
      WordFewer(|b|);
      Fives(|b| / 4);
      Digits(Word(b[..4]), 5) + Chars(b[4..])
  }

  lemma WordFewer(n: nat)
    requires n % 4 == 0 && n > 0
    ensures n >= 4 && (n - 4) % 4 == 0 && (n - 4) / 4 == n / 4 - 1
  {
  }

  lemma Fives(k: nat)
    ensures k * 5 % 5 == 0
  {
    var d := k * 5 / 5;
    if d < k {} else if d > k {}
  }

  function ToBytes(c: seq<char>): seq<byte>
    requires |c| % 5 == 0
  {
    if c == [] then [] else WordBytes(Value(c[..5])) + ToBytes(c[5..])
  }

  lemma {:induction false} CharsRoundTrip(b: seq<byte>)
    requires |b| % 4 == 0
    ensures ToBytes(Chars(b)) == b
  {
    hide Digits, Value, WordBytes, Word, Pow85, Chars;
    if b == [] {
      NoChars(b);
    } else {
      var w := Word(b[..4]);
      CharsStep(b);
      CharsRoundTrip(b[4..]);
      WordRoundTrip(b[..4]);
      FiveDigitsSuffice();
      DigitsRoundTrip(w, 5);
      var c := Chars(b);
      assert c[..5] == Digits(w, 5) && c[5..] == Chars(b[4..]);
      assert b == b[..4] + b[4..];
    }
  }

  lemma NoChars(b: seq<byte>)
    requires b == []
    ensures Chars(b) == []
  {
  }

  lemma {:induction false} CharsPlain(b: seq<byte>)
    requires |b| % 4 == 0
    ensures forall i :: 0 <= i < |Chars(b)| ==> Plain(Chars(b)[i])
  {
    hide Digits, Word, Plain, Pow85;
    if b != [] {
      CharsPlain(b[4..]);
      WordRoundTrip(b[..4]);
      FiveDigitsSuffice();
      DigitsRoundTrip(Word(b[..4]), 5);
    }
  }

  // The five characters of word w.
  lemma {:induction false} CharsAt(b: seq<byte>, w: nat)
    requires |b| % 4 == 0 && 4 * w + 4 <= |b|
    ensures 5 * w + 5 <= |Chars(b)| && Chars(b)[5 * w..5 * w + 5] == Digits(Word(b[4 * w..4 * w + 4]), 5)
    decreases w
  {
    hide Digits, Word, Chars;
    CharsStep(b);
    var rest := b[4..];
    var first, others := Digits(Word(b[..4]), 5), Chars(rest);
    if w == 0 {
      assert (first + others)[..5] == first;
    } else {
      CharsAt(rest, w - 1);
      assert rest[4 * w - 4..4 * w] == b[4 * w..4 * w + 4];
      SliceBehind(first, others, 5 * w - 5, 5 * w);
    }
  }

  lemma CharsStep(b: seq<byte>)
    requires |b| % 4 == 0 && b != []
    ensures Chars(b) == Digits(Word(b[..4]), 5) + Chars(b[4..])
  {
  }

  lemma SliceBehind<T>(x: seq<T>, y: seq<T>, lo: nat, hi: nat)
    requires lo <= hi <= |y|
    ensures (x + y)[|x| + lo..|x| + hi] == y[lo..hi]
  {
  }

  // ----- the printed text -----

  const BREAK := "\"\n    \""

  // The characters as printed: a question mark after a question mark is
  // escaped, and the literal is closed and reopened after every 28 words.
  function Printed(c: seq<char>): string {
    if c == [] then ""
    else
      var n := |c|;
      Printed(c[..n - 1])
      + (if c[n - 1] == '?' && n > 1 && c[n - 2] == '?' then "\\?" else [c[n - 1]])
      + (if n % 140 == 0 then BREAK else "")
  }

  // The value of adjacent C string literals up to the semicolon.
  function ReadC(s: string, inside: bool): Option<string>
    decreases |s|
  {
    if s == "" then None
    else if inside then
      if s[0] == '"' then ReadC(s[1..], false)
      else if s[0] == '\n' then None
      else if s[0] == '\\' then
        if |s| > 1 && s[1] == '?' then Prepend("?", ReadC(s[2..], true)) else None
      else Prepend([s[0]], ReadC(s[1..], true))
    else if s[0] == ' ' || s[0] == '\n' then ReadC(s[1..], false)
    else if s[0] == '"' then ReadC(s[1..], true)
    else if s[0] == ';' then Some("")
    else None
  }

  function Prepend(a: string, o: Option<string>): Option<string> {
    match o
    case None => None
    case Some(v) => Some(a + v)
  }

  lemma ReadsCloseOpen(tail: string)
    ensures ReadC("\"" + tail, true) == ReadC(tail, false)
    ensures ReadC("\"" + tail, false) == ReadC(tail, true)
  {
  }

  lemma ReadsSpace(c: char, tail: string)
    requires c == ' ' || c == '\n'
    ensures ReadC([c] + tail, false) == ReadC(tail, false)
  {
  }

  lemma ReadsBreak(tail: string)
    ensures ReadC(BREAK + tail, true) == ReadC(tail, true)
  {
    hide ReadC;
    var t := "\"" + tail;
    ReadsCloseOpen(tail);
    ReadsSpace(' ', t);
    ReadsSpace(' ', [' '] + t);
    ReadsSpace(' ', [' '] + ([' '] + t));
    ReadsSpace(' ', [' '] + ([' '] + ([' '] + t)));
    var u := [' '] + ([' '] + ([' '] + ([' '] + t)));
    ReadsSpace('\n', u);
    ReadsCloseOpen(['\n'] + u);
    assert BREAK + tail == "\"" + (['\n'] + u);
  }

  lemma ReadsChar(c: char, escaped: bool, tail: string)
    requires Plain(c) && (escaped ==> c == '?')
    ensures ReadC((if escaped then "\\?" else [c]) + tail, true) == Prepend([c], ReadC(tail, true))
  {
  }

  lemma PrependTwice(a: string, b: string, o: Option<string>)
    ensures Prepend(a, Prepend(b, o)) == Prepend(a + b, o) && Prepend([], o) == o
  {
    match o
    case None =>
    case Some(v) => assert a + (b + v) == a + b + v && [] + v == v;
  }

  // C reads the printed text as the characters that were printed.
  lemma {:induction false} ReadsPrinted(c: seq<char>, tail: string)
    requires forall i :: 0 <= i < |c| ==> Plain(c[i])
    ensures ReadC(Printed(c) + tail, true) == Prepend(c, ReadC(tail, true))
    decreases |c|
  {
    hide ReadC, Plain, Printed;
    if c == [] {
      PrintedNothing(c);
      assert c[..0] == c && "" + tail == tail;
      PrependTwice([], [], ReadC(tail, true));
    } else {
      var n := |c|;
      var escaped := c[n - 1] == '?' && n > 1 && c[n - 2] == '?';
      var last := if escaped then "\\?" else [c[n - 1]];
      var gap := if n % 140 == 0 then BREAK else "";
      var rest := gap + tail;
      PrintedLast(c);
      assert Printed(c[..n - 1]) + last + gap + tail == Printed(c[..n - 1]) + (last + rest);
      ReadsPrinted(c[..n - 1], last + rest);
      ReadsChar(c[n - 1], escaped, rest);
      assert ReadC(rest, true) == ReadC(tail, true) by {
        if n % 140 == 0 { ReadsBreak(tail); } else { assert rest == tail; }
      }
      PrependTwice(c[..n - 1], [c[n - 1]], ReadC(tail, true));
      assert c == c[..n - 1] + [c[n - 1]];
    }
  }

  lemma PrintedLast(c: seq<char>)
    requires c != []
    ensures var n := |c|;
            Printed(c) == Printed(c[..n - 1])
              + (if c[n - 1] == '?' && n > 1 && c[n - 2] == '?' then "\\?" else [c[n - 1]])
              + (if n % 140 == 0 then BREAK else "")
  {
  }

  // No two question marks meet, so no trigraph can arise.
  ghost predicate NoTrigraph(s: string) {
    forall i :: 0 <= i < |s| - 1 ==> !(s[i] == '?' && s[i + 1] == '?')
  }

  lemma {:induction false} PrintedHasNoTrigraph(c: seq<char>)
    ensures NoTrigraph(Printed(c))
    ensures Printed(c) != "" && Printed(c)[|Printed(c)| - 1] == '?' ==> c != [] && c[|c| - 1] == '?'
    ensures Printed(c) == "" ==> c == []
  {
    hide Printed;
    if c == [] {
      PrintedNothing(c);
      assert c[..0] == c;
    } else {
      PrintedHasNoTrigraph(c[..|c| - 1]);
      PrintedLast(c);
    }
  }

  // Where a question mark follows another.
  function Doubled(c: seq<char>): nat {
    if c == [] then 0
    else
      var n := |c|;
      Doubled(c[..n - 1]) + if n > 1 && c[n - 1] == '?' && c[n - 2] == '?' then 1 else 0
  }

  function LineBreaks(s: string): nat {
    if s == "" then 0 else LineBreaks(s[..|s| - 1]) + if s[|s| - 1] == '\n' then 1 else 0
  }

  // Exactly the doubled question marks are escaped, and a line holds 140
  // characters: seven bytes are spent on each break.
  lemma {:induction false} PrintedLength(c: seq<char>)
    requires forall i :: 0 <= i < |c| ==> Plain(c[i])
    ensures |Printed(c)| == |c| + Doubled(c) + 7 * (|c| / 140)
    ensures LineBreaks(Printed(c)) == |c| / 140
  {
    hide Printed, LineBreaks;
    if c == [] {
      PrintedNothing(c);
      assert c[..0] == c;
      NoLineBreaks("");
    } else {
      var n := |c|;
      var front := Printed(c[..n - 1]);
      PrintedLength(c[..n - 1]);
      PrintedLast(c);
      var last := if c[n - 1] == '?' && n > 1 && c[n - 2] == '?' then "\\?" else [c[n - 1]];
      NoLineBreaks(last);
      LineBreaksConcat(front, last);
      LineBreaksConcat(front + last, if n % 140 == 0 then BREAK else "");
      NoLineBreaks("");
      OneLineBreak();
      NextOf140(n);
    }
  }

  lemma NextOf140(n: nat)
    requires n > 0
    ensures n / 140 == (n - 1) / 140 + if n % 140 == 0 then 1 else 0
  {
  }

  lemma NoLineBreaks(s: string)
    requires |s| <= 2 && '\n' !in s
    ensures LineBreaks(s) == 0
  {
  }

  lemma OneLineBreak()
    ensures LineBreaks(BREAK) == 1 && |BREAK| == 7
  {
    hide LineBreaks;
    LineBreaksConcat("\"\n", "    \"");
    LineBreaksConcat("  ", "  \"");
    LineBreaksConcat("  ", "\"");
    LineBreaksConcat("\"", "\n");
    NoLineBreaks("  ");
    NoLineBreaks("\"");
    OnlyLineBreak();
    assert BREAK == "\"\n" + "    \"" && "    \"" == "  " + "  \"" && "  \"" == "  " + "\"";
    assert "\"\n" == "\"" + "\n";
  }

  lemma OnlyLineBreak()
    ensures LineBreaks("\n") == 1
  {
  }

  lemma {:induction false} LineBreaksConcat(a: string, b: string)
    ensures LineBreaks(a + b) == LineBreaks(a) + LineBreaks(b)
  {
    if b == "" {
      assert a + b == a;
    } else {
      assert (a + b)[..|a + b| - 1] == a + b[..|b| - 1];
      LineBreaksConcat(a, b[..|b| - 1]);
    }
  }

  // ----- the tool -----

  // The bytes zero-padded to whole words.
  function Padded(b: seq<byte>): (p: seq<byte>)
    ensures |p| == (|b| + 3) / 4 * 4 && |p| % 4 == 0 && b <= p
  {
    b + seq((|b| + 3) / 4 * 4 - |b|, _ => 0)
  }

  // The output loop: what fprintf writes between the quotes.
  method PrintBase85(compressed: array<byte>, size: nat) returns (out: string)
    requires size <= compressed.Length && Padded(compressed[..size]) <= compressed[..]
    ensures out == Printed(Chars(Padded(compressed[..size])))
  {
    hide Printed, Chars, Word, Digits, Padded;
    ghost var p := Padded(compressed[..size]);
    ghost var c := Chars(p);
    ghost var words := (size + 3) / 4;
    assert |p| == 4 * words && |c| == 5 * words;
    out := "";
    PrintedNothing(c);
    var prev, at := '\0', 0;
    ghost var w := 0;
    while at < size
      invariant at == 4 * w && w <= words
      invariant out == Printed(c[..5 * w])
      invariant prev == if w == 0 then '\0' else c[5 * w - 1]
    {
      CharsAt(p, w);
      assert compressed[at..at + 4] == compressed[..][at..at + 4] == p[at..at + 4];
      out, prev := PrintWord(Word(compressed[at..at + 4]), at, out, prev, c, w);
      at := at + 4;
      w := w + 1;
    }
    assert w == words && c[..5 * w] == c;
  }

  lemma PrintedNothing(c: seq<char>)
    ensures Printed(c[..0]) == ""
  {
  }

  // One word: five digits, and the line break after every 112 bytes.
  method PrintWord(word: nat, at: nat, sofar: string, lastChar: char, ghost c: seq<char>, ghost w: nat)
    returns (out: string, prev: char)
    requires at == 4 * w && 5 * w + 5 <= |c| && c[5 * w..5 * w + 5] == Digits(word, 5)
    requires sofar == Printed(c[..5 * w])
    requires lastChar == if w == 0 then '\0' else c[5 * w - 1]
    ensures out == Printed(c[..5 * w + 5]) && prev == c[5 * w + 4]
  {
    hide Digits, Printed, Encode85Byte;
    ghost var k := 5 * w;
    out, prev := sofar, lastChar;
    assert c[..k + 0] == c[..k];
    var d, n5 := word, 0;
    while n5 < 5
      invariant n5 <= 5 && c[k + n5..k + 5] == Digits(d, 5 - n5)
      invariant prev == if k + n5 == 0 then '\0' else c[k + n5 - 1]
      invariant out + (if n5 == 5 && at % 112 == 108 then BREAK else "") == Printed(c[..k + n5])
    {
      var ch := Encode85Byte(d);
      FirstDigit(d, 5 - n5);
      assert c[k + n5] == c[k + n5..k + 5][0];
      assert c[k + n5 + 1..k + 5] == c[k + n5..k + 5][1..];
      PrintedStep(c, w, n5);
      out := out + if ch == '?' && prev == '?' then "\\?" else [ch];
      prev := ch;
      d := d / 85;
      n5 := n5 + 1;
    }
    if at % 112 == 112 - 4 {
      out := out + BREAK;
    }
  }

  // One more character, seen from the word it belongs to.
  lemma PrintedStep(c: seq<char>, w: nat, n5: nat)
    requires n5 < 5 && 5 * w + n5 < |c|
    ensures var i := 5 * w + n5;
            Printed(c[..i + 1]) == Printed(c[..i])
              + (if c[i] == '?' && i > 0 && c[i - 1] == '?' then "\\?" else [c[i]])
              + (if n5 == 4 && 4 * w % 112 == 108 then BREAK else "")
  {
    hide Printed;
    var i := 5 * w + n5;
    BreakPosition(w, n5);
    assert c[..i + 1][..i] == c[..i];
    PrintedLast(c[..i + 1]);
  }

  lemma BreakPosition(w: nat, n5: nat)
    requires n5 < 5
    ensures (5 * w + n5 + 1) % 140 == 0 <==> n5 == 4 && 4 * w % 112 == 108
  {
    var q, r := w / 28, w % 28;
    var rest := 5 * r + n5 + 1;
    assert w == 28 * q + r;
    if rest == 140 { Mod140(q + 1, 0); } else { Mod140(q, rest); }
    Mod112(q, 4 * r);
  }

  lemma Mod140(q: nat, r: nat)
    requires r < 140
    ensures (140 * q + r) % 140 == r
  {
    var d := (140 * q + r) / 140;
    if d < q {} else if d > q {}
  }

  lemma Mod112(q: nat, r: nat)
    requires r < 112
    ensures (112 * q + r) % 112 == r
  {
    var d := (112 * q + r) / 112;
    if d < q {} else if d > q {}
  }

  lemma FirstDigit(d: nat, n: nat)
    requires n > 0
    ensures Digits(d, n)[0] == Encode85Byte(d) && Digits(d, n)[1..] == Digits(d / 85, n - 1)
  {
  }
}
