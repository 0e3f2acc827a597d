// name_to_id: sequential table replacement, the substitution it amounts to, and
// when different names get different ids.
module NameId {
  import opened Strings
  import opened Whitespace

  // ----- replacement -----

  // One pass per table row, in order.
  function ReplaceRows(s: string, search: seq<string>, with: seq<string>, n: nat): string
    requires n <= |search| && n <= |with|
  {
    if n == 0 then s else ReplaceAll(ReplaceRows(s, search, with, n - 1), search[n - 1], with[n - 1])
  }

  // replace_all over two tables; the shorter one ends it.
  method ReplaceTables(str: string, search: seq<string>, with: seq<string>) returns (s: string)
    ensures s == ReplaceRows(str, search, with, if |search| < |with| then |search| else |with|)
  {
    s := str;
    var max := if |search| < |with| then |search| else |with|;
    for n := 0 to max
      invariant s == ReplaceRows(str, search, with, n)
    {
      s := ReplaceAll(s, search[n], with[n]);
    }
  }

  // ----- substitution of single characters -----

  function Subst(s: string, f: char -> string): string {
    if s == "" then "" else f(s[0]) + Subst(s[1..], f)
  }

  function Only(c: char, id: string): char -> string { x => if x == c then id else [x] }

  lemma {:induction false} ReplaceOne(s: string, c: char, id: string)
    ensures ReplaceAll(s, [c], id) == Subst(s, Only(c, id))
  {
    if s != "" {
      ReplaceOne(s[1..], c, id);
      assert [c] <= s <==> s[0] == c;
    }
  }

  lemma {:induction false} SubstConcat(a: string, b: string, f: char -> string)
    ensures Subst(a + b, f) == Subst(a, f) + Subst(b, f)
  {
    if a == "" {
      assert a + b == b;
    } else {
      assert (a + b)[1..] == a[1..] + b;
      SubstConcat(a[1..], b, f);
    }
  }

  // The characters c for which g(f(c)) is h(c) are substituted in one pass as in two.
  lemma {:induction false} SubstTwice(s: string, f: char -> string, g: char -> string, h: char -> string)
    requires forall i :: 0 <= i < |s| ==> Subst(f(s[i]), g) == h(s[i])
    ensures Subst(Subst(s, f), g) == Subst(s, h)
  {
    if s != "" {
      SubstConcat(f(s[0]), Subst(s[1..], f), g);
      assert forall i :: 0 <= i < |s[1..]| ==> s[1..][i] == s[i + 1];
      SubstTwice(s[1..], f, g, h);
    }
  }

  lemma {:induction false} SubstNothing(s: string, f: char -> string)
    requires forall c :: c in s ==> f(c) == [c]
    ensures Subst(s, f) == s
  {
    if s != "" {
      SubstNothing(s[1..], f);
      assert s == [s[0]] + s[1..];
    }
  }

  // Row of c in the table, |chars| if there is none.
  function RowOf(chars: string, c: char): (i: nat)
    ensures i <= |chars| && (i < |chars| ==> chars[i] == c)
    ensures c !in chars[..i]
  {
    if chars == "" then 0
    else
      var i := RowOf(chars[..|chars| - 1], c);
      if i < |chars| - 1 then assert chars[..|chars| - 1][..i] == chars[..i]; i
      else if chars[|chars| - 1] == c then i
      else assert chars == chars[..|chars| - 1] + [chars[|chars| - 1]]; assert chars[..|chars|] == chars; |chars|
  }

  // The image of one character under the first n rows.
  function Image(chars: string, ids: seq<string>, n: nat): char -> string
    requires n <= |chars| && n <= |ids|
  {
    c => var i := RowOf(chars[..n], c); if i < n then ids[i] else [c]
  }

  // No id contains a character of a later row: then no pass touches what an
  // earlier pass wrote.
  ghost predicate Separate(chars: string, ids: seq<string>) {
    |chars| == |ids| && forall i, j :: 0 <= i < j < |chars| ==> chars[j] !in ids[i]
  }

  function Singles(chars: string): (r: seq<string>)
    ensures |r| == |chars|
  {
    seq(|chars|, i requires 0 <= i < |chars| => [chars[i]])
  }

  lemma ImageStep(chars: string, ids: seq<string>, n: nat, c: char)
    requires Separate(chars, ids) && n < |chars|
    ensures Subst(Image(chars, ids, n)(c), Only(chars[n], ids[n])) == Image(chars, ids, n + 1)(c)
  {
    assert chars[..n + 1][..n] == chars[..n];
    var i := RowOf(chars[..n], c);
    if i < n {
      SubstNothing(ids[i], Only(chars[n], ids[n]));
    } else {
      assert Subst([c], Only(chars[n], ids[n])) == Only(chars[n], ids[n])(c) + Subst([c][1..], Only(chars[n], ids[n]));
    }
  }

  // Replacing row after row is substituting every character once.
  lemma {:induction false} RowsAreSubst(s: string, chars: string, ids: seq<string>, n: nat)
    requires Separate(chars, ids) && n <= |chars|
    ensures ReplaceRows(s, Singles(chars), ids, n) == Subst(s, Image(chars, ids, n))
  {
    hide Subst, Image, Only, ReplaceAll;
    var f := Image(chars, ids, n);
    if n == 0 {
      NoRows(s, chars, ids);
    } else {
      RowsAreSubst(s, chars, ids, n - 1);
      var g, row := Image(chars, ids, n - 1), Only(chars[n - 1], ids[n - 1]);
      ReplaceOne(Subst(s, g), chars[n - 1], ids[n - 1]);
      forall i | 0 <= i < |s| ensures Subst(g(s[i]), row) == f(s[i]) {
        ImageStep(chars, ids, n - 1, s[i]);
      }
      SubstTwice(s, g, row, f);
    }
  }

  lemma NoRows(s: string, chars: string, ids: seq<string>)
    ensures Subst(s, Image(chars, ids, 0)) == s
  {
  }

  // ----- unique decoding -----

  // The images of different plain characters do not start one another.
  ghost predicate PrefixFree(f: char -> string, plain: char -> bool) {
    forall c, d :: plain(c) && plain(d) && c != d ==> !(f(c) <= f(d))
  }

  lemma PrefixesCompare(a: string, x: string, b: string, y: string)
    requires a + x == b + y && |a| <= |b|
    ensures a <= b
  {
    assert a == (a + x)[..|a|] == (b + y)[..|a|];
  }

  // A prefix-free substitution is injective.
  lemma {:induction false} SubstInjective(s: string, t: string, f: char -> string, plain: char -> bool)
    requires PrefixFree(f, plain) && (forall c :: plain(c) ==> f(c) != "")
    requires (forall i :: 0 <= i < |s| ==> plain(s[i])) && (forall i :: 0 <= i < |t| ==> plain(t[i]))
    requires Subst(s, f) == Subst(t, f)
    ensures s == t
  {
    if s != "" && t != "" {
      var a, b := f(s[0]), f(t[0]);
      var x, y := Subst(s[1..], f), Subst(t[1..], f);
      if |a| <= |b| { PrefixesCompare(a, x, b, y); } else { PrefixesCompare(b, y, a, x); }
      assert s[0] == t[0];
      assert x == (a + x)[|a|..] && y == (b + y)[|a|..];
      SubstInjective(s[1..], t[1..], f, plain);
      assert s == [s[0]] + s[1..] && t == [t[0]] + t[1..];
    }
  }

  // ----- the id tables -----

  const CHARS: string := "@;:=&?%+'\"()[]{}/ "

  const WORDS: seq<string> := [
    "at", "semi", "col", "eq", "and", "qmark", "percent", "plus", "apos", "quote",
    "lpar", "rpar", "lbrack", "rbrack", "lcurl", "rcurl", "sl"]

  // g_id_convert_ids: the words between tildes, and a dash for the space.
  function IdAt(i: nat): string
    requires i < 18
  {
    if i < 17 then "~" + WORDS[i] + "~" else "-"
  }

  function Ids(): (r: seq<string>)
    ensures |r| == 18
  {
    seq(18, i requires 0 <= i < 18 => IdAt(i))
  }

  predicate Letters(w: string) { w != "" && forall i :: 0 <= i < |w| ==> 'a' <= w[i] <= 'z' }

  lemma WordsAreLetters(i: nat)
    requires i < 17
    ensures Letters(WORDS[i])
  {
  }

  lemma WordsDiffer(i: nat, j: nat)
    requires i < 17 && j < 17 && WORDS[i] == WORDS[j]
    ensures i == j
  {
  }

  lemma CharsAreSpecial(j: nat)
    requires j < 18
    ensures !('a' <= CHARS[j] <= 'z') && CHARS[j] != '~' && CHARS[j] != '-'
  {
  }

  lemma NotInId(i: nat, c: char)
    requires i < 18 && !('a' <= c <= 'z') && c != '~' && c != '-'
    ensures c !in IdAt(i)
  {
    if i < 17 { WordsAreLetters(i); }
  }

  // No id contains a table character, so the passes do not interfere.
  lemma TablesSeparate()
    ensures Separate(CHARS, Ids())
  {
    forall i, j | 0 <= i < j < 18 ensures CHARS[j] !in Ids()[i] {
      CharsAreSpecial(j);
      NotInId(i, CHARS[j]);
    }
  }

  // ----- ids -----

  function IdImage(): char -> string { Image(CHARS, Ids(), 18) }

  // name_to_id with keep_case, as one substitution.
  function IdOf(str: string): string { Subst(Simplified(str, WhiteSpaceOnly), IdImage()) }

  // lower is the library's case conversion.
  method NameToId(str: string, keepCase: bool, lower: string -> string) returns (s: string)
    ensures var id := Subst(Simplified(str, WhiteSpaceOnly), IdImage()); s == if keepCase then id else lower(id)
  {
    hide Subst, Image, Simplified;
    s := SimplifyWhiteSpaceCopy(str, WhiteSpaceOnly);
    TablesSeparate();
    RowsAreSubst(s, CHARS, Ids(), 18);
    s := ReplaceTables(s, Singles(CHARS), Ids());
    if !keepCase {
      s := lower(s);
    }
  }

  // The spacing of a name does not show in its id.
  lemma IdIgnoresSpacing(str: string)
    ensures IdOf(Simplified(str, WhiteSpaceOnly)) == IdOf(str)
  {
    hide Subst, Image, Simplified;
    SimplifiedTwice(str, WhiteSpaceOnly);
  }

  predicate PlainChar(c: char) { c != '~' && c != '-' }

  // The image of a plain character: a word between tildes, a dash, or itself.
  lemma ImageShape(c: char, i: nat)
    requires PlainChar(c) && i == RowOf(CHARS, c)
    ensures IdImage()(c) == (if i < 18 then IdAt(i) else [c]) && IdImage()(c) != ""
    ensures i < 17 ==> IdImage()(c) == "~" + WORDS[i] + "~"
    ensures i == 17 ==> IdImage()(c)[0] == '-'
    ensures i >= 18 ==> IdImage()(c)[0] == c
  {
    assert CHARS[..18] == CHARS;
  }

  lemma WordsNotPrefix(i: nat, j: nat)
    requires i < 17 && j < 17 && "~" + WORDS[i] + "~" <= "~" + WORDS[j] + "~"
    ensures i == j
  {
    var v, w := WORDS[i], WORDS[j];
    WordsAreLetters(i);
    WordsAreLetters(j);
    var a, b := "~" + v + "~", "~" + w + "~";
    assert b[1..|w| + 1] == w && b[1..|v| + 1] == a[1..|v| + 1] == v;
    assert b[|v| + 1] == a[|v| + 1] == '~';
    FindIs(b, '~', 1, |w| + 1);
    FindIs(b, '~', 1, |v| + 1);
    WordsDiffer(i, j);
  }

  lemma IdImagePrefixFree()
    ensures PrefixFree(IdImage(), PlainChar) && forall c :: PlainChar(c) ==> IdImage()(c) != ""
  {
    hide Image, IdAt;
    forall c, d | PlainChar(c) && PlainChar(d) && c != d ensures !(IdImage()(c) <= IdImage()(d)) {
      var i, j := RowOf(CHARS, c), RowOf(CHARS, d);
      ImageShape(c, i);
      ImageShape(d, j);
      var a, b := IdImage()(c), IdImage()(d);
      if a <= b {
        assert a[0] == b[0];
        if i < 17 && j < 17 { WordsNotPrefix(i, j); }
      }
    }
    forall c | PlainChar(c) ensures IdImage()(c) != "" { ImageShape(c, RowOf(CHARS, c)); }
  }

  // Different simplified names free of '~' and '-' have different ids.
  lemma IdsAreInjective(s: string, t: string)
    requires Simplified(s, WhiteSpaceOnly) == s && Simplified(t, WhiteSpaceOnly) == t
    requires (forall i :: 0 <= i < |s| ==> PlainChar(s[i])) && (forall i :: 0 <= i < |t| ==> PlainChar(t[i]))
    ensures IdOf(s) == IdOf(t) ==> s == t
  {
    hide Subst, Image, Simplified;
    IdImagePrefixFree();
    if IdOf(s) == IdOf(t) { SubstInjective(s, t, IdImage(), PlainChar); }
  }

  // ----- when an id tells its name -----

  predicate OccursAt(s: string, w: string, i: nat) { i + |w| <= |s| && s[i..i + |w|] == w }

  // No table character, no dash but at the ends, no id written out.
  predicate Unambiguous(s: string) {
    && (forall i :: 0 <= i < |s| ==> s[i] !in CHARS)
    && (forall i :: 0 < i < |s| - 1 ==> s[i] != '-')
    && (forall i, j :: 0 <= i < |s| && 0 <= j < 17 ==> !OccursAt(s, IdAt(j), i))
  }

  lemma CharsDiffer(i: nat, j: nat)
    requires i < 18 && j < 18 && CHARS[i] == CHARS[j]
    ensures i == j
  {
  }

  lemma ImageOfRow(j: nat)
    requires j < 18
    ensures IdImage()(CHARS[j]) == IdAt(j)
  {
    assert CHARS[..18] == CHARS;
    CharsDiffer(RowOf(CHARS, CHARS[j]), j);
  }

  lemma ImageOfOther(c: char)
    requires c !in CHARS
    ensures IdImage()(c) == [c]
  {
    assert CHARS[..18] == CHARS;
  }

  // Text without table characters is its own id, an id in particular.
  lemma OtherText(s: string)
    requires forall i :: 0 <= i < |s| ==> s[i] !in CHARS
    ensures Subst(s, IdImage()) == s
  {
    hide Subst, IdImage;
    forall c | c in s ensures IdImage()(c) == [c] { ImageOfOther(c); }
    SubstNothing(s, IdImage());
  }

  lemma IdStays(j: nat)
    requires j < 18
    ensures forall i :: 0 <= i < |IdAt(j)| ==> IdAt(j)[i] !in CHARS && !IsWhiteSpace(IdAt(j)[i])
    ensures Subst(IdAt(j), IdImage()) == IdAt(j)
  {
    hide Subst, IdImage;
    forall i | 0 <= i < |IdAt(j)| ensures IdAt(j)[i] !in CHARS && !IsWhiteSpace(IdAt(j)[i]) {
      forall k | 0 <= k < 18 ensures CHARS[k] != IdAt(j)[i] {
        CharsAreSpecial(k);
        NotInId(j, CHARS[k]);
      }
      if j < 17 { WordsAreLetters(j); }
    }
    OtherText(IdAt(j));
  }

  // u and v are exchanged inside a name without a change to its id.
  lemma SameId(a: string, u: string, v: string, b: string)
    requires Subst(u, IdImage()) == Subst(v, IdImage())
    ensures Subst(a + u + b, IdImage()) == Subst(a + v + b, IdImage())
  {
    hide Subst, IdImage;
    var f := IdImage();
    SubstConcat(a + u, b, f);
    SubstConcat(a + v, b, f);
    SubstConcat(a, u, f);
    SubstConcat(a, v, f);
  }

  // Another name with the same id.
  ghost predicate Twins(s: string, t: string) {
    s != t && Canonical(t) && Subst(s, IdImage()) == Subst(t, IdImage())
  }

  // A table character can be written out as its id.
  lemma WriteOut(s: string, i: nat) returns (t: string)
    requires Canonical(s) && i < |s| && s[i] in CHARS
    ensures Twins(s, t)
  {
    hide Subst, IdImage, IdAt, Canonical;
    var j :| 0 <= j < 18 && CHARS[j] == s[i];
    var a, u, b := s[..i], [s[i]], s[i + 1..];
    assert s == a + u + b;
    t := a + IdAt(j) + b;
    CharsAreSpecial(j);
    IdStart(j);
    assert t[i] == IdAt(j)[0] && t[i] != s[i];
    OneImage(s[i]);
    ImageOfRow(j);
    IdStays(j);
    SameId(a, u, IdAt(j), b);
    Exchange(a, u, IdAt(j), b);
  }

  // A dash inside the name may as well have been a space.
  lemma DashToSpace(s: string, i: nat) returns (t: string)
    requires Canonical(s) && 0 < i < |s| - 1 && s[i] == '-' && ' ' !in s
    ensures Twins(s, t)
  {
    hide Subst, IdImage;
    var a, b := s[..i], s[i + 1..];
    assert s == a + "-" + b;
    t := a + " " + b;
    assert t[i] == ' ';
    OneImage(' ');
    ImageOfRow(17);
    IdStays(17);
    SameId(a, "-", " ", b);
  }

  // An id written out may as well have been its character.
  lemma FoldBack(s: string, i: nat, j: nat) returns (t: string)
    requires Canonical(s) && j < 17 && OccursAt(s, IdAt(j), i)
    ensures Twins(s, t)
  {
    hide Subst, IdImage, IdAt, Canonical;
    IdStart(j);
    var a, u, v, b := s[..i], IdAt(j), [CHARS[j]], s[i + |IdAt(j)|..];
    assert s == a + u + b;
    t := a + v + b;
    CharsAreSpecial(j);
    assert t[i] == CHARS[j] && s[i] == u[0] == '~';
    OneImage(CHARS[j]);
    ImageOfRow(j);
    IdStays(j);
    SameId(a, u, v, b);
    NoSpaceRow(j);
    Exchange(a, u, v, b);
  }

  lemma IdStart(j: nat)
    requires j < 18
    ensures IdAt(j) != "" && IdAt(j)[0] == if j < 17 then '~' else '-'
  {
  }

  lemma OneImage(c: char)
    ensures Subst([c], IdImage()) == IdImage()(c)
  {
    hide IdImage;
    assert [c][1..] == "";
    assert Subst([c], IdImage()) == IdImage()(c) + Subst([c][1..], IdImage());
  }

  lemma NoSpaceRow(j: nat)
    requires j < 17
    ensures !IsWhiteSpace(CHARS[j])
  {
  }

  // Text without white space can stand for any other part of a canonical text.
  lemma Exchange(a: string, u: string, v: string, b: string)
    requires Canonical(a + u + b) && u != "" && v != "" && forall i :: 0 <= i < |v| ==> !IsWhiteSpace(v[i])
    ensures Canonical(a + v + b)
  {
    var s, t := a + u + b, a + v + b;
    forall i | 0 <= i < |t| && IsWhiteSpace(t[i]) ensures t[i] == ' ' && 0 < i < |t| - 1 && t[i - 1] != ' ' {
      if i < |a| {
        assert s[i] == t[i];
        if i > 0 { assert s[i - 1] == t[i - 1]; }
      } else {
        var k := i - |v| + |u|;
        assert s[k] == t[i];
        if i > |a| + |v| { assert s[k - 1] == t[i - 1]; }
      }
    }
  }

  // The image of a longer text is not empty.
  lemma ImageNotEmpty(s: string)
    requires s != ""
    ensures Subst(s, IdImage()) != ""
  {
    if s[0] in CHARS {
      var j :| 0 <= j < 18 && CHARS[j] == s[0];
      ImageOfRow(j);
    } else {
      ImageOfOther(s[0]);
    }
  }

  // A table character in a name shows in its id.
  lemma TableCharShows(t: string, i: nat)
    requires Canonical(t) && i < |t| && t[i] in CHARS
    ensures !Unambiguous(Subst(t, IdImage()))
  {
    hide Subst, IdImage, Unambiguous, IdAt, Canonical;
    var j :| 0 <= j < 18 && CHARS[j] == t[i];
    var f := IdImage();
    var a, b := t[..i], t[i + 1..];
    assert t == a + [t[i]] + b;
    OneImage(t[i]);
    ImageOfRow(j);
    SubstConcat(a + [t[i]], b, f);
    SubstConcat(a, [t[i]], f);
    assert Subst(t, f) == Subst(a, f) + IdAt(j) + Subst(b, f);
    if j < 17 {
      IdInside(Subst(a, f), j, Subst(b, f));
    } else {
      SpaceInside(t, i);
      ImageNotEmpty(a);
      ImageNotEmpty(b);
      DashInside(Subst(a, f), Subst(b, f));
    }
  }

  lemma SpaceInside(t: string, i: nat)
    requires Canonical(t) && i < |t| && t[i] == CHARS[17]
    ensures 0 < i < |t| - 1 && IdAt(17) == "-"
  {
  }

  lemma IdInside(x: string, j: nat, y: string)
    requires j < 17
    ensures !Unambiguous(x + IdAt(j) + y)
  {
    var s := x + IdAt(j) + y;
    assert s[|x|..|x| + |IdAt(j)|] == IdAt(j);
    assert OccursAt(s, IdAt(j), |x|);
  }

  lemma DashInside(x: string, y: string)
    requires x != "" && y != ""
    ensures !Unambiguous(x + "-" + y)
  {
    assert (x + "-" + y)[|x|] == '-';
  }

  lemma NoTwin(s: string, t: string)
    requires Canonical(s) && Unambiguous(s)
    ensures !Twins(s, t)
  {
    hide Subst, IdImage;
    OtherText(s);
    if Twins(s, t) {
      if i :| 0 <= i < |t| && t[i] in CHARS {
        TableCharShows(t, i);
      } else {
        OtherText(t);
      }
    }
  }

  lemma HasTwin(s: string) returns (t: string)
    requires Canonical(s) && !Unambiguous(s)
    ensures Twins(s, t)
  {
    hide Subst, IdImage, OccursAt;
    if i :| 0 <= i < |s| && s[i] in CHARS {
      t := WriteOut(s, i);
    } else if i :| 0 < i < |s| - 1 && s[i] == '-' {
      assert ' ' == CHARS[17];
      t := DashToSpace(s, i);
    } else {
      var i, j :| 0 <= i < |s| && 0 <= j < 17 && OccursAt(s, IdAt(j), i);
      t := FoldBack(s, i, j);
    }
  }

  // An id belongs to no other simplified name exactly when the name is
  // unambiguous.
  lemma IdTellsNameExactly(s: string)
    requires Simplified(s, WhiteSpaceOnly) == s
    ensures (forall t :: Simplified(t, WhiteSpaceOnly) == t && IdOf(t) == IdOf(s) ==> t == s) <==> Unambiguous(s)
  {
    hide Subst, IdImage, Simplified, Canonical, Unambiguous;
    SimplifiedIsCanonical(s);
    if Unambiguous(s) {
      forall t | Simplified(t, WhiteSpaceOnly) == t && IdOf(t) == IdOf(s) ensures t == s {
        SimplifiedIsCanonical(t);
        NoTwin(s, t);
      }
    } else {
      var t := HasTwin(s);
      SimplifiedIsCanonical(t);
      assert Simplified(t, WhiteSpaceOnly) == t && IdOf(t) == IdOf(s);
    }
  }

  // A dash stands for a space, and an id can be written out.
  lemma DashCollides()
    ensures Simplified("a-b", WhiteSpaceOnly) == "a-b" && Simplified("a b", WhiteSpaceOnly) == "a b"
    ensures IdOf("a-b") == IdOf("a b")
  {
    hide Subst, IdImage, Simplified;
    SimplifiedIsCanonical("a-b");
    SimplifiedIsCanonical("a b");
    OneImage(' ');
    ImageOfRow(17);
    IdStays(17);
    SameId("a", "-", " ", "b");
    assert "a" + "-" + "b" == "a-b" && "a" + " " + "b" == "a b";
  }

  lemma TildeCollides()
    ensures Simplified("~at~", WhiteSpaceOnly) == "~at~" && Simplified("@", WhiteSpaceOnly) == "@"
    ensures IdOf("~at~") == IdOf("@")
  {
    hide Subst, IdImage, Simplified;
    SimplifiedIsCanonical("~at~");
    SimplifiedIsCanonical("@");
    OneImage('@');
    ImageOfRow(0);
    IdStays(0);
    assert CHARS[0] == '@' && IdAt(0) == "~at~";
  }

  // Every character of the table, and what it becomes.
  lemma IdsOfTable()
    ensures Subst(CHARS, IdImage()) ==
              ("~at~" + "~semi~" + "~col~" + "~eq~" + "~and~")
              + ("~qmark~" + "~percent~" + "~plus~" + "~apos~" + "~quote~")
              + ("~lpar~" + "~rpar~" + "~lbrack~" + "~rbrack~" + "~lcurl~")
              + ("~rcurl~" + "~sl~" + "-")
  {
    hide Subst, IdImage, IdAt;
    IdTexts1();
    IdTexts2();
    IdTexts3();
    var a, b, c, d := "@;:=&", "?%+'\"", "()[]{", "}/ ";
    assert CHARS == a + b + c + d;
    SubstConcat(a + b + c, d, IdImage());
    SubstConcat(a + b, c, IdImage());
    SubstConcat(a, b, IdImage());
    FiveRows(a, 0);
    FiveRows(b, 5);
    FiveRows(c, 10);
    LastRows(d);
  }

  lemma IdTexts1()
    ensures IdAt(0) == "~at~" && IdAt(1) == "~semi~" && IdAt(2) == "~col~"
    ensures IdAt(3) == "~eq~" && IdAt(4) == "~and~" && IdAt(5) == "~qmark~"
  {
  }

  lemma IdTexts2()
    ensures IdAt(6) == "~percent~" && IdAt(7) == "~plus~" && IdAt(8) == "~apos~"
    ensures IdAt(9) == "~quote~" && IdAt(10) == "~lpar~" && IdAt(11) == "~rpar~"
  {
  }

  lemma IdTexts3()
    ensures IdAt(12) == "~lbrack~" && IdAt(13) == "~rbrack~" && IdAt(14) == "~lcurl~"
    ensures IdAt(15) == "~rcurl~" && IdAt(16) == "~sl~" && IdAt(17) == "-"
  {
  }

  lemma FiveRows(s: string, k: nat)
    requires k + 5 <= 18 && s == CHARS[k..k + 5]
    ensures Subst(s, IdImage()) == IdAt(k) + IdAt(k + 1) + IdAt(k + 2) + IdAt(k + 3) + IdAt(k + 4)
  {
    hide Subst, IdImage, IdAt;
    NextRow(s, k);
    NextRow(s[1..], k + 1);
    NextRow(s[2..], k + 2);
    NextRow(s[3..], k + 3);
    NextRow(s[4..], k + 4);
    assert s[1..][1..] == s[2..] && s[2..][1..] == s[3..] && s[3..][1..] == s[4..] && s[4..][1..] == "";
    SubstEmpty(IdImage());
  }

  lemma LastRows(s: string)
    requires s == CHARS[15..]
    ensures Subst(s, IdImage()) == IdAt(15) + IdAt(16) + IdAt(17)
  {
    hide Subst, IdImage, IdAt;
    NextRow(s, 15);
    NextRow(s[1..], 16);
    NextRow(s[2..], 17);
    assert s[1..][1..] == s[2..] && s[2..][1..] == "";
    SubstEmpty(IdImage());
  }

  lemma SubstEmpty(f: char -> string)
    ensures Subst("", f) == ""
  {
  }

  lemma NextRow(s: string, k: nat)
    requires k < 18 && s != "" && s[0] == CHARS[k]
    ensures Subst(s, IdImage()) == IdAt(k) + Subst(s[1..], IdImage())
  {
    hide IdImage, IdAt;
    ImageOfRow(k);
  }
}
