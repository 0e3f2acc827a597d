// simplify_white_space_copy, plain and with characters to remove: one pass that
// equals splitting into runs of kept characters and joining with one space.
module Whitespace {
  import opened Strings

  // SPACE, and TAB to CARRIAGE RETURN
  predicate IsWhiteSpace(c: char) { c == ' ' || '\t' <= c <= '\r' }

  lemma WhiteSpaceIs(c: char)
    ensures IsWhiteSpace(c) <==> c in {' ', '\t', '\n', '\U{0B}', '\U{0C}', '\r'}
  {
  }

  // What a form skips: white space, and maybe a vector of further characters,
  // searched linearly or, when sorted, by halving.
  datatype Form = WhiteSpaceOnly | AnyOf(removeChars: seq<char>, isSorted: bool)

  ghost predicate Sorted(v: seq<char>) { forall i, j :: 0 <= i < j < |v| ==> v[i] <= v[j] }

  // std::binary_search
  predicate BinarySearch(v: seq<char>, c: char)
    decreases |v|
  {
    if v == [] then false
    else
      var m := |v| / 2;
      if v[m] == c then true
      else if v[m] < c then BinarySearch(v[m + 1..], c)
      else BinarySearch(v[..m], c)
  }

  lemma {:induction false} BinarySearchFinds(v: seq<char>, c: char)
    requires Sorted(v)
    ensures BinarySearch(v, c) <==> c in v
    decreases |v|
  {
    if v != [] {
      var m := |v| / 2;
      if v[m] < c {
        RightHalf(v, m, c);
        BinarySearchFinds(v[m + 1..], c);
      } else if v[m] != c {
        LeftHalf(v, m, c);
        BinarySearchFinds(v[..m], c);
      }
    }
  }

  lemma RightHalf(v: seq<char>, m: nat, c: char)
    requires Sorted(v) && m < |v| && v[m] < c
    ensures Sorted(v[m + 1..]) && (c in v[m + 1..] <==> c in v)
  {
    if i :| 0 <= i < |v| && v[i] == c {
      assert v[m + 1..][i - m - 1] == c;
    }
  }

  lemma LeftHalf(v: seq<char>, m: nat, c: char)
    requires Sorted(v) && m < |v| && c < v[m]
    ensures Sorted(v[..m]) && (c in v[..m] <==> c in v)
  {
    if i :| 0 <= i < |v| && v[i] == c {
      assert v[..m][i] == c;
    }
  }

  // The characters a form keeps.
  predicate Kept(f: Form, c: char) {
    !IsWhiteSpace(c) && (f.AnyOf? ==> c !in f.removeChars)
  }

  ghost predicate Usable(f: Form) { f.AnyOf? && f.isSorted ==> Sorted(f.removeChars) }

  // The loop conditions of skip_white_space and skip_any_of_ws.
  predicate Skips(f: Form, c: char) {
    IsWhiteSpace(c) || (f.AnyOf? && if f.isSorted then BinarySearch(f.removeChars, c) else c in f.removeChars)
  }

  // Both searches skip the same characters.
  lemma SkipsIsNotKept(f: Form, c: char)
    requires Usable(f)
    ensures Skips(f, c) <==> !Kept(f, c)
  {
    if f.AnyOf? && f.isSorted { BinarySearchFinds(f.removeChars, c); }
  }

  // ----- runs of kept characters -----

  function Words(s: string, f: Form): seq<string> {
    if s == "" then []
    else
      var r, c := s[..|s| - 1], s[|s| - 1];
      if !Kept(f, c) then Words(r, f)
      else if r != "" && Kept(f, r[|r| - 1]) then
        (if Words(r, f) == [] then [[c]] else Extend(Words(r, f), [c]))
      else Words(r, f) + [[c]]
  }

  function Spaced(words: seq<string>): string { if words == [] then "" else Join(words, ' ') }

  // The canonical text.
  function Simplified(s: string, f: Form): string { Spaced(Words(s, f)) }

  lemma WordsSnoc(r: string, c: char, f: Form)
    ensures !Kept(f, c) ==> Words(r + [c], f) == Words(r, f)
    ensures Kept(f, c) && r != "" && Kept(f, r[|r| - 1]) ==>
              Words(r, f) != [] && Words(r + [c], f) == Extend(Words(r, f), [c])
    ensures Kept(f, c) && !(r != "" && Kept(f, r[|r| - 1])) ==> Words(r + [c], f) == Words(r, f) + [[c]]
  {
  }

  lemma {:induction false} WordsOfSkipped(s: string, t: string, f: Form)
    requires forall i :: 0 <= i < |t| ==> !Kept(f, t[i])
    ensures Words(s + t, f) == Words(s, f)
  {
    hide Words;
    if t == "" {
      assert s + t == s;
    } else {
      var u := t[..|t| - 1];
      WordsOfSkipped(s, u, f);
      WordsSnoc(s + u, t[|t| - 1], f);
      assert s + t == s + u + [t[|t| - 1]];
    }
  }

  // Each word is a non-empty run of kept characters.
  ghost predicate IsWord(w: string, f: Form) { w != "" && forall i :: 0 <= i < |w| ==> Kept(f, w[i]) }

  lemma {:induction false} WordsAreWords(s: string, f: Form)
    ensures forall i :: 0 <= i < |Words(s, f)| ==> IsWord(Words(s, f)[i], f)
  {
    if s != "" {
      var r, c := s[..|s| - 1], s[|s| - 1];
      assert s == r + [c];
      WordsAreWords(r, f);
      WordsSnoc(r, c, f);
    }
  }

  // A word behind a gap is a word of its own.
  lemma {:induction false} WordsAppend(s: string, w: string, f: Form)
    requires IsWord(w, f) && !(s != "" && Kept(f, s[|s| - 1]))
    ensures Words(s + w, f) == Words(s, f) + [w]
  {
    hide Words, Kept;
    var u, c := w[..|w| - 1], w[|w| - 1];
    assert w == u + [c] && s + w == s + u + [c];
    WordsSnoc(s + u, c, f);
    if u == "" {
      assert s + u == s && [c] == w;
    } else {
      WordsAppend(s, u, f);
      assert (s + u)[|s + u| - 1] == u[|u| - 1] == w[|u| - 1];
      assert Extend(Words(s, f) + [u], [c]) == Words(s, f) + [w];
    }
  }

  lemma {:induction false} WordsOfSpaced(words: seq<string>, f: Form)
    requires forall i :: 0 <= i < |words| ==> IsWord(words[i], f)
    ensures Words(Spaced(words), f) == words
  {
    hide Words, Join;
    if words == [] {
      NoWords(f);
    } else {
      var front, last := words[..|words| - 1], words[|words| - 1];
      assert words == front + [last];
      if front == [] {
        NoWords(f);
        JoinOne(last, ' ');
        WordsAppend("", last, f);
        assert "" + last == last;
      } else {
        WordsOfSpaced(front, f);
        JoinSnoc(front, last, ' ');
        WordsSnoc(Join(front, ' '), ' ', f);
        WordsAppend(Join(front, ' ') + [' '], last, f);
      }
    }
  }

  lemma NoWords(f: Form)
    ensures Words("", f) == []
  {
  }

  // Simplifying is idempotent.
  lemma SimplifiedTwice(s: string, f: Form)
    ensures Simplified(Simplified(s, f), f) == Simplified(s, f)
  {
    WordsAreWords(s, f);
    WordsOfSpaced(Words(s, f), f);
  }

  // ----- what is already simple -----

  // Every white space is a single space between two other characters.
  predicate Canonical(s: string) {
    && SingleSpaced(s)
    && (s != "" ==> s[|s| - 1] != ' ')
  }

  // The same, but for a space at the end.
  predicate SingleSpaced(s: string) {
    && (forall i :: 0 <= i < |s| && IsWhiteSpace(s[i]) ==> s[i] == ' ')
    && (forall i :: 0 <= i < |s| && s[i] == ' ' ==> 0 < i && s[i - 1] != ' ')
  }

  // Simplifying leaves a text as it is exactly when it is canonical.
  lemma SimplifiedIsCanonical(s: string)
    ensures Simplified(s, WhiteSpaceOnly) == s <==> Canonical(s)
  {
    hide Words, Spaced;
    WordsAreWords(s, WhiteSpaceOnly);
    SpacedIsCanonical(Words(s, WhiteSpaceOnly));
    if Canonical(s) { SimplifiedPrefix(s); }
  }

  lemma {:induction false} SpacedIsCanonical(words: seq<string>)
    requires forall i :: 0 <= i < |words| ==> IsWord(words[i], WhiteSpaceOnly)
    ensures Canonical(Spaced(words)) && (words != [] ==> Spaced(words) != "")
  {
    hide Join;
    if words != [] {
      var front, last := words[..|words| - 1], words[|words| - 1];
      assert words == front + [last];
      if front == [] {
        JoinOne(last, ' ');
      } else {
        SpacedIsCanonical(front);
        JoinSnoc(front, last, ' ');
      }
    }
  }

  // Up to a space at the end, single-spaced text is what simplifying gives.
  lemma {:induction false} SimplifiedPrefix(s: string)
    requires SingleSpaced(s)
    ensures s == Simplified(s, WhiteSpaceOnly) + if s != "" && s[|s| - 1] == ' ' then " " else ""
  {
    hide Words, Spaced;
    if s == "" {
      NothingSimplified(WhiteSpaceOnly);
    } else {
      var r, c := s[..|s| - 1], s[|s| - 1];
      assert s == r + [c] && s[..|s| - 1 + 1] == s;
      SimplifiedPrefix(r);
      WordsSnoc(r, c, WhiteSpaceOnly);
      if Kept(WhiteSpaceOnly, c) {
        PushKept(s, |s| - 1, WhiteSpaceOnly);
        NothingSimplified(WhiteSpaceOnly);
        assert Words(r, WhiteSpaceOnly) == [] ==> Simplified(r, WhiteSpaceOnly) == "";
      }
    }
  }

  // ----- the loop -----

  // skip_white_space and skip_any_of_ws
  method Skip(str: string, it: nat, end: nat, f: Form) returns (next: nat, skippedAny: bool)
    requires it <= end <= |str| && Usable(f)
    ensures it <= next <= end && (next < end ==> Kept(f, str[next]))
    ensures forall i :: it <= i < next ==> !Kept(f, str[i])
    ensures skippedAny <==> next > it
  {
    next, skippedAny := it, false;
    while next != end && Skips(f, str[next])
      invariant it <= next <= end
      invariant forall i :: it <= i < next ==> !Kept(f, str[i])
      invariant skippedAny <==> next > it
      decreases end - next
    {
      SkipsIsNotKept(f, str[next]);
      next := next + 1;
      skippedAny := true;
    }
    if next != end { SkipsIsNotKept(f, str[next]); }
  }

  lemma SkippedRange(str: string, it: nat, next: nat, f: Form)
    requires it <= next <= |str| && forall i :: it <= i < next ==> !Kept(f, str[i])
    ensures Words(str[..next], f) == Words(str[..it], f)
  {
    assert str[..next] == str[..it] + str[it..next];
    WordsOfSkipped(str[..it], str[it..next], f);
  }

  // One kept character more: it opens a word behind a gap or at the start, and
  // extends the open word otherwise.
  lemma PushKept(str: string, at: nat, f: Form)
    requires at < |str| && Kept(f, str[at])
    ensures var w, open := Words(str[..at], f), at > 0 && Kept(f, str[at - 1]);
            Simplified(str[..at + 1], f) ==
              Spaced(w) + (if w != [] && !open then " " else "") + [str[at]]
  {
    hide Words, Join;
    var r := str[..at];
    assert str[..at + 1] == r + [str[at]];
    WordsSnoc(r, str[at], f);
    var w := Words(r, f);
    if at > 0 && Kept(f, str[at - 1]) {
      JoinExtend(w, [str[at]], ' ');
      assert Spaced(w) + "" == Spaced(w);
    } else if w == [] {
      JoinOne([str[at]], ' ');
      assert w + [[str[at]]] == [[str[at]]] && "" + "" + [str[at]] == [str[at]];
    } else {
      JoinSnoc(w, [str[at]], ' ');
    }
  }

  method SimplifyWhiteSpaceCopy(str: string, f: Form) returns (s: string)
    requires Usable(f)
    ensures s == Simplified(str, f)
  {
    hide Words, Spaced, Kept;
    s := "";
    var end := |str|;
    while end - 1 >= 0 && IsWhiteSpace(str[end - 1])
      invariant 0 <= end <= |str|
      invariant forall i :: end <= i < |str| ==> !Kept(f, str[i])
    {
      WhiteSpaceNotKept(str[end - 1], f);
      end := end - 1;
    }
    SkippedRange(str, end, |str|, f);
    assert str[..|str|] == str;
    NothingSimplified(f);
    assert str[..0] == "";
    if end <= 0 {
      return;
    }
    var it, skipped := Skip(str, 0, end, f);
    SkippedRange(str, 0, it, f);
    ghost var first := it;
    while it < end
      invariant first <= it <= end && s == Simplified(str[..it], f)
      invariant it == first ==> Words(str[..it], f) == [] && (it < end ==> Kept(f, str[it]))
      invariant it == first && it > 0 ==> !Kept(f, str[it - 1])
      invariant it > first ==> Words(str[..it], f) != [] && Kept(f, str[it - 1])
    {
      ghost var was := it;
      it, skipped := Skip(str, it, end, f);
      SkippedRange(str, was, it, f);
      if skipped {
        if it < end {
          s := s + " ";
        } else {
          break;
        }
      }
      PushKept(str, it, f);
      AfterKept(str, it, f);
      s := s + [str[it]];
      it := it + 1;
    }
  }

  lemma WhiteSpaceNotKept(c: char, f: Form)
    requires IsWhiteSpace(c)
    ensures !Kept(f, c)
  {
  }

  lemma NothingSimplified(f: Form)
    ensures Words("", f) == [] && Simplified("", f) == ""
  {
  }

  lemma AfterKept(str: string, at: nat, f: Form)
    requires at < |str| && Kept(f, str[at])
    ensures Words(str[..at + 1], f) != []
  {
  }
}
