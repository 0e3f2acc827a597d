// Finding, splitting and joining text: std::string::find, boost::split and the
// loops that put parts together again.
module Strings {
  // std::string::find; -1 is npos.
  function Find(s: string, c: char, from: nat): (i: int)
    requires from <= |s|
    ensures i == -1 || from <= i < |s|
    ensures i == -1 ==> c !in s[from..]
    ensures i >= 0 ==> s[i] == c && c !in s[from..i]
    decreases |s| - from
  {
    if from == |s| then -1
    else if s[from] == c then from
    else
      assert s[from..] == [s[from]] + s[from + 1..];
      var i := Find(s, c, from + 1);
      assert i >= 0 ==> s[from..i] == [s[from]] + s[from + 1..i];
      i
  }

  // The first occurrence, given where it is.
  lemma {:induction false} FindIs(s: string, c: char, from: nat, i: nat)
    requires from <= i < |s| && s[i] == c && c !in s[from..i]
    ensures Find(s, c, from) == i
    decreases i - from
  {
  }

  lemma {:induction false} FindNone(s: string, c: char, from: nat)
    requires from <= |s| && c !in s[from..]
    ensures Find(s, c, from) == -1
    decreases |s| - from
  {
  }

  lemma {:induction false} FindSkips(s: string, c: char, from: nat, next: nat)
    requires from <= next <= |s| && c !in s[from..next]
    ensures Find(s, c, from) == Find(s, c, next)
    decreases |s| - from
  {
  }

  // ----- split and join -----

  // Characters added to the last part.
  function Extend(p: seq<string>, t: string): (r: seq<string>)
    requires p != []
    ensures r != []
  {
    p[..|p| - 1] + [p[|p| - 1] + t]
  }

  // boost::split at every c, empty parts kept.
  function Split(s: string, c: char): (parts: seq<string>)
    ensures parts != []
  {
    if s == "" then [""]
    else
      var p := Split(s[..|s| - 1], c);
      if s[|s| - 1] == c then p + [""] else Extend(p, [s[|s| - 1]])
  }

  function Join(parts: seq<string>, c: char): string
    requires parts != []
  {
    if |parts| == 1 then parts[0] else Join(parts[..|parts| - 1], c) + [c] + parts[|parts| - 1]
  }

  ghost predicate Free(parts: seq<string>, c: char) {
    forall i :: 0 <= i < |parts| ==> c !in parts[i]
  }

  lemma ExtendTwice(p: seq<string>, t: string, u: string)
    requires p != []
    ensures Extend(Extend(p, t), u) == Extend(p, t + u) && Extend(p, "") == p
  {
    assert p[|p| - 1] + t + u == p[|p| - 1] + (t + u) && p[|p| - 1] + "" == p[|p| - 1];
  }

  lemma SplitSnoc(s: string, x: char, c: char)
    ensures Split(s + [x], c) == if x == c then Split(s, c) + [""] else Extend(Split(s, c), [x])
  {
  }

  lemma JoinSnoc(parts: seq<string>, x: string, c: char)
    requires parts != []
    ensures Join(parts + [x], c) == Join(parts, c) + [c] + x
  {
  }

  lemma JoinExtend(parts: seq<string>, t: string, c: char)
    requires parts != []
    ensures Join(Extend(parts, t), c) == Join(parts, c) + t
  {
    hide Join;
    var front, last := parts[..|parts| - 1], parts[|parts| - 1];
    assert parts == front + [last];
    if front == [] {
      JoinOne(last, c);
      JoinOne(last + t, c);
      assert parts == [last] && Extend(parts, t) == [last + t];
    } else {
      JoinSnoc(front, last, c);
      JoinSnoc(front, last + t, c);
      assert Join(front, c) + [c] + last + t == Join(front, c) + [c] + (last + t);
    }
  }

  // Text after the last c belongs to the last part.
  lemma {:induction false} SplitAppend(s: string, t: string, c: char)
    requires c !in t
    ensures Split(s + t, c) == Extend(Split(s, c), t)
  {
    hide Extend, Split;
    if t == "" {
      assert s + t == s;
      ExtendTwice(Split(s, c), "", "");
    } else {
      var u, x := t[..|t| - 1], t[|t| - 1];
      assert t == u + [x] && s + t == s + u + [x] && x in t;
      SplitAppend(s, u, c);
      SplitSnoc(s + u, x, c);
      ExtendTwice(Split(s, c), u, [x]);
    }
  }

  lemma {:induction false} SplitJoin(parts: seq<string>, c: char)
    requires parts != [] && Free(parts, c)
    ensures Split(Join(parts, c), c) == parts
  {
    hide Split, Join;
    var front, last := parts[..|parts| - 1], parts[|parts| - 1];
    assert parts == front + [last];
    if front == [] {
      SplitOne(last, c);
      JoinOne(last, c);
    } else {
      SplitJoin(front, c);
      JoinSnoc(front, last, c);
      SplitSnoc(Join(front, c), c, c);
      SplitAppend(Join(front, c) + [c], last, c);
      assert "" + last == last && (front + [""])[..|front|] == front;
    }
  }

  lemma SplitOne(s: string, c: char)
    requires c !in s
    ensures Split(s, c) == [s]
  {
    SplitAppend("", s, c);
    assert "" + s == s;
  }

  lemma JoinOne(s: string, c: char)
    ensures Join([s], c) == s
  {
  }

  lemma {:induction false} JoinSplit(s: string, c: char)
    ensures Free(Split(s, c), c) && Join(Split(s, c), c) == s
  {
    if s != "" {
      var r, x := s[..|s| - 1], s[|s| - 1];
      assert s == r + [x];
      JoinSplit(r, c);
      JoinSplitSnoc(r, x, c);
    }
  }

  lemma JoinSplitSnoc(r: string, x: char, c: char)
    requires Free(Split(r, c), c) && Join(Split(r, c), c) == r
    ensures Free(Split(r + [x], c), c) && Join(Split(r + [x], c), c) == r + [x]
  {
    hide Split, Join;
    SplitSnoc(r, x, c);
    if x == c {
      JoinSnoc(Split(r, c), "", c);
      assert r + [c] + "" == r + [x];
    } else {
      JoinExtend(Split(r, c), [x], c);
    }
  }

  function Reverse<T>(s: seq<T>): (r: seq<T>)
    ensures |r| == |s| && forall i :: 0 <= i < |s| ==> r[i] == s[|s| - 1 - i]
  {
    if s == [] then [] else [s[|s| - 1]] + Reverse(s[..|s| - 1])
  }

  lemma ReverseTwice<T>(s: seq<T>)
    ensures Reverse(Reverse(s)) == s
  {
  }

  // boost::replace_all: leftmost occurrences, not overlapping.
  function ReplaceAll(s: string, from: string, id: string): string
    decreases |s|
  {
    if s == "" || from == "" then s
    else if from <= s then id + ReplaceAll(s[|from|..], from, id)
    else [s[0]] + ReplaceAll(s[1..], from, id)
  }
}
