// simplify_whitespace: repeated replacement of two spaces by one, up to a
// fixpoint, equals dropping every space that follows a space.
module SpaceCollapse {
  import opened Strings

  // s without the spaces that follow a space; after says a space came before.
  function Collapse(s: string, after: bool): string {
    if s == "" then ""
    else if s[0] != ' ' then [s[0]] + Collapse(s[1..], false)
    else if after then Collapse(s[1..], true)
    else " " + Collapse(s[1..], true)
  }

  predicate DoubleSpace(s: string) {
    exists i :: 0 <= i < |s| - 1 && s[i] == ' ' && s[i + 1] == ' '
  }

  function Halved(s: string): string { ReplaceAll(s, "  ", " ") }

  lemma HalvedStep(s: string)
    requires s != ""
    ensures |s| > 1 && s[0] == ' ' && s[1] == ' ' ==> Halved(s) == " " + Halved(s[2..])
    ensures !(|s| > 1 && s[0] == ' ' && s[1] == ' ') ==> Halved(s) == [s[0]] + Halved(s[1..])
  {
  }

  // A pass changes nothing that collapsing keeps.
  lemma {:induction false} PassKeepsCollapse(s: string, after: bool)
    ensures Collapse(Halved(s), after) == Collapse(s, after)
    decreases |s|
  {
    if s != "" {
      HalvedStep(s);
      var h := Halved(s);
      if |s| > 1 && s[0] == ' ' && s[1] == ' ' {
        PassKeepsCollapse(s[2..], true);
        assert h[1..] == Halved(s[2..]) && s[1..][1..] == s[2..];
      } else {
        PassKeepsCollapse(s[1..], s[0] == ' ');
        assert h[1..] == Halved(s[1..]);
      }
    }
  }

  lemma {:induction false} PassShrinks(s: string)
    ensures |Halved(s)| <= |s|
    ensures DoubleSpace(s) ==> |Halved(s)| < |s|
    decreases |s|
  {
    if s != "" {
      HalvedStep(s);
      if |s| > 1 && s[0] == ' ' && s[1] == ' ' {
        PassShrinks(s[2..]);
      } else {
        PassShrinks(s[1..]);
        if DoubleSpace(s) {
          var i :| 0 <= i < |s| - 1 && s[i] == ' ' && s[i + 1] == ' ';
          assert s[1..][i - 1] == ' ' && s[1..][i - 1 + 1] == ' ';
        }
      }
    }
  }

  // What the loop stops at is already collapsed.
  lemma {:induction false} NothingToCollapse(s: string, after: bool)
    requires !DoubleSpace(s) && (after && s != "" ==> s[0] != ' ')
    ensures Collapse(s, after) == s
  {
    if s != "" {
      assert s[0] == ' ' && |s| > 1 ==> s[0 + 1] != ' ';
      assert forall i :: 0 <= i < |s[1..]| ==> s[1..][i] == s[i + 1];
      NothingToCollapse(s[1..], s[0] == ' ');
    }
  }

  // boost::trim in the classic locale
  predicate IsSpace(c: char) { c == ' ' || '\t' <= c <= '\r' }

  function Trim(s: string): string {
    if s != "" && IsSpace(s[0]) then Trim(s[1..])
    else if s != "" && IsSpace(s[|s| - 1]) then Trim(s[..|s| - 1])
    else s
  }

  lemma SpaceIs(c: char)
    ensures IsSpace(c) <==> c in {' ', '\t', '\n', '\U{0B}', '\U{0C}', '\r'}
  {
  }

  predicate AllSpace(s: string) { forall i :: 0 <= i < |s| ==> IsSpace(s[i]) }

  // Trimming cuts off white space at both ends, and nothing else.
  lemma {:induction false} TrimCutsSpace(s: string) returns (a: string, b: string)
    ensures s == a + Trim(s) + b && AllSpace(a) && AllSpace(b)
    ensures Trim(s) != "" ==> !IsSpace(Trim(s)[0]) && !IsSpace(Trim(s)[|Trim(s)| - 1])
    decreases |s|
  {
    hide IsSpace, Trim, AllSpace;
    TrimStep(s);
    if s != "" && IsSpace(s[0]) {
      var x: string;
      x, b := TrimCutsSpace(s[1..]);
      a := [s[0]] + x;
      SpaceMore(s[0], x);
      assert s == [s[0]] + s[1..] == [s[0]] + (x + Trim(s[1..]) + b) == a + Trim(s[1..]) + b;
    } else if s != "" && IsSpace(s[|s| - 1]) {
      var y: string;
      a, y := TrimCutsSpace(s[..|s| - 1]);
      b := y + [s[|s| - 1]];
      SpaceMore(s[|s| - 1], y);
      assert s == s[..|s| - 1] + [s[|s| - 1]];
    } else {
      a, b := "", "";
      NoSpace();
    }
  }

  lemma TrimStep(s: string)
    ensures s != "" && IsSpace(s[0]) ==> Trim(s) == Trim(s[1..])
    ensures s != "" && !IsSpace(s[0]) && IsSpace(s[|s| - 1]) ==> Trim(s) == Trim(s[..|s| - 1])
    ensures s == "" || (!IsSpace(s[0]) && !IsSpace(s[|s| - 1])) ==> Trim(s) == s
  {
    hide IsSpace;
  }

  lemma SpaceMore(c: char, s: string)
    requires IsSpace(c) && AllSpace(s)
    ensures AllSpace([c] + s) && AllSpace(s + [c])
  {
    hide IsSpace;
  }

  lemma NoSpace()
    ensures AllSpace("")
  {
  }

  const NBSP := "\U{C2}\U{A0}"  // its two bytes in UTF-8

  // No line end, and not the two bytes of a non-breaking space.
  predicate OneLine(s: string) { '\n' !in s }

  predicate NoNbsp(s: string) { forall i :: 0 <= i < |s| - 1 ==> !(s[i] == '\U{C2}' && s[i + 1] == '\U{A0}') }

  lemma NoNbspCons(c: char, s: string)
    requires NoNbsp(s) && (s != "" && c == '\U{C2}' ==> s[0] != '\U{A0}')
    ensures NoNbsp([c] + s)
  {
  }

  lemma {:induction false} NbspReplaced(s: string)
    ensures var r := ReplaceAll(s, NBSP, " ");
            NoNbsp(r) && (r != "" ==> s != "" && (r[0] == ' ' || r[0] == s[0]))
    decreases |s|
  {
    if s != "" {
      if NBSP <= s {
        NbspReplaced(s[2..]);
        NoNbspCons(' ', ReplaceAll(s[2..], NBSP, " "));
      } else {
        assert |s| > 1 && s[0] == '\U{C2}' ==> s[1] != '\U{A0}';
        NbspReplaced(s[1..]);
        NoNbspCons(s[0], ReplaceAll(s[1..], NBSP, " "));
      }
    }
  }

  lemma {:induction false} LineEndsReplaced(s: string)
    requires NoNbsp(s)
    ensures var r := ReplaceAll(s, "\n", " ");
            OneLine(r) && NoNbsp(r) && (r != "" ==> s != "" && (r[0] == ' ' || r[0] == s[0]))
  {
    if s != "" {
      assert forall k :: 0 <= k < |s| - 1 ==> s[1..][k] == s[k + 1];
      assert NoNbsp(s[1..]) && (|s| > 1 ==> s[1..][0] == s[0 + 1]);
      LineEndsReplaced(s[1..]);
      assert "\n" <= s <==> s[0] == '\n';
      NoNbspCons(if s[0] == '\n' then ' ' else s[0], ReplaceAll(s[1..], "\n", " "));
    }
  }

  // Collapsing keeps the first and the last character unless they are spaces,
  // and brings no new neighbours together but over a space.
  lemma {:induction false} CollapseKeepsEnds(s: string, after: bool)
    requires OneLine(s) && NoNbsp(s)
    ensures var c := Collapse(s, after);
            && OneLine(c) && NoNbsp(c)
            && (s != "" && s[0] != ' ' ==> c != "" && c[0] == s[0])
            && (c != "" ==> c[0] == ' ' || (s != "" && c[0] == s[0]) || after || s[0] == ' ')
            && (c != "" && s[0] == ' ' && !after ==> c[0] == ' ')
            && (s != "" && s[|s| - 1] != ' ' ==> c != "" && c[|c| - 1] == s[|s| - 1])
  {
    if s != "" {
      assert forall k :: 0 <= k < |s| - 1 ==> s[1..][k] == s[k + 1];
      assert NoNbsp(s[1..]) && OneLine(s[1..]) && (|s| > 1 ==> s[1..][0] == s[0 + 1]);
      CollapseKeepsEnds(s[1..], s[0] == ' ');
      NoNbspCons(s[0], Collapse(s[1..], s[0] == ' '));
    }
  }

  // The text before the loop: one line, trimmed.
  function Prepared(input: string): string { Trim(ReplaceAll(ReplaceAll(input, NBSP, " "), "\n", " ")) }

  // What the result looks like.
  ghost predicate Simple(s: string) {
    && !DoubleSpace(s) && OneLine(s) && NoNbsp(s)
    && (s != "" ==> !IsSpace(s[0]) && !IsSpace(s[|s| - 1]))
  }

  lemma CollapsedIsSimple(input: string)
    requires !DoubleSpace(Collapse(Prepared(input), false))
    ensures Simple(Collapse(Prepared(input), false))
  {
    hide ReplaceAll, Collapse, Trim, DoubleSpace;
    var a := ReplaceAll(input, NBSP, " ");
    var b := ReplaceAll(a, "\n", " ");
    NbspReplaced(input);
    LineEndsReplaced(a);
    var x, y := TrimCutsSpace(b);
    InnerStays(x, Trim(b), y);
    CollapseKeepsEnds(Trim(b), false);
    CollapseOfNothing();
  }

  lemma InnerStays(x: string, s: string, y: string)
    requires OneLine(x + s + y) && NoNbsp(x + s + y)
    ensures OneLine(s) && NoNbsp(s)
  {
    var t := x + s + y;
    assert forall i :: 0 <= i < |s| ==> s[i] == t[|x| + i] && t[|x| + i] in t;
    forall i | 0 <= i < |s| - 1 ensures !(s[i] == '\U{C2}' && s[i + 1] == '\U{A0}') {
      assert s[i] == t[|x| + i] && s[i + 1] == t[|x| + i + 1];
    }
  }

  lemma CollapseOfNothing()
    ensures Collapse("", false) == ""
  {
  }

  method SimplifyWhitespace(input: string) returns (s: string)
    ensures s == Collapse(Trim(ReplaceAll(ReplaceAll(input, NBSP, " "), "\n", " ")), false)
    ensures Simple(s)
  {
    hide ReplaceAll, Collapse, Trim, DoubleSpace;
    s := ReplaceAll(input, NBSP, " ");
    s := ReplaceAll(s, "\n", " ");
    s := Trim(s);
    ghost var trimmed := s;
    while DoubleSpace(s)
      invariant Collapse(s, false) == Collapse(trimmed, false)
      decreases |s|
    {
      PassKeepsCollapse(s, false);
      PassShrinks(s);
      s := ReplaceAll(s, "  ", " ");
    }
    NotDoubled(s);
    CollapsedIsSimple(input);
  }

  lemma NotDoubled(s: string)
    requires !DoubleSpace(s)
    ensures Collapse(s, false) == s
  {
    NothingToCollapse(s, false);
  }
}
