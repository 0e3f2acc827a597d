// The pieces a URL text is cut into: domains and parameters
// (cpaf_url_string_functions.cpp).
module UrlText {
  import opened Strings

  // ----- domains -----

  // The two last parts form a name in g_two_component_top_domains.
  predicate TwoComponentTop(a: string, b: string) { a + "." + b == "co.uk" }

  // split_domain: last part first, "co.uk" kept together.
  function DomainParts(d: string): seq<string> {
    if d == "" then []
    else
      var p := Split(d, '.');
      var n := |p|;
      if n >= 2 && TwoComponentTop(p[n - 2], p[n - 1]) then ["co.uk"] + Reverse(p[..n - 2])
      else Reverse(p)
  }

  // domain_as_string
  function DomainText(v: seq<string>): string {
    if v == [] then "" else Join(Reverse(v), '.')
  }

  // The domains split_domain produces: dot-free parts, except a leading
  // "co.uk", which is never left as "uk", "co".
  ghost predicate CanonicalDomain(v: seq<string>) {
    && v != []
    && (forall i :: 0 <= i < |v| ==> '.' !in v[i] || (i == 0 && v[0] == "co.uk"))
    && !(|v| >= 2 && v[0] == "uk" && v[1] == "co")
  }

  method SplitDomain(d: string) returns (v: seq<string>)
    ensures v == DomainParts(d)
  {
    hide Split, TwoComponentTop;
    v := [];
    if d == "" {
      return;
    }
    var parts := Split(d, '.');
    var it := |parts|;  // one past the next part, as the reverse iterator
    if |parts| >= 2 {
      if TwoComponentTop(parts[it - 2], parts[it - 1]) {
        v := ["co.uk"];
        it := it - 2;
      }
    }
    ghost var head := v;
    ghost var n := it;
    while it > 0
      invariant 0 <= it <= n <= |parts|
      invariant v == head + Reverse(parts[it..n])
    {
      it := it - 1;
      ReverseOneMore(parts, it, n);
      v := v + [parts[it]];
    }
    assert parts[0..n] == parts[..n] && parts[..|parts|] == parts;
  }

  lemma ReverseCons<T>(x: T, s: seq<T>)
    ensures Reverse([x] + s) == Reverse(s) + [x]
  {
  }

  lemma ReverseOneMore<T>(s: seq<T>, i: nat, n: nat)
    requires i < n <= |s|
    ensures Reverse(s[i..n]) == Reverse(s[i + 1..n]) + [s[i]]
  {
    ReverseCons(s[i], s[i + 1..n]);
    assert s[i..n] == [s[i]] + s[i + 1..n];
  }

  method DomainAsString(v: seq<string>) returns (s: string)
    ensures s == DomainText(v)
  {
    s := "";
    ghost var r := Reverse(v);
    var it := |v|;
    while it > 0
      invariant 0 <= it <= |v|
      invariant it == |v| ==> s == ""
      invariant 0 < it < |v| ==> s == Join(r[..|v| - it], '.') + "."
      invariant it == 0 && v != [] ==> s == Join(r, '.')
    {
      it := it - 1;
      ghost var k := |v| - it;
      assert r[k - 1] == v[it] && r[..k][..k - 1] == r[..k - 1];
      s := s + v[it];
      assert s == Join(r[..k], '.');
      if it > 0 {
        s := s + ".";
      } else {
        assert r[..k] == r;
      }
    }
  }

  lemma CoUk(a: string, b: string)
    requires '.' !in a && '.' !in b
    ensures TwoComponentTop(a, b) <==> a == "co" && b == "uk"
  {
    if TwoComponentTop(a, b) {
      var x, y := [a, b], ["co", "uk"];
      SplitJoin(x, '.');
      SplitJoin(y, '.');
      assert x[..1] == [a] && y[..1] == ["co"];
      assert Join(x, '.') == Join(y, '.') == "co.uk";
    }
  }

  // Printing and splitting is the identity exactly on canonical domains.
  lemma DomainRoundTrip(v: seq<string>)
    requires DomainText(v) != ""
    ensures DomainParts(DomainText(v)) == v <==> CanonicalDomain(v)
  {
    if CanonicalDomain(v) { CanonicalRoundTrip(v); }
    if DomainParts(DomainText(v)) == v { PartsAreCanonical(DomainText(v)); }
  }

  lemma CanonicalRoundTrip(v: seq<string>)
    requires CanonicalDomain(v) && DomainText(v) != ""
    ensures DomainParts(DomainText(v)) == v
  {
    if v[0] == "co.uk" { CoUkRoundTrip(v); } else { PlainRoundTrip(v); }
  }

  lemma CoUkRoundTrip(v: seq<string>)
    requires CanonicalDomain(v) && v[0] == "co.uk" && DomainText(v) != ""
    ensures DomainParts(DomainText(v)) == v
  {
    hide Join, Split, TwoComponentTop;
    var r, n := Reverse(v), |v|;
    var front := r[..n - 1];
    var q := front + ["co", "uk"];
    CoUkJoin(front);
    assert r == front + ["co.uk"];
    FreeWithCoUk(front);
    SplitJoin(q, '.');
    assert q[..|q| - 2] == front;
    CoUk(q[|q| - 2], q[|q| - 1]);
    assert ["co.uk"] + Reverse(front) == v;
  }

  lemma FreeWithCoUk(front: seq<string>)
    requires Free(front, '.')
    ensures Free(front + ["co", "uk"], '.')
  {
  }

  lemma PlainRoundTrip(v: seq<string>)
    requires CanonicalDomain(v) && v[0] != "co.uk" && DomainText(v) != ""
    ensures DomainParts(DomainText(v)) == v
  {
    hide Join, Split, TwoComponentTop;
    var r, n := Reverse(v), |v|;
    SplitJoin(r, '.');
    ReverseTwice(v);
    if n >= 2 {
      assert r[n - 1] == v[0] && r[n - 2] == v[1];
      CoUk(r[n - 2], r[n - 1]);
    }
  }

  // "co.uk" as one last part or as two joins to the same text.
  lemma CoUkJoin(front: seq<string>)
    ensures Join(front + ["co", "uk"], '.') == Join(front + ["co.uk"], '.')
  {
    var q := front + ["co", "uk"];
    assert q[..|q| - 1] == front + ["co"];
    if front != [] {
      assert (front + ["co"])[..|front|] == front && (front + ["co.uk"])[..|front|] == front;
      assert Join(q, '.') == Join(front, '.') + ['.'] + "co" + ['.'] + "uk";
      assert "co" + ['.'] + "uk" == "co.uk";
    } else {
      assert "co" + ['.'] + "uk" == "co.uk";
    }
  }

  lemma PartsAreCanonical(d: string)
    requires d != ""
    ensures CanonicalDomain(DomainParts(d))
  {
    hide Join, Split, TwoComponentTop;
    var p := Split(d, '.');
    JoinSplit(d, '.');
    var n := |p|;
    if n >= 2 {
      CoUk(p[n - 2], p[n - 1]);
    }
  }

  // ----- parameters -----

  datatype Param = Param(name: string, value: string)

  function Without(s: string, c: char): string {
    if s == "" then ""
    else if s[|s| - 1] == c then Without(s[..|s| - 1], c)
    else Without(s[..|s| - 1], c) + [s[|s| - 1]]
  }

  // What one stretch between '&' means: the name up to the first '=', the value
  // behind it, further '=' dropped.
  function ParamOf(s: string): Param {
    var i := Find(s, '=', 0);
    if i == -1 then Param(s, "") else Param(s[..i], Without(s[i..], '='))
  }

  function ParamsOf(parts: seq<string>): (r: seq<Param>)
    ensures |r| == |parts|
  {
    seq(|parts|, i requires 0 <= i < |parts| => ParamOf(parts[i]))
  }

  // split_parameters on a non-empty text.
  function ParameterParts(s: string): seq<Param>
    requires s != ""
  {
    ParamsOf(Split(if s[0] == '?' then s[1..] else s, '&'))
  }

  function ParamText(p: Param): string { p.name + "=" + p.value }

  function ParamTexts(v: seq<Param>): (r: seq<string>)
    ensures |r| == |v|
  {
    seq(|v|, i requires 0 <= i < |v| => ParamText(v[i]))
  }

  // parameters_as_string
  function ParametersText(v: seq<Param>): string {
    if v == [] then "?" else "?" + Join(ParamTexts(v), '&')
  }

  ghost predicate PlainParam(p: Param) {
    '&' !in p.name && '=' !in p.name && '&' !in p.value && '=' !in p.value
  }

  lemma {:induction false} WithoutNothing(s: string, c: char)
    requires c !in s
    ensures Without(s, c) == s
  {
    if s != "" {
      WithoutNothing(s[..|s| - 1], c);
      assert s == s[..|s| - 1] + [s[|s| - 1]];
    }
  }

  lemma {:induction false} WithoutConcat(a: string, b: string, c: char)
    ensures Without(a + b, c) == Without(a, c) + Without(b, c)
  {
    if b == "" {
      assert a + b == a;
    } else {
      assert (a + b)[..|a + b| - 1] == a + b[..|b| - 1];
      WithoutConcat(a, b[..|b| - 1], c);
    }
  }

  lemma ParamRoundTrip(p: Param)
    requires PlainParam(p)
    ensures ParamOf(ParamText(p)) == p && '&' !in ParamText(p)
  {
    var s := ParamText(p);
    FindIs(s, '=', 0, |p.name|);
    assert s[..|p.name|] == p.name && s[|p.name|..] == "=" + p.value;
    WithoutConcat("=", p.value, '=');
    WithoutNothing(p.value, '=');
    assert Without("=", '=') == "";
  }

  lemma ParametersRoundTrip(v: seq<Param>)
    requires v != [] && forall i :: 0 <= i < |v| ==> PlainParam(v[i])
    ensures ParametersText(v) != "" && ParameterParts(ParametersText(v)) == v
  {
    var t := ParamTexts(v);
    forall i | 0 <= i < |v| ensures '&' !in t[i] && ParamOf(t[i]) == v[i] {
      ParamRoundTrip(v[i]);
    }
    SplitJoin(t, '&');
    assert ParametersText(v)[1..] == Join(t, '&');
    assert ParamsOf(t) == v;
  }

  // One more character of a stretch.
  lemma ParamStep(s: string, c: char)
    requires c != '='
    ensures var p := ParamOf(s);
            ParamOf(s + [c]) == if '=' in s then Param(p.name, p.value + [c]) else Param(p.name + [c], p.value)
  {
    var t := s + [c];
    var i := Find(s, '=', 0);
    assert s[0..] == s;
    if i == -1 {
      assert t[0..] == s + [c];
      FindNone(t, '=', 0);
    } else {
      assert s[0..i] == t[0..i];
      FindIs(t, '=', 0, i);
      assert t[i..] == s[i..] + [c];
      WithoutConcat(s[i..], [c], '=');
      WithoutNothing([c], '=');
      assert s[i] in s;
    }
  }

  lemma ParamStepEquals(s: string)
    ensures ParamOf(s + ['=']) == ParamOf(s)
  {
    var t := s + ['='];
    var i := Find(s, '=', 0);
    assert s[0..] == s;
    assert Without(['='], '=') == "" by { assert ['='][..0] == ""; }
    if i == -1 {
      FindIs(t, '=', 0, |s|);
      assert t[..|s|] == s && t[|s|..] == ['='];
    } else {
      assert s[0..i] == t[0..i];
      FindIs(t, '=', 0, i);
      assert t[i..] == s[i..] + ['='];
      WithoutConcat(s[i..], ['='], '=');
    }
  }

  // One more character of the whole text.
  lemma SplitParamsStep(t: string, k: nat)
    requires k < |t|
    ensures var parts, next := Split(t[..k], '&'), Split(t[..k + 1], '&');
            var n, last, p := |parts|, parts[|parts| - 1], ParamOf(parts[|parts| - 1]);
            && (t[k] == '&' ==> ParamsOf(next) == ParamsOf(parts) + [Param("", "")] && next[|next| - 1] == "")
            && (t[k] == '=' ==> ParamsOf(next) == ParamsOf(parts) && '=' in next[|next| - 1])
            && (t[k] != '&' && t[k] != '=' ==>
                  && ParamsOf(next) == ParamsOf(parts)[..n - 1]
                       + [if '=' in last then Param(p.name, p.value + [t[k]]) else Param(p.name + [t[k]], p.value)]
                  && ('=' in next[|next| - 1] <==> '=' in last))
  {
    hide ParamOf;
    assert t[..k + 1][..k] == t[..k];
    var parts := Split(t[..k], '&');
    var last := parts[|parts| - 1];
    if t[k] == '&' {
      ParamsOfAppend(parts, "");
      EmptyParam();
    } else if t[k] == '=' {
      ParamStepEquals(last);
      ParamsOfReplace(parts, last + [t[k]]);
      assert ParamsOf(parts)[..|parts| - 1] + [ParamOf(last)] == ParamsOf(parts);
    } else {
      ParamStep(last, t[k]);
      ParamsOfReplace(parts, last + [t[k]]);
    }
  }

  lemma EmptyParam()
    ensures ParamOf("") == Param("", "")
  {
  }

  // An empty text leaves the vector as it was; otherwise it is replaced.
  method SplitParameters(s: string, paramVec: seq<Param>) returns (v: seq<Param>)
    ensures v == if s == "" then paramVec else ParameterParts(s)
  {
    hide ParamOf, Split, ParamsOf;
    if s == "" {
      return paramVec;
    }
    v := [];
    var p := Param("", "");
    EmptyParam();
    var inValue := false;
    var it := if s[0] == '?' then 1 else 0;
    ghost var t, skipped := s[it..], it;
    NothingSplit(t);
    while it < |s|
      invariant skipped <= it <= |s|
      invariant v + [p] == ParamsOf(Split(t[..it - skipped], '&'))
      invariant var parts := Split(t[..it - skipped], '&'); inValue <==> '=' in parts[|parts| - 1]
    {
      ghost var k := it - skipped;
      ghost var all := ParamsOf(Split(t[..k], '&'));
      LastParam(Split(t[..k], '&'));
      assert all[..|all| - 1] == v && all[|all| - 1] == p;
      SplitParamsStep(t, k);
      if s[it] == '&' {
        v := v + [p];
        p := Param("", "");
        inValue := false;
      } else if s[it] == '=' {
        inValue := true;
      } else if inValue {
        p := p.(value := p.value + [s[it]]);
      } else {
        p := p.(name := p.name + [s[it]]);
      }
      it := it + 1;
    }
    assert t[..it - skipped] == t;
    v := v + [p];
  }

  lemma NothingSplit(t: string)
    ensures Split(t[..0], '&') == [""] && ParamsOf([""]) == [ParamOf("")]
  {
  }

  lemma LastParam(parts: seq<string>)
    requires parts != []
    ensures ParamsOf(parts)[|parts| - 1] == ParamOf(parts[|parts| - 1])
  {
  }

  lemma ParamsOfAppend(parts: seq<string>, x: string)
    ensures ParamsOf(parts + [x]) == ParamsOf(parts) + [ParamOf(x)]
  {
  }

  lemma ParamsOfReplace(parts: seq<string>, x: string)
    requires parts != []
    ensures ParamsOf(parts[..|parts| - 1] + [x]) == ParamsOf(parts)[..|parts| - 1] + [ParamOf(x)]
  {
  }

  method ParametersAsString(v: seq<Param>) returns (s: string)
    ensures s == ParametersText(v)
  {
    s := "?";
    ghost var t := ParamTexts(v);
    var it := 0;
    while it < |v|
      invariant 0 <= it <= |v|
      invariant it == 0 ==> s == "?"
      invariant 0 < it < |v| ==> s == "?" + Join(t[..it], '&') + "&"
      invariant it == |v| && v != [] ==> s == "?" + Join(t, '&')
    {
      assert t[..it + 1][..it] == t[..it] && t[it] == ParamText(v[it]);
      s := s + ParamText(v[it]);
      assert s == "?" + Join(t[..it + 1], '&');
      it := it + 1;
      if it < |v| {
        s := s + "&";
      } else {
        assert t[..it] == t;
      }
    }
  }
}
