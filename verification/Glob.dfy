// wildcmp_c: '*' and '?' matching with a single backtrack point.
module Glob {
  // The meaning of a pattern.
  predicate Matches(s: string, w: string)
    decreases |s| + |w|
  {
    if w == "" then s == ""
    else if w[0] == '*' then Matches(s, w[1..]) || (s != "" && Matches(s[1..], w))
    else s != "" && (w[0] == '?' || w[0] == s[0]) && Matches(s[1..], w[1..])
  }

  // What the definition amounts to: the empty pattern matches the empty text, a
  // star any text, a question mark any single character, another character
  // itself, and a concatenation what can be cut accordingly.
  lemma MatchesSingle(s: string, c: char)
    ensures Matches(s, "") <==> s == ""
    ensures Matches(s, "*") && (Matches(s, "?") <==> |s| == 1)
    ensures c != '*' && c != '?' ==> (Matches(s, [c]) <==> s == [c])
  {
    StarMatches(s);
    assert "?"[1..] == "" && [c][1..] == "";
  }

  lemma {:induction false} StarMatches(s: string)
    ensures Matches(s, "*")
  {
    assert "*"[1..] == "";
    if s != "" { StarMatches(s[1..]); }
  }

  lemma {:induction false} MatchesJoin(s: string, u: string, t: string, v: string)
    requires Matches(s, u) && Matches(t, v)
    ensures Matches(s + t, u + v)
    decreases |s| + |u|
  {
    if u == "" {
      assert s + t == t && u + v == v;
    } else {
      assert (u + v)[1..] == u[1..] + v;
      if u[0] == '*' && Matches(s, u[1..]) {
        MatchesJoin(s, u[1..], t, v);
      } else {
        assert (s + t)[1..] == s[1..] + t;
        MatchesJoin(s[1..], if u[0] == '*' then u else u[1..], t, v);
      }
    }
  }

  lemma {:induction false} MatchesCut(s: string, u: string, v: string) returns (k: nat)
    requires Matches(s, u + v)
    ensures k <= |s| && Matches(s[..k], u) && Matches(s[k..], v)
    decreases |s| + |u|
  {
    if u == "" {
      k := 0;
      assert u + v == v && s[0..] == s;
    } else {
      assert (u + v)[1..] == u[1..] + v;
      if u[0] == '*' && Matches(s, u[1..] + v) {
        k := MatchesCut(s, u[1..], v);
      } else {
        var j := MatchesCut(s[1..], if u[0] == '*' then u else u[1..], v);
        k := j + 1;
        assert s[..k][1..] == s[1..][..j] && s[k..] == s[1..][j..] && s[..k][0] == s[0];
      }
    }
  }

  lemma MatchesConcat(s: string, u: string, v: string)
    ensures Matches(s, u + v) <==> exists k :: 0 <= k <= |s| && Matches(s[..k], u) && Matches(s[k..], v)
  {
    hide Matches;
    if Matches(s, u + v) {
      var k := MatchesCut(s, u, v);
    }
    if k :| 0 <= k <= |s| && Matches(s[..k], u) && Matches(s[k..], v) {
      MatchesJoin(s[..k], u, s[k..], v);
      assert s[..k] + s[k..] == s;
    }
  }

  // The characters a C string of this length shows: its own, then the NUL.
  function CharAt(s: string, i: nat): char
    requires i <= |s|
  {
    if i < |s| then s[i] else '\0'
  }

  predicate NulFree(s: string) { '\0' !in s }

  predicate StarFree(w: string) { '*' !in w }

  // What a pattern behind a star-free part w[..n] needs of a text: its
  // remainder matches n characters further on.
  lemma {:induction false} StarFreePrefix(s: string, w: string, n: nat)
    requires n <= |w| && StarFree(w[..n]) && Matches(s, w)
    ensures n <= |s| && Matches(s[n..], w[n..])
    decreases n
  {
    if n == 0 {
      assert s[0..] == s && w[0..] == w;
    } else {
      assert w[0] == w[..n][0] != '*';
      assert w[1..][..n - 1] == w[..n][1..];
      StarFreePrefix(s[1..], w[1..], n - 1);
      assert s[1..][n - 1..] == s[n..] && w[1..][n - 1..] == w[n..];
    }
  }

  // Only the latest star matters as a backtrack point: when the star-free part
  // m of "*" + m + w has been matched up to a new star w, every match of the
  // whole pattern is a match of w right there.
  lemma {:induction false} LatestStarSuffices(s: string, m: string, w: string)
    requires StarFree(m) && w != "" && w[0] == '*' && |m| <= |s|
    requires Matches(s, "*" + m + w)
    ensures Matches(s[|m|..], w)
    decreases |s|
  {
    var p := "*" + m + w;
    assert p[1..] == m + w;
    if Matches(s, p[1..]) {
      assert (m + w)[..|m|] == m && (m + w)[|m|..] == w;
      StarFreePrefix(s, m + w, |m|);
    } else {
      MatchNeedsLength(s[1..], p, |m| + 1);
      LatestStarSuffices(s[1..], m, w);
      assert s[1..][|m|..] == s[|m| + 1..] == s[|m|..][1..];
    }
  }

  // A text that matches "*" + m + ... has at least |m| characters.
  lemma {:induction false} MatchNeedsLength(s: string, p: string, n: nat)
    requires 0 < n <= |p| && p[0] == '*' && StarFree(p[1..n]) && Matches(s, p)
    ensures n - 1 <= |s|
    decreases |s|
  {
    if Matches(s, p[1..]) {
      assert p[1..][..n - 1] == p[1..n];
      StarFreePrefix(s, p[1..], n - 1);
    } else {
      MatchNeedsLength(s[1..], p, n);
    }
  }

  // The state after the first star: the latest star is at mp - 1, the attempt
  // started at cp - 1 and has matched w[mp..wild] against s[cp-1..str].
  ghost predicate Attempt(s: string, w: string, str: nat, wild: nat, mp: nat, cp: nat) {
    && 0 < mp <= wild <= |w| && 0 < cp <= str + 1 && str <= |s|
    && str + 1 - cp == wild - mp
    && w[mp - 1] == '*' && StarFree(w[mp..wild])
    && (Matches(s[cp - 1..], w[mp..]) <==> Matches(s[str..], w[wild..]))
  }

  // A new star closes the old attempt without losing a match.
  lemma NewStar(s: string, w: string, str: nat, wild: nat, mp: nat, cp: nat)
    requires Attempt(s, w, str, wild, mp, cp) && wild < |w| && w[wild] == '*'
    ensures Matches(s[cp - 1..], w[mp - 1..]) <==> Matches(s[str..], w[wild..])
  {
    var t, m := s[cp - 1..], w[mp..wild];
    assert w[mp - 1..] == "*" + m + w[wild..];
    assert w[mp - 1..][1..] == w[mp..];
    assert t[|m|..] == s[str..];
    if Matches(t, w[mp - 1..]) {
      LatestStarSuffices(t, m, w[wild..]);
    }
  }

  // When the text is used up, only the current attempt can still succeed.
  lemma TextUsedUp(s: string, w: string, str: nat, wild: nat, mp: nat, cp: nat)
    requires Attempt(s, w, str, wild, mp, cp) && str == |s|
    ensures Matches(s[cp - 1..], w[mp - 1..]) <==> Matches("", w[wild..])
  {
    var t, p := s[cp - 1..], w[mp - 1..];
    assert p[1..] == w[mp..] && s[str..] == "";
    if Matches(t, p) && !Matches(t, p[1..]) {
      assert p[1..wild - mp + 1] == w[mp..wild];
      MatchNeedsLength(t[1..], p, wild - mp + 1);
    }
  }

  // One more character of the attempt.
  lemma AttemptAdvances(s: string, w: string, str: nat, wild: nat, mp: nat, cp: nat)
    requires Attempt(s, w, str, wild, mp, cp) && str < |s| && wild < |w|
    requires w[wild] != '*' && (w[wild] == '?' || w[wild] == s[str])
    ensures Attempt(s, w, str + 1, wild + 1, mp, cp)
  {
  }

  // A failed attempt moves the start by one; nothing is lost.
  lemma AttemptFails(s: string, w: string, str: nat, wild: nat, mp: nat, cp: nat)
    requires Attempt(s, w, str, wild, mp, cp) && str < |s|
    requires wild == |w| || (w[wild] != '*' && w[wild] != '?' && w[wild] != s[str])
    ensures Attempt(s, w, cp, mp, mp, cp + 1)
    ensures Matches(s[cp - 1..], w[mp - 1..]) <==> Matches(s[cp..], w[mp - 1..])
  {
  }

  // The head of the pattern before any star.
  lemma LiteralStep(s: string, w: string, str: nat, wild: nat)
    requires str < |s| && wild <= |w| && (wild < |w| ==> w[wild] != '*')
    ensures wild < |w| && (w[wild] == '?' || w[wild] == s[str])
            ==> (Matches(s[str..], w[wild..]) <==> Matches(s[str + 1..], w[wild + 1..]))
    ensures !(wild < |w| && (w[wild] == '?' || w[wild] == s[str])) ==> !Matches(s[str..], w[wild..])
  {
  }

  lemma BeginAttempt(s: string, w: string, str: nat, wild: nat)
    requires str < |s| && wild < |w| && w[wild] == '*'
    ensures Attempt(s, w, str, wild + 1, wild + 1, str + 1)
    ensures wild + 1 == |w| ==> Matches(s[str..], w[wild..])
  {
    assert w[wild + 1..wild + 1] == "";
    if wild + 1 == |w| {
      assert w[wild..] == "*";
      StarMatchesAll(s[str..]);
    }
  }

  lemma {:induction false} StarMatchesAll(s: string)
    ensures Matches(s, "*")
  {
    assert "*"[1..] == "";
    if s != "" { StarMatchesAll(s[1..]); }
  }

  // With no text left only stars match.
  lemma EndOfText(w: string, wild: nat)
    requires wild <= |w|
    ensures Matches("", w[wild..]) <==> wild == |w| || (w[wild] == '*' && Matches("", w[wild + 1..]))
  {
  }

  // The result is exactly the meaning of the pattern.
  method Wildcmp(s: string, w: string) returns (r: bool)
    requires NulFree(s) && NulFree(w)
    ensures r == Matches(s, w)
  {
    hide Matches, Attempt;
    var str: nat, wild: nat := 0, 0;
    assert s[0..] == s && w[0..] == w;
    while CharAt(s, str) != '\0' && CharAt(w, wild) != '*'
      invariant str <= |s| && wild <= |w|
      invariant Matches(s, w) <==> Matches(s[str..], w[wild..])
      decreases |s| - str
    {
      LiteralStep(s, w, str, wild);
      if CharAt(w, wild) != CharAt(s, str) && CharAt(w, wild) != '?' {
        return false;
      }
      wild, str := wild + 1, str + 1;
    }
    var cp: nat, mp: nat := 0, 0;
    while CharAt(s, str) != '\0'
      invariant str <= |s| && mp <= wild <= |w| && cp <= str + 1 && mp <= |w|
      invariant mp == 0 ==> (Matches(s, w) <==> Matches(s[str..], w[wild..]))
      invariant mp == 0 && str < |s| ==> CharAt(w, wild) == '*'
      invariant mp > 0 ==> cp > 0 && Attempt(s, w, str, wild, mp, cp)
      invariant mp > 0 ==> (Matches(s, w) <==> Matches(s[cp - 1..], w[mp - 1..]))
      decreases |w| - mp, |s| + 1 - cp, |w| - wild
    {
      if CharAt(w, wild) == '*' {
        if mp > 0 { NewStar(s, w, str, wild, mp, cp); }
        BeginAttempt(s, w, str, wild);
        wild := wild + 1;
        if CharAt(w, wild) == '\0' {
          return true;
        }
        mp, cp := wild, str + 1;
      } else if CharAt(w, wild) == CharAt(s, str) || CharAt(w, wild) == '?' {
        AttemptAdvances(s, w, str, wild, mp, cp);
        wild, str := wild + 1, str + 1;
      } else {
        AttemptFails(s, w, str, wild, mp, cp);
        wild, str, cp := mp, cp, cp + 1;
      }
    }
    if mp > 0 { TextUsedUp(s, w, str, wild, mp, cp); }
    assert s[str..] == "";
    while CharAt(w, wild) == '*'
      invariant wild <= |w| && (Matches(s, w) <==> Matches("", w[wild..]))
      decreases |w| - wild
    {
      EndOfText(w, wild);
      wild := wild + 1;
    }
    EndOfText(w, wild);
    return CharAt(w, wild) == '\0';
  }
}
