// url: parsing a text with a moving cursor, printing, and their round trip.
module Url {
  import opened Strings
  import opened UrlText

  // ----- the cursor parsers (cpaf_url_string_functions.cpp) -----

  // The part that was recognised, "" for none, and the cursor behind it: on its
  // last character, or where it was.
  datatype Parsed = Parsed(part: string, pos: nat)

  predicate ValidProtocol(p: string) { p == "http" || p == "https" || p == "ftp" || p == "mailto" }

  function Lower(c: char): char { if 'A' <= c <= 'Z' then c + 32 as char else c }

  predicate StartsWithMailto(s: string) {
    |s| >= 7 && Lower(s[0]) == 'm' && Lower(s[1]) == 'a' && Lower(s[2]) == 'i' && Lower(s[3]) == 'l'
    && Lower(s[4]) == 't' && Lower(s[5]) == 'o' && s[6] == ':'
  }

  predicate IsParameters(s: string, pos: nat)
    requires pos < |s|
  {
    s[pos] == '?'
  }

  // The first dot at or after pos opens .asp or .php.
  predicate ScriptDot(s: string, pos: nat)
    requires pos <= |s|
  {
    var i := Find(s, '.', pos);
    i != -1 && i + 3 < |s| && (s[i..i + 4] == ".asp" || s[i..i + 4] == ".php")
  }

  predicate IsDefinitelyAPath(s: string, pos: nat)
    requires pos < |s|
  {
    || (|s| - pos >= 2 && s[pos] == '.' && s[pos + 1] == '.')
    || (|s| - pos >= 2 && s[pos] == '.' && s[pos + 1] == '/')
    || s[pos] == '/'
    || ScriptDot(s, pos)
  }

  // The cursor also moves past a colon behind an unknown protocol.
  function ParseProtocol(s: string, pos: nat): (r: Parsed)
    requires pos < |s|
    ensures pos <= r.pos < |s|
  {
    if StartsWithMailto(s) || IsParameters(s, pos) || IsDefinitelyAPath(s, pos) then Parsed("", pos)
    else
      var i := Find(s, ':', pos);
      if i != -1 && i + 2 < |s| then Parsed(if ValidProtocol(s[pos..i]) then s[pos..i] else "", i + 2)
      else Parsed("", pos)
  }

  function ParseDomain(s: string, pos: nat): (r: Parsed)
    requires pos < |s|
    ensures pos <= r.pos < |s|
  {
    if IsParameters(s, pos) || IsDefinitelyAPath(s, pos) then Parsed("", pos)
    else
      var i := Find(s, '/', pos);
      if i != -1 then Parsed(s[pos..i], i - 1) else Parsed(s[pos..], |s| - 1)
  }

  function ParsePath(s: string, pos: nat): (r: Parsed)
    requires pos < |s|
    ensures pos <= r.pos < |s|
  {
    if IsParameters(s, pos) then Parsed("", pos)
    else
      var i := Find(s, '?', pos);
      var (raw, last) := if i != -1 then (s[pos..i], i - 1) else (s[pos..], |s| - 1);
      var p := if raw[|raw| - 1] == '/' then raw[..|raw| - 1] else raw;
      Parsed(if p != "" && p[0] != '/' then "/" + p else p, last)
  }

  function ParseParameters(s: string, pos: nat): (r: Parsed)
    requires pos < |s|
    ensures pos <= r.pos < |s|
  {
    if IsParameters(s, pos) then Parsed(s[pos..], |s| - 1) else Parsed("", pos)
  }

  // More text to parse, and the cursor behind the latest part.
  function ParseAdvance(s: string, latest: string, pos: nat): (r: (bool, nat))
    requires pos < |s|
    ensures r.1 < |s|
  {
    if latest == "" then (true, pos) else if pos + 1 < |s| then (true, pos + 1) else (false, pos)
  }

  // ----- whole URLs -----

  datatype Parts = Parts(protocol: string, domain: seq<string>, path: string, parameters: seq<Param>, isFile: bool)

  // std::filesystem::path::filename
  function Filename(path: string): string {
    if path == "" then "" else if path[|path| - 1] == '/' then "" else Filename(path[..|path| - 1]) + [path[|path| - 1]]
  }

  predicate NamesFile(path: string) { Filename(path) != "." && Filename(path) != ".." }

  // url::assign on a non-empty text: each parser starts where the last stopped.
  function Parse(s: string): Parts
    requires s != ""
  {
    var protocol := ParseProtocol(s, 0);
    var (more1, pos1) := ParseAdvance(s, protocol.part, protocol.pos);
    var domain := if more1 then ParseDomain(s, pos1) else Parsed("", pos1);
    var (more2, pos2) := ParseAdvance(s, domain.part, domain.pos);
    var path := if more2 then ParsePath(s, pos2) else Parsed("", pos2);
    var (more3, pos3) := ParseAdvance(s, path.part, path.pos);
    var parameters := if more3 then ParseParameters(s, pos3).part else "";
    Parts(protocol.part, DomainParts(domain.part), path.part,
          if parameters == "" then [] else ParameterParts(parameters), NamesFile(path.part))
  }

  // url::string
  function Print(u: Parts): string {
    (if u.protocol != "" then u.protocol + "://" else "")
    + DomainText(u.domain)
    + u.path
    + (if u.parameters != [] then ParametersText(u.parameters) else "")
  }

  lemma EmptyDomainText()
    ensures DomainText([]) == ""
  {
  }

  class Url {
    var protocol: string
    var domain: seq<string>
    var path: string
    var parameters: seq<Param>
    var isFile: bool

    function Abs(): Parts
      reads this
    {
      Parts(protocol, domain, path, parameters, isFile)
    }

    constructor (s: string)
      requires s != ""
      ensures Abs() == Parse(s)
    {
      protocol, domain, path, parameters, isFile := "", [], "", [], false;
      new;
      Assign(s);
    }

    // Called on a new object only; an empty text leaves it as it is.
    method Assign(s: string)
      requires path == "" && parameters == []
      modifies this
      ensures Abs() == if s == "" then old(Abs()) else Parse(s)
    {
      if s == "" {
        return;
      }
      var moreToParse: bool;
      var domainText, parametersText := "", "";
      var curPos := 0;
      var r := ParseProtocol(s, curPos);
      protocol, curPos := r.part, r.pos;
      var a := ParseAdvance(s, protocol, curPos);
      moreToParse, curPos := a.0, a.1;
      if moreToParse {
        r := ParseDomain(s, curPos);
        domainText, curPos := r.part, r.pos;
      }
      a := ParseAdvance(s, domainText, curPos);
      moreToParse, curPos := a.0, a.1;
      if moreToParse {
        r := ParsePath(s, curPos);
        path, curPos := r.part, r.pos;
      }
      a := ParseAdvance(s, path, curPos);
      moreToParse, curPos := a.0, a.1;
      if moreToParse {
        r := ParseParameters(s, curPos);
        parametersText, curPos := r.part, r.pos;
      }
      domain := SplitDomain(domainText);
      parameters := SplitParameters(parametersText, parameters);
      isFile := NamesFile(path);
    }

    // url::parameters: an empty text does not clear them.
    method SetParameters(text: string)
      modifies `parameters
      ensures parameters == if text == "" then old(parameters) else ParameterParts(text)
    {
      parameters := SplitParameters(text, parameters);
    }

    method String() returns (s: string)
      ensures s == Print(Abs())
    {
      hide DomainText, ParametersText;
      EmptyDomainText();
      s := "";
      if protocol != "" {
        s := s + (protocol + "://");
      }
      if domain != [] {
        var d := DomainAsString(domain);
        s := s + d;
      }
      if path != "" {
        s := s + path;
      }
      if parameters != [] {
        var p := ParametersAsString(parameters);
        s := s + p;
      }
    }
  }

  // ----- the round trip -----

  lemma ProtocolParses(s: string, p: string, rest: string)
    requires p == "http" || p == "https" || p == "ftp"
    requires rest != "" && s == p + "://" + rest && !ScriptDot(s, 0)
    ensures ParseProtocol(s, 0) == Parsed(p, |p| + 2)
  {
    assert s[0] == p[0] && s[|p|] == ':' && s[0..|p|] == p;
    FindIs(s, ':', 0, |p|);
  }

  lemma DomainParses(s: string, pos: nat, d: string, rest: string)
    requires pos < |s| && s[pos..] == d + rest && !ScriptDot(s, pos)
    requires d != "" && '/' !in d && '?' !in d && !(|d| >= 2 && d[0] == '.' && d[1] == '.')
    requires rest == "" || (rest[0] == '/' && d != ".")
    ensures ParseDomain(s, pos) == Parsed(d, pos + |d| - 1)
  {
    assert forall k :: 0 <= k < |d| + |rest| ==> s[pos + k] == (d + rest)[k];
    assert s[pos] == d[0] && d[0] in d && s[pos..pos + |d|] == d;
    if rest == "" {
      FindNone(s, '/', pos);
    } else {
      assert s[pos + |d|] == rest[0];
      FindIs(s, '/', pos, pos + |d|);
    }
  }

  ghost predicate PlainPath(path: string) {
    path == "" || (|path| >= 2 && path[0] == '/' && path[|path| - 1] != '/' && '?' !in path)
  }

  lemma PathParses(s: string, pos: nat, path: string, rest: string)
    requires pos < |s| && s[pos..] == path + rest && PlainPath(path) && path != ""
    requires rest == "" || rest[0] == '?'
    ensures ParsePath(s, pos) == Parsed(path, pos + |path| - 1)
  {
    StretchParses(s, pos, path, rest);
  }

  ghost predicate WellFormed(u: Parts) {
    && (u.protocol == "http" || u.protocol == "https" || u.protocol == "ftp")
    && CanonicalDomain(u.domain)
    && (var d := DomainText(u.domain); d != "" && '/' !in d && '?' !in d && !(|d| >= 2 && d[0] == '.' && d[1] == '.'))
    && (u.path != "" ==> DomainText(u.domain) != ".")
    && PlainPath(u.path)
    && (u.parameters != [] ==> u.path != "")
    && (forall i :: 0 <= i < |u.parameters| ==> PlainParam(u.parameters[i]))
    && u.isFile == NamesFile(u.path)
  }

  // No dot in the protocol, so the first dot of the text is the first one
  // behind it.
  lemma NoScriptDotBehind(s: string, p: string, rest: string)
    requires p == "http" || p == "https" || p == "ftp"
    requires s == p + "://" + rest && !ScriptDot(s, 0)
    ensures !ScriptDot(s, |p| + 3)
  {
    assert s[0..|p| + 3] == p + "://";
    FindSkips(s, '.', 0, |p| + 3);
  }

  function Tail(u: Parts): string { if u.parameters != [] then ParametersText(u.parameters) else "" }

  lemma PrintShape(u: Parts)
    requires u.protocol != ""
    ensures Print(u) == u.protocol + "://" + (DomainText(u.domain) + (u.path + Tail(u)))
  {
  }

  lemma HeadParses(u: Parts, s: string, d: string)
    requires WellFormed(u) && s == Print(u) && !ScriptDot(s, 0) && d == DomainText(u.domain)
    ensures var pos := |u.protocol| + 3;
            && pos < |s| && ParseProtocol(s, 0) == Parsed(u.protocol, pos - 1)
            && ParseDomain(s, pos) == Parsed(d, pos + |d| - 1)
            && pos + |d| <= |s| && s[pos..pos + |d|] == d && s[pos + |d|..] == u.path + Tail(u)
  {
    hide ParseProtocol, ParseDomain, ScriptDot, DomainText, ParametersText, CanonicalDomain, NamesFile, Print;
    PrintShape(u);
    var p, rest := u.protocol, u.path + Tail(u);
    ProtocolParses(s, p, d + rest);
    NoScriptDotBehind(s, p, d + rest);
    assert s[|p| + 3..] == d + rest;
    assert s[|p| + 3..][..|d|] == d && s[|p| + 3..][|d|..] == rest;
    TailIsParameters(u);
    DomainParses(s, |p| + 3, d, rest);
  }

  lemma TailIsParameters(u: Parts)
    ensures u.parameters == [] ==> Tail(u) == ""
    ensures u.parameters != [] ==> Tail(u) != "" && Tail(u)[0] == '?'
  {
  }

  // Printing a well-formed URL and parsing the text gives the URL back exactly
  // when the text's first dot does not open .asp or .php; otherwise the whole
  // text is taken for a path and the protocol is lost.
  lemma RoundTrip(u: Parts)
    requires WellFormed(u)
    ensures Print(u) != ""
    ensures Parse(Print(u)) == u <==> !ScriptDot(Print(u), 0)
  {
    hide ParseDomain, ParsePath, ScriptDot, DomainText, DomainParts, ParametersText, ParameterParts, NamesFile, Print;
    PrintShape(u);
    if !ScriptDot(Print(u), 0) {
      if u.path != "" { ParsesBackWithPath(u); } else { ParsesBackWithoutPath(u); }
    }
  }

  // There are well-formed URLs of the failing family.
  lemma ScriptDotBreaksRoundTrip()
    ensures var u := Parts("http", ["localhost"], "/index.php", [], true);
            WellFormed(u) && ScriptDot(Print(u), 0) && Parse(Print(u)) != u
  {
    hide Parse, WellFormed, ScriptDot, Print;
    var u := Parts("http", ["localhost"], "/index.php", [], true);
    IndexPagePrints(u);
    IndexPageIsWellFormed(u);
    IndexPageHasScriptDot();
    RoundTrip(u);
  }

  lemma IndexPagePrints(u: Parts)
    requires u == Parts("http", ["localhost"], "/index.php", [], true)
    ensures DomainText(u.domain) == "localhost" && Print(u) == "http://localhost/index.php"
  {
    hide Print;
    PrintShape(u);
    JoinOne("localhost", '.');
  }

  lemma IndexPageIsWellFormed(u: Parts)
    requires u == Parts("http", ["localhost"], "/index.php", [], true) && DomainText(u.domain) == "localhost"
    ensures WellFormed(u)
  {
    hide DomainText;
    var f := Filename(u.path);
    assert f == Filename(u.path[..9]) + ['p'];
    assert f[|f| - 1] == 'p';
  }

  lemma IndexPageHasScriptDot()
    ensures ScriptDot("http://localhost/index.php", 0)
  {
    var s := "http://localhost/index.php";
    assert '.' !in s[0..22] && s[22] == '.';
    FindIs(s, '.', 0, 22);
  }

  lemma ParsesBackWithPath(u: Parts)
    requires WellFormed(u) && u.path != "" && Print(u) != "" && !ScriptDot(Print(u), 0)
    ensures Parse(Print(u)) == u
  {
    hide ParseProtocol, ParseDomain, ParsePath, ParseParameters, ScriptDot, DomainText, DomainParts,
         ParametersText, ParameterParts, NamesFile, CanonicalDomain, PlainPath, PlainParam, Print,
         Tail;
    var s, d := Print(u), DomainText(u.domain);
    HeadParses(u, s, d);
    CanonicalRoundTrip(u.domain);
    PathAndParametersParse(u, s, |u.protocol| + 3 + |d|);
  }

  lemma ParsesBackWithoutPath(u: Parts)
    requires WellFormed(u) && u.path == "" && Print(u) != "" && !ScriptDot(Print(u), 0)
    ensures Parse(Print(u)) == u
  {
    hide ParseProtocol, ParseDomain, ParsePath, ParseParameters, ScriptDot, DomainText, DomainParts,
         ParametersText, ParameterParts, NamesFile, CanonicalDomain, Print;
    var s, d := Print(u), DomainText(u.domain);
    HeadParses(u, s, d);
    CanonicalRoundTrip(u.domain);
    TailIsParameters(u);
    assert s[|u.protocol| + 3..] == d;
    LastOfDomain(s, |u.protocol| + 3, d);
  }

  // Without a path the cursor stays on the last character of the domain.
  lemma LastOfDomain(s: string, pos: nat, d: string)
    requires d != "" && pos + |d| == |s| && s[pos..] == d && '?' !in d
    ensures ParseParameters(s, |s| - 1).part == ""
  {
  }

  lemma PathAndParametersParse(u: Parts, s: string, pos: nat)
    requires PlainPath(u.path) && u.path != "" && pos <= |s| && s[pos..] == u.path + Tail(u)
    requires forall i :: 0 <= i < |u.parameters| ==> PlainParam(u.parameters[i])
    ensures pos < |s|
    ensures var r := ParsePath(s, pos); var a := ParseAdvance(s, r.part, r.pos);
            && r.part == u.path && a.0 == (u.parameters != [])
            && (u.parameters != [] ==>
                  ParseParameters(s, a.1).part == Tail(u) && Tail(u) != "" && ParameterParts(Tail(u)) == u.parameters)
  {
    hide ParsePath, ParameterParts, PlainParam, ParametersText;
    TailIsParameters(u);
    PathParses(s, pos, u.path, Tail(u));
    if u.parameters != [] {
      ParametersRoundTrip(u.parameters);
      assert s[pos + |u.path|..] == Tail(u) && s[pos + |u.path|] == Tail(u)[0];
    }
  }

  // ----- texts that are not printed URLs -----

  // Where the first dot opens .asp or .php, in the characters behind it.
  lemma ScriptDotIs(a: string, b: string)
    requires '.' !in a
    ensures ScriptDot(a + "." + b, 0) <==> "asp" <= b || "php" <= b
    ensures !ScriptDot(a, 0)
  {
    var s := a + "." + b;
    assert s[0..|a|] == a && s[|a|] == '.' && a[0..] == a;
    FindIs(s, '.', 0, |a|);
    FindNone(a, '.', 0);
    assert forall k :: 0 <= k < |b| ==> s[|a| + 1 + k] == b[k];
    if |b| >= 3 {
      assert s[|a|..|a| + 4] == ['.', b[0], b[1], b[2]];
      assert b[..3] == [b[0], b[1], b[2]];
    }
  }

  // A path that starts like one has neither protocol nor domain in front.
  lemma PathHasNoDomain(s: string)
    requires "/" <= s || ".." <= s || "./" <= s || "?" <= s
    ensures Parse(s).protocol == "" && Parse(s).domain == []
  {
    hide ParsePath, ParseParameters, ParameterParts, NamesFile, ScriptDot;
  }

  // An address of mail keeps its scheme in the domain.
  lemma MailtoHasNoProtocol(s: string)
    requires "mailto:" <= s || "MAILTO:" <= s || "Mailto:" <= s
    ensures ParseProtocol(s, 0) == Parsed("", 0)
  {
  }

  // An unknown protocol is dropped, and the text is read from two characters
  // behind its colon on.
  lemma UnknownProtocolDropped(p: string, rest: string)
    requires ':' !in p && p != "http" && p != "https" && p != "ftp" && p != "mailto"
    requires |rest| >= 2 && !ScriptDot(p + ":" + rest, 0) && p != "" && p[0] != '?' && p[0] != '/' && p[0] != '.'
    ensures var s := p + ":" + rest;
            !StartsWithMailto(s) ==> ParseProtocol(s, 0) == Parsed("", |p| + 2)
  {
    hide ScriptDot, StartsWithMailto;
    var s := p + ":" + rest;
    assert s[0..|p|] == p && s[|p|] == ':' && s[0] == p[0];
    FindIs(s, ':', 0, |p|);
  }

  // A slash at the end of a path is dropped, one in front supplied.
  lemma PathIsTidied(s: string, pos: nat, path: string, rest: string)
    requires pos < |s| && path != "" && path[|path| - 1] != '/' && '?' !in path
    requires rest == "" || rest[0] == '?'
    ensures s[pos..] == path + rest ==>
              ParsePath(s, pos) == Parsed(if path[0] == '/' then path else "/" + path, pos + |path| - 1)
    ensures s[pos..] == path + "/" + rest ==>
              ParsePath(s, pos) == Parsed(if path[0] == '/' then path else "/" + path, pos + |path|)
    ensures s[pos..] == "/" + rest ==> ParsePath(s, pos) == Parsed("", pos)
  {
    if s[pos..] == path + rest { StretchParses(s, pos, path, rest); }
    if s[pos..] == path + "/" + rest {
      assert path + "/" + rest == (path + "/") + rest;
      StretchParses(s, pos, path + "/", rest);
    }
    if s[pos..] == "/" + rest { StretchParses(s, pos, "/", rest); }
  }

  // The path is made of the stretch up to the first question mark.
  lemma StretchParses(s: string, pos: nat, raw: string, rest: string)
    requires pos < |s| && s[pos..] == raw + rest && raw != "" && '?' !in raw && (rest == "" || rest[0] == '?')
    ensures var p := if raw[|raw| - 1] == '/' then raw[..|raw| - 1] else raw;
            ParsePath(s, pos) == Parsed(if p != "" && p[0] != '/' then "/" + p else p, pos + |raw| - 1)
  {
    FirstQuestionMark(s, pos, raw, rest);
    hide Find;
  }

  lemma FirstQuestionMark(s: string, pos: nat, raw: string, rest: string)
    requires pos < |s| && s[pos..] == raw + rest && raw != "" && '?' !in raw && (rest == "" || rest[0] == '?')
    ensures pos + |raw| <= |s| && s[pos..pos + |raw|] == raw && s[pos] != '?'
    ensures Find(s, '?', pos) == (if rest == "" then -1 else pos + |raw|) && (rest == "" ==> s[pos..] == raw)
  {
    hide Find;
    CutBehind(s, pos, raw, rest);
    FirstOf(s, pos, raw);
    FindsBehind(s, pos, raw, rest);
  }

  lemma FirstOf(s: string, pos: nat, raw: string)
    requires pos + |raw| <= |s| && s[pos..pos + |raw|] == raw && raw != "" && '?' !in raw
    ensures s[pos] == raw[0] != '?'
  {
    assert s[pos] == s[pos..pos + |raw|][0];
  }

  lemma FindsBehind(s: string, pos: nat, raw: string, rest: string)
    requires pos + |raw| <= |s| && s[pos..pos + |raw|] == raw && '?' !in raw && (rest == "" ==> s[pos..] == raw)
    requires rest != "" ==> pos + |raw| < |s| && s[pos + |raw|] == '?'
    ensures Find(s, '?', pos) == if rest == "" then -1 else pos + |raw|
  {
    hide Find;
    if rest == "" { FindNone(s, '?', pos); } else { FindIs(s, '?', pos, pos + |raw|); }
  }

  lemma CutBehind(s: string, pos: nat, raw: string, rest: string)
    requires pos <= |s| && s[pos..] == raw + rest
    ensures pos + |raw| <= |s| && s[pos..pos + |raw|] == raw && s[pos + |raw|..] == rest
    ensures rest != "" ==> pos + |raw| < |s| && s[pos + |raw|] == rest[0]
    ensures rest == "" ==> s[pos..] == raw
  {
    assert s[pos..pos + |raw|] == s[pos..][..|raw|] && s[pos + |raw|..] == s[pos..][|raw|..];
  }

  // A path names a file unless its last component is a dot or two.
  lemma NamesFileIs(path: string)
    ensures var n := |path|;
            !NamesFile(path) <==> path in {".", ".."} || (n >= 2 && path[n - 2] == '/' && path[n - 1] == '.')
                                  || (n >= 3 && path[n - 3] == '/' && path[n - 2] == '.' && path[n - 1] == '.')
  {
    hide Filename;
    var n := |path|;
    FilenameEnds(path);
    assert path == "." <==> n == 1 && path[0] == '.';
    assert path == ".." <==> n == 2 && path[0] == '.' && path[1] == '.';
    if n > 0 {
      var r := path[..n - 1];
      FilenameEnds(r);
      DotsSnoc(Filename(r), path[n - 1]);
      if n > 1 {
        FilenameEnds(r[..n - 2]);
        DotsSnoc(Filename(r[..n - 2]), r[n - 2]);
      }
    }
  }

  lemma DotsSnoc(f: string, c: char)
    ensures f + [c] == "." <==> f == "" && c == '.'
    ensures f + [c] == ".." <==> f == "." && c == '.'
  {
    assert |f + [c]| == |f| + 1 && (f + [c])[|f|] == c && (f + [c])[..|f|] == f;
    assert "."[..0] == "" && ".."[..1] == ".";
  }

  // The filename is what follows the last slash.
  lemma FilenameEnds(path: string)
    ensures Filename(path) == "" <==> path == "" || path[|path| - 1] == '/'
    ensures path != "" && path[|path| - 1] != '/' ==>
              Filename(path) == Filename(path[..|path| - 1]) + [path[|path| - 1]]
  {
  }

  // Without a protocol the round trip holds as well, for a text without a colon.
  lemma BareRoundTrip(u: Parts)
    requires u.protocol == "" && WellFormed(u.(protocol := "http"))
    requires ':' !in Print(u) && !ScriptDot(Print(u), 0)
    ensures Print(u) != "" && Parse(Print(u)) == u
  {
    hide ParseDomain, ParsePath, ParseParameters, ScriptDot, DomainText, DomainParts, ParametersText, ParameterParts,
         NamesFile, CanonicalDomain, PlainPath, PlainParam, Print, Tail;
    BarePrintShape(u);
    var s, d, rest := Print(u), DomainText(u.domain), u.path + Tail(u);
    assert s[0..] == s && d <= s;
    TailIsParameters(u);
    BareHead(u);
    CanonicalRoundTrip(u.domain);
    BareDomain(u, s, d);
    if u.path != "" {
      assert s[|d|..] == rest;
      PathAndParametersParse(u, s, |d|);
    } else {
      assert s == d;
      LastOfDomain(s, 0, d);
    }
  }

  lemma BarePrintShape(u: Parts)
    requires u.protocol == ""
    ensures Print(u) == DomainText(u.domain) + (u.path + Tail(u))
  {
  }

  lemma BareHead(u: Parts)
    requires u.protocol == "" && WellFormed(u.(protocol := "http"))
    requires ':' !in Print(u) && !ScriptDot(Print(u), 0)
    ensures Print(u) != "" && ParseProtocol(Print(u), 0) == Parsed("", 0)
  {
    hide ScriptDot, DomainText, CanonicalDomain, PlainPath, PlainParam, Print, Tail;
    BarePrintShape(u);
    var s := Print(u);
    assert s[0..] == s && s[0] == DomainText(u.domain)[0];
    FindNone(s, ':', 0);
  }

  lemma BareDomain(u: Parts, s: string, d: string)
    requires u.protocol == "" && WellFormed(u.(protocol := "http"))
    requires s == Print(u) && d == DomainText(u.domain) && !ScriptDot(s, 0)
    ensures |d| <= |s| && d != "" && s != "" && ParseDomain(s, 0) == Parsed(d, |d| - 1) && '?' !in d
  {
    hide ParseDomain, ScriptDot, DomainText, CanonicalDomain, PlainParam, Print, NamesFile, ParametersText;
    BarePrintShape(u);
    TailIsParameters(u);
    assert s[0..] == d + (u.path + Tail(u));
    DomainParses(s, 0, d, u.path + Tail(u));
  }
}
