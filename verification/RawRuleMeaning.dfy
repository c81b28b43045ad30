/**
 * What a `~` rule lets through, in terms of the expression its author wrote: anchoring makes it cover
 * the whole of a host and port, however its parts bind.
 */
module RawRuleMeaning {
  import opened Anchoring
  import opened AuditRules
  import opened Decimal
  import opened Haproxy
  import opened Matchers
  import opened RawRules
  import opened Regex
  import opened RuleBlocks
  import opened RuleSets
  import opened Search
  import opened Unambiguous
  import opened UrlRules

  lemma AnchoredIsPortable(r: Re)
    requires IsPortable(r)
    ensures IsPortable(Anchored(r)) && IsPortable(Cat(Bol, r))
  {
    hide LastIsEol, FirstIsBol;
    PortableParts();
    CatIsPortable(r, Eol);
    CatIsPortable(Bol, r);
    CatIsPortable(Bol, Cat(r, Eol));
  }

  /** Anchored, an expression takes a text just when it covers all of it. */
  lemma AnchoredReads(engine: Engine, r: Re, s: string, icase: bool)
    requires ReadsTrees(engine) && WellFormed(r) && IsPortable(r) && !BarFrom(Print(r), false, 0) && OneLine(s)
    ensures engine(AnchorRawRegex(Print(r)), s, icase) <==> Covers(r, s, icase)
  {
    hide WellFormed, IsPortable, Print, Finds, Covers, BarFrom, AnchorRawRegex, Anchored;
    AnchoringBindsTheWhole(r, s, icase);
    AnchoredIsPortable(r);
  }

  /** With only its start anchored, it takes what it matches a beginning of. */
  lemma OpenReads(engine: Engine, r: Re, s: string, icase: bool)
    requires ReadsTrees(engine) && WellFormed(r) && IsPortable(r) && !BarFrom(Print(r), false, 0) && OneLine(s)
    ensures engine("^" + Print(r), s, icase) <==> MatchesPrefix(r, s, icase)
  {
    hide WellFormed, IsPortable, Print, BarFrom, Matches;
    AlternationIsAtTheRoot(r);
    CatText(Bol, r);
    AnchoredIsPortable(r);
    StartsWithIt(r, s, icase);
  }

  lemma StartsWithIt(r: Re, s: string, icase: bool)
    ensures Finds(Cat(Bol, r), s, icase) <==> MatchesPrefix(r, s, icase)
  {
    if Finds(Cat(Bol, r), s, icase) {
      var i: nat, j: nat :| i <= j <= |s| && Matches(Cat(Bol, r), s, i, j, icase);
      var k := CatSplits(Bol, r, s, i, j, icase);
      assert i == k == 0;
    }
    if MatchesPrefix(r, s, icase) {
      var j: nat :| j <= |s| && Matches(r, s, 0, j, icase);
      assert Matches(Bol, s, 0, 0, icase);
      CatJoins(Bol, r, s, 0, 0, j, icase);
    }
  }

  lemma HostPortIsOneLine(req: Request)
    requires OneLine(req.host)
    ensures OneLine(HostPortText(req))
  {
    assert forall k | 0 <= k < |Dec(req.port)| :: Dec(req.port)[k] != '\n';
  }

  /** A path's expression where a rule names no path: any absolute path. */
  lemma AnyPathRead(engine: Engine, path: string)
    requires ReadsTrees(engine) && OneLine(path)
    ensures engine("^/", path, false) <==> "/" <= path
  {
    hide Finds, WellFormed, IsPortable, Print, SameText;
    TreesReadLiterals("/", path, false);
    assert EscapeDots("/") == "/" by { assert "/"[1..] == []; }
    assert IsPlainText("/");
    assert "^" + "/" == "^/";
    SameExactly("/", path);
  }

  /**
   * A `~` host rule that compiles lets through just the hosts and ports its expression covers, with any
   * method and any absolute path.
   */
  lemma RawHostRuleMeans(engine: Engine, checks: Checks, r: Re, scheme: Scheme, req: Request)
    requires ReadsTrees(engine) && WellFormed(r) && IsPortable(r) && OneLine(req.host) && OneLine(req.path)
    requires FromHostRule(checks, "~" + Print(r)).Some?
    ensures RuleMatches(engine, FromHostRule(checks, "~" + Print(r)).value, scheme, req)
       <==> Covers(r, HostPortText(req), true) && "/" <= req.path
  {
    hide ReadsTrees, WellFormed, IsPortable, Print, Covers, BarFrom, AnchorRawRegex, HostPortText, SplitDomainFromPort, IsHalf;
    var pattern := "~" + Print(r);
    assert pattern[1..] == Print(r);
    assert IsHalf(checks, Print(r), false);
    assert !BarFrom(Print(r), false, 0) by { HalfHasNoBar(checks, Print(r), false); }
    HostPortIsOneLine(req);
    AnchoredReads(engine, r, HostPortText(req), true);
    AnyPathRead(engine, req.path);
  }

  lemma HalfHasNoBar(checks: Checks, text: string, hostHalf: bool)
    requires IsHalf(checks, text, hostHalf)
    ensures !BarFrom(text, false, 0)
  {
  }

  // ---- the scheme of a URL rule ----

  /** A single optional character. */
  lemma MaybeCovers(c: char, t: string)
    ensures Covers(Quant(Chr(c, false), Opt, false), t, false) <==> t == "" || t == [c]
  {
    hide Matches;
    var body := Chr(c, false);
    QuantMatches(body, Opt, false, t, 0, |t|, false);
    if n: nat :| InTimes(Opt, n) && Repeats(body, n, t, 0, |t|, false) {
      if n == 1 {
        var k := RepeatsFirst(body, 1, t, 0, |t|, false);
        ChrAt(c, t, 0, k);
      }
    }
    if t == "" {
      assert InTimes(Opt, 0) && Repeats(body, 0, t, 0, |t|, false);
    }
    if t == [c] {
      ChrAt(c, t, 0, 1);
      assert Repeats(body, 0, t, 1, 1, false);
      RepeatsMore(body, 1, t, 0, 1, 1, false);
      assert InTimes(Opt, 1) && Repeats(body, 1, t, 0, |t|, false);
    }
  }

  lemma ChrAt(c: char, t: string, i: nat, j: nat)
    requires i <= j <= |t|
    ensures Matches(Chr(c, false), t, i, j, false) <==> j == i + 1 && t[i] == c
  {
  }

  const MAYBE_S := Quant(Chr('s', false), Opt, false)
  const HTTP_OR_HTTPS := Cat(Literal("http"), MAYBE_S)

  lemma MaybeShape()
    ensures WellFormed(MAYBE_S) && Print(MAYBE_S) == "s?" && AnchorFree(MAYBE_S) && !MAYBE_S.Alt?
  {
  }

  lemma HttpOrHttps(s: string)
    ensures WellFormed(HTTP_OR_HTTPS) && Print(HTTP_OR_HTTPS) == "https?"
    ensures Covers(HTTP_OR_HTTPS, s, false) <==> s == "http" || s == "https"
  {
    hide Matches, Literal;
    LiteralShape("http");
    HttpText();
    MaybeShape();
    hide Print, WellFormed, AnchorFree;
    CatText(Literal("http"), MAYBE_S);
    CatCovers(Literal("http"), MAYBE_S, s, false);
    forall k: nat | k <= |s| ensures SplitCovers(Literal("http"), MAYBE_S, s, k, false) <==>
      s[..k] == "http" && (s[k..] == "" || s[k..] == "s")
    {
      LiteralCovers("http", s[..k], false);
      SameExactly("http", s[..k]);
      MaybeCovers('s', s[k..]);
    }
    hide SplitCovers, Covers;
    if s == "http" || s == "https" {
      assert s[..4] == "http" && (s[4..] == "" || s[4..] == "s");
      assert SplitCovers(Literal("http"), MAYBE_S, s, 4, false);
    }
    if k: nat :| k <= |s| && SplitCovers(Literal("http"), MAYBE_S, s, k, false) {
      assert s == s[..k] + s[k..];
    }
  }

  lemma HttpText()
    ensures Print(Literal("http")) == "http" && Print(Literal("https")) == "https"
  {
    hide Print, Literal;
    PlainPrints("http");
    PlainPrints("https");
  }

  lemma {:induction false} PlainPrints(t: string)
    requires forall k | 0 <= k < |t| :: IsAlnum(t[k])
    ensures Print(Literal(t)) == t
  {
    if t != "" {
      PlainPrints(t[1..]);
      assert forall c | c in META :: !IsAlnum(c);
      assert t == [t[0]] + t[1..];
    }
  }

  /** The tree of each scheme a rule may be written for. */
  function SchemeTree(scheme: string): Re {
    if scheme == "https?" then HTTP_OR_HTTPS else Literal(scheme)
  }

  lemma SchemeTreeIs(scheme: string, s: string)
    requires scheme == "http" || scheme == "https" || scheme == "https?"
    ensures var r := SchemeTree(scheme);
      && WellFormed(r) && Print(r) == scheme && !r.Alt?
      && (Covers(r, s, false) <==> s == (if scheme == "https?" then s else scheme) && (s == "http" || s == "https"))
  {
    hide Matches, Literal;
    HttpOrHttps(s);
    HttpText();
    LiteralShape("http");
    LiteralShape("https");
    LiteralCovers("http", s, false);
    LiteralCovers("https", s, false);
    SameExactly("http", s);
    SameExactly("https", s);
  }

  lemma FromTheStart(r: Re, s: string)
    ensures Covers(Cat(Bol, r), s, false) <==> Covers(r, s, false)
  {
    if Covers(Cat(Bol, r), s, false) {
      var k := CatSplits(Bol, r, s, 0, |s|, false);
      assert k == 0;
    }
    if Covers(r, s, false) {
      assert Matches(Bol, s, 0, 0, false);
      CatJoins(Bol, r, s, 0, 0, |s|, false);
    }
  }

  /** What is written before the separator says which schemes the rule is for: those it covers. */
  lemma RawSchemesMean(r: Re, scheme: Scheme)
    requires WellFormed(r) && RawRegexSchemes(Print(r)) != []
    ensures scheme in RawRegexSchemes(Print(r)) <==> Covers(r, SchemeText(scheme), false)
  {
    hide Matches, Print, WellFormed, SchemeTree;
    var text, s := Print(r), SchemeText(scheme);
    var name := if "^" <= text then text[1..] else text;
    SchemeTreeIs(name, s);
    var tree := if "^" <= text then Cat(Bol, SchemeTree(name)) else SchemeTree(name);
    CatText(Bol, SchemeTree(name));
    assert Print(tree) == text;
    SameTextSameMeaning(r, tree);
    FromTheStart(SchemeTree(name), s);
    assert Matches(r, s, 0, |s|, false) <==> Matches(tree, s, 0, |s|, false);
  }

  // ---- the parts of a URL rule ----

  /** A colon and two slashes, either of them escaped or not. */
  predicate IsSeparator(sep: string) {
    sep == "://" || sep == ":\\/\\/" || sep == ":/\\/" || sep == ":\\//"
  }

  /** Text with no slash in it, nor a backslash at its end that would escape one. */
  predicate HasNoSlash(host: string) {
    '/' !in host && (host != "" ==> host[|host| - 1] != '\\')
  }

  predicate StartsWithSlash(path: string) {
    "/" <= path || "\\/" <= path
  }

  lemma {:induction false} NoSeparatorBefore(s: string, i: nat, k: nat)
    requires i <= k <= |s| && (forall j | i <= j < k :: s[j] != ':') && (k < |s| ==> SeparatorLength(s, k) > 0)
    ensures SeparatorFrom(s, i) == k
    decreases k - i
  {
    if i < k {
      NoSeparatorBefore(s, i + 1, k);
    }
  }

  lemma {:induction false} NoSlashBefore(s: string, i: nat, k: nat)
    requires i <= k < |s| && (forall j | i <= j < k :: SlashLength(s, j) == 0) && SlashLength(s, k) > 0
    ensures SlashFrom(s, i) == k
    decreases k - i
  {
    if i < k {
      NoSlashBefore(s, i + 1, k);
    }
  }

  lemma FirstSeparator(scheme: string, sep: string, rest: string)
    requires ':' !in scheme && IsSeparator(sep)
    ensures var regex := scheme + sep + rest; SeparatorFrom(regex, 0) == |scheme| && SeparatorLength(regex, |scheme|) == |sep|
  {
    hide SeparatorLength, SeparatorFrom;
    var regex := scheme + sep + rest;
    assert forall k | 0 <= k < |scheme| :: regex[k] == scheme[k];
    assert forall k | 0 <= k < |sep| :: regex[|scheme| + k] == sep[k];
    SeparatorIs(regex, |scheme|, sep);
    NoSeparatorBefore(regex, 0, |scheme|);
  }

  lemma SeparatorIs(regex: string, at: nat, sep: string)
    requires IsSeparator(sep) && at + |sep| <= |regex| && forall k | 0 <= k < |sep| :: regex[at + k] == sep[k]
    ensures SeparatorLength(regex, at) == |sep|
  {
    assert regex[at] == sep[0] && regex[at + 1] == sep[1] && regex[at + 2] == sep[2];
    assert |sep| > 3 ==> regex[at + 3] == sep[3];
    assert |sep| > 4 ==> regex[at + 4] == sep[4];
  }

  lemma FirstSlash(head: string, host: string, path: string)
    requires HasNoSlash(host) && StartsWithSlash(path)
    ensures SlashFrom(head + host + path, |head|) == |head| + |host|
  {
    hide SlashFrom;
    var regex, pathStart := head + host + path, |head| + |host|;
    assert forall k | 0 <= k < |host| :: regex[|head| + k] == host[k];
    assert regex[pathStart] == path[0] && (|path| > 1 ==> regex[pathStart + 1] == path[1]);
    forall j | |head| <= j < pathStart ensures SlashLength(regex, j) == 0 {
      assert regex[j] == host[j - |head|] && host[j - |head|] in host;
      if j + 1 < pathStart {
        assert regex[j + 1] == host[j + 1 - |head|] && host[j + 1 - |head|] in host;
      }
    }
    NoSlashBefore(regex, |head|, pathStart);
  }

  /** An expression put together from a scheme, a host and a path is cut up into them again. */
  lemma RawUrlSplits(scheme: string, sep: string, host: string, path: string)
    requires ':' !in scheme && IsSeparator(sep) && HasNoSlash(host) && StartsWithSlash(path)
    ensures var regex := scheme + sep + host + path; var hostStart := |scheme| + |sep|;
      && SeparatorFrom(regex, 0) == |scheme| && SeparatorLength(regex, |scheme|) == |sep| && |scheme| < |regex|
      && SlashFrom(regex, hostStart) == hostStart + |host| < |regex|
      && regex[..|scheme|] == scheme && regex[hostStart..hostStart + |host|] == host && regex[hostStart + |host|..] == path
  {
    hide SeparatorLength, SeparatorFrom, SlashFrom;
    FirstSeparator(scheme, sep, host + path);
    assert scheme + sep + (host + path) == scheme + sep + host + path;
    FirstSlash(scheme + sep, host, path);
  }

  lemma RawUrlParts(checks: Checks, scheme: string, sep: string, host: string, path: string)
    requires ':' !in scheme && IsSeparator(sep) && HasNoSlash(host) && StartsWithSlash(path)
    requires SplitRawRegexUrl(checks, scheme + sep + host + path).Some?
    ensures var raw := SplitRawRegexUrl(checks, scheme + sep + host + path).value;
      && raw.schemes == RawRegexSchemes(scheme) != []
      && raw.hostRegex == AnchorRawRegex(host) && raw.pathRegex == "^" + path
    ensures IsHalf(checks, host, false) && IsHalf(checks, path, false)
  {
    hide AnchorRawRegex, SplitDomainFromPort, IsHalf, RawRegexSchemes, HasNoSlash, StartsWithSlash, IsSeparator, SeparatorFrom,
      SeparatorLength, SlashFrom;
    RawUrlSplits(scheme, sep, host, path);
  }

  /**
   * A `~` URL rule that compiles, said of the expressions it is written with: it is for the schemes the
   * first covers, and lets a request through when its host half covers the host, where the port is the
   * scheme's own, or host and port; when its path half matches a beginning of the path; and when the
   * method is one of its own.
   */
  lemma RawUrlRuleMeans(engine: Engine, checks: Checks, s: Re, sep: string, h: Re, p: Re, methods: Option<seq<string>>,
    scheme: Scheme, req: Request)
    requires ReadsTrees(engine) && OneLine(req.host) && OneLine(req.path) && WellFormed(s)
    requires WellFormed(h) && IsPortable(h) && WellFormed(p) && IsPortable(p)
    requires ':' !in Print(s) && IsSeparator(sep) && HasNoSlash(Print(h)) && StartsWithSlash(Print(p))
    requires SplitRawRegexUrl(checks, Print(s) + sep + Print(h) + Print(p)).Some?
    ensures var raw := SplitRawRegexUrl(checks, Print(s) + sep + Print(h) + Print(p)).value;
      var rule := RawUrlRule(methods, raw.schemes, raw.hostRegex, raw.authorityRegex, raw.pathRegex);
      && (IsOfScheme(rule, scheme) <==> Covers(s, SchemeText(scheme), false))
      && (RuleMatches(engine, FromUrlRule(rule), scheme, req) <==>
            && ((req.port == DefaultPort(scheme) && Covers(h, req.host, true)) || Covers(h, HostPortText(req), true))
            && MatchesPrefix(p, req.path, false) && (methods.Some? ==> req.verb in methods.value))
  {
    hide ReadsTrees, WellFormed, IsPortable, Print, Covers, BarFrom, AnchorRawRegex, HostPortText, SplitRawRegexUrl, IsHalf,
      MatchesPrefix, RawRegexSchemes, HasNoSlash, StartsWithSlash, IsSeparator;
    RawUrlParts(checks, Print(s), sep, Print(h), Print(p));
    RawSchemesMean(s, scheme);
    HalfHasNoBar(checks, Print(h), false);
    HalfHasNoBar(checks, Print(p), false);
    HostPortIsOneLine(req);
    AnchoredReads(engine, h, HostPortText(req), true);
    AnchoredReads(engine, h, req.host, true);
    OpenReads(engine, p, req.path, false);
  }
}
