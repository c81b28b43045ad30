/**
 * The resolver and the proxy accept the same names: the allowlist the resolver is given
 * (src/core/lib/acl/coredns-config.ts 43-54, 248-273) and the host matchers the proxy is given come
 * from one derivation, repeats dropped and URL hosts recovered by cutting.
 */
module ResolverAgreement {
  import opened Decimal
  import opened Matchers
  import opened RawRules
  import opened Regex
  import opened RuleBlocks
  import opened RuleSets
  import opened Search
  import opened Text
  import opened UrlRules
  import opened Wildcards

  // ---- the resolver's expression ----

  /** CEL takes a backslash pair for one backslash and refuses most others. */
  function EscapeForCel(regex: string): string {
    if regex == [] then []
    else (if regex[0] == '\\' then ['\\', '\\'] else [regex[0]]) + EscapeForCel(regex[1..])
  }

  /** What a single-quoted CEL literal holds. */
  function ReadCel(text: string): Option<string> {
    if text == [] then Some([])
    else if text[0] == '\'' then None
    else if text[0] == '\\' then
      if |text| < 2 || text[1] != '\\' then None
      else match ReadCel(text[2..]) case None => None case Some(rest) => Some(['\\'] + rest)
    else match ReadCel(text[1..]) case None => None case Some(rest) => Some([text[0]] + rest)
  }

  lemma {:induction false} CelReadsBack(regex: string)
    requires '\'' !in regex
    ensures ReadCel(EscapeForCel(regex)) == Some(regex)
  {
    if regex != [] {
      CelReadsBack(regex[1..]);
      var text := EscapeForCel(regex);
      assert regex == [regex[0]] + regex[1..];
      assert regex[0] in regex;
      if regex[0] == '\\' {
        assert text[2..] == EscapeForCel(regex[1..]);
      } else {
        assert text[1..] == EscapeForCel(regex[1..]);
      }
    }
  }

  function InGroups(hosts: seq<string>): seq<string> {
    seq(|hosts|, i requires 0 <= i < |hosts| => "(" + hosts[i] + ")")
  }

  function Alternation(hosts: seq<string>): string {
    Join(InGroups(hosts), "|")
  }

  /** The allowlist's expression, as CEL is given it and as it reads. */
  function Allowlist(hosts: seq<string>): string {
    "^(" + EscapeForCel(Alternation(hosts)) + ")[.]$"
  }

  // ---- its tree ----

  function AltsTree(patterns: seq<seq<Glob>>): Re
    requires patterns != []
  {
    var first := Group(Numbered, Tree(patterns[0], Names));
    if |patterns| == 1 then first else Alt(first, AltsTree(patterns[1..]))
  }

  const LAST_DOT := Set(false, [One('.', false)])

  function AllowTree(patterns: seq<seq<Glob>>): Re
    requires patterns != []
  {
    Cat(Bol, Cat(Cat(Group(Numbered, AltsTree(patterns)), LAST_DOT), Eol))
  }

  function Texts(patterns: seq<seq<Glob>>): seq<string> {
    seq(|patterns|, i requires 0 <= i < |patterns| => GlobsText(patterns[i], DOMAIN))
  }

  predicate AllGlobs(patterns: seq<seq<Glob>>) {
    forall k | 0 <= k < |patterns| :: AreGlobs(patterns[k])
  }

  lemma {:induction false} AltsShape(patterns: seq<seq<Glob>>)
    requires patterns != [] && AllGlobs(patterns)
    ensures var r := AltsTree(patterns); WellFormed(r) && AnchorFree(r) && Print(r) == Alternation(Texts(patterns))
  {
    hide GlobsText, Tree;
    var gs := patterns[0];
    var first := Group(Numbered, Tree(gs, Names));
    TreeShape(gs, Names);
    assert Print(first) == "(" + GlobsText(gs, DOMAIN) + ")" && WellFormed(first) && AnchorFree(first) by {
    }
    var groups := InGroups(Texts(patterns));
    assert groups[0] == Print(first);
    if |patterns| > 1 {
      assert AllGlobs(patterns[1..]);
      AltsShape(patterns[1..]);
      AltText(first, AltsTree(patterns[1..]));
      assert groups[1..] == InGroups(Texts(patterns[1..]));
      assert AnchorFree(Alt(first, AltsTree(patterns[1..])));
    }
  }

  /** The tree is written as the allowlist's expression reads. */
  lemma AllowText(patterns: seq<seq<Glob>>)
    requires patterns != [] && AllGlobs(patterns)
    ensures var r := AllowTree(patterns);
      WellFormed(r) && Print(r) == "^(" + Alternation(Texts(patterns)) + ")[.]$"
  {
    hide AnchorFree, AltsTree, Alternation, Texts;
    var alts := AltsTree(patterns);
    AltsShape(patterns);
    var group := Group(Numbered, alts);
    assert Print(group) == "(" + Print(alts) + ")" && WellFormed(group);
    assert Print(LAST_DOT) == "[.]" && WellFormed(LAST_DOT) by {
      assert LAST_DOT.items[1..] == [];
      assert PrintItems(LAST_DOT.items) == ".";
    }
    CatText(group, LAST_DOT);
    CatText(Cat(group, LAST_DOT), Eol);
    CatText(Bol, Cat(Cat(group, LAST_DOT), Eol));
    Around(Print(alts));
  }

  lemma Around(a: string)
    ensures "^" + (("(" + a + ")") + "[.]" + "$") == "^(" + a + ")[.]$"
  {
  }

  ghost predicate AnyFits(patterns: seq<seq<Glob>>, name: string) {
    exists k | 0 <= k < |patterns| :: Fits(patterns[k], Names, name, true)
  }

  lemma {:induction false} AltsCover(patterns: seq<seq<Glob>>, name: string)
    requires patterns != [] && AllGlobs(patterns)
    ensures Covers(AltsTree(patterns), name, true) <==> AnyFits(patterns, name)
  {
    hide Matches, Fits, Tree;
    var first := Group(Numbered, Tree(patterns[0], Names));
    GroupMatches(Numbered, Tree(patterns[0], Names), name, 0, |name|, true);
    TreeFits(patterns[0], Names, name, true);
    if |patterns| > 1 {
      var rest := patterns[1..];
      assert AllGlobs(rest);
      AltsCover(rest, name);
      AltMatches(first, AltsTree(rest), name, 0, |name|, true);
      if AnyFits(patterns, name) {
        var k :| 0 <= k < |patterns| && Fits(patterns[k], Names, name, true);
        assert k > 0 ==> rest[k - 1] == patterns[k];
      }
      if AnyFits(rest, name) {
        var k :| 0 <= k < |rest| && Fits(rest[k], Names, name, true);
        assert patterns[k + 1] == rest[k];
      }
    }
  }

  lemma DotCovers(s: string)
    ensures Covers(LAST_DOT, s, true) <==> s == "."
  {
    if |s| == 1 {
      assert InItem(LAST_DOT.items[0], s[0]) <==> s[0] == '.';
      assert Lower(s[0]) == '.' <==> s[0] == '.';
      assert Upper(s[0]) == '.' <==> s[0] == '.';
      assert s == [s[0]];
    }
  }

  /** A query passes the allowlist just when it is an allowed name with its final dot. */
  lemma AllowlistFinds(patterns: seq<seq<Glob>>, query: string)
    requires patterns != [] && AllGlobs(patterns)
    ensures Finds(AllowTree(patterns), query, true) <==>
      EndsWith(query, ".") && AnyFits(patterns, query[..|query| - 1])
  {
    hide Matches, AnyFits, AltsTree, WellFormed, Print;
    var group := Group(Numbered, AltsTree(patterns));
    AltsShape(patterns);
    assert AnchorFree(group) && AnchorFree(LAST_DOT);
    AnchoredFinds(Cat(group, LAST_DOT), query, true);
    CatCovers(group, LAST_DOT, query, true);
    forall k: nat | k <= |query|
      ensures SplitCovers(group, LAST_DOT, query, k, true) <==> query[k..] == "." && AnyFits(patterns, query[..k])
    {
      DotCovers(query[k..]);
      GroupMatches(Numbered, AltsTree(patterns), query[..k], 0, k, true);
      AltsCover(patterns, query[..k]);
    }
    if k: nat :| SplitCovers(group, LAST_DOT, query, k, true) {
      assert query[k..] == ".";
      assert k == |query| - 1;
    }
    if EndsWith(query, ".") && AnyFits(patterns, query[..|query| - 1]) {
      assert SplitCovers(group, LAST_DOT, query, |query| - 1, true);
    }
  }

  // ---- the proxy's matcher ----

  /** A compiled pattern between anchors: what it is written as and what searching for it finds. */
  lemma TreesReadGlobs(gs: seq<Glob>, kind: Subject, s: string, icase: bool)
    requires AreGlobs(gs)
    ensures var r := Cat(Bol, Cat(Tree(gs, kind), Eol));
      && WellFormed(r) && IsPortable(r) && Print(r) == "^" + GlobsText(gs, VocabOf(kind)) + "$"
      && (Finds(r, s, icase) <==> Fits(gs, kind, s, icase))
  {
    hide Matches, Fits, Tree, GlobsText, Print, WellFormed, Finds, AnchorFree;
    TreeShape(gs, kind);
    CatText(Tree(gs, kind), Eol);
    CatText(Bol, Cat(Tree(gs, kind), Eol));
    assert IsPortable(Cat(Tree(gs, kind), Eol));
    AnchoredFinds(Tree(gs, kind), s, icase);
    TreeFits(gs, kind, s, icase);
  }

  /** What an engine that reads trees makes of a compiled pattern. */
  lemma GlobsRead(engine: Engine, gs: seq<Glob>, kind: Subject, s: string, icase: bool)
    requires ReadsTrees(engine) && AreGlobs(gs) && OneLine(s)
    ensures engine("^" + GlobsText(gs, VocabOf(kind)) + "$", s, icase) <==> Fits(gs, kind, s, icase)
  {
    hide Fits, GlobsText, VocabOf, AreGlobs, WellFormed, IsPortable, Print, Finds;
    TreesReadGlobs(gs, kind, s, icase);
  }

  lemma LowerChars(s: string)
    ensures forall k | 0 <= k < |s| :: Lower(Lower(s[k])) == Lower(s[k])
    ensures '.' in LowerText(s) <==> '.' in s
    ensures '\n' in LowerText(s) <==> '\n' in s
  {
    if '.' in LowerText(s) {
      var k :| 0 <= k < |s| && LowerText(s)[k] == '.';
      assert s[k] == '.';
    }
    if '.' in s {
      var k :| 0 <= k < |s| && s[k] == '.';
      assert LowerText(s)[k] == '.';
    }
    if '\n' in LowerText(s) {
      var k :| 0 <= k < |s| && LowerText(s)[k] == '\n';
      assert s[k] == '\n';
    }
    if '\n' in s {
      var k :| 0 <= k < |s| && s[k] == '\n';
      assert LowerText(s)[k] == '\n';
    }
  }

  lemma TakesLower(g: Glob, s: string)
    ensures Takes(g, Names, LowerText(s), true) <==> Takes(g, Names, s, true)
  {
    LowerChars(s);
    if |s| == 1 {
      assert LowerText(s)[0] == Lower(s[0]);
      assert Lower(s[0]) == '.' <==> s[0] == '.';
    }
  }

  /** A name matches in any case. */
  lemma {:induction false} FitsLower(gs: seq<Glob>, s: string)
    ensures Fits(gs, Names, LowerText(s), true) <==> Fits(gs, Names, s, true)
  {
    hide Takes;
    if gs != [] {
      var t := LowerText(s);
      forall k: nat | k <= |s|
        ensures Takes(gs[0], Names, t[..k], true) && Fits(gs[1..], Names, t[k..], true) <==>
          Takes(gs[0], Names, s[..k], true) && Fits(gs[1..], Names, s[k..], true)
      {
        assert t[..k] == LowerText(s[..k]) && t[k..] == LowerText(s[k..]);
        TakesLower(gs[0], s[..k]);
        FitsLower(gs[1..], s[k..]);
      }
      if k: nat :| k <= |t| && Takes(gs[0], Names, t[..k], true) && Fits(gs[1..], Names, t[k..], true) {
        assert k <= |s| && Takes(gs[0], Names, s[..k], true) && Fits(gs[1..], Names, s[k..], true);
      }
      if k: nat :| k <= |s| && Takes(gs[0], Names, s[..k], true) && Fits(gs[1..], Names, s[k..], true) {
        assert k <= |t| && Takes(gs[0], Names, t[..k], true) && Fits(gs[1..], Names, t[k..], true);
      }
    }
  }

  predicate GoodDomain(domain: string) {
    AreHostLabels(Split(domain, '.'))
  }

  function HostText(domain: string): string {
    GlobsText(Globs(domain), DOMAIN)
  }

  function HostRegexOf(domain: string): string {
    "^" + HostText(domain) + "$"
  }

  /** The proxy's match of a rule's host, narrowed or not, accepts what the pattern describes. */
  lemma MatcherFits(engine: Engine, domain: string, name: string)
    requires ReadsTrees(engine) && OneLine(name)
    ensures Accepts(engine, HostMatcher(HostRegexOf(domain)), LowerText(name)) <==> Fits(Globs(domain), Names, name, true)
  {
    hide ReadsTrees, Accepts, HostMatcher, Fits, Globs, GlobsText;
    var host := LowerText(name);
    assert LowerText(host) == host && OneLine(host) by { LowerChars(name); }
    HostNarrowingIsExact(engine, HostRegexOf(domain), host);
    GlobsAreGlobs(domain);
    GlobsRead(engine, Globs(domain), Names, host, true);
    FitsLower(Globs(domain), name);
  }

  // ---- hosts recovered ----

  /** A host rule that compiles is its domain's text between anchors. */
  lemma HostRuleText(checks: Checks, pattern: string) returns (host: string)
    requires FromHostRule(checks, pattern).Some? && !("~" <= pattern)
    ensures GoodDomain(host) && HostOnlyRegexOfRule(checks, pattern) == Some(HostText(host))
    ensures FromHostRule(checks, pattern).value.hostRegex == HostRegexOf(host)
  {
    hide GlobsText, Globs, AreHostLabels, DomainToRegexPartial;
    host := SplitHostRule(pattern).value.0;
    DomainTextIs(host);
  }

  lemma PlainPort(port: string)
    requires port == "[0-9]+" || AllDigitsIn(port)
    ensures ':' !in port
  {
    assert "[0-9]+" == ['[', '0', '-', '9', ']', '+'];
    assert forall k | 0 <= k < |port| :: IsDigit(port[k]) || port == "[0-9]+";
  }

  /** Cutting a compiled authority gives back the host and the port it was compiled from. */
  lemma AuthorityCutsBack(rule: UrlRule, host: string, port: string)
    requires rule.UrlRule? && rule.authorityRegex == "^" + host + ":" + port + "$" && (port == "[0-9]+" || AllDigitsIn(port))
    ensures HostOnlyRegexOfUrlRule(rule) == host
    ensures UrlRuleToMatcher(rule) == ("^" + host + "$", if port == "[0-9]+" then None else Some(Value(port)))
  {
    hide LastIndexOfChar, Value, AllDigitsIn;
    var whole := rule.authorityRegex;
    InnerOf(host + ":" + port);
    assert "^" + (host + ":" + port) + "$" == whole;
    PlainPort(port);
    CutsAtColon(host, port);
    if AllDigitsIn(port) {
      DigitsAreNot(port);
    }
  }

  lemma InnerOf(a: string)
    ensures var whole := "^" + a + "$"; |whole| >= 2 && whole[1..|whole| - 1] == a
  {
  }

  lemma CutsAtColon(host: string, port: string)
    requires ':' !in port
    ensures var a := host + ":" + port;
      LastIndexOfChar(a, ':') == |host| && a[..|host|] == host && a[|host| + 1..] == port
  {
    var a := host + ":" + port;
    assert a[|host| + 1..] == port && a[|host|] == ':';
    LastIndexIs(a, ':', |host|);
  }

  lemma DigitsAreNot(port: string)
    requires AllDigitsIn(port)
    ensures port != "[0-9]+"
  {
    assert "[0-9]+"[0] == '[';
    assert port != [] ==> IsDigit(port[0]);
  }

  /** What a literal URL's rule is made of. */
  lemma UrlRuleText(url: string)
    requires CompileUrl(url).Some?
    ensures SplitUrl(url).Some?
    ensures var (scheme, authority, path) := SplitUrl(url).value;
      var (host, port) := SplitAuthority(authority);
      var written := if port == "*" then "[0-9]+" else if port == [] then DefaultPortText(scheme) else port;
      && GoodDomain(host) && CompileUrl(url).value.1 == "^" + HostText(host) + ":" + written + "$"
      && (written == "[0-9]+" || AllDigitsIn(written))
  {
    hide GlobsText, Globs, AreHostLabels, DomainToRegexPartial, SplitUrl, SplitAuthority, HasQuery, PathToRegexPartial, Value;
    var (scheme, authority, path) := SplitUrl(url).value;
    DomainTextIs(SplitAuthority(authority).0);
  }

  lemma UrlRuleHost(url: string, methods: Option<seq<string>>)
    requires CompileUrl(url).Some?
    ensures SplitUrl(url).Some?
    ensures var host := SplitAuthority(SplitUrl(url).value.1).0;
      var rule := UrlRule(methods, CompileUrl(url).value.0, CompileUrl(url).value.1, CompileUrl(url).value.2);
      && GoodDomain(host) && HostOnlyRegexOfUrlRule(rule) == HostText(host)
      && FromUrlRule(rule).hostRegex == HostRegexOf(host)
  {
    hide CompileUrl, SplitUrl, SplitAuthority, GoodDomain, HostText, HostOnlyRegexOfUrlRule, Value;
    UrlRuleText(url);
    var (scheme, authority, path) := SplitUrl(url).value;
    var (host, port) := SplitAuthority(authority);
    var written := if port == "*" then "[0-9]+" else if port == [] then DefaultPortText(scheme) else port;
    AuthorityCutsBack(UrlRule(methods, CompileUrl(url).value.0, CompileUrl(url).value.1, CompileUrl(url).value.2),
      HostText(host), written);
  }

  lemma UrlRuleDomain(checks: Checks, line: string, rule: UrlRule) returns (host: string)
    requires ConvertUrlRule(checks, line) == Some(rule) && rule.UrlRule?
    ensures GoodDomain(host) && HostOnlyRegexOfUrlRule(rule) == HostText(host)
    ensures FromUrlRule(rule).hostRegex == HostRegexOf(host)
  {
    hide CompileUrl, SplitUrl, SplitAuthority, GoodDomain, HostText, HostOnlyRegexOfUrlRule, ParseMethods, Trim, IndexOfSpace,
      UrlRuleToMatcher;
    var trimmed := Trim(line);
    var url := Trim(TrimStart(trimmed[IndexOfSpace(trimmed)..]));
    UrlRuleHost(url, rule.methods);
    host := SplitAuthority(SplitUrl(url).value.1).0;
  }

  // ---- the theorem ----

  /** The rules the lines of URL rules compile to. */
  ghost predicate AreCompiled(checks: Checks, lines: seq<string>, rules: seq<UrlRule>) {
    |lines| == |rules| && forall k | 0 <= k < |lines| :: ConvertUrlRule(checks, lines[k]) == Some(rules[k])
  }

  /** No rule is the author's own expression. */
  predicate NoneIsRaw(patterns: seq<string>, rules: seq<UrlRule>) {
    && (forall k | 0 <= k < |patterns| :: !("~" <= patterns[k]))
    && (forall k | 0 <= k < |rules| :: rules[k].UrlRule?)
  }

  /** The rules as the proxy matches them, whatever scheme they are for. */
  function AllRules(checks: Checks, patterns: seq<string>, rules: seq<UrlRule>): seq<CompiledRule>
    requires FromHostRules(checks, patterns).Some?
  {
    FromHostRules(checks, patterns).value + seq(|rules|, i requires 0 <= i < |rules| => FromUrlRule(rules[i]))
  }

  ghost predicate SomeRuleAccepts(engine: Engine, rules: seq<CompiledRule>, name: string) {
    exists k | 0 <= k < |rules| :: Accepts(engine, HostMatcher(rules[k].hostRegex), LowerText(name))
  }

  function HostTexts(domains: seq<string>): seq<string> {
    seq(|domains|, i requires 0 <= i < |domains| => HostText(domains[i]))
  }

  /** What the resolver is told of each rule, and what the proxy matches it by, are one domain's. */
  ghost predicate AreDomainsOf(domains: seq<string>, texts: seq<string>, rules: seq<CompiledRule>) {
    && |domains| == |texts| == |rules|
    && (forall k | 0 <= k < |domains| :: GoodDomain(domains[k]) && texts[k] == HostText(domains[k]))
    && (forall k | 0 <= k < |domains| :: rules[k].hostRegex == HostRegexOf(domains[k]))
  }

  lemma {:induction false} HostRuleDomains(checks: Checks, patterns: seq<string>) returns (domains: seq<string>)
    requires FromHostRules(checks, patterns).Some? && forall k | 0 <= k < |patterns| :: !("~" <= patterns[k])
    ensures HostsOfRules(checks, patterns).Some?
    ensures AreDomainsOf(domains, HostsOfRules(checks, patterns).value, FromHostRules(checks, patterns).value)
  {
    hide FromHostRule, HostOnlyRegexOfRule, GoodDomain, HostText, HostRegexOf;
    domains := [];
    if patterns != [] {
      var rest := HostRuleDomains(checks, patterns[..|patterns| - 1]);
      var last := HostRuleText(checks, patterns[|patterns| - 1]);
      domains := rest + [last];
    }
  }

  lemma {:induction false} UrlRuleDomains(checks: Checks, lines: seq<string>, rules: seq<UrlRule>) returns (domains: seq<string>)
    requires AreCompiled(checks, lines, rules) && forall k | 0 <= k < |rules| :: rules[k].UrlRule?
    ensures AreDomainsOf(domains, HostsOfUrlRules(rules), seq(|rules|, i requires 0 <= i < |rules| => FromUrlRule(rules[i])))
  {
    hide ConvertUrlRule, FromUrlRule, HostOnlyRegexOfUrlRule, GoodDomain, HostText, HostRegexOf;
    domains := [];
    if rules != [] {
      var n := |rules| - 1;
      var rest := UrlRuleDomains(checks, lines[..n], rules[..n]);
      var last := UrlRuleDomain(checks, lines[n], rules[n]);
      domains := rest + [last];
    }
  }

  /** Rules that compile all have a domain, and the resolver is told of each. */
  lemma AllowedAre(checks: Checks, httpsRules: seq<string>, httpRules: seq<string>, tlsRules: seq<string>,
    urlLines: seq<string>, urlRules: seq<UrlRule>) returns (domains: seq<string>)
    requires AreCompiled(checks, urlLines, urlRules) && NoneIsRaw(httpsRules + httpRules + tlsRules, urlRules)
    requires FromHostRules(checks, httpsRules + httpRules + tlsRules).Some?
    ensures AllowedHosts(checks, httpsRules, httpRules, tlsRules, urlRules) == Some(Distinct(HostTexts(domains)))
    ensures AreDomainsOf(domains, HostTexts(domains), AllRules(checks, httpsRules + httpRules + tlsRules, urlRules))
  {
    hide FromHostRules, HostsOfRules, HostsOfUrlRules, FromUrlRule, HostText, HostRegexOf, GoodDomain, Distinct, ConvertUrlRule;
    var patterns := httpsRules + httpRules + tlsRules;
    var a := HostRuleDomains(checks, patterns);
    var b := UrlRuleDomains(checks, urlLines, urlRules);
    domains := a + b;
    assert HostTexts(domains) == HostsOfRules(checks, patterns).value + HostsOfUrlRules(urlRules);
  }

  /** For domains, whatever rules they are of. */
  lemma DomainsAgree(engine: Engine, domains: seq<string>, hosts: seq<string>, rules: seq<CompiledRule>, name: string)
    returns (patterns: seq<seq<Glob>>)
    requires ReadsTrees(engine) && OneLine(name)
    requires hosts == Distinct(HostTexts(domains)) && hosts != [] && AreDomainsOf(domains, HostTexts(domains), rules)
    ensures patterns != [] && AllGlobs(patterns) && Texts(patterns) == hosts
    ensures AnyFits(patterns, name) <==> SomeRuleAccepts(engine, rules, name)
  {
    hide ReadsTrees, Accepts, HostMatcher, Fits, Globs, GlobsText, Distinct, LowerText, GoodDomain;
    var texts := HostTexts(domains);
    DistinctHolds(texts);
    patterns := PatternsOf(hosts, domains);
    forall k | 0 <= k < |domains|
      ensures Accepts(engine, HostMatcher(rules[k].hostRegex), LowerText(name)) <==> Fits(Globs(domains[k]), Names, name, true)
    {
      MatcherFits(engine, domains[k], name);
    }
    if SomeRuleAccepts(engine, rules, name) {
      var k :| 0 <= k < |rules| && Accepts(engine, HostMatcher(rules[k].hostRegex), LowerText(name));
      assert texts[k] in hosts;
      var j :| 0 <= j < |hosts| && hosts[j] == texts[k];
      GlobsAreGlobs(domains[k]);
      assert Texts(patterns)[j] == hosts[j];
      TextTellsPattern(patterns[j], Globs(domains[k]), Names);
      assert Fits(patterns[j], Names, name, true);
    }
    if AnyFits(patterns, name) {
      var j :| 0 <= j < |patterns| && Fits(patterns[j], Names, name, true);
      var k :| 0 <= k < |domains| && patterns[j] == Globs(domains[k]);
      assert Accepts(engine, HostMatcher(rules[k].hostRegex), LowerText(name));
    }
  }

  /**
   * For all wildcard host rules and literal URL rules that compile, and any name on one line: the
   * allowlist generated from them reads as the text of a tree, and a query for the name passes that
   * tree just when some rule's host matcher accepts the name at the proxy. Where there is no rule
   * there is no allowlist.
   */
  lemma ResolverAndProxyAgree(engine: Engine, checks: Checks, httpsRules: seq<string>, httpRules: seq<string>,
    tlsRules: seq<string>, urlLines: seq<string>, urlRules: seq<UrlRule>, name: string) returns (tree: Re)
    requires ReadsTrees(engine) && OneLine(name)
    requires AreCompiled(checks, urlLines, urlRules) && NoneIsRaw(httpsRules + httpRules + tlsRules, urlRules)
    requires FromHostRules(checks, httpsRules + httpRules + tlsRules).Some?
    ensures AllowedHosts(checks, httpsRules, httpRules, tlsRules, urlRules).Some?
    ensures var hosts := AllowedHosts(checks, httpsRules, httpRules, tlsRules, urlRules).value;
      var rules := AllRules(checks, httpsRules + httpRules + tlsRules, urlRules);
      && (hosts == [] <==> rules == [])
      && (hosts != [] ==>
            && WellFormed(tree) && ReadCel(Allowlist(hosts)) == Some(Print(tree))
            && (Finds(tree, name + ".", true) <==> SomeRuleAccepts(engine, rules, name)))
  {
    hide ReadsTrees, Finds, Print, WellFormed, AllowTree, Distinct, SomeRuleAccepts, AllRules, AnyFits, Allowlist,
      Alternation, GoodDomain, AllowedHosts, FromHostRules, ReadCel;
    var rules := AllRules(checks, httpsRules + httpRules + tlsRules, urlRules);
    var domains := AllowedAre(checks, httpsRules, httpRules, tlsRules, urlLines, urlRules);
    var hosts := Distinct(HostTexts(domains));
    DistinctHolds(HostTexts(domains));
    assert |domains| == |rules|;
    if domains != [] {
      assert HostTexts(domains)[0] in hosts;
    }
    assert hosts != [] ==> hosts[0] in HostTexts(domains);
    tree := Empty;
    if hosts != [] {
      var patterns := DomainsAgree(engine, domains, hosts, rules, name);
      tree := AllowTree(patterns);
      AllowText(patterns);
      AllowlistFinds(patterns, name + ".");
      assert (name + ".")[..|name + "."| - 1] == name && EndsWith(name + ".", ".");
      QuoteFree(domains, hosts);
      AllowlistReads(hosts);
    }
  }

  lemma QuoteFree(domains: seq<string>, hosts: seq<string>)
    requires (forall k | 0 <= k < |domains| :: GoodDomain(domains[k])) && forall x | x in hosts :: x in HostTexts(domains)
    ensures forall k | 0 <= k < |hosts| :: '\'' !in hosts[k]
  {
    hide GoodDomain, HostText;
    forall k | 0 <= k < |hosts| ensures '\'' !in hosts[k] {
      assert hosts[k] in HostTexts(domains);
      var j :| 0 <= j < |domains| && HostTexts(domains)[j] == hosts[k];
      NoQuoteInHost(domains[j]);
    }
  }

  /** A pattern for each text, taken from the rules it came from. */
  lemma {:induction false} PatternsOf(hosts: seq<string>, domains: seq<string>) returns (patterns: seq<seq<Glob>>)
    requires forall x | x in hosts :: x in HostTexts(domains)
    ensures AllGlobs(patterns) && Texts(patterns) == hosts
    ensures forall j | 0 <= j < |patterns| :: exists k | 0 <= k < |domains| :: patterns[j] == Globs(domains[k])
  {
    hide Globs, GlobsText;
    if hosts == [] {
      patterns := [];
    } else {
      var last := hosts[|hosts| - 1];
      var rest := PatternsOf(hosts[..|hosts| - 1], domains);
      assert last in HostTexts(domains);
      var k :| 0 <= k < |domains| && HostTexts(domains)[k] == last;
      GlobsAreGlobs(domains[k]);
      patterns := rest + [Globs(domains[k])];
      assert Texts(patterns) == Texts(rest) + [last];
      assert hosts == hosts[..|hosts| - 1] + [last];
    }
  }

  // ---- the literal the expression is put in ----

  lemma {:induction false} EscapeAppend(a: string, b: string)
    ensures EscapeForCel(a + b) == EscapeForCel(a) + EscapeForCel(b)
  {
    if a == [] {
      assert a + b == b;
    } else {
      assert (a + b)[1..] == a[1..] + b;
      EscapeAppend(a[1..], b);
    }
  }

  lemma {:induction false} PlainEscape(a: string)
    requires '\\' !in a
    ensures EscapeForCel(a) == a
  {
    if a != [] {
      assert a == [a[0]] + a[1..];
      PlainEscape(a[1..]);
    }
  }

  lemma {:induction false} NoQuoteInside(hosts: seq<string>)
    requires forall k | 0 <= k < |hosts| :: '\'' !in hosts[k]
    ensures '\'' !in Alternation(hosts)
  {
    var groups := InGroups(hosts);
    if |hosts| == 1 {
      assert groups[0] == "(" + hosts[0] + ")";
    } else if |hosts| > 1 {
      NoQuoteInside(hosts[1..]);
      assert groups[1..] == InGroups(hosts[1..]);
      assert groups[0] == "(" + hosts[0] + ")";
    }
  }

  /** What the resolver reads out of its configuration is the expression of the tree above. */
  lemma AllowlistReads(hosts: seq<string>)
    requires forall k | 0 <= k < |hosts| :: '\'' !in hosts[k]
    ensures ReadCel(Allowlist(hosts)) == Some("^(" + Alternation(hosts) + ")[.]$")
  {
    hide ReadCel, EscapeForCel, Alternation;
    var alts := Alternation(hosts);
    NoQuoteInside(hosts);
    EscapeAppend("^(" + alts, ")[.]$");
    EscapeAppend("^(", alts);
    PlainEscape("^(");
    PlainEscape(")[.]$");
    CelReadsBack("^(" + alts + ")[.]$");
  }

  lemma {:induction false} NoQuoteInText(gs: seq<Glob>)
    requires forall k | 0 <= k < |gs| :: gs[k].Lit? ==> gs[k].c != '\''
    ensures '\'' !in GlobsText(gs, DOMAIN)
  {
    if gs != [] {
      NoQuoteInText(gs[1..]);
      assert '\'' !in GlobText(gs[0], DOMAIN);
    }
  }

  lemma {:induction false} NoQuoteInGlobs(domain: string)
    requires '\'' !in domain
    ensures forall k | 0 <= k < |Globs(domain)| :: Globs(domain)[k].Lit? ==> Globs(domain)[k].c != '\''
    decreases |domain|
  {
    if domain != [] {
      assert domain[0] in domain;
      if domain[0] == '*' && |domain| > 1 && domain[1] == '*' {
        NoQuoteInGlobs(domain[2..]);
      } else {
        NoQuoteInGlobs(domain[1..]);
      }
    }
  }

  /** No domain's text can end the literal it is put in. */
  lemma NoQuoteInHost(domain: string)
    requires GoodDomain(domain)
    ensures '\'' !in HostText(domain)
  {
    hide Globs, GlobsText;
    JoinOfSplit(domain, '.');
    LabelsHaveNoQuote(Split(domain, '.'));
    NoQuoteInGlobs(domain);
    NoQuoteInText(Globs(domain));
  }

  lemma {:induction false} LabelsHaveNoQuote(labels: seq<string>)
    requires AreHostLabels(labels)
    ensures '\'' !in Join(labels, ".")
    decreases |labels|
  {
    if labels != [] {
      assert IsHostLabel(labels[0]);
      assert '\'' !in labels[0];
      LabelsHaveNoQuote(labels[1..]);
    }
  }
}
