/**
 * What a rule without an expression of its author's lets through, in terms of the pattern, port,
 * path and methods it is written with (src/core/lib/acl/haproxy-rules.ts 134-245).
 */
module PlainRuleMeaning {
  import opened AuditRules
  import opened Decimal
  import opened Haproxy
  import opened Matchers
  import opened RawRuleMeaning
  import opened RawRules
  import opened Regex
  import opened ResolverAgreement
  import opened RuleBlocks
  import opened RuleLines
  import opened RuleSets
  import opened Search
  import opened Text
  import opened UrlRules
  import opened Wildcards

  /** A rule's port is any, or the one it is written with. */
  predicate IsOnPort(port: string, req: Request) {
    port == "*" || port == Dec(req.port)
  }

  // ---- host rules ----

  lemma HostRuleSplits(host: string, port: string)
    requires ':' !in host && IsPort(port)
    ensures SplitHostRule(host + ":" + port) == Some((host, port))
  {
    hide LastIndexOfChar, Value;
    SuffixChars(":" + port, port);
    CutsAtColon(host, port);
  }

  /** A host rule compiles just when it is a domain and a port, the colon between them. */
  lemma HostRuleCompiles(checks: Checks, pattern: string)
    requires !("~" <= pattern)
    ensures FromHostRule(checks, pattern).Some? <==>
      exists host, port :: pattern == host + ":" + port && GoodDomain(host) && IsPort(port)
  {
    hide SplitHostRule, IsPort, PortOf, HostText;
    if FromHostRule(checks, pattern).Some? {
      assert SplitHostRule(pattern).Some?;
      var (host, port) := SplitHostRule(pattern).value;
      CutOfRule(pattern);
      DomainTextIs(host);
      assert pattern == host + ":" + port && GoodDomain(host) && IsPort(port);
    }
    if host, port :| pattern == host + ":" + port && GoodDomain(host) && IsPort(port) {
      DomainChars(host);
      HostRuleSplits(host, port);
      DomainTextIs(host);
    }
  }

  lemma CutOfRule(pattern: string)
    requires SplitHostRule(pattern).Some?
    ensures var (host, port) := SplitHostRule(pattern).value; pattern == host + ":" + port && IsPort(port) && ':' !in host
  {
    hide LastIndexOfChar, IsPort;
    var colon := LastIndexOfChar(pattern, ':');
    assert colon >= 0 && pattern[colon] == ':';
    assert pattern == pattern[..colon] + ":" + pattern[colon + 1..];
  }

  lemma NoTilde(host: string, port: string)
    requires GoodDomain(host)
    ensures !("~" <= host + ":" + port)
  {
    DomainChars(host);
    assert (host + ":" + port)[0] == host[0] && host[0] in host;
  }

  /** The port a connection is on is the one a decimal names. */
  lemma PortFits(port: string, req: Request)
    requires IsPort(port)
    ensures (PortOf(port).Some? ==> req.port == PortOf(port).value) <==> IsOnPort(port, req)
  {
    hide Dec, Value;
    if port != "*" {
      DecOfValue(port);
      ValueOfDec(req.port);
      DigitsAreNoStar(req.port);
    } else {
      DigitsAreNoStar(req.port);
    }
  }

  lemma DigitsAreNoStar(n: nat)
    ensures Dec(n) != "*"
  {
    assert IsDigit(Dec(n)[0]);
  }

  /**
   * A host rule lets through every method on every absolute path of the names its pattern takes, on
   * the port it is written with.
   */
  lemma PlainHostRuleMeans(engine: Engine, checks: Checks, host: string, port: string, scheme: Scheme, req: Request)
    requires ReadsTrees(engine) && OneLine(req.host) && OneLine(req.path)
    requires GoodDomain(host) && IsPort(port)
    ensures var rule := FromHostRule(checks, host + ":" + port);
      && rule.Some? && rule.value.hostMatch == Wildcard && rule.value.hostRegex == HostRegexOf(host)
      && (RuleMatches(engine, rule.value, scheme, req) <==>
            Fits(Globs(host), Names, req.host, true) && IsOnPort(port, req) && "/" <= req.path)
  {
    hide ReadsTrees, GlobsText, Globs, Fits, IsPort, PortOf, Dec, SplitHostRule;
    DomainChars(host);
    NoTilde(host, port);
    HostRuleSplits(host, port);
    DomainTextIs(host);
    GlobsAreGlobs(host);
    GlobsRead(engine, Globs(host), Names, req.host, true);
    AnyPathRead(engine, req.path);
    PortFits(port, req);
  }

  // ---- literal URL rules ----

  /** The path of a URL rule: any where it names none, else what its pattern takes. */
  ghost predicate TakesPath(pattern: string, path: string) {
    if pattern == "" then "/" <= path else Fits(Globs(pattern), Paths, path, false)
  }

  /** The port of a URL rule: the scheme's own where it names none. */
  predicate IsOnUrlPort(scheme: Scheme, port: string, req: Request) {
    if port == "" then req.port == DefaultPort(scheme) else IsOnPort(port, req)
  }

  lemma UrlPortFits(rule: UrlRule, host: string, scheme: Scheme, port: string, req: Request)
    requires rule.UrlRule? && (port == "" || IsPort(port))
    requires rule.authorityRegex == "^" + host + ":" +
      (if port == "*" then "[0-9]+" else if port == "" then Dec(DefaultPort(scheme)) else port) + "$"
    ensures UrlRuleToMatcher(rule).0 == "^" + host + "$"
    ensures var named := UrlRuleToMatcher(rule).1; (named.Some? ==> req.port == named.value) <==> IsOnUrlPort(scheme, port, req)
  {
    hide Dec, Value, UrlRuleToMatcher;
    var written := if port == "*" then "[0-9]+" else if port == "" then Dec(DefaultPort(scheme)) else port;
    assert written == "[0-9]+" || AllDigitsIn(written);
    AuthorityCutsBack(rule, host, written);
    if port == "" {
      ValueOfDec(DefaultPort(scheme));
      DigitsAreNot(Dec(DefaultPort(scheme)));
    } else if port != "*" {
      PortFits(port, req);
      DigitsAreNot(port);
    }
  }

  /**
   * The methods of a line: a star, or tokens joined by bars. What it lets through is each of the tokens
   * in upper case.
   */
  predicate IsMethodSpec(spec: string, tokens: seq<string>) {
    if tokens == [] then spec == "*" else AreTokens(tokens) && spec == Join(tokens, "|")
  }

  predicate AllowsMethod(tokens: seq<string>, verb: string) {
    tokens == [] || exists k | 0 <= k < |tokens| :: UpperText(tokens[k]) == verb
  }

  lemma SpecRead(spec: string, tokens: seq<string>, verb: string)
    requires IsMethodSpec(spec, tokens)
    ensures ParseMethods(spec).Some? && NoSpaceIn(spec) && spec != []
    ensures var methods := ParseMethods(spec).value; (methods.Some? ==> verb in methods.value) <==> AllowsMethod(tokens, verb)
  {
    hide ParseMethods, UpperText;
    if tokens == [] {
      StarRead();
    } else {
      MethodsRead(tokens);
    }
  }

  /** A URL as a literal rule writes it. */
  function UrlText(scheme: Scheme, host: string, suffix: string, path: string): string {
    SchemeText(scheme) + "://" + (host + suffix) + path
  }

  /**
   * A line of methods and a URL, whitespace around and between them: refused where its path carries a
   * query, and otherwise a rule of its scheme that lets through just the methods, names, port and paths
   * it is written with.
   */
  lemma UrlRuleMeans(engine: Engine, checks: Checks, before: string, spec: string, tokens: seq<string>, gap: string,
    scheme: Scheme, host: string, suffix: string, port: string, path: string, after: string, req: Request)
    requires ReadsTrees(engine) && OneLine(req.host) && OneLine(req.path)
    requires IsBlank(before) && IsBlank(gap) && gap != "" && IsBlank(after)
    requires IsMethodSpec(spec, tokens) && GoodDomain(host) && IsPortSuffix(suffix, port)
    requires IsUrlPath(path) && NoSpaceIn(path)
    ensures var rule := ConvertUrlRule(checks, before + (spec + gap + UrlText(scheme, host, suffix, path)) + after);
      && (rule.None? <==> CarriesQuery(path))
      && (rule.Some? ==>
            && (forall other :: IsOfScheme(rule.value, other) <==> other == scheme)
            && (RuleMatches(engine, FromUrlRule(rule.value), scheme, req) <==>
                  && AllowsMethod(tokens, req.verb) && Fits(Globs(host), Names, req.host, true)
                  && IsOnUrlPort(scheme, port, req) && TakesPath(path, req.path)))
  {
    hide ReadsTrees, GlobsText, Globs, Fits, CompileUrl, ParseMethods, Trim, TrimStart, IndexOfSpace, HasSpace, AllowsMethod,
      IsOnUrlPort, CarriesQuery, IsMethodSpec, GoodDomain, IsPort, UrlRuleToMatcher, Dec, IsSpace;
    var url := UrlText(scheme, host, suffix, path);
    SpecRead(spec, tokens, req.verb);
    UrlHasNoSpace(scheme, host, suffix, port, path);
    LineParts(before, spec, gap, url, after);
    UrlCompiles(scheme, host, suffix, port, path);
    assert !("~" <= url) by { assert url[0] == 'h'; }
    if !CarriesQuery(path) {
      var rule := ConvertUrlRule(checks, before + (spec + gap + url) + after).value;
      UrlPortFits(rule, HostText(host), scheme, port, req);
      GlobsAreGlobs(host);
      GlobsRead(engine, Globs(host), Names, req.host, true);
      PathRead(engine, path, req.path);
    }
  }

  lemma PathRead(engine: Engine, pattern: string, path: string)
    requires ReadsTrees(engine) && OneLine(path)
    ensures engine(if pattern == "" then "^/" else PatternRegex(pattern), path, false) <==> TakesPath(pattern, path)
  {
    hide ReadsTrees, GlobsText, Globs, Fits;
    if pattern == "" {
      AnyPathRead(engine, path);
    } else {
      GlobsAreGlobs(pattern);
      GlobsRead(engine, Globs(pattern), Paths, path, false);
    }
  }

  lemma UrlHasNoSpace(scheme: Scheme, host: string, suffix: string, port: string, path: string)
    requires GoodDomain(host) && IsPortSuffix(suffix, port) && NoSpaceIn(path)
    ensures var url := UrlText(scheme, host, suffix, path); NoSpaceIn(url) && url != [] && url[0] == 'h'
  {
    hide IsPort, GoodDomain;
    DomainChars(host);
    SuffixChars(suffix, port);
    var head := SchemeText(scheme) + "://";
    assert NoSpaceIn(head);
    NoSpaceJoin(host, suffix);
    NoSpaceJoin(head, host + suffix);
    NoSpaceJoin(head + (host + suffix), path);
  }

  // ---- a line with an expression ----

  /**
   * A line of methods and a `~` expression is the rule its expression is cut into, with those methods;
   * it is refused where the expression does not compile or cannot be cut.
   */
  lemma RawLineMeans(checks: Checks, before: string, spec: string, tokens: seq<string>, gap: string, regex: string, after: string,
    verb: string)
    requires IsBlank(before) && IsBlank(gap) && gap != "" && IsBlank(after) && IsMethodSpec(spec, tokens) && NoSpaceIn(regex)
    ensures var rule := ConvertUrlRule(checks, before + (spec + gap + ("~" + regex)) + after);
      var raw := SplitRawRegexUrl(checks, regex);
      && (rule.Some? <==> checks.compiles(regex) && raw.Some?)
      && (rule.Some? ==>
            && rule.value.RawUrlRule? && rule.value == RawUrlRule(rule.value.methods, raw.value.schemes, raw.value.hostRegex,
                 raw.value.authorityRegex, raw.value.pathRegex)
            && ((rule.value.methods.Some? ==> verb in rule.value.methods.value) <==> AllowsMethod(tokens, verb)))
  {
    hide SplitRawRegexUrl, ParseMethods, Trim, TrimStart, IndexOfSpace, HasSpace, AllowsMethod, IsMethodSpec, IsSpace, CompileUrl;
    var url := "~" + regex;
    SpecRead(spec, tokens, verb);
    TildeIsNoSpace();
    assert NoSpaceIn("~");
    NoSpaceJoin("~", regex);
    LineParts(before, spec, gap, url, after);
    assert url[1..] == regex;
  }

  lemma TildeIsNoSpace()
    ensures !IsSpace('~')
  {
  }

  // ---- all rules of a scheme ----

  predicate HostRuleAllows(engine: Engine, checks: Checks, pattern: string, scheme: Scheme, req: Request) {
    FromHostRule(checks, pattern).Some? && RuleMatches(engine, FromHostRule(checks, pattern).value, scheme, req)
  }

  predicate UrlRuleAllows(engine: Engine, rule: UrlRule, scheme: Scheme, req: Request) {
    IsOfScheme(rule, scheme) && RuleMatches(engine, FromUrlRule(rule), scheme, req)
  }

  lemma {:induction false} HostRulesMatch(engine: Engine, checks: Checks, patterns: seq<string>, scheme: Scheme, req: Request)
    requires FromHostRules(checks, patterns).Some?
    ensures forall k | 0 <= k < |patterns| :: FromHostRule(checks, patterns[k]).Some?
    ensures AnyMatches(engine, FromHostRules(checks, patterns).value, scheme, req) <==>
      exists k | 0 <= k < |patterns| :: HostRuleAllows(engine, checks, patterns[k], scheme, req)
  {
    hide FromHostRule, RuleMatches;
    if patterns != [] {
      var n := |patterns| - 1;
      HostRulesMatch(engine, checks, patterns[..n], scheme, req);
      forall k | 0 <= k < n ensures FromHostRule(checks, patterns[k]).Some? {
        assert patterns[..n][k] == patterns[k];
      }
      LastMatches(engine, FromHostRules(checks, patterns[..n]).value, FromHostRule(checks, patterns[n]).value, scheme, req);
      if k :| 0 <= k < n && HostRuleAllows(engine, checks, patterns[..n][k], scheme, req) {
        assert HostRuleAllows(engine, checks, patterns[k], scheme, req);
      }
      if k :| 0 <= k < n && HostRuleAllows(engine, checks, patterns[k], scheme, req) {
        assert HostRuleAllows(engine, checks, patterns[..n][k], scheme, req);
      }
    }
  }

  lemma LastMatches(engine: Engine, rules: seq<CompiledRule>, rule: CompiledRule, scheme: Scheme, req: Request)
    ensures AnyMatches(engine, rules + [rule], scheme, req) <==>
      AnyMatches(engine, rules, scheme, req) || RuleMatches(engine, rule, scheme, req)
  {
    hide RuleMatches;
    var all := rules + [rule];
    if k :| 0 <= k < |all| && RuleMatches(engine, all[k], scheme, req) {
      assert k < |rules| ==> RuleMatches(engine, rules[k], scheme, req);
    }
    if k :| 0 <= k < |rules| && RuleMatches(engine, rules[k], scheme, req) {
      assert RuleMatches(engine, all[k], scheme, req);
    }
    assert all[|rules|] == rule;
  }

  lemma {:induction false} UrlRulesMatch(engine: Engine, rules: seq<UrlRule>, scheme: Scheme, req: Request)
    ensures AnyMatches(engine, OfScheme(rules, scheme), scheme, req) <==>
      exists k | 0 <= k < |rules| :: UrlRuleAllows(engine, rules[k], scheme, req)
  {
    hide FromUrlRule, RuleMatches, IsOfScheme;
    if rules != [] {
      var n := |rules| - 1;
      UrlRulesMatch(engine, rules[..n], scheme, req);
      LastMatches(engine, OfScheme(rules[..n], scheme), FromUrlRule(rules[n]), scheme, req);
      assert OfScheme(rules[..n], scheme) + [] == OfScheme(rules[..n], scheme);
      assert forall k | 0 <= k < n :: rules[..n][k] == rules[k];
      if k :| 0 <= k < n && UrlRuleAllows(engine, rules[..n][k], scheme, req) {
        assert UrlRuleAllows(engine, rules[k], scheme, req);
      }
      if k :| 0 <= k < n && UrlRuleAllows(engine, rules[k], scheme, req) {
        assert UrlRuleAllows(engine, rules[..n][k], scheme, req);
      }
    }
  }

  /** A request is let through just when one of the host rules, or of the URL rules of its scheme, lets it. */
  lemma RulesDecide(engine: Engine, checks: Checks, hostRules: seq<string>, urlRules: seq<UrlRule>, scheme: Scheme, req: Request)
    requires SchemeRules(checks, hostRules, urlRules, scheme).Some?
    ensures AnyMatches(engine, SchemeRules(checks, hostRules, urlRules, scheme).value, scheme, req) <==>
      || (exists k | 0 <= k < |hostRules| :: HostRuleAllows(engine, checks, hostRules[k], scheme, req))
      || (exists k | 0 <= k < |urlRules| :: UrlRuleAllows(engine, urlRules[k], scheme, req))
  {
    hide FromHostRule, FromHostRules, FromUrlRule, OfScheme, RuleMatches, IsOfScheme, IdOf;
    var a, b := FromHostRules(checks, hostRules).value, OfScheme(urlRules, scheme);
    HostRulesMatch(engine, checks, hostRules, scheme, req);
    UrlRulesMatch(engine, urlRules, scheme, req);
    EitherMatches(engine, a, b, scheme, req);
    IdsDoNotMatter(engine, a + b, scheme, req);
  }

  lemma EitherMatches(engine: Engine, a: seq<CompiledRule>, b: seq<CompiledRule>, scheme: Scheme, req: Request)
    ensures AnyMatches(engine, a + b, scheme, req) <==> AnyMatches(engine, a, scheme, req) || AnyMatches(engine, b, scheme, req)
  {
    hide RuleMatches;
    var all := a + b;
    if k :| 0 <= k < |all| && RuleMatches(engine, all[k], scheme, req) {
      if k < |a| {
        assert RuleMatches(engine, a[k], scheme, req);
      } else {
        assert RuleMatches(engine, b[k - |a|], scheme, req);
      }
    }
    if k :| 0 <= k < |a| && RuleMatches(engine, a[k], scheme, req) {
      assert RuleMatches(engine, all[k], scheme, req);
    }
    if k :| 0 <= k < |b| && RuleMatches(engine, b[k], scheme, req) {
      assert RuleMatches(engine, all[|a| + k], scheme, req);
    }
  }

  lemma IdsDoNotMatter(engine: Engine, rules: seq<CompiledRule>, scheme: Scheme, req: Request)
    ensures AnyMatches(engine, WithIds(rules, scheme), scheme, req) <==> AnyMatches(engine, rules, scheme, req)
  {
    hide IdOf;
    var named := WithIds(rules, scheme);
    forall k | 0 <= k < |rules| ensures RuleMatches(engine, named[k], scheme, req) <==> RuleMatches(engine, rules[k], scheme, req) {
    }
    hide RuleMatches;
    if k :| 0 <= k < |named| && RuleMatches(engine, named[k], scheme, req) {
      assert RuleMatches(engine, rules[k], scheme, req);
    }
    if k :| 0 <= k < |rules| && RuleMatches(engine, rules[k], scheme, req) {
      assert RuleMatches(engine, named[k], scheme, req);
    }
  }
}
