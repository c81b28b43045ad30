/**
 * The literal the allowlist stands in (src/core/lib/acl/coredns-config.ts 43-54,
 * partial-wildcard.ts 205-240): whatever the rules, the author's own expressions among them, nothing in
 * it ends it, nor is taken for a variable.
 */
module AllowlistLiteral {
  import opened Anchoring
  import opened RawRules
  import opened Regex
  import opened ResolverAgreement
  import opened RuleLines
  import opened RuleSets
  import opened Search
  import opened Text
  import opened UrlRules
  import opened Wildcards

  /** No quote of either kind, and no `{$` or `{%`. */
  predicate IsTame(s: string) {
    '\'' !in s && '`' !in s && forall k | 0 <= k < |s| - 1 :: !(s[k] == '{' && Opens(s[k + 1]))
  }

  predicate Opens(c: char) { c == '$' || c == '%' }

  lemma TameConcat(a: string, b: string)
    requires IsTame(a) && IsTame(b) && !(a != "" && b != "" && a[|a| - 1] == '{' && Opens(b[0]))
    ensures IsTame(a + b)
  {
    var s := a + b;
    forall k | 0 <= k < |s| - 1 ensures !(s[k] == '{' && Opens(s[k + 1])) {
      if k < |a| - 1 {
        assert s[k] == a[k] && s[k + 1] == a[k + 1];
      } else if k >= |a| {
        assert s[k] == b[k - |a|] && s[k + 1] == b[k - |a| + 1];
      } else {
        assert s[k] == a[|a| - 1] && s[k + 1] == b[0];
      }
    }
  }

  lemma TameSlice(s: string, i: nat, j: nat)
    requires i <= j <= |s| && IsTame(s)
    ensures IsTame(s[i..j])
  {
    var t := s[i..j];
    forall k | 0 <= k < |t| ensures t[k] != '\'' && t[k] != '`' {
      assert t[k] == s[i + k] && s[i + k] in s;
    }
    forall k | 0 <= k < |t| - 1 ensures !(t[k] == '{' && Opens(t[k + 1])) {
      assert t[k] == s[i + k] && t[k + 1] == s[i + k + 1];
    }
  }

  // ---- each rule's text ----

  lemma {:induction false} LitsAreThere(domain: string)
    ensures forall k | 0 <= k < |Globs(domain)| && Globs(domain)[k].Lit? :: Globs(domain)[k].c in domain
    decreases |domain|
  {
    if domain != [] {
      var rest := if domain[0] == '*' && |domain| > 1 && domain[1] == '*' then domain[2..] else domain[1..];
      LitsAreThere(rest);
      assert forall c | c in rest :: c in domain;
    }
  }

  predicate HasNoBrace(s: string) {
    '\'' !in s && '`' !in s && '{' !in s
  }

  lemma {:induction false} GlobsHaveNoBrace(gs: seq<Glob>)
    requires forall k | 0 <= k < |gs| && gs[k].Lit? :: IsDomainChar(gs[k].c)
    ensures HasNoBrace(GlobsText(gs, DOMAIN))
  {
    hide IsDomainChar;
    if gs != [] {
      GlobsHaveNoBrace(gs[1..]);
      GlobHasNoBrace(gs[0]);
    }
  }

  lemma GlobHasNoBrace(g: Glob)
    requires g.Lit? ==> IsDomainChar(g.c)
    ensures HasNoBrace(GlobText(g, DOMAIN))
  {
  }

  lemma HostIsTame(domain: string)
    requires GoodDomain(domain)
    ensures IsTame(HostText(domain))
  {
    hide Globs, GlobsText, GoodDomain, IsDomainChar;
    DomainChars(domain);
    LitsAreThere(domain);
    forall k | 0 <= k < |Globs(domain)| && Globs(domain)[k].Lit? ensures IsDomainChar(Globs(domain)[k].c) {
      assert Globs(domain)[k].c in domain;
      var j :| 0 <= j < |domain| && domain[j] == Globs(domain)[k].c;
    }
    GlobsHaveNoBrace(Globs(domain));
    var t := GlobsText(Globs(domain), DOMAIN);
    assert forall k | 0 <= k < |t| :: t[k] in t;
  }

  /** A half the compiler takes for a host half is tame. */
  lemma HalfIsTame(checks: Checks, half: string)
    requires IsHalf(checks, half, true)
    ensures IsTame(half)
  {
    assert "$%" == ['$', '%'];
  }

  lemma HostRuleIsTame(checks: Checks, pattern: string)
    requires HostOnlyRegexOfRule(checks, pattern).Some?
    ensures IsTame(HostOnlyRegexOfRule(checks, pattern).value)
  {
    hide IsHalf, SplitDomainFromPort, GoodDomain, DomainToRegexPartial, SplitHostRule, IsTame;
    if "~" <= pattern {
      HalfIsTame(checks, SplitRawRegexHost(checks, pattern).value);
    } else {
      var host := SplitHostRule(pattern).value.0;
      DomainTextIs(host);
      assert GoodDomain(host) by { GoodWhereCompiled(host); }
      HostIsTame(host);
    }
  }

  lemma GoodWhereCompiled(host: string)
    requires DomainToRegexPartial(host).Some?
    ensures GoodDomain(host)
  {
  }

  /** Anchoring and taking the anchors off leaves a piece of what was there. */
  lemma InsideAnchors(regex: string) returns (i: nat, j: nat)
    ensures i <= j <= |regex|
    ensures var a := AnchorRawRegex(regex); (if |a| < 2 then "" else a[1..|a| - 1]) == regex[i..j]
  {
    var a := AnchorRawRegex(regex);
    i, j := if "^" <= regex then 1 else 0, if IsAnchoredAtEnd(regex) then |regex| - 1 else |regex|;
    if regex == "" || (|regex| == 1 && i == 1 && j == 0) {
      i, j := 0, 0;
    }
  }

  lemma UrlRuleIsTame(checks: Checks, line: string, rule: UrlRule)
    requires ConvertUrlRule(checks, line) == Some(rule)
    ensures IsTame(HostOnlyRegexOfUrlRule(rule))
  {
    hide IsHalf, SplitDomainFromPort, GoodDomain, IsTame, CompileUrl, ParseMethods, Trim, TrimStart, IndexOfSpace, HasSpace,
      HostOnlyRegexOfUrlRule, HostText, AnchorRawRegex, SlashFrom, SeparatorFrom, RawRegexSchemes;
    if rule.UrlRule? {
      var host := UrlRuleDomain(checks, line, rule);
      HostIsTame(host);
    } else {
      var hostOnly := RawHostHalf(checks, line, rule);
      HalfIsTame(checks, hostOnly);
      var i, j := InsideAnchors(hostOnly);
      TameSlice(hostOnly, i, j);
      RawHostOnly(rule);
    }
  }

  lemma RawHostOnly(rule: UrlRule)
    requires rule.RawUrlRule?
    ensures HostOnlyRegexOfUrlRule(rule) == var a := rule.authorityRegex; if |a| < 2 then "" else a[1..|a| - 1]
  {
  }

  lemma RawHostHalf(checks: Checks, line: string, rule: UrlRule) returns (hostOnly: string)
    requires ConvertUrlRule(checks, line) == Some(rule) && rule.RawUrlRule?
    ensures IsHalf(checks, hostOnly, true) && rule.authorityRegex == AnchorRawRegex(hostOnly)
  {
    hide IsHalf, SplitDomainFromPort, CompileUrl, ParseMethods, Trim, TrimStart, IndexOfSpace, HasSpace, AnchorRawRegex,
      RawRegexSchemes;
    var trimmed := Trim(line);
    var regex := Trim(TrimStart(trimmed[IndexOfSpace(trimmed)..]))[1..];
    var hostStart := SeparatorFrom(regex, 0) + SeparatorLength(regex, SeparatorFrom(regex, 0));
    hostOnly := SplitDomainFromPort(regex[hostStart..SlashFrom(regex, hostStart)]).0;
  }

  // ---- the whole literal ----

  predicate AllTame(hosts: seq<string>) {
    forall k | 0 <= k < |hosts| :: IsTame(hosts[k])
  }

  lemma {:induction false} HostsAreTame(checks: Checks, patterns: seq<string>)
    requires HostsOfRules(checks, patterns).Some?
    ensures AllTame(HostsOfRules(checks, patterns).value)
  {
    hide HostOnlyRegexOfRule, IsTame;
    if patterns != [] {
      HostsAreTame(checks, patterns[..|patterns| - 1]);
      HostRuleIsTame(checks, patterns[|patterns| - 1]);
    }
  }

  lemma {:induction false} AlternationIsTame(hosts: seq<string>)
    requires AllTame(hosts)
    ensures var t := Alternation(hosts); IsTame(t) && (t != "" ==> t[0] == '(' && t[|t| - 1] == ')')
  {
    hide IsTame;
    assert IsTame("") && IsTame("(") && IsTame(")") && IsTame("|") by { ShortAreTame(); }
    if hosts != [] {
      var group := "(" + hosts[0] + ")";
      TameConcat("(", hosts[0]);
      TameConcat("(" + hosts[0], ")");
      if |hosts| > 1 {
        var groups := InGroups(hosts);
        assert groups[0] == group && groups[1..] == InGroups(hosts[1..]);
        AlternationIsTame(hosts[1..]);
        TameConcat(group, "|");
        TameConcat(group + "|", Alternation(hosts[1..]));
        SomethingIn(hosts[1..]);
      }
    }
  }

  lemma SomethingIn(hosts: seq<string>)
    requires hosts != []
    ensures Alternation(hosts) != ""
  {
    assert InGroups(hosts)[0] == "(" + hosts[0] + ")";
  }

  lemma ShortAreTame()
    ensures IsTame("") && IsTame("(") && IsTame(")") && IsTame("|") && IsTame("^(") && IsTame(")[.]$")
  {
  }

  /** Doubling backslashes brings nothing new next to a brace. */
  lemma {:induction false} EscapedIsTame(s: string)
    requires IsTame(s)
    ensures IsTame(EscapeForCel(s)) && (EscapeForCel(s) == "" <==> s == "") && (s != "" ==> EscapeForCel(s)[0] == s[0])
  {
    hide IsTame;
    if s != "" {
      var head := if s[0] == '\\' then "\\\\" else [s[0]];
      TameSlice(s, 1, |s|);
      assert s[1..|s|] == s[1..];
      EscapedIsTame(s[1..]);
      assert IsTame(head) && head[|head| - 1] == s[0] by { OneIsTame(s); }
      if |s| > 1 { FirstTwo(s); }
      TameConcat(head, EscapeForCel(s[1..]));
    } else {
      assert IsTame("") by { ShortAreTame(); }
    }
  }

  lemma OneIsTame(s: string)
    requires s != "" && IsTame(s)
    ensures IsTame([s[0]]) && IsTame("\\\\")
  {
    assert s[0] in s;
  }

  lemma FirstTwo(s: string)
    requires |s| > 1 && IsTame(s)
    ensures !(s[0] == '{' && Opens(s[1]))
  {
  }

  lemma DistinctIsTame(hosts: seq<string>)
    requires AllTame(hosts)
    ensures AllTame(Distinct(hosts))
  {
    hide IsTame;
    DistinctHolds(hosts);
    forall k | 0 <= k < |Distinct(hosts)| ensures IsTame(Distinct(hosts)[k]) {
      assert Distinct(hosts)[k] in hosts;
    }
  }

  /**
   * For all rules that compile, `~` rules among them: what the resolver reads out of the allowlist's
   * literal is the alternation of their names, and nothing in the literal could be taken for its end or
   * for a variable before it is read.
   */
  lemma NothingEndsTheLiteral(checks: Checks, httpsRules: seq<string>, httpRules: seq<string>, tlsRules: seq<string>,
    urlLines: seq<string>, urlRules: seq<UrlRule>)
    requires AreCompiled(checks, urlLines, urlRules)
    requires AllowedHosts(checks, httpsRules, httpRules, tlsRules, urlRules).Some?
    ensures var hosts := AllowedHosts(checks, httpsRules, httpRules, tlsRules, urlRules).value;
      ReadCel(Allowlist(hosts)) == Some("^(" + Alternation(hosts) + ")[.]$") && IsTame(Allowlist(hosts))
  {
    hide IsTame, ReadCel, EscapeForCel, Alternation, HostsOfRules, HostOnlyRegexOfUrlRule, Distinct, ConvertUrlRule;
    var patterns := httpsRules + httpRules + tlsRules;
    HostsAreTame(checks, patterns);
    var ofUrls := HostsOfUrlRules(urlRules);
    forall k | 0 <= k < |ofUrls| ensures IsTame(ofUrls[k]) {
      UrlRuleIsTame(checks, urlLines[k], urlRules[k]);
    }
    DistinctIsTame(HostsOfRules(checks, patterns).value + ofUrls);
    var hosts := AllowedHosts(checks, httpsRules, httpRules, tlsRules, urlRules).value;
    forall k | 0 <= k < |hosts| ensures '\'' !in hosts[k] {
      NoQuoteIn(hosts[k]);
    }
    AllowlistReads(hosts);
    AlternationIsTame(hosts);
    EscapedIsTame(Alternation(hosts));
    ShortAreTame();
    var text := EscapeForCel(Alternation(hosts));
    TameConcat("^(", text);
    TameBeforeEnd("^(" + text);
  }

  lemma NoQuoteIn(s: string)
    requires IsTame(s)
    ensures '\'' !in s
  {
  }

  lemma TameBeforeEnd(s: string)
    requires IsTame(s)
    ensures IsTame(s + ")[.]$")
  {
    hide IsTame;
    ShortAreTame();
    assert ")[.]$"[0] == ')';
    TameConcat(s, ")[.]$");
  }
}
