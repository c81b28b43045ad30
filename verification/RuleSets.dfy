/**
 * Compiling the rule inputs: each scheme's rules, with their ids, and the names the resolver allows
 * (src/core/lib/acl/haproxy-rules.ts 134-253, 330-341).
 */
module RuleSets {
  import opened Anchoring
  import opened Decimal
  import opened RawRules
  import opened Regex
  import opened RuleBlocks
  import opened RuleBlockCorrect
  import opened Search
  import opened Text
  import opened UrlRules
  import opened Wildcards

  // ---- host rules ----

  /** `host:port`, cut at the last colon; an error where there is none, or the port or the host is no such thing. */
  function SplitHostRule(pattern: string): Option<(string, string)> {
    var colon := LastIndexOfChar(pattern, ':');
    if colon == -1 then None
    else
      var host, port := pattern[..colon], pattern[colon + 1..];
      if !IsPort(port) || ':' in host then None else Some((host, port))
  }

  /** The half of a host rule that names hosts, as an expression to be anchored by whoever uses it. */
  function HostOnlyRegexOfRule(checks: Checks, pattern: string): Option<string> {
    if "~" <= pattern then SplitRawRegexHost(checks, pattern)
    else
      match SplitHostRule(pattern)
      case None => None
      case Some((host, _)) => DomainToRegexPartial(host)
  }

  function PortOf(port: string): Option<nat>
    requires port == "*" || AllDigitsIn(port)
  {
    if port == "*" then None else Some(Value(port))
  }

  /** A `~` rule is matched as one expression against host and port together. */
  function HostRuleToMatcher(checks: Checks, pattern: string): Option<(HostMatch, string, Option<nat>)> {
    if "~" <= pattern then
      if SplitRawRegexHost(checks, pattern).None? then None else Some((HostPort, AnchorRawRegex(pattern[1..]), None))
    else
      match SplitHostRule(pattern)
      case None => None
      case Some((_, port)) =>
        match HostOnlyRegexOfRule(checks, pattern)
        case None => None
        case Some(hostOnly) => Some((Wildcard, "^" + hostOnly + "$", PortOf(port)))
  }

  // ---- URL rules ----

  /** The host half of a compiled authority, recovered by cutting; a `~` rule's has lost its port already. */
  function HostOnlyRegexOfUrlRule(rule: UrlRule): string {
    var authority := if |rule.authorityRegex| < 2 then "" else rule.authorityRegex[1..|rule.authorityRegex| - 1];
    if rule.RawUrlRule? then authority
    else
      var colon := LastIndexOfChar(authority, ':');
      authority[..if colon == -1 then |authority| else colon]
  }

  function UrlRuleToMatcher(rule: UrlRule): (string, Option<nat>) {
    var hostOnly := HostOnlyRegexOfUrlRule(rule);
    var authority := if |rule.authorityRegex| < 2 then "" else rule.authorityRegex[1..|rule.authorityRegex| - 1];
    var port := if |hostOnly| + 1 <= |authority| then authority[|hostOnly| + 1..] else "";
    ("^" + hostOnly + "$", if port == "[0-9]+" || !AllDigitsIn(port) then None else Some(Value(port)))
  }

  // ---- one scheme's rules ----

  function IdOf(scheme: Scheme, i: nat): string {
    (if scheme == Https then "s" else "p") + Dec(i)
  }

  function FromHostRule(checks: Checks, pattern: string): Option<CompiledRule> {
    match HostRuleToMatcher(checks, pattern)
    case None => None
    case Some((hostMatch, hostRegex, port)) => Some(CompiledRule("", hostMatch, hostRegex, port, "^/", None))
  }

  function FromUrlRule(rule: UrlRule): CompiledRule {
    if rule.RawUrlRule? then CompiledRule("", HostBareFull, rule.hostRegex, None, rule.pathRegex, rule.methods)
    else
      var (hostRegex, port) := UrlRuleToMatcher(rule);
      CompiledRule("", Wildcard, hostRegex, port, rule.pathRegex, rule.methods)
  }

  predicate IsOfScheme(rule: UrlRule, scheme: Scheme) {
    if rule.RawUrlRule? then scheme in rule.schemes else rule.scheme == scheme
  }

  function FromHostRules(checks: Checks, patterns: seq<string>): Option<seq<CompiledRule>> {
    if patterns == [] then Some([])
    else
      match FromHostRules(checks, patterns[..|patterns| - 1])
      case None => None
      case Some(rules) =>
        match FromHostRule(checks, patterns[|patterns| - 1])
        case None => None
        case Some(rule) => Some(rules + [rule])
  }

  /** The rules of one scheme, in order. */
  function OfScheme(rules: seq<UrlRule>, scheme: Scheme): seq<CompiledRule> {
    if rules == [] then []
    else
      var last := rules[|rules| - 1];
      OfScheme(rules[..|rules| - 1], scheme) + if IsOfScheme(last, scheme) then [FromUrlRule(last)] else []
  }

  function WithIds(rules: seq<CompiledRule>, scheme: Scheme): seq<CompiledRule> {
    seq(|rules|, i requires 0 <= i < |rules| => rules[i].(id := IdOf(scheme, i)))
  }

  function SchemeRules(checks: Checks, hostRules: seq<string>, urlRules: seq<UrlRule>, scheme: Scheme): Option<seq<CompiledRule>> {
    match FromHostRules(checks, hostRules)
    case None => None
    case Some(rules) => Some(WithIds(rules + OfScheme(urlRules, scheme), scheme))
  }

  method CompileSchemeRules(checks: Checks, hostRules: seq<string>, urlRules: seq<UrlRule>, scheme: Scheme)
    returns (compiled: Option<seq<CompiledRule>>)
    ensures compiled == SchemeRules(checks, hostRules, urlRules, scheme)
  {
    hide FromHostRule, FromUrlRule, IdOf;
    var out: seq<CompiledRule> := [];
    for k := 0 to |hostRules|
      invariant FromHostRules(checks, hostRules[..k]) == Some(out)
    {
      assert hostRules[..k + 1][..k] == hostRules[..k];
      match FromHostRule(checks, hostRules[k]) {
        case None =>
          StaysFailed(checks, hostRules, k + 1);
          return None;
        case Some(rule) => out := out + [rule];
      }
    }
    assert hostRules[..|hostRules|] == hostRules;
    ghost var fromHosts := out;
    for k := 0 to |urlRules|
      invariant out == fromHosts + OfScheme(urlRules[..k], scheme)
    {
      assert urlRules[..k + 1][..k] == urlRules[..k];
      if IsOfScheme(urlRules[k], scheme) {
        out := out + [FromUrlRule(urlRules[k])];
      }
    }
    assert urlRules[..|urlRules|] == urlRules;
    ghost var bare := out;
    for i := 0 to |out|
      invariant |out| == |bare|
      invariant forall j | 0 <= j < |out| :: out[j] == if j < i then bare[j].(id := IdOf(scheme, j)) else bare[j]
    {
      out := out[i := out[i].(id := IdOf(scheme, i))];
    }
    assert out == WithIds(bare, scheme);
    return Some(out);
  }

  lemma {:induction false} StaysFailed(checks: Checks, patterns: seq<string>, k: nat)
    requires k <= |patterns| && FromHostRules(checks, patterns[..k]) == None
    ensures FromHostRules(checks, patterns) == None
    decreases |patterns| - k
  {
    if k == |patterns| {
      assert patterns[..k] == patterns;
    } else {
      assert patterns[..k + 1][..k] == patterns[..k];
      StaysFailed(checks, patterns, k + 1);
    }
  }

  // ---- what the block is promised of compiled rules ----

  /** An id names one rule, of one scheme. */
  lemma IdsTellRules(a: Scheme, i: nat, b: Scheme, j: nat)
    requires IdOf(a, i) == IdOf(b, j)
    ensures a == b && i == j
  {
    hide Dec;
    assert IdOf(a, i)[0] == IdOf(b, j)[0];
    assert IdOf(a, i)[1..] == Dec(i) && IdOf(b, j)[1..] == Dec(j);
    DecInjective(i, j);
  }

  lemma IdsAreIds(scheme: Scheme, i: nat)
    ensures IsId(IdOf(scheme, i))
  {
    hide Dec;
    var id := IdOf(scheme, i);
    forall k | 1 <= k < |id| ensures IsDigit(id[k]) {
      assert id[k] == Dec(i)[k - 1];
    }
  }

  /** All the rule block asks of a rule but its id. */
  predicate IsGood(rule: CompiledRule) {
    && rule.hostRegex != [] && "^" <= rule.pathRegex
    && (rule.hostMatch != Wildcard ==> rule.port == None)
    && (rule.methods.Some? ==> forall j | 0 <= j < |rule.methods.value| :: IsMethodName(rule.methods.value[j]))
  }

  lemma AnchoredIsWritten(regex: string)
    ensures AnchorRawRegex(regex) != []
  {
    hide IsAnchoredAtEnd;
  }

  lemma HostRuleIsGood(checks: Checks, pattern: string)
    requires FromHostRule(checks, pattern).Some?
    ensures IsGood(FromHostRule(checks, pattern).value)
  {
    hide SplitRawRegexHost, AnchorRawRegex, SplitHostRule, DomainToRegexPartial, PortOf;
    if "~" <= pattern {
      AnchoredIsWritten(pattern[1..]);
    }
  }

  lemma {:induction false} HostRulesAreGood(checks: Checks, patterns: seq<string>, k: nat)
    requires FromHostRules(checks, patterns).Some? && k < |FromHostRules(checks, patterns).value|
    ensures IsGood(FromHostRules(checks, patterns).value[k])
  {
    hide FromHostRule, IsGood;
    if k < |FromHostRules(checks, patterns[..|patterns| - 1]).value| {
      HostRulesAreGood(checks, patterns[..|patterns| - 1], k);
    } else {
      HostRuleIsGood(checks, patterns[|patterns| - 1]);
    }
  }

  predicate GoodUrlRule(rule: UrlRule) {
    && "^" <= rule.pathRegex && (rule.RawUrlRule? ==> rule.hostRegex != [])
    && (rule.methods.Some? ==> forall k | 0 <= k < |rule.methods.value| :: IsMethodName(rule.methods.value[k]))
  }

  lemma {:induction false} UpperTokens(tokens: seq<string>)
    requires forall k | 0 <= k < |tokens| :: IsMethodToken(tokens[k])
    ensures forall k | 0 <= k < |DistinctUpper(tokens)| :: IsMethodName(DistinctUpper(tokens)[k])
  {
    if tokens != [] {
      UpperTokens(tokens[..|tokens| - 1]);
      var last := tokens[|tokens| - 1];
      assert IsMethodToken(last);
      assert forall k | 0 <= k < |last| :: UpperText(last)[k] == Upper(last[k]) && IsAlnum(Upper(last[k]));
      assert IsMethodName(UpperText(last));
    }
  }

  /** A line that compiles gives a rule the rule block can take. */
  lemma ConvertedIsGood(checks: Checks, line: string)
    requires ConvertUrlRule(checks, line).Some?
    ensures GoodUrlRule(ConvertUrlRule(checks, line).value)
  {
    hide Trim, TrimStart, IndexOfSpace, HasSpace, SplitUrl, SplitAuthority, HasQuery, IsHalf, SplitDomainFromPort, AnchorRawRegex,
      DistinctUpper, IsMethodName, IsMethodToken, SeparatorFrom, SlashFrom, DomainToRegexPartial, PathToRegexPartial, IsPort;
    var trimmed := Trim(line);
    var tokens := TrimmedTokens(SplitMethods(trimmed[..IndexOfSpace(trimmed)]));
    if forall k | 0 <= k < |tokens| :: IsMethodToken(tokens[k]) {
      UpperTokens(tokens);
    }
    var rule := ConvertUrlRule(checks, line).value;
    if rule.RawUrlRule? {
      var url := Trim(TrimStart(trimmed[IndexOfSpace(trimmed)..]));
      var regex := url[1..];
      var hostStart := SeparatorFrom(regex, 0) + SeparatorLength(regex, SeparatorFrom(regex, 0));
      AnchoredIsWritten(regex[hostStart..SlashFrom(regex, hostStart)]);
    }
  }

  lemma UrlRuleIsGood(rule: UrlRule)
    requires GoodUrlRule(rule)
    ensures IsGood(FromUrlRule(rule))
  {
    hide HostOnlyRegexOfUrlRule, IsMethodName, AllDigitsIn, Value;
  }

  lemma {:induction false} UrlRulesAreGood(rules: seq<UrlRule>, scheme: Scheme, k: nat)
    requires k < |OfScheme(rules, scheme)| && forall j | 0 <= j < |rules| :: GoodUrlRule(rules[j])
    ensures IsGood(OfScheme(rules, scheme)[k])
  {
    hide FromUrlRule, IsGood, GoodUrlRule, IsOfScheme;
    var rest := rules[..|rules| - 1];
    if k < |OfScheme(rest, scheme)| {
      UrlRulesAreGood(rest, scheme, k);
    } else {
      UrlRuleIsGood(rules[|rules| - 1]);
    }
  }

  /** Rules compiled from lines, `~` rules among them, meet all the rule block's correctness asks of them. */
  lemma CompiledRulesAreGood(checks: Checks, hostRules: seq<string>, urlLines: seq<string>, urlRules: seq<UrlRule>, scheme: Scheme)
    requires |urlLines| == |urlRules|
    requires forall j | 0 <= j < |urlLines| :: ConvertUrlRule(checks, urlLines[j]) == Some(urlRules[j])
    requires SchemeRules(checks, hostRules, urlRules, scheme).Some?
    ensures GoodRules(SchemeRules(checks, hostRules, urlRules, scheme).value)
  {
    hide IdOf, IsId, FromHostRules, OfScheme, GoodUrlRule, IsMethodName, ConvertUrlRule;
    var fromHosts := FromHostRules(checks, hostRules).value;
    var rules := SchemeRules(checks, hostRules, urlRules, scheme).value;
    forall j | 0 <= j < |urlRules| ensures GoodUrlRule(urlRules[j]) {
      ConvertedIsGood(checks, urlLines[j]);
    }
    forall k | 0 <= k < |rules| ensures GoodRule(rules[k]) {
      IdsAreIds(scheme, k);
      if k < |fromHosts| {
        HostRulesAreGood(checks, hostRules, k);
      } else {
        UrlRulesAreGood(urlRules, scheme, k - |fromHosts|);
      }
    }
    forall j, k | 0 <= j < k < |rules| ensures rules[j].id != rules[k].id {
      if rules[j].id == rules[k].id {
        IdsTellRules(scheme, j, scheme, k);
      }
    }
  }

  // ---- the resolver's names ----

  /** The first of each, in order. */
  function Distinct(xs: seq<string>): seq<string> {
    if xs == [] then []
    else
      var rest := Distinct(xs[..|xs| - 1]);
      if xs[|xs| - 1] in rest then rest else rest + [xs[|xs| - 1]]
  }

  lemma {:induction false} DistinctHolds(xs: seq<string>)
    ensures forall x :: x in Distinct(xs) <==> x in xs
    ensures forall i, j | 0 <= i < j < |Distinct(xs)| :: Distinct(xs)[i] != Distinct(xs)[j]
  {
    if xs != [] {
      DistinctHolds(xs[..|xs| - 1]);
      assert xs == xs[..|xs| - 1] + [xs[|xs| - 1]];
    }
  }

  function HostsOfRules(checks: Checks, patterns: seq<string>): Option<seq<string>> {
    if patterns == [] then Some([])
    else
      match HostsOfRules(checks, patterns[..|patterns| - 1])
      case None => None
      case Some(hosts) =>
        match HostOnlyRegexOfRule(checks, patterns[|patterns| - 1])
        case None => None
        case Some(host) => Some(hosts + [host])
  }

  function HostsOfUrlRules(rules: seq<UrlRule>): seq<string> {
    seq(|rules|, i requires 0 <= i < |rules| => HostOnlyRegexOfUrlRule(rules[i]))
  }

  /** `hosts` with the first of each of `more` it does not hold. */
  lemma DistinctMore(xs: seq<string>, x: string)
    ensures Distinct(xs + [x]) == if x in Distinct(xs) then Distinct(xs) else Distinct(xs) + [x]
  {
    assert (xs + [x])[..|xs|] == xs;
  }

  method AddHosts(checks: Checks, hosts: seq<string>, patterns: seq<string>, ghost before: seq<string>) returns (more: Option<seq<string>>)
    requires hosts == Distinct(before)
    ensures more == match HostsOfRules(checks, patterns) case None => None case Some(texts) => Some(Distinct(before + texts))
  {
    hide HostOnlyRegexOfRule, Distinct;
    var out := hosts;
    assert before + [] == before;
    for k := 0 to |patterns|
      invariant HostsOfRules(checks, patterns[..k]).Some?
      invariant out == Distinct(before + HostsOfRules(checks, patterns[..k]).value)
    {
      assert patterns[..k + 1][..k] == patterns[..k];
      ghost var texts := HostsOfRules(checks, patterns[..k]).value;
      match HostOnlyRegexOfRule(checks, patterns[k]) {
        case None =>
          HostsStayFailed(checks, patterns, k + 1);
          return None;
        case Some(host) =>
          DistinctMore(before + texts, host);
          assert before + (texts + [host]) == (before + texts) + [host];
          if host !in out { out := out + [host]; }
      }
    }
    assert patterns[..|patterns|] == patterns;
    return Some(out);
  }

  lemma {:induction false} HostsStayFailed(checks: Checks, patterns: seq<string>, k: nat)
    requires k <= |patterns| && HostsOfRules(checks, patterns[..k]) == None
    ensures HostsOfRules(checks, patterns) == None
    decreases |patterns| - k
  {
    if k == |patterns| {
      assert patterns[..k] == patterns;
    } else {
      assert patterns[..k + 1][..k] == patterns[..k];
      HostsStayFailed(checks, patterns, k + 1);
    }
  }

  /** Every name a rule allows, in input order and without repeats. */
  function AllowedHosts(checks: Checks, httpsRules: seq<string>, httpRules: seq<string>, tlsRules: seq<string>, urlRules: seq<UrlRule>):
    Option<seq<string>>
  {
    match HostsOfRules(checks, httpsRules + httpRules + tlsRules)
    case None => None
    case Some(hosts) => Some(Distinct(hosts + HostsOfUrlRules(urlRules)))
  }

  lemma {:induction false} HostsAppend(checks: Checks, a: seq<string>, b: seq<string>)
    ensures HostsOfRules(checks, a + b) ==
      if HostsOfRules(checks, a).Some? && HostsOfRules(checks, b).Some? then Some(HostsOfRules(checks, a).value + HostsOfRules(checks, b).value) else None
  {
    hide HostOnlyRegexOfRule;
    if b == [] {
      assert a + b == a;
      assert HostsOfRules(checks, a).Some? ==> HostsOfRules(checks, a).value + [] == HostsOfRules(checks, a).value;
    } else {
      var rest, last := b[..|b| - 1], b[|b| - 1];
      HostsAppend(checks, a, rest);
      assert (a + b)[..|a + b| - 1] == a + rest && (a + b)[|a + b| - 1] == last;
      if HostsOfRules(checks, a).Some? && HostsOfRules(checks, rest).Some? && HostOnlyRegexOfRule(checks, last).Some? {
        var x, y, h := HostsOfRules(checks, a).value, HostsOfRules(checks, rest).value, HostOnlyRegexOfRule(checks, last).value;
        assert x + (y + [h]) == (x + y) + [h];
      }
    }
  }

  method AddUrlHosts(hosts: seq<string>, urlRules: seq<UrlRule>, ghost before: seq<string>) returns (out: seq<string>)
    requires hosts == Distinct(before)
    ensures out == Distinct(before + HostsOfUrlRules(urlRules))
  {
    hide Distinct, HostOnlyRegexOfUrlRule;
    out := hosts;
    ghost var texts := HostsOfUrlRules(urlRules);
    assert texts[..0] == [] && before + [] == before;
    for k := 0 to |urlRules|
      invariant out == Distinct(before + texts[..k])
    {
      var host := HostOnlyRegexOfUrlRule(urlRules[k]);
      assert texts[..k + 1] == texts[..k] + [host];
      assert before + (texts[..k] + [host]) == (before + texts[..k]) + [host];
      DistinctMore(before + texts[..k], host);
      if host !in out { out := out + [host]; }
    }
    assert texts[..|urlRules|] == texts;
  }

  method ResolverHosts(checks: Checks, httpsRules: seq<string>, httpRules: seq<string>, tlsRules: seq<string>, urlRules: seq<UrlRule>)
    returns (hosts: Option<seq<string>>)
    ensures hosts == AllowedHosts(checks, httpsRules, httpRules, tlsRules, urlRules)
  {
    hide HostsOfRules, HostsOfUrlRules;
    assert Distinct([]) == [];
    HostsAppend(checks, httpsRules, httpRules);
    HostsAppend(checks, httpsRules + httpRules, tlsRules);
    var a := AddHosts(checks, [], httpsRules, []);
    if a == None { return None; }
    ghost var x := HostsOfRules(checks, httpsRules).value;
    assert [] + x == x;
    var b := AddHosts(checks, a.value, httpRules, x);
    if b == None { return None; }
    ghost var y := x + HostsOfRules(checks, httpRules).value;
    var c := AddHosts(checks, b.value, tlsRules, y);
    if c == None { return None; }
    ghost var z := y + HostsOfRules(checks, tlsRules).value;
    var out := AddUrlHosts(c.value, urlRules, z);
    return Some(out);
  }
}
