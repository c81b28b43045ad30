/** The rules of one scheme as acls, one flag, and one denial: src/core/lib/acl/haproxy-rule-block.ts. */
module RuleBlocks {
  import opened Decimal
  import opened Search
  import opened Regex
  import opened Matchers
  import opened Haproxy

  datatype HostMatch = Wildcard | HostPort | HostBareFull

  datatype Scheme = Https | Http

  datatype Mode = Restrict | Audit

  /** A compiled rule (haproxy-rules.ts 72-81); the text of the rule is only ever a comment. */
  datatype CompiledRule = CompiledRule(
    id: string,
    hostMatch: HostMatch,
    hostRegex: string,
    port: Option<nat>,
    pathRegex: string,
    methods: Option<seq<string>>)

  function DefaultPort(scheme: Scheme): nat {
    if scheme == Https then 443 else 80
  }

  predicate DeniesEverything(rules: seq<CompiledRule>, mode: Mode) {
    mode != Audit && rules == []
  }

  // ---- what a rule means ----

  function HostPortText(req: Request): string {
    req.host + ":" + Dec(req.port)
  }

  predicate HostHalfMatches(engine: Engine, rule: CompiledRule, scheme: Scheme, req: Request) {
    match rule.hostMatch
    case Wildcard => engine(rule.hostRegex, req.host, true)
    case HostPort => engine(rule.hostRegex, HostPortText(req), true)
    case HostBareFull =>
      || (req.port == DefaultPort(scheme) && engine(rule.hostRegex, req.host, true))
      || engine(rule.hostRegex, HostPortText(req), true)
  }

  /** The request is one the rule permits: host, port, path and method, each by the rule's own expression. */
  predicate RuleMatches(engine: Engine, rule: CompiledRule, scheme: Scheme, req: Request) {
    && HostHalfMatches(engine, rule, scheme, req)
    && (rule.port.Some? ==> req.port == rule.port.value)
    && engine(rule.pathRegex, req.path, false)
    && (rule.methods.Some? ==> req.verb in rule.methods.value)
  }

  predicate AnyMatches(engine: Engine, rules: seq<CompiledRule>, scheme: Scheme, req: Request) {
    exists k | 0 <= k < |rules| :: RuleMatches(engine, rules[k], scheme, req)
  }

  // ---- the program ----

  function OpText(op: Op): string {
    match op
    case Str => "-m str"
    case Beg => "-m beg"
    case Reg => "-m reg"
    case RegI => "-m reg -i"
  }

  /** What the rules sharing one acl share. */
  function Key(m: Matcher): string {
    OpText(m.op) + " " + m.pattern
  }

  function HostName(id: string): string { id + "_host" }
  function PortName(id: string): string { id + "_port" }
  function PathName(id: string): string { id + "_path" }
  function MethodName(id: string): string { id + "_method" }
  function OkName(id: string): string { id + "_ok" }

  function MatchTest(fetch: Fetch, m: Matcher): Test {
    Test(fetch, Pattern(m.op), [EscapeForHaproxy(m.pattern)])
  }

  function HostRegexTest(variable: string, rule: CompiledRule): Test {
    MatchTest(Var(variable), Matcher(RegI, rule.hostRegex))
  }

  function BareFullLines(rule: CompiledRule): seq<Instr> {
    [ SetVar(OkName(rule.id), Constant(Flag(false)), Always),
      SetVar(OkName(rule.id), Constant(Flag(true)),
        When([[Named(false, "is_default_port"), Inline(false, HostRegexTest("host", rule))]])),
      SetVar(OkName(rule.id), Constant(Flag(true)), When([[Inline(false, HostRegexTest("host_full", rule))]])),
      AclLine(HostName(rule.id), Test(Var(OkName(rule.id)), IsTrue, [])) ]
  }

  function PortLines(rule: CompiledRule): seq<Instr> {
    match rule.port
    case Some(p) => [AclLine(PortName(rule.id), Test(DstPort, IsNumber, [Dec(p)]))]
    case None => []
  }

  function HostLines(rule: CompiledRule, shared: map<string, string>): seq<Instr> {
    match rule.hostMatch
    case HostPort => [AclLine(HostName(rule.id), HostRegexTest("host_port", rule))]
    case HostBareFull => BareFullLines(rule)
    case Wildcard =>
      var host := HostMatcher(rule.hostRegex);
      (if Key(host) in shared then [] else [AclLine(HostName(rule.id), MatchTest(Var("host"), host))]) + PortLines(rule)
  }

  function PathLines(rule: CompiledRule): seq<Instr> {
    [AclLine(PathName(rule.id), MatchTest(PathOf, PathMatcher(rule.pathRegex)))] +
    match rule.methods
    case Some(methods) => [AclLine(MethodName(rule.id), Test(MethodOf, IsMethod, methods))]
    case None => []
  }

  function RuleLines(rule: CompiledRule, shared: map<string, string>): seq<Instr> {
    HostLines(rule, shared) + PathLines(rule)
  }

  /** The acl a rule's host is matched by: another rule's where one already names that host. */
  function HostAcl(rule: CompiledRule, shared: map<string, string>): string {
    var key := Key(HostMatcher(rule.hostRegex));
    if rule.hostMatch == Wildcard && key in shared then shared[key] else HostName(rule.id)
  }

  function Sharing(rule: CompiledRule, shared: map<string, string>): map<string, string> {
    var key := Key(HostMatcher(rule.hostRegex));
    if rule.hostMatch == Wildcard && key !in shared then shared[key := HostName(rule.id)] else shared
  }

  function Clause(rule: CompiledRule, hostAcl: string): seq<Term> {
    [Named(false, hostAcl)] +
    (if rule.port.Some? then [Named(false, PortName(rule.id))] else []) +
    [Named(false, PathName(rule.id))] +
    (if rule.methods.Some? then [Named(false, MethodName(rule.id))] else [])
  }

  const ALLOWED := Test(Var("allowed"), IsTrue, [])

  function FlagLine(clause: seq<Term>): Instr {
    SetVar("allowed", Constant(Flag(true)), When([[Inline(true, ALLOWED)] + clause]))
  }

  function AclLines(rules: seq<CompiledRule>, shared: map<string, string>): seq<Instr> {
    if rules == [] then [] else RuleLines(rules[0], shared) + AclLines(rules[1..], Sharing(rules[0], shared))
  }

  function FlagLines(rules: seq<CompiledRule>, shared: map<string, string>): seq<Instr> {
    if rules == [] then []
    else [FlagLine(Clause(rules[0], HostAcl(rules[0], shared)))] + FlagLines(rules[1..], Sharing(rules[0], shared))
  }

  predicate Uses(rules: seq<CompiledRule>, how: HostMatch) {
    exists k | 0 <= k < |rules| :: rules[k].hostMatch == how
  }

  function Header(rules: seq<CompiledRule>, scheme: Scheme): seq<Instr> {
    (if Uses(rules, HostPort) then [SetVar("host_port", HostWithPort, Always)] else []) +
    (if Uses(rules, HostBareFull)
     then [AclLine("is_default_port", Test(DstPort, IsNumber, [Dec(DefaultPort(scheme))])),
           SetVar("host_full", HostWithPort, Always)]
     else [])
  }

  function Footer(): seq<Instr> {
    [Deny(403, Unless([[Inline(false, ALLOWED)]]))]
  }

  /** The block as a whole, which the method below builds line by line. */
  function Block(rules: seq<CompiledRule>, mode: Mode, scheme: Scheme): seq<Instr> {
    if mode == Audit then []
    else if DeniesEverything(rules, mode) then [Deny(403, Always)]
    else
      Header(rules, scheme) + AclLines(rules, map[]) +
      ([SetVar("allowed", Constant(Flag(false)), Always)] + FlagLines(rules, map[]) + Footer())
  }

  predicate DistinctIds(rules: seq<CompiledRule>) {
    forall j, k | 0 <= j < k < |rules| :: rules[j].id != rules[k].id
  }

  /** The sharing map after the first `k` rules. */
  function SharedAfter(rules: seq<CompiledRule>, k: nat): map<string, string>
    requires k <= |rules|
  {
    if k == 0 then map[] else Sharing(rules[k - 1], SharedAfter(rules, k - 1))
  }

  lemma AclStep(lines: seq<Instr>, rules: seq<CompiledRule>, k: nat, shared: map<string, string>, whole: seq<Instr>)
    requires k < |rules| && lines + AclLines(rules[k..], shared) == whole
    ensures lines + RuleLines(rules[k], shared) + AclLines(rules[k + 1..], Sharing(rules[k], shared)) == whole
  {
    hide RuleLines, Sharing;
    assert rules[k..][0] == rules[k] && rules[k..][1..] == rules[k + 1..];
    var rest := AclLines(rules[k + 1..], Sharing(rules[k], shared));
    assert lines + RuleLines(rules[k], shared) + rest == lines + (RuleLines(rules[k], shared) + rest);
  }

  lemma FlagStep(lines: seq<Instr>, rules: seq<CompiledRule>, k: nat, whole: seq<Instr>)
    requires k < |rules| && lines + FlagLines(rules[k..], SharedAfter(rules, k)) == whole
    ensures lines + [FlagLine(Clause(rules[k], HostAcl(rules[k], SharedAfter(rules, k))))] +
      FlagLines(rules[k + 1..], SharedAfter(rules, k + 1)) == whole
  {
    hide Clause, FlagLine, HostAcl, Sharing;
    assert rules[k..][0] == rules[k] && rules[k..][1..] == rules[k + 1..];
    var rest := FlagLines(rules[k + 1..], SharedAfter(rules, k + 1));
    var line := FlagLine(Clause(rules[k], HostAcl(rules[k], SharedAfter(rules, k))));
    assert lines + [line] + rest == lines + ([line] + rest);
  }

  /** The acl `hostAclOf` gives a rule, its own where it gives none. */
  function AclOf(hostAclOf: map<string, string>, id: string): string {
    if id in hostAclOf then hostAclOf[id] else HostName(id)
  }

  /** The first `k` rules, and no others, have been given their host acls. */
  ghost predicate Recorded(hostAclOf: map<string, string>, rules: seq<CompiledRule>, k: nat)
    requires k <= |rules|
  {
    && (forall id | id in hostAclOf :: exists j | 0 <= j < k :: rules[j].id == id)
    && (forall j | 0 <= j < k :: AclOf(hostAclOf, rules[j].id) == HostAcl(rules[j], SharedAfter(rules, j)))
  }

  lemma RecordStep(before: map<string, string>, after: map<string, string>, rules: seq<CompiledRule>, k: nat)
    requires k < |rules| && DistinctIds(rules) && Recorded(before, rules, k)
    requires var name := HostAcl(rules[k], SharedAfter(rules, k));
      after == before[rules[k].id := name] || (after == before && name == HostName(rules[k].id))
    ensures Recorded(after, rules, k + 1)
  {
    hide HostAcl, SharedAfter, HostName;
    assert rules[k].id !in before;
    forall j | 0 <= j < k + 1 ensures AclOf(after, rules[j].id) == HostAcl(rules[j], SharedAfter(rules, j)) {
      if j < k {
        assert rules[j].id != rules[k].id;
        assert AclOf(before, rules[j].id) == HostAcl(rules[j], SharedAfter(rules, j));
      }
    }
    forall id | id in after ensures exists j | 0 <= j < k + 1 :: rules[j].id == id {
      if id in before {
        var j :| 0 <= j < k && rules[j].id == id;
      } else {
        assert rules[k].id == id;
      }
    }
  }

  /** One turn of the loop over the rules: its lines, and both maps brought up to date. */
  method EmitRule(rule: CompiledRule, aclForHost: map<string, string>, hostAclOf: map<string, string>)
    returns (lines: seq<Instr>, aclForHost': map<string, string>, hostAclOf': map<string, string>)
    ensures lines == RuleLines(rule, aclForHost)
    ensures aclForHost' == Sharing(rule, aclForHost)
    ensures var name := HostAcl(rule, aclForHost);
      hostAclOf' == hostAclOf[rule.id := name] || (hostAclOf' == hostAclOf && name == HostName(rule.id))
  {
    hide HostMatcher, Key, MatchTest, HostRegexTest, PortLines, PathLines, BareFullLines;
    lines, aclForHost', hostAclOf' := [], aclForHost, hostAclOf;
    if rule.hostMatch == HostPort {
      lines := lines + [AclLine(HostName(rule.id), HostRegexTest("host_port", rule))];
    } else if rule.hostMatch == HostBareFull {
      lines := lines + BareFullLines(rule);
    } else {
      var host := HostMatcher(rule.hostRegex);
      var name := HostName(rule.id);
      if Key(host) in aclForHost {
        name := aclForHost[Key(host)];
      } else {
        aclForHost' := aclForHost'[Key(host) := name];
        lines := lines + [AclLine(name, MatchTest(Var("host"), host))];
      }
      hostAclOf' := hostAclOf'[rule.id := name];
      lines := lines + PortLines(rule);
    }
    lines := lines + PathLines(rule);
  }

  /** The acls of every rule, and the acl each rule's host is matched by. */
  method DeclareRules(rules: seq<CompiledRule>) returns (lines: seq<Instr>, hostAclOf: map<string, string>)
    requires DistinctIds(rules)
    ensures lines == AclLines(rules, map[])
    ensures Recorded(hostAclOf, rules, |rules|)
  {
    hide RuleLines, Sharing, HostAcl, DistinctIds, HostName;
    lines := [];
    var aclForHost: map<string, string> := map[];
    hostAclOf := map[];
    assert rules[0..] == rules;
    assert Recorded(hostAclOf, rules, 0);
    assert SharedAfter(rules, 0) == map[];
    for k := 0 to |rules|
      invariant aclForHost == SharedAfter(rules, k)
      invariant lines + AclLines(rules[k..], aclForHost) == AclLines(rules, map[])
      invariant Recorded(hostAclOf, rules, k)
    {
      ghost var known := hostAclOf;
      AclStep(lines, rules, k, aclForHost, AclLines(rules, map[]));
      var more;
      more, aclForHost, hostAclOf := EmitRule(rules[k], aclForHost, hostAclOf);
      lines := lines + more;
      assert aclForHost == SharedAfter(rules, k + 1);
      RecordStep(known, hostAclOf, rules, k);
    }
    assert AclLines([], aclForHost) == [];
    assert rules[|rules|..] == [];
  }

  /** One line per rule, each skipped once a rule has allowed the request. */
  method FlagRules(rules: seq<CompiledRule>, hostAclOf: map<string, string>) returns (lines: seq<Instr>)
    requires Recorded(hostAclOf, rules, |rules|)
    ensures lines == FlagLines(rules, map[])
  {
    hide Clause, FlagLine, AclOf, HostAcl;
    lines := [];
    assert rules[0..] == rules;
    assert SharedAfter(rules, 0) == map[];
    for k := 0 to |rules|
      invariant lines + FlagLines(rules[k..], SharedAfter(rules, k)) == FlagLines(rules, map[])
    {
      FlagStep(lines, rules, k, FlagLines(rules, map[]));
      var clause := Clause(rules[k], AclOf(hostAclOf, rules[k].id));
      assert AclOf(hostAclOf, rules[k].id) == HostAcl(rules[k], SharedAfter(rules, k));
      lines := lines + [FlagLine(clause)];
    }
    assert FlagLines([], SharedAfter(rules, |rules|)) == [];
    assert rules[|rules|..] == [];
  }

  method RuleBlock(rules: seq<CompiledRule>, mode: Mode, scheme: Scheme) returns (lines: seq<Instr>)
    requires DistinctIds(rules)
    ensures lines == Block(rules, mode, scheme)
  {
    hide AclLines, FlagLines, Recorded, Uses, DistinctIds, Footer;
    lines := [];
    if mode == Audit { return; }
    if DeniesEverything(rules, mode) {
      lines := [Deny(403, Always)];
      return;
    }
    if Uses(rules, HostPort) {
      lines := lines + [SetVar("host_port", HostWithPort, Always)];
    }
    if Uses(rules, HostBareFull) {
      lines := lines +
        [AclLine("is_default_port", Test(DstPort, IsNumber, [Dec(DefaultPort(scheme))])),
         SetVar("host_full", HostWithPort, Always)];
    }
    assert lines == Header(rules, scheme);
    var acls, hostAclOf := DeclareRules(rules);
    var flags := FlagRules(rules, hostAclOf);
    lines := lines + acls + ([SetVar("allowed", Constant(Flag(false)), Always)] + flags + Footer());
  }
}
