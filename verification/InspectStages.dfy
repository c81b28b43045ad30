/**
 * The inspected frontend: check the Host, let the rules decide, and only then resolve the name and
 * guard the destination (src/core/lib/acl/haproxy-inspect-stage.ts, haproxy-internal-dst.ts).
 */
module InspectStages {
  import opened Decimal
  import opened Ipv4
  import opened Search
  import opened Matchers
  import opened Haproxy
  import opened RequestChecks
  import opened RuleBlocks

  const PROXY_SUBNET := "198.19.255.0/24"

  /**
   * `hostAddressFile`: the addresses the file lists, where one is given. `extension`: the request
   * rules an action adds for the mode, none where it adds no extension.
   */
  datatype Context = Context(
    mode: Mode,
    listenPort: nat,
    internalAddrs: seq<string>,
    hostAddressFile: Option<seq<string>>,
    extension: seq<Instr>)

  // ---- the lines before the rules ----

  function Reason(text: string, cond: Cond): Instr {
    SetVar("reason", Constant(Text(text)), cond)
  }

  const NO_HOST := When([[Named(true, "has_host")], [Named(true, "host_not_empty")]])
  const NO_NAME := When([[Named(true, "host_is_name")]])

  function HostLinesOf(): seq<Instr> {
    [ AclLine("has_host", Test(HostHeader, IsFound, [])),
      AclLine("host_not_empty", Test(HostHeader, IsLong, [])),
      Reason("missing-host-header", NO_HOST),
      Deny(400, NO_HOST) ]
  }

  const IS_NAME := Test(Var("host"), Pattern(Reg), [HOSTNAME_CHARSET])

  function NameLines(): seq<Instr> {
    [ SetVar("host", CleanHeader, Always),
      AclLine("host_is_name", IS_NAME),
      Reason("invalid-host", NO_NAME),
      Deny(400, NO_NAME) ]
  }

  const CLIMBS := Test(PathOf, Pattern(RegI), [CLIMB])
  const BACKSLASH := Test(PathOf, HasBackslash, [])

  function ClimbLines(): seq<Instr> {
    [ Deny(403, When([[Inline(false, CLIMBS)]])), Deny(403, When([[Inline(false, BACKSLASH)]])) ]
  }

  // ---- the lines after the rules ----

  const FOUND := Test(Var("dst"), IsFound, [])
  const DOTTED := Test(Var("host"), Pattern(Reg), [HOST_IS_ADDRESS])
  const IS_ADDRESS := [Named(false, "host_is_address")]

  function ResolveLines(): seq<Instr> {
    [ AclLine("host_is_address", DOTTED),
      SetVar("dst", CopyOf("host"), When([IS_ADDRESS])),
      Resolve(Unless([IS_ADDRESS])),
      Resolve(Unless([IS_ADDRESS, [Inline(false, FOUND)]])) ]
  }

  function FoundLines(): seq<Instr> {
    [ Reason("dns-failed", Unless([[Inline(false, FOUND)]])),
      Deny(502, Unless([[Inline(false, FOUND)]])),
      SetDst ]
  }

  function InternalLines(ctx: Context): seq<Instr> {
    [AclLine("dst_internal", Test(Var("dst"), InNetwork, ctx.internalAddrs))] +
    match ctx.hostAddressFile
    case Some(addresses) => [AclLine("dst_internal", Test(Var("dst"), InNetwork, addresses))]
    case None => []
  }

  /** The rules that name a literal address as their host. */
  predicate NamesAddress(rule: CompiledRule) {
    rule.hostMatch == Wildcard && HostMatcher(rule.hostRegex).op == Str && IsAddress(HostMatcher(rule.hostRegex).pattern)
  }

  function AddressRules(rules: seq<CompiledRule>): seq<CompiledRule> {
    if rules == [] then []
    else (if NamesAddress(rules[0]) then [rules[0]] else []) + AddressRules(rules[1..])
  }

  function RuleTerms(rule: CompiledRule): seq<Term> {
    var path := PathMatcher(rule.pathRegex);
    [Inline(false, Test(Var("host"), Pattern(Str), [HostMatcher(rule.hostRegex).pattern]))] +
    (if rule.port.Some? then [Inline(false, Test(DstPort, IsNumber, [Dec(rule.port.value)]))] else []) +
    [Inline(false, MatchTest(PathOf, path))] +
    (if rule.methods.Some? then [Inline(false, Test(MethodOf, IsMethod, rule.methods.value))] else [])
  }

  function NamedLine(rule: CompiledRule): Instr {
    SetVar("named_address", Constant(Flag(true)), When([RuleTerms(rule)]))
  }

  function NamedLines(named: seq<CompiledRule>): seq<Instr> {
    if named == [] then [] else [NamedLine(named[0])] + NamedLines(named[1..])
  }

  const INTERNAL := When([[Named(false, "dst_internal")]])

  const INTERNAL_UNNAMED := When([
    [Named(false, "dst_internal"), Named(true, "named_address")],
    [Named(false, "dst_internal"), Named(false, "dst_proxy_self")]])

  function SelfLines(listenPort: nat): seq<Instr> {
    [ AclLine("named_address", Test(Var("named_address"), IsTrue, [])),
      AclLine("dst_proxy_self", Test(Var("dst"), InNetwork, [PROXY_SUBNET])),
      AclLine("dst_proxy_self", Test(DstPort, IsNumber, [Dec(listenPort)])) ]
  }

  function Blocked(cond: Cond): seq<Instr> {
    [ Reason("internal-address", cond), Deny(403, cond) ]
  }

  function GuardLines(rules: seq<CompiledRule>, listenPort: nat): seq<Instr> {
    var named := AddressRules(rules);
    if named == [] then Blocked(INTERNAL)
    else NamedLines(named) + (SelfLines(listenPort) + Blocked(INTERNAL_UNNAMED))
  }

  method InternalGuard(rules: seq<CompiledRule>, listenPort: nat) returns (lines: seq<Instr>)
    ensures lines == GuardLines(rules, listenPort)
  {
    hide NamedLine, NamedLines, SelfLines, AddressRules, Blocked, INTERNAL, INTERNAL_UNNAMED;
    var named := AddressRules(rules);
    if |named| == 0 {
      return Blocked(INTERNAL);
    }
    lines := [];
    NamedEnd(named);
    for k := 0 to |named|
      invariant lines + NamedLines(named[k..]) == NamedLines(named)
    {
      NamedStep(lines, named, k);
      lines := lines + [NamedLine(named[k])];
    }
    NamedEnd(named);
    lines := lines + (SelfLines(listenPort) + Blocked(INTERNAL_UNNAMED));
  }

  lemma NamedEnd(named: seq<CompiledRule>)
    ensures NamedLines(named[|named|..]) == [] && named[0..] == named
    ensures forall lines: seq<Instr> :: lines + [] == lines
  {
  }

  lemma NamedStep(lines: seq<Instr>, named: seq<CompiledRule>, k: nat)
    requires k < |named|
    ensures lines + NamedLines(named[k..]) == lines + [NamedLine(named[k])] + NamedLines(named[k + 1..])
  {
    hide NamedLine;
    assert named[k..][0] == named[k] && named[k..][1..] == named[k + 1..];
  }

  function AfterRules(rules: seq<CompiledRule>, ctx: Context): seq<Instr> {
    ResolveLines() + FoundLines() + InternalLines(ctx) + GuardLines(rules, ctx.listenPort)
  }

  /** The frontend's request rules. */
  function Stage(rules: seq<CompiledRule>, ctx: Context, scheme: Scheme): seq<Instr> {
    HostLinesOf() + NameLines() + ClimbLines() + Block(rules, ctx.mode, scheme) +
    (if DeniesEverything(rules, ctx.mode) then [] else ctx.extension + AfterRules(rules, ctx))
  }

  method InspectStage(rules: seq<CompiledRule>, ctx: Context, scheme: Scheme) returns (lines: seq<Instr>)
    requires DistinctIds(rules)
    ensures lines == Stage(rules, ctx, scheme)
  {
    hide GuardLines, Block, InternalLines, FoundLines, ResolveLines, HostLinesOf, NameLines, ClimbLines;
    lines := HostLinesOf() + NameLines() + ClimbLines();
    var block := RuleBlock(rules, ctx.mode, scheme);
    lines := lines + block;
    if !DeniesEverything(rules, ctx.mode) {
      lines := lines + ctx.extension;
      var guard := InternalGuard(rules, ctx.listenPort);
      lines := lines + (ResolveLines() + FoundLines() + InternalLines(ctx) + guard);
    }
  }
}
