/**
 * Every run of the inspected frontend: how it ends, for all rules, requests and DNS answers, and
 * what that means for the queries it issues and the destinations it reaches.
 */
module InspectStageSafe {
  import opened Decimal
  import opened Ipv4
  import opened Search
  import opened Regex
  import opened Matchers
  import opened Haproxy
  import opened RequestChecks
  import opened RuleBlocks
  import opened RuleBlockCorrect
  import opened InspectStages

  // ---- how a run ends ----

  /** The address connected to, and how many queries finding it takes: at most two. */
  function Destination(w: World, host: string): (Option<string>, nat) {
    if IsAddress(host) then (Some(host), 0)
    else if w.answer(host, 0).Some? then (w.answer(host, 0), 1)
    else (w.answer(host, 1), 2)
  }

  predicate IsInternal(w: World, ctx: Context, address: string) {
    || (exists k | 0 <= k < |ctx.internalAddrs| :: w.inside(address, ctx.internalAddrs[k]))
    || (ctx.hostAddressFile.Some? &&
        exists k | 0 <= k < |ctx.hostAddressFile.value| :: w.inside(address, ctx.hostAddressFile.value[k]))
  }

  /** The proxy itself: its own network, or its listener on any address. */
  predicate IsProxy(w: World, ctx: Context, address: string, req: Request) {
    w.inside(address, PROXY_SUBNET) || req.port == ctx.listenPort
  }

  /** A rule whose host is the very address the request names, and which matches the whole request. */
  predicate NamedBy(w: World, rule: CompiledRule, scheme: Scheme, req: Request) {
    NamesHost(rule, req.host) && RuleMatches(w.engine, rule, scheme, req)
  }

  /** The rule's host is this address, as an expression writes it. */
  predicate NamesHost(rule: CompiledRule, address: string) {
    rule.hostMatch == Wildcard && IsAddress(address) && rule.hostRegex == "^" + EscapeDots(address) + "$"
  }

  predicate AnyNames(w: World, rules: seq<CompiledRule>, scheme: Scheme, req: Request) {
    exists k | 0 <= k < |rules| :: NamedBy(w, rules[k], scheme, req)
  }

  predicate HasHost(req: Request) {
    req.header.Some? && req.header.value != []
  }

  predicate IsPermitted(w: World, rules: seq<CompiledRule>, mode: Mode, scheme: Scheme, req: Request) {
    mode == Audit || AnyMatches(w.engine, rules, scheme, req)
  }

  predicate IsGuarded(w: World, rules: seq<CompiledRule>, ctx: Context, scheme: Scheme, req: Request, address: string) {
    IsInternal(w, ctx, address) && (!AnyNames(w, rules, scheme, req) || IsProxy(w, ctx, address, req))
  }

  datatype Ending = Ending(status: Status, queries: nat, target: Option<string>)

  function EndingOf(st: State): Ending {
    Ending(st.status, st.queries, st.target)
  }

  /** What an extension's own rules make of a request the rules have let through. */
  function ExtensionStatus(w: World, rules: seq<CompiledRule>, ctx: Context, scheme: Scheme, req: Request): Status {
    Run(w, req, ctx.extension, Run(w, req, Block(rules, ctx.mode, scheme), AfterName(req))).status
  }

  /** What becomes of a request, as the design states it. */
  function Verdict(w: World, rules: seq<CompiledRule>, ctx: Context, scheme: Scheme, req: Request): Ending {
    if !HasHost(req) || !IsHostNameText(req.host) then Ending(Haproxy.Denied(400), 0, None)
    else if HasClimb(req.path) || '\\' in req.path then Ending(Haproxy.Denied(403), 0, None)
    else if !IsPermitted(w, rules, ctx.mode, scheme, req) then Ending(Haproxy.Denied(403), 0, None)
    else if ExtensionStatus(w, rules, ctx, scheme, req) != Running then
      Ending(ExtensionStatus(w, rules, ctx, scheme, req), 0, None)
    else
      var (address, queries) := Destination(w, req.host);
      match address
      case None => Ending(Haproxy.Denied(502), queries, None)
      case Some(a) =>
        Ending(if IsGuarded(w, rules, ctx, scheme, req, a) then Haproxy.Denied(403) else Running, queries, Some(a))
  }

  const START := State(Running, map[], map[], 0, None)

  /**
   * An extension checks and denies under names of its own: it neither resolves nor sets a
   * destination, nor touches what the lines after it go by.
   */
  predicate IsExtension(extension: seq<Instr>) {
    forall k | 0 <= k < |extension| ::
      match extension[k]
      case AclLine(name, _) => name !in ["host_is_address", "dst_internal", "named_address", "dst_proxy_self"]
      case SetVar(name, _, _) => name !in ["host", "dst", "named_address"]
      case Deny(_, _) => true
      case Resolve(_) => false
      case SetDst => false
  }

  /** The words the networks are written in need no escape. */
  predicate GoodContext(ctx: Context) {
    && IsExtension(ctx.extension)
    && AreReadable(ctx.internalAddrs) && (ctx.hostAddressFile.Some? ==> AreReadable(ctx.hostAddressFile.value))
    && (forall k | 0 <= k < |ctx.internalAddrs| :: Word(ctx.internalAddrs[k]) == ctx.internalAddrs[k])
    && (ctx.hostAddressFile.Some? ==>
        forall k | 0 <= k < |ctx.hostAddressFile.value| :: Word(ctx.hostAddressFile.value[k]) == ctx.hostAddressFile.value[k])
  }

  /** The request as the proxy sees it: the name comes from its header, and neither holds a line break. */
  predicate IsView(w: World, req: Request) {
    && (req.header.Some? ==> req.host == CleanHost(w, req.header.value))
    && OneLine(req.host) && OneLine(req.path)
  }

  /** Dropping a port only ever cuts the end of a header. */
  ghost predicate OnlyCuts(w: World) {
    forall s: string :: w.hostOnly(s) <= s
  }

  // ---- conditions ----

  lemma OneClause(w: World, req: Request, st: State, terms: seq<Term>)
    ensures AnyHolds(w, req, st, [terms]) == AllHold(w, req, st, terms)
    ensures CondLoads(st, When([terms])) == CondLoads(st, Unless([terms])) == AllLoad(st, terms)
  {
    hide AllHold, AllLoad;
    var any := [terms];
    assert any[0] == terms;
    assert When(any).any[0] == terms && Unless(any).any[0] == terms;
  }

  lemma TwoClauses(w: World, req: Request, st: State, a: seq<Term>, b: seq<Term>)
    ensures AnyHolds(w, req, st, [a, b]) == (AllHold(w, req, st, a) || AllHold(w, req, st, b))
    ensures CondLoads(st, When([a, b])) == CondLoads(st, Unless([a, b])) == (AllLoad(st, a) && AllLoad(st, b))
  {
    hide AllHold, AllLoad;
    var any := [a, b];
    assert any[0] == a && any[1] == b;
    assert When(any).any[0] == a && When(any).any[1] == b;
    assert Unless(any).any[0] == a && Unless(any).any[1] == b;
  }

  lemma OneName(w: World, req: Request, st: State, name: string, negated: bool)
    requires name in st.acls
    ensures AllLoad(st, [Named(negated, name)])
    ensures AllHold(w, req, st, [Named(negated, name)]) == (AclHolds(w, req, st, name) != negated)
  {
    hide AclHolds;
    var terms := [Named(negated, name)];
    assert TermLoads(st, terms[0]) && TermHolds(w, req, st, terms[0]) == (AclHolds(w, req, st, name) != negated);
  }

  lemma TwoNames(w: World, req: Request, st: State, a: string, b: string, negated: bool)
    requires a in st.acls && b in st.acls
    ensures AllLoad(st, [Named(false, a), Named(negated, b)])
    ensures AllHold(w, req, st, [Named(false, a), Named(negated, b)])
         == (AclHolds(w, req, st, a) && AclHolds(w, req, st, b) != negated)
  {
    hide AclHolds, AllHold, AllLoad;
    assert [Named(false, a), Named(negated, b)] == [Named(false, a)] + [Named(negated, b)];
    AllHoldAppend(w, req, st, [Named(false, a)], [Named(negated, b)]);
    OneName(w, req, st, a, false);
    OneName(w, req, st, b, negated);
  }

  lemma DenyStep(w: World, req: Request, st: State, code: nat, cond: Cond)
    requires st.status == Running && CondLoads(st, cond)
    ensures Step(w, req, Deny(code, cond), st) == if CondHolds(w, req, st, cond) then st.(status := Haproxy.Denied(code)) else st
  {
    hide CondLoads, CondHolds;
  }

  predicate ReadsNoReason(st: State, term: Term) {
    match term
    case Named(_, name) => name in st.acls && forall k | 0 <= k < |st.acls[name]| :: st.acls[name][k].fetch != Var("reason")
    case Inline(_, test) => test.fetch != Var("reason")
  }

  predicate NoReasonIn(st: State, cond: Cond) {
    cond.Always? ||
    forall j | 0 <= j < |cond.any| :: forall k | 0 <= k < |cond.any[j]| :: ReadsNoReason(st, cond.any[j][k])
  }

  lemma TermIgnoresReason(w: World, req: Request, st: State, text: string, term: Term)
    requires ReadsNoReason(st, term)
    ensures TermHolds(w, req, st.(vars := st.vars["reason" := Text(text)]), term) == TermHolds(w, req, st, term)
  {
    hide Accepts, Word, IsNumeral, IsAddress, Holds;
    var st' := st.(vars := st.vars["reason" := Text(text)]);
    match term
    case Inline(_, test) => TestIgnoresReason(w, req, st, text, test);
    case Named(_, name) =>
      forall k | 0 <= k < |st.acls[name]|
        ensures Holds(w, req, st'.vars, st.acls[name][k]) == Holds(w, req, st.vars, st.acls[name][k])
      {
        TestIgnoresReason(w, req, st, text, st.acls[name][k]);
      }
  }

  lemma TestIgnoresReason(w: World, req: Request, st: State, text: string, test: Test)
    requires test.fetch != Var("reason")
    ensures Holds(w, req, st.vars["reason" := Text(text)], test) == Holds(w, req, st.vars, test)
  {
    hide Accepts, Word, IsNumeral;
  }

  lemma CondIgnoresReason(w: World, req: Request, st: State, text: string, cond: Cond)
    requires NoReasonIn(st, cond)
    ensures CondHolds(w, req, st.(vars := st.vars["reason" := Text(text)]), cond) == CondHolds(w, req, st, cond)
  {
    hide TermHolds, ReadsNoReason;
    var st' := st.(vars := st.vars["reason" := Text(text)]);
    if !cond.Always? {
      forall j | 0 <= j < |cond.any| ensures AllHold(w, req, st', cond.any[j]) == AllHold(w, req, st, cond.any[j]) {
        forall k | 0 <= k < |cond.any[j]|
          ensures TermHolds(w, req, st', cond.any[j][k]) == TermHolds(w, req, st, cond.any[j][k])
        {
          TermIgnoresReason(w, req, st, text, cond.any[j][k]);
        }
      }
    }
  }

  /** A reason and the denial it explains come together or not at all. */
  lemma ReasonThenDeny(w: World, req: Request, st: State, text: string, code: nat, cond: Cond)
    requires st.status == Running && CondLoads(st, cond) && NoReasonIn(st, cond)
    ensures var st' := Run(w, req, [Reason(text, cond), Deny(code, cond)], st);
      if CondHolds(w, req, st, cond) then EndingOf(st') == Ending(Haproxy.Denied(code), st.queries, st.target) else st' == st
  {
    hide CondHolds, NoReasonIn, Run;
    var a, b := Reason(text, cond), Deny(code, cond);
    assert [a, b] == [a] + [b];
    RunMore(w, req, [a], b, st);
    RunOne(w, req, a, st);
    var mid := Step(w, req, a, st);
    if CondHolds(w, req, st, cond) {
      assert mid == st.(vars := st.vars["reason" := Text(text)]);
      CondIgnoresReason(w, req, st, text, cond);
      assert CondLoads(mid, cond) by { LoadsAlike(st, mid, cond); }
    } else {
      assert mid == st;
    }
    DenyStep(w, req, mid, code, cond);
  }

  lemma LoadsAlike(st: State, st': State, cond: Cond)
    requires st'.acls == st.acls
    ensures CondLoads(st', cond) == CondLoads(st, cond)
  {
    hide AreReadable;
    if !cond.Always? {
      forall j | 0 <= j < |cond.any| ensures AllLoad(st', cond.any[j]) == AllLoad(st, cond.any[j]) {
        forall k | 0 <= k < |cond.any[j]| ensures TermLoads(st', cond.any[j][k]) == TermLoads(st, cond.any[j][k]) {
        }
      }
    }
  }

  lemma AclStepIs(w: World, req: Request, st: State, name: string, test: Test)
    requires st.status == Running && AreReadable(test.words)
    ensures Step(w, req, AclLine(name, test), st)
         == st.(acls := st.acls[name := (if name in st.acls then st.acls[name] else []) + [test]])
    ensures name !in st.acls ==> Step(w, req, AclLine(name, test), st) == st.(acls := st.acls[name := [test]])
  {
    hide AreReadable;
    assert [] + [test] == [test];
  }

  lemma OneTestAcl(w: World, req: Request, st: State, name: string, test: Test)
    requires name in st.acls && st.acls[name] == [test]
    ensures AclHolds(w, req, st, name) == Holds(w, req, st.vars, test)
  {
    hide Holds;
    assert st.acls[name][0] == test;
  }

  lemma TwoTestAcl(w: World, req: Request, st: State, name: string, a: Test, b: Test)
    requires name in st.acls && st.acls[name] == [a, b]
    ensures AclHolds(w, req, st, name) == (Holds(w, req, st.vars, a) || Holds(w, req, st.vars, b))
  {
    hide Holds;
    assert st.acls[name][0] == a && st.acls[name][1] == b;
  }

  // ---- before the rules ----

  /** After the Host has been looked at. */
  function AfterHost(): State {
    State(Running, map[], map["has_host" := [Test(HostHeader, IsFound, [])], "host_not_empty" := [Test(HostHeader, IsLong, [])]],
      0, None)
  }

  lemma HostSegment(w: World, req: Request)
    ensures var st := Run(w, req, HostLinesOf(), START);
      if HasHost(req) then st == AfterHost() else EndingOf(st) == Ending(Haproxy.Denied(400), 0, None)
  {
    hide Run, Step, CondLoads;
    var found, long := Test(HostHeader, IsFound, []), Test(HostHeader, IsLong, []);
    var a, b := AclLine("has_host", found), AclLine("host_not_empty", long);
    var last := [Reason("missing-host-header", NO_HOST), Deny(400, NO_HOST)];
    assert HostLinesOf() == [a] + [b] + last;
    RunAppend(w, req, [a] + [b], last, START);
    RunMore(w, req, [a], b, START);
    RunOne(w, req, a, START);
    AclStepIs(w, req, START, "has_host", found);
    var st1 := Step(w, req, a, START);
    AclStepIs(w, req, st1, "host_not_empty", long);
    var st := AfterHost();
    assert Step(w, req, b, st1).acls == st.acls;
    OneTestAcl(w, req, st, "has_host", found);
    OneTestAcl(w, req, st, "host_not_empty", long);
    OneName(w, req, st, "has_host", true);
    OneName(w, req, st, "host_not_empty", true);
    TwoClauses(w, req, st, [Named(true, "has_host")], [Named(true, "host_not_empty")]);
    assert CondHolds(w, req, st, NO_HOST) == !HasHost(req);
    assert NoReasonIn(st, NO_HOST);
    ReasonThenDeny(w, req, st, "missing-host-header", 400, NO_HOST);
  }

  function AfterName(req: Request): State {
    var st := AfterHost();
    st.(vars := map["host" := Text(req.host)], acls := st.acls["host_is_name" := [IS_NAME]])
  }

  /** One word tried as an expression is what the engine makes of it. */
  lemma PatternHolds(w: World, req: Request, vars: map<string, Datum>, test: Test, subject: string)
    requires test.kind == Pattern(Reg) || test.kind == Pattern(RegI)
    requires |test.words| == 1 && Unquoted(test.words[0]) == Some(test.words[0]) && test.words[0] != []
    requires (test.fetch == PathOf && subject == req.path)
          || (test.fetch.Var? && test.fetch.name in vars && vars[test.fetch.name] == Text(subject))
    ensures AreReadable(test.words)
    ensures Holds(w, req, vars, test) == w.engine(test.words[0], subject, test.kind == Pattern(RegI))
  {
    hide Unquoted;
    assert Word(test.words[0]) == test.words[0];
  }

  lemma ChecksHold(w: World, req: Request, vars: map<string, Datum>)
    requires ReadsTrees(w.engine) && OneLine(req.host) && OneLine(req.path)
    ensures AreReadable(IS_NAME.words) && AreReadable(CLIMBS.words) && AreReadable(DOTTED.words)
    ensures "host" in vars && vars["host"] == Text(req.host) ==>
      Holds(w, req, vars, IS_NAME) == IsHostNameText(req.host) && Holds(w, req, vars, DOTTED) == IsAddress(req.host)
    ensures Holds(w, req, vars, CLIMBS) == HasClimb(req.path)
  {
    hide Holds, AreReadable, ReadsTrees, HOSTNAME_CHARSET, CLIMB, HOST_IS_ADDRESS, IsHostNameText, HasClimb, IsAddress,
      OneLine, Unquoted;
    NameIsWord();
    ClimbIsWord();
    AddressIsWord();
    NoneIsEmpty();
    var named: map<string, Datum> := map["host" := Text(req.host)];
    PatternHolds(w, req, named, IS_NAME, req.host);
    PatternHolds(w, req, named, DOTTED, req.host);
    PatternHolds(w, req, vars, CLIMBS, req.path);
    ChecksRead(w.engine, req.path);
    if "host" in vars && vars["host"] == Text(req.host) {
      PatternHolds(w, req, vars, IS_NAME, req.host);
      PatternHolds(w, req, vars, DOTTED, req.host);
      ChecksRead(w.engine, req.host);
    }
  }

  lemma NoneIsEmpty()
    ensures HOSTNAME_CHARSET != [] && CLIMB != [] && HOST_IS_ADDRESS != []
  {
    assert HOSTNAME_CHARSET[0] == '^' && CLIMB[0] == '(' && HOST_IS_ADDRESS[0] == '^';
  }

  lemma NameSegment(w: World, req: Request)
    requires ReadsTrees(w.engine) && HasHost(req) && IsView(w, req)
    ensures var st := Run(w, req, NameLines(), AfterHost());
      if IsHostNameText(req.host) then st == AfterName(req) else EndingOf(st) == Ending(Haproxy.Denied(400), 0, None)
  {
    hide Run, CleanHost, IsHostNameText, ReadsTrees, Holds, HOSTNAME_CHARSET, AreReadable;
    var name := IS_NAME;
    var a, b := SetVar("host", CleanHeader, Always), AclLine("host_is_name", name);
    var last := [Reason("invalid-host", NO_NAME), Deny(400, NO_NAME)];
    assert NameLines() == [a] + [b] + last;
    RunAppend(w, req, [a] + [b], last, AfterHost());
    RunMore(w, req, [a], b, AfterHost());
    RunOne(w, req, a, AfterHost());
    var st1 := Step(w, req, a, AfterHost());
    assert st1 == AfterHost().(vars := map["host" := Text(req.host)]);
    ChecksHold(w, req, st1.vars);
    AclStepIs(w, req, st1, "host_is_name", name);
    var st := AfterName(req);
    assert Step(w, req, b, st1).acls == st.acls;
    OneTestAcl(w, req, st, "host_is_name", name);
    OneName(w, req, st, "host_is_name", true);
    OneClause(w, req, st, [Named(true, "host_is_name")]);
    assert CondHolds(w, req, st, NO_NAME) == !IsHostNameText(req.host);
    assert NoReasonIn(st, NO_NAME);
    ReasonThenDeny(w, req, st, "invalid-host", 400, NO_NAME);
  }

  lemma ClimbSegment(w: World, req: Request, st: State)
    requires ReadsTrees(w.engine) && IsView(w, req) && st.status == Running
    ensures var st' := Run(w, req, ClimbLines(), st);
      if HasClimb(req.path) || '\\' in req.path then EndingOf(st') == Ending(Haproxy.Denied(403), st.queries, st.target)
      else st' == st
  {
    hide Run, Step, CondLoads, HasClimb, ReadsTrees, CLIMBS;
    ChecksHold(w, req, st.vars);
    var a, b := When([[Inline(false, CLIMBS)]]), When([[Inline(false, BACKSLASH)]]);
    assert ClimbLines() == [Deny(403, a)] + [Deny(403, b)];
    RunMore(w, req, [Deny(403, a)], Deny(403, b), st);
    RunOne(w, req, Deny(403, a), st);
    InlineHolds(w, req, st, CLIMBS);
    OneClause(w, req, st, [Inline(false, CLIMBS)]);
    DenyStep(w, req, st, 403, a);
    assert CondHolds(w, req, st, a) == HasClimb(req.path);
    InlineHolds(w, req, st, BACKSLASH);
    OneClause(w, req, st, [Inline(false, BACKSLASH)]);
    DenyStep(w, req, st, 403, b);
    assert CondHolds(w, req, st, b) == ('\\' in req.path);
    if HasClimb(req.path) {
      StoppedStays(w, req, [Deny(403, b)], Step(w, req, Deny(403, a), st));
      RunOne(w, req, Deny(403, b), Step(w, req, Deny(403, a), st));
    }
  }

  predicate PassesChecks(req: Request) {
    HasHost(req) && IsHostNameText(req.host) && !HasClimb(req.path) && '\\' !in req.path
  }

  function Prelude(): seq<Instr> {
    HostLinesOf() + NameLines() + ClimbLines()
  }

  /** The checks every request meets, in either mode, before any rule. */
  lemma PreludeEnds(w: World, req: Request)
    requires ReadsTrees(w.engine) && IsView(w, req)
    ensures var st := Run(w, req, Prelude(), START);
      if PassesChecks(req) then st == AfterName(req)
      else EndingOf(st) == Ending(Haproxy.Denied(if HasHost(req) && IsHostNameText(req.host) then 403 else 400), 0, None)
  {
    hide Run, HasHost, IsHostNameText, HasClimb, IsView, HostLinesOf, NameLines, ClimbLines, ReadsTrees;
    RunAppend(w, req, HostLinesOf() + NameLines(), ClimbLines(), START);
    RunAppend(w, req, HostLinesOf(), NameLines(), START);
    HostSegment(w, req);
    var st1 := Run(w, req, HostLinesOf(), START);
    if !HasHost(req) {
      StoppedStays(w, req, NameLines(), st1);
      StoppedStays(w, req, ClimbLines(), st1);
    } else {
      NameSegment(w, req);
      var st2 := Run(w, req, NameLines(), st1);
      if !IsHostNameText(req.host) {
        StoppedStays(w, req, ClimbLines(), st2);
      } else {
        assert st2.status == Running && st2.queries == 0 && st2.target == None;
        ClimbSegment(w, req, st2);
      }
    }
  }

  // ---- the rules ----

  /** A name is one name in any case, and with its final dot or without. */
  lemma DottedNameIsSame(w: World, name: string)
    requires name != "" && name[|name| - 1] != '.' && w.hostOnly(LowerText(name)) == LowerText(name)
    requires w.hostOnly(LowerText(name + ".")) == LowerText(name + ".")
    ensures CleanHost(w, name) == CleanHost(w, name + ".") == LowerText(name)
  {
    var low, dotted := LowerText(name), LowerText(name + ".");
    assert dotted == low + ".";
    assert low[|low| - 1] == Lower(name[|name| - 1]) != '.';
    assert dotted[..|dotted| - 1] == low && dotted[|dotted| - 1..] == ".";
    assert low[|low| - 1..][0] == low[|low| - 1];
  }

  lemma LowerIsLower(header: string)
    ensures LowerText(LowerText(header)) == LowerText(header)
  {
  }

  lemma LowerPrefix(s: string, t: string)
    requires t <= s && LowerText(s) == s
    ensures LowerText(t) == t
  {
    forall k | 0 <= k < |t| ensures LowerText(t)[k] == t[k] {
      assert t[k] == s[k] == LowerText(s)[k];
    }
  }

  /** A name taken from the header is in lower case. */
  lemma HostIsGood(w: World, req: Request)
    requires IsView(w, req) && OnlyCuts(w) && HasHost(req)
    ensures GoodRequest(req)
  {
    hide LowerText;
    var name := w.hostOnly(LowerText(req.header.value));
    LowerIsLower(req.header.value);
    assert name <= LowerText(req.header.value);
    LowerPrefix(LowerText(req.header.value), name);
    LowerPrefix(name, req.host);
  }

  /** What the block finds and what it leaves for the lines after it. */
  ghost predicate IsAfterRules(req: Request, st: State) {
    && st.status == Running && "host" in st.vars && st.vars["host"] == Text(req.host)
    && "dst" !in st.vars && "named_address" !in st.vars
    && "host_is_address" !in st.acls && "dst_internal" !in st.acls && "named_address" !in st.acls
    && "dst_proxy_self" !in st.acls && st.queries == 0 && st.target == None
  }

  lemma StartsBlock(w: World, req: Request, rules: seq<CompiledRule>)
    requires GoodRules(rules)
    ensures CanStart(req, rules, AfterName(req)) && IsAfterRules(req, AfterName(req))
  {
    var st := AfterName(req);
    assert st.acls.Keys == {"has_host", "host_not_empty", "host_is_name"};
    forall k | 0 <= k < |rules| ensures IsFree(st, rules[k].id) {
      var id := rules[k].id;
      assert GoodRule(rules[k]);
      assert HostName(id)[0] == id[0] && PortName(id)[0] == id[0] && PathName(id)[0] == id[0]
          && MethodName(id)[0] == id[0] && OkName(id)[0] == id[0];
    }
  }

  lemma NotRuleNames()
    ensures !IsRuleName("dst") && !IsRuleName("named_address") && !IsRuleName("host_is_address")
    ensures !IsRuleName("dst_internal") && !IsRuleName("dst_proxy_self")
  {
  }

  lemma RulesSegment(w: World, req: Request, rules: seq<CompiledRule>, ctx: Context, scheme: Scheme)
    requires ReadsTrees(w.engine) && GoodRequest(req) && GoodRules(rules)
    ensures var st := Run(w, req, Block(rules, ctx.mode, scheme), AfterName(req));
      if IsPermitted(w, rules, ctx.mode, scheme, req) then IsAfterRules(req, st)
      else EndingOf(st) == Ending(Haproxy.Denied(403), 0, None)
  {
    hide Run, ReadsTrees, GoodRequest, GoodRules, CanStart, RuleMatches, AfterName, Block;
    var start := AfterName(req);
    StartsBlock(w, req, rules);
    if ctx.mode == Audit || rules == [] {
      EmptyAndAuditBlocks(w, req, rules, scheme, start);
    } else {
      BlockDecidesAsTheRules(w, req, rules, scheme, start);
      NotRuleNames();
      var st := Run(w, req, Block(rules, Restrict, scheme), start);
      assert st.queries == 0 && st.target == None;
    }
  }

  // ---- an extension ----

  lemma {:induction false} ExtensionKeeps(w: World, req: Request, extension: seq<Instr>, st: State)
    requires IsExtension(extension) && IsAfterRules(req, st)
    ensures var st' := Run(w, req, extension, st);
      if st'.status == Running then IsAfterRules(req, st') else st'.queries == 0 && st'.target == None
    decreases |extension|
  {
    hide CondHolds, CondLoads, AreReadable;
    if extension != [] {
      var st1 := Step(w, req, extension[0], st);
      assert Run(w, req, extension, st) == Run(w, req, extension[1..], st1);
      if st1.status == Running {
        ExtensionKeeps(w, req, extension[1..], st1);
      } else {
        StoppedStays(w, req, extension[1..], st1);
      }
    }
  }

  // ---- resolving ----

  /** After an acl on the host's shape: the destination is known, or two queries have failed. */
  function AfterResolve(w: World, req: Request, st: State): State {
    var (address, queries) := Destination(w, req.host);
    st.(acls := st.acls["host_is_address" := [DOTTED]], queries := queries,
        vars := match address case Some(a) => st.vars["dst" := Text(a)] case None => st.vars)
  }

  /** A query is made just when the condition lets it. */
  lemma ResolveStep(w: World, req: Request, st: State, cond: Cond)
    requires st.status == Running && CondLoads(st, cond)
    ensures Step(w, req, Resolve(cond), st) == if CondHolds(w, req, st, cond) then Resolved(w, st) else st
  {
    hide CondLoads, CondHolds;
  }

  lemma AddressCond(w: World, req: Request, st: State)
    requires ReadsTrees(w.engine) && OneLine(req.host) && OneLine(req.path)
    requires "host_is_address" in st.acls && st.acls["host_is_address"] == [DOTTED]
    requires "host" in st.vars && st.vars["host"] == Text(req.host)
    ensures CondLoads(st, When([IS_ADDRESS])) && CondHolds(w, req, st, When([IS_ADDRESS])) == IsAddress(req.host)
    ensures CondLoads(st, Unless([IS_ADDRESS])) && CondHolds(w, req, st, Unless([IS_ADDRESS])) == !IsAddress(req.host)
    ensures var again := Unless([IS_ADDRESS, [Inline(false, FOUND)]]);
      CondLoads(st, again) && CondHolds(w, req, st, again) == (!IsAddress(req.host) && "dst" !in st.vars)
  {
    hide CondLoads, IsAddress, AllHold, AllLoad, AnyHolds, ReadsTrees, HOST_IS_ADDRESS;
    ChecksHold(w, req, st.vars);
    OneTestAcl(w, req, st, "host_is_address", DOTTED);
    OneName(w, req, st, "host_is_address", false);
    OneClause(w, req, st, IS_ADDRESS);
    InlineHolds(w, req, st, FOUND);
    TwoClauses(w, req, st, IS_ADDRESS, [Inline(false, FOUND)]);
  }

  lemma ResolveSegment(w: World, req: Request, st: State)
    requires ReadsTrees(w.engine) && OneLine(req.host) && OneLine(req.path) && IsAfterRules(req, st)
    ensures Run(w, req, ResolveLines(), st) == AfterResolve(w, req, st)
  {
    hide Run, CondLoads, CondHolds, IsAddress, ReadsTrees, AreReadable, HOST_IS_ADDRESS;
    ChecksHold(w, req, st.vars);
    var a := AclLine("host_is_address", DOTTED);
    var b := SetVar("dst", CopyOf("host"), When([IS_ADDRESS]));
    var c, d := Resolve(Unless([IS_ADDRESS])), Resolve(Unless([IS_ADDRESS, [Inline(false, FOUND)]]));
    assert ResolveLines() == [a] + [b] + [c] + [d];
    RunMore(w, req, [a] + [b] + [c], d, st);
    RunMore(w, req, [a] + [b], c, st);
    RunMore(w, req, [a], b, st);
    RunOne(w, req, a, st);
    assert AreReadable(DOTTED.words);
    AclStepIs(w, req, st, "host_is_address", DOTTED);
    var st1 := Step(w, req, a, st);
    AddressCond(w, req, st1);
    var st2 := Step(w, req, b, st1);
    assert st2 == if IsAddress(req.host) then st1.(vars := st1.vars["dst" := Text(req.host)]) else st1;
    AddressCond(w, req, st2);
    ResolveStep(w, req, st2, c.cond);
    var st3 := Step(w, req, c, st2);
    AddressCond(w, req, st3);
    ResolveStep(w, req, st3, d.cond);
  }

  lemma FoundSegment(w: World, req: Request, st: State)
    requires st.status == Running && ("dst" in st.vars ==> st.vars["dst"].Text?)
    ensures var st' := Run(w, req, FoundLines(), st);
      if "dst" in st.vars then st' == st.(target := Some(st.vars["dst"].s))
      else EndingOf(st') == Ending(Haproxy.Denied(502), st.queries, st.target)
  {
    hide Run;
    var cond := Unless([[Inline(false, FOUND)]]);
    var first := [Reason("dns-failed", cond), Deny(502, cond)];
    assert FoundLines() == first + [SetDst];
    RunMore(w, req, first, SetDst, st);
    InlineHolds(w, req, st, FOUND);
    OneClause(w, req, st, [Inline(false, FOUND)]);
    assert CondHolds(w, req, st, cond) == ("dst" !in st.vars);
    assert NoReasonIn(st, cond);
    ReasonThenDeny(w, req, st, "dns-failed", 502, cond);
  }

  // ---- the guard ----

  /** The destination is known, and no name of the guard's is taken. */
  ghost predicate CanGuard(req: Request, st: State, address: string) {
    && st.status == Running && "host" in st.vars && st.vars["host"] == Text(req.host)
    && "dst" in st.vars && st.vars["dst"] == Text(address) && "named_address" !in st.vars
    && "dst_internal" !in st.acls && "named_address" !in st.acls && "dst_proxy_self" !in st.acls
  }

  function NetworkTest(words: seq<string>): Test {
    Test(Var("dst"), InNetwork, words)
  }

  lemma NetworkHolds(w: World, req: Request, vars: map<string, Datum>, address: string, words: seq<string>)
    requires "dst" in vars && vars["dst"] == Text(address) && forall k | 0 <= k < |words| :: Word(words[k]) == words[k]
    ensures Holds(w, req, vars, NetworkTest(words)) == exists k | 0 <= k < |words| :: w.inside(address, words[k])
  {
    hide Word;
    if Holds(w, req, vars, NetworkTest(words)) {
      var k :| 0 <= k < |words| && w.inside(address, Word(words[k]));
      assert w.inside(address, words[k]);
    }
    if k :| 0 <= k < |words| && w.inside(address, words[k]) {
      assert w.inside(address, Word(words[k]));
    }
  }

  function AfterInternal(ctx: Context, st: State): State {
    st.(acls := st.acls["dst_internal" := [NetworkTest(ctx.internalAddrs)] +
      match ctx.hostAddressFile case Some(addresses) => [NetworkTest(addresses)] case None => []])
  }

  lemma InternalSegment(w: World, req: Request, ctx: Context, st: State, address: string)
    requires CanGuard(req, st, address) && GoodContext(ctx)
    ensures Run(w, req, InternalLines(ctx), st) == AfterInternal(ctx, st)
    ensures AclHolds(w, req, AfterInternal(ctx, st), "dst_internal") == IsInternal(w, ctx, address)
  {
    hide Run, Holds, AreReadable, Word;
    var st' := AfterInternal(ctx, st);
    var a := AclLine("dst_internal", NetworkTest(ctx.internalAddrs));
    AclStepIs(w, req, st, "dst_internal", NetworkTest(ctx.internalAddrs));
    RunOne(w, req, a, st);
    NetworkHolds(w, req, st.vars, address, ctx.internalAddrs);
    match ctx.hostAddressFile
    case None =>
      assert InternalLines(ctx) == [a];
      OneTestAcl(w, req, st', "dst_internal", NetworkTest(ctx.internalAddrs));
    case Some(addresses) =>
      var b := AclLine("dst_internal", NetworkTest(addresses));
      assert InternalLines(ctx) == [a] + [b];
      RunMore(w, req, [a], b, st);
      AclStepIs(w, req, Step(w, req, a, st), "dst_internal", NetworkTest(addresses));
      NetworkHolds(w, req, st.vars, address, addresses);
      assert st'.acls["dst_internal"] == [NetworkTest(ctx.internalAddrs), NetworkTest(addresses)];
      TwoTestAcl(w, req, st', "dst_internal", NetworkTest(ctx.internalAddrs), NetworkTest(addresses));
  }

  lemma {:induction false} AddressWord(s: string, n: nat)
    requires n > 0 && IsOctets(s, n)
    ensures s != [] && forall k | 0 <= k < |s| :: s[k] !in SPECIAL
  {
    var k := FirstDotIn(s);
    assert '.' !in SPECIAL && forall c | IsDigit(c) :: c !in SPECIAL;
    if n > 1 {
      AddressWord(s[k + 1..], n - 1);
      FirstDotSplits(s);
      forall j | 0 <= j < |s| ensures s[j] !in SPECIAL {
        if j < k {
          assert IsDigit(s[..k][j]);
        } else if j > k {
          assert s[j] == s[k + 1..][j - k - 1];
        }
      }
    }
  }

  lemma {:induction false} AddressChars(s: string, n: nat)
    requires n > 0 && IsOctets(s, n)
    ensures forall k | 0 <= k < |s| :: IsDigit(s[k]) || s[k] == '.'
  {
    var k := FirstDotIn(s);
    if n > 1 {
      AddressChars(s[k + 1..], n - 1);
      FirstDotSplits(s);
      forall j | 0 <= j < |s| ensures IsDigit(s[j]) || s[j] == '.' {
        if j < k {
          assert IsDigit(s[..k][j]);
        } else if j > k {
          assert s[j] == s[k + 1..][j - k - 1];
        }
      }
    }
  }

  /** The rules the guard makes exceptions of are those whose host is an address, and each for its own. */
  lemma NamesJust(rule: CompiledRule, address: string)
    ensures NamesAddress(rule) && HostMatcher(rule.hostRegex).pattern == address <==> NamesHost(rule, address)
  {
    hide IsAddress, HostMatcher;
    if NamesHost(rule, address) {
      AddressMatcher(address);
    }
    if NamesAddress(rule) && HostMatcher(rule.hostRegex).pattern == address {
      MatcherOfAddress(rule.hostRegex, address);
    }
  }

  lemma AddressMatcher(address: string)
    requires IsAddress(address)
    ensures HostMatcher("^" + EscapeDots(address) + "$") == Matcher(Str, address)
  {
    hide IsLiteralBody, Unescape, EscapeDots, IsOctets, LowerText;
    AddressChars(address, 4);
    assert IsPlainText(address);
    EscapedTextIsBody(address);
    LowerOfAddress(address, address);
    AddressWord(address, 4);
    SomethingEscaped(address);
    var text := "^" + EscapeDots(address) + "$";
    assert text[1..|text| - 1] == EscapeDots(address);
  }

  lemma MatcherOfAddress(hostRegex: string, address: string)
    requires IsAddress(address) && HostMatcher(hostRegex) == Matcher(Str, address)
    ensures hostRegex == "^" + EscapeDots(address) + "$"
  {
    hide IsLiteralBody, Unescape, EscapeDots, IsAddress, LowerText;
    var body := hostRegex[1..|hostRegex| - 1];
    BodyIsEscapedText(body);
    LowerOfAddress(Unescape(body), address);
    assert hostRegex == "^" + body + "$";
  }

  lemma SomethingEscaped(t: string)
    requires t != []
    ensures EscapeDots(t) != []
  {
  }

  /** Only an address's own text is lowered to it. */
  lemma LowerOfAddress(t: string, address: string)
    requires IsAddress(address) && (t == address || LowerText(t) == address)
    ensures LowerText(t) == address == t
  {
    hide IsOctets;
    AddressChars(address, 4);
    forall k | 0 <= k < |t| ensures LowerText(t)[k] == t[k] == address[k] {
      assert IsDigit(address[k]) || address[k] == '.';
    }
    assert |t| == |address|;
    assert t == address;
  }

  lemma AddressReads(s: string)
    requires IsAddress(s)
    ensures IsReadable(s) && Word(s) == s
  {
    hide ReadWord, SPECIAL, IsOctets;
    AddressWord(s, 4);
    PlainWordReads(s);
  }

  /** The conditions on an address rule's line hold just when that rule names the request's address. */
  lemma TermsDecide(w: World, req: Request, st: State, rule: CompiledRule, scheme: Scheme)
    requires ReadsTrees(w.engine) && GoodRequest(req) && GoodRule(rule) && NamesAddress(rule)
    requires "host" in st.vars && st.vars["host"] == Text(req.host)
    ensures AllLoad(st, RuleTerms(rule)) && AllHold(w, req, st, RuleTerms(rule)) == NamedBy(w, rule, scheme, req)
  {
    hide Holds, HostMatcher, PathMatcher, AreReadable, IsReadable, Word, ReadsTrees, MatchTest, IsAddress, Dec, IsId, EscapeDots;
    var m, path := HostMatcher(rule.hostRegex), PathMatcher(rule.pathRegex);
    var host := Test(Var("host"), Pattern(Str), [m.pattern]);
    var port := if rule.port.Some? then [Inline(false, Test(DstPort, IsNumber, [Dec(rule.port.value)]))] else [];
    var verb := if rule.methods.Some? then [Inline(false, Test(MethodOf, IsMethod, rule.methods.value))] else [];
    assert RuleTerms(rule) == [Inline(false, host)] + port + [Inline(false, MatchTest(PathOf, path))] + verb;
    AllHoldAppend(w, req, st, [Inline(false, host)], port);
    AllHoldAppend(w, req, st, [Inline(false, host)] + port, [Inline(false, MatchTest(PathOf, path))]);
    AllHoldAppend(w, req, st, [Inline(false, host)] + port + [Inline(false, MatchTest(PathOf, path))], verb);
    HostTest(w, req, st, m);
    InlineHolds(w, req, st, host);
    assert OneLine(req.path) && OneLine(req.host) && LowerText(req.host) == req.host;
    HostNarrowingIsExact(w.engine, rule.hostRegex, req.host);
    PathNarrowingIsExact(w.engine, rule.pathRegex, req.path);
    PathPattern(rule.pathRegex);
    PatternTest(w, req, st.vars, PathOf, path, req.path);
    InlineHolds(w, req, st, MatchTest(PathOf, path));
    if rule.port.Some? {
      NumberTest(w, req, st.vars, rule.port.value);
      InlineHolds(w, req, st, Test(DstPort, IsNumber, [Dec(rule.port.value)]));
    }
    if rule.methods.Some? {
      MethodTest(w, req, st.vars, rule.methods.value);
      InlineHolds(w, req, st, Test(MethodOf, IsMethod, rule.methods.value));
    }
    assert AllHold(w, req, st, []) && AllLoad(st, []);
    assert Accepts(w.engine, m, req.host) == (req.host == m.pattern);
    NamesJust(rule, req.host);
  }

  lemma HostTest(w: World, req: Request, st: State, m: Matcher)
    requires m.op == Str && IsAddress(m.pattern) && "host" in st.vars && st.vars["host"] == Text(req.host)
    ensures AreReadable([m.pattern])
    ensures Holds(w, req, st.vars, Test(Var("host"), Pattern(Str), [m.pattern])) == (req.host == m.pattern)
  {
    hide IsReadable, Word, IsAddress;
    AddressReads(m.pattern);
    var test := Test(Var("host"), Pattern(Str), [m.pattern]);
    assert Matcher(Str, Word(test.words[0])) == Matcher(Str, m.pattern);
  }

  predicate NamedSoFar(st: State, b: bool) {
    ("named_address" in st.vars) == b && (b ==> st.vars["named_address"] == Flag(true))
  }

  /** Everything but the flag is left alone. */
  ghost predicate SameBut(st: State, st': State) {
    st' == st.(vars := st'.vars) && forall v | v != "named_address" ::
      (v in st'.vars <==> v in st.vars) && (v in st.vars ==> st'.vars[v] == st.vars[v])
  }

  lemma {:induction false} NamedRun(w: World, req: Request, st: State, named: seq<CompiledRule>, scheme: Scheme, b: bool)
    requires ReadsTrees(w.engine) && GoodRequest(req) && NamedSoFar(st, b) && st.status == Running
    requires forall k | 0 <= k < |named| :: GoodRule(named[k]) && NamesAddress(named[k])
    requires "host" in st.vars && st.vars["host"] == Text(req.host)
    ensures var st' := Run(w, req, NamedLines(named), st);
      SameBut(st, st') && NamedSoFar(st', b || AnyNames(w, named, scheme, req))
    decreases |named|
  {
    hide Step, ReadsTrees, GoodRequest, GoodRule, NamesAddress, RuleTerms, AllHold, AllLoad, NamedBy;
    if named != [] {
      var rule := named[0];
      TermsDecide(w, req, st, rule, scheme);
      SetsWhen(w, req, st, "named_address", true, RuleTerms(rule));
      var mid := Step(w, req, NamedLine(rule), st);
      NamedRun(w, req, mid, named[1..], scheme, b || NamedBy(w, rule, scheme, req));
      var st' := Run(w, req, NamedLines(named[1..]), mid);
      assert NamedLines(named)[0] == NamedLine(rule) && NamedLines(named)[1..] == NamedLines(named[1..]);
      NamesSplit(w, named, scheme, req);
    }
  }

  lemma NamesSplit(w: World, rules: seq<CompiledRule>, scheme: Scheme, req: Request)
    requires rules != []
    ensures AnyNames(w, rules, scheme, req) == (NamedBy(w, rules[0], scheme, req) || AnyNames(w, rules[1..], scheme, req))
  {
    hide NamedBy;
    if AnyNames(w, rules, scheme, req) {
      var k :| 0 <= k < |rules| && NamedBy(w, rules[k], scheme, req);
      assert k > 0 ==> rules[1..][k - 1] == rules[k];
    }
    if AnyNames(w, rules[1..], scheme, req) {
      var k :| 0 <= k < |rules[1..]| && NamedBy(w, rules[1..][k], scheme, req);
      assert rules[k + 1] == rules[1..][k];
    }
  }

  /** Only address rules can name an address. */
  lemma {:induction false} NamedAmongAddressRules(w: World, rules: seq<CompiledRule>, scheme: Scheme, req: Request)
    requires forall k | 0 <= k < |rules| :: GoodRule(rules[k])
    ensures AnyNames(w, AddressRules(rules), scheme, req) == AnyNames(w, rules, scheme, req)
    ensures forall k | 0 <= k < |AddressRules(rules)| :: GoodRule(AddressRules(rules)[k]) && NamesAddress(AddressRules(rules)[k])
  {
    hide GoodRule, NamesAddress, RuleMatches, HostMatcher, NamesHost;
    if rules != [] {
      NamedAmongAddressRules(w, rules[1..], scheme, req);
      NamesSplit(w, rules, scheme, req);
      NamesJust(rules[0], req.host);
      assert GoodRule(rules[0]);
      var rest := AddressRules(rules[1..]);
      if NamesAddress(rules[0]) {
        var named := AddressRules(rules);
        assert named == [rules[0]] + rest && named[1..] == rest;
        NamesSplit(w, named, scheme, req);
      } else {
        assert AddressRules(rules) == [] + rest == rest;
      }
    }
  }

  function AfterSelf(listenPort: nat, st: State): State {
    st.(acls := st.acls["named_address" := [Test(Var("named_address"), IsTrue, [])]][
      "dst_proxy_self" := [NetworkTest([PROXY_SUBNET]), Test(DstPort, IsNumber, [Dec(listenPort)])]])
  }

  lemma SubnetReads()
    ensures AreReadable([PROXY_SUBNET]) && Word([PROXY_SUBNET][0]) == PROXY_SUBNET
  {
    hide ReadWord;
    assert forall k | 0 <= k < |PROXY_SUBNET| :: PROXY_SUBNET[k] == '.' || PROXY_SUBNET[k] == '/' || IsDigit(PROXY_SUBNET[k]);
    forall k | 0 <= k < |PROXY_SUBNET| ensures PROXY_SUBNET[k] !in SPECIAL {
    }
    PlainWordReads(PROXY_SUBNET);
  }

  lemma SelfSegment(w: World, req: Request, ctx: Context, st: State, address: string, b: bool)
    requires st.status == Running && "dst" in st.vars && st.vars["dst"] == Text(address) && NamedSoFar(st, b)
    requires "named_address" !in st.acls && "dst_proxy_self" !in st.acls
    ensures Run(w, req, SelfLines(ctx.listenPort), st) == AfterSelf(ctx.listenPort, st)
    ensures AclHolds(w, req, AfterSelf(ctx.listenPort, st), "named_address") == b
    ensures AclHolds(w, req, AfterSelf(ctx.listenPort, st), "dst_proxy_self") == IsProxy(w, ctx, address, req)
  {
    hide Run, Word, Step, Dec, PROXY_SUBNET;
    var flag, net, port := Test(Var("named_address"), IsTrue, []), NetworkTest([PROXY_SUBNET]),
      Test(DstPort, IsNumber, [Dec(ctx.listenPort)]);
    var a, b', c := AclLine("named_address", flag), AclLine("dst_proxy_self", net), AclLine("dst_proxy_self", port);
    assert SelfLines(ctx.listenPort) == [a] + [b'] + [c];
    RunMore(w, req, [a] + [b'], c, st);
    RunMore(w, req, [a], b', st);
    RunOne(w, req, a, st);
    assert AreReadable([]);
    AclStepIs(w, req, st, "named_address", flag);
    var st1 := Step(w, req, a, st);
    SubnetReads();
    AclStepIs(w, req, st1, "dst_proxy_self", net);
    var st2 := Step(w, req, b', st1);
    NumberTest(w, req, st.vars, ctx.listenPort);
    AclStepIs(w, req, st2, "dst_proxy_self", port);
    var st' := AfterSelf(ctx.listenPort, st);
    assert st2.acls["dst_proxy_self"] + [port] == [net, port];
    assert Step(w, req, c, st2).acls == st'.acls;
    OneTestAcl(w, req, st', "named_address", flag);
    assert Holds(w, req, st.vars, flag) == b;
    TwoTestAcl(w, req, st', "dst_proxy_self", net, port);
    NetworkHolds(w, req, st.vars, address, [PROXY_SUBNET]);
    assert (exists k | 0 <= k < |[PROXY_SUBNET]| :: w.inside(address, [PROXY_SUBNET][k])) == w.inside(address, PROXY_SUBNET) by {
      assert [PROXY_SUBNET][0] == PROXY_SUBNET;
    }
  }

  predicate DenyReadsNoReason(st: State, name: string) {
    name in st.acls && forall k | 0 <= k < |st.acls[name]| :: st.acls[name][k].fetch != Var("reason")
  }

  lemma BlockedNamed(w: World, req: Request, st: State)
    requires st.status == Running && DenyReadsNoReason(st, "dst_internal")
    requires DenyReadsNoReason(st, "named_address") && DenyReadsNoReason(st, "dst_proxy_self")
    ensures var st' := Run(w, req, Blocked(INTERNAL_UNNAMED), st);
      if AclHolds(w, req, st, "dst_internal") && (!AclHolds(w, req, st, "named_address") || AclHolds(w, req, st, "dst_proxy_self"))
      then EndingOf(st') == Ending(Haproxy.Denied(403), st.queries, st.target) else st' == st
  {
    hide Run, AclHolds, CondLoads, AllHold, AllLoad;
    TwoNames(w, req, st, "dst_internal", "named_address", true);
    TwoNames(w, req, st, "dst_internal", "dst_proxy_self", false);
    TwoClauses(w, req, st, [Named(false, "dst_internal"), Named(true, "named_address")],
      [Named(false, "dst_internal"), Named(false, "dst_proxy_self")]);
    assert CondHolds(w, req, st, INTERNAL_UNNAMED) == (AclHolds(w, req, st, "dst_internal") &&
      (!AclHolds(w, req, st, "named_address") || AclHolds(w, req, st, "dst_proxy_self")));
    assert NoReasonIn(st, INTERNAL_UNNAMED);
    ReasonThenDeny(w, req, st, "internal-address", 403, INTERNAL_UNNAMED);
  }

  lemma BlockedPlain(w: World, req: Request, st: State)
    requires st.status == Running && DenyReadsNoReason(st, "dst_internal")
    ensures var st' := Run(w, req, Blocked(INTERNAL), st);
      if AclHolds(w, req, st, "dst_internal")
      then EndingOf(st') == Ending(Haproxy.Denied(403), st.queries, st.target) else st' == st
  {
    hide Run, AclHolds, CondLoads, AllHold, AllLoad;
    OneName(w, req, st, "dst_internal", false);
    OneClause(w, req, st, [Named(false, "dst_internal")]);
    assert CondHolds(w, req, st, INTERNAL) == AclHolds(w, req, st, "dst_internal");
    assert NoReasonIn(st, INTERNAL);
    ReasonThenDeny(w, req, st, "internal-address", 403, INTERNAL);
  }

  lemma AclIgnoresFlag(w: World, req: Request, st: State, st': State, name: string)
    requires name in st.acls && name in st'.acls && st'.acls[name] == st.acls[name]
    requires forall v | v != "named_address" :: (v in st'.vars <==> v in st.vars) && (v in st.vars ==> st'.vars[v] == st.vars[v])
    requires forall k | 0 <= k < |st.acls[name]| :: st.acls[name][k].fetch != Var("named_address")
    ensures AclHolds(w, req, st', name) == AclHolds(w, req, st, name)
  {
    hide Accepts, Word, IsNumeral;
    forall k | 0 <= k < |st.acls[name]|
      ensures Holds(w, req, st'.vars, st.acls[name][k]) == Holds(w, req, st.vars, st.acls[name][k])
    {
      TestIgnoresFlag(w, req, st, st', st.acls[name][k]);
    }
  }

  lemma TestIgnoresFlag(w: World, req: Request, st: State, st': State, test: Test)
    requires test.fetch != Var("named_address")
    requires forall v | v != "named_address" :: (v in st'.vars <==> v in st.vars) && (v in st.vars ==> st'.vars[v] == st.vars[v])
    ensures Holds(w, req, st'.vars, test) == Holds(w, req, st.vars, test)
  {
    hide Accepts, Word, IsNumeral;
  }

  /** An internal destination stops the request unless a rule naming it lets it, and the proxy's own always. */
  lemma GuardSegment(w: World, req: Request, rules: seq<CompiledRule>, ctx: Context, scheme: Scheme, st: State, address: string)
    requires ReadsTrees(w.engine) && GoodRequest(req) && GoodContext(ctx)
    requires (forall k | 0 <= k < |rules| :: GoodRule(rules[k])) && CanGuard(req, st, address)
    ensures var st' := Run(w, req, InternalLines(ctx) + GuardLines(rules, ctx.listenPort), st);
      EndingOf(st') == Ending(if IsGuarded(w, rules, ctx, scheme, req, address) then Haproxy.Denied(403) else Running,
        st.queries, st.target)
  {
    hide Run, ReadsTrees, GoodRequest, GoodRule, AclHolds, NamesAddress, IsInternal, IsProxy, AddressRules, GoodContext, NamedLines, SelfLines, Blocked, InternalLines;
    var named := AddressRules(rules);
    RunAppend(w, req, InternalLines(ctx), GuardLines(rules, ctx.listenPort), st);
    InternalSegment(w, req, ctx, st, address);
    NamedAmongAddressRules(w, rules, scheme, req);
    var st1 := AfterInternal(ctx, st);
    var internal := st1.acls["dst_internal"];
    assert forall k | 0 <= k < |internal| :: internal[k].fetch == Var("dst");
    if named == [] {
      assert !AnyNames(w, named, scheme, req);
      BlockedPlain(w, req, st1);
    } else {
      var tail := SelfLines(ctx.listenPort) + Blocked(INTERNAL_UNNAMED);
      RunAppend(w, req, NamedLines(named), tail, st1);
      NamedRun(w, req, st1, named, scheme, false);
      var st2 := Run(w, req, NamedLines(named), st1);
      RunAppend(w, req, SelfLines(ctx.listenPort), Blocked(INTERNAL_UNNAMED), st2);
      SelfSegment(w, req, ctx, st2, address, AnyNames(w, named, scheme, req));
      var st3 := AfterSelf(ctx.listenPort, st2);
      AclIgnoresFlag(w, req, st1, st3, "dst_internal");
      BlockedNamed(w, req, st3);
    }
  }

  // ---- the whole run ----

  lemma GoodIsOneLine(req: Request)
    requires GoodRequest(req)
    ensures OneLine(req.host) && OneLine(req.path)
  {
  }

  lemma AfterRulesEnd(w: World, req: Request, rules: seq<CompiledRule>, ctx: Context, scheme: Scheme, st: State)
    requires ReadsTrees(w.engine) && GoodRequest(req) && GoodContext(ctx)
    requires (forall k | 0 <= k < |rules| :: GoodRule(rules[k])) && IsAfterRules(req, st)
    ensures var (address, queries) := Destination(w, req.host);
      EndingOf(Run(w, req, AfterRules(rules, ctx), st)) ==
      match address
      case None => Ending(Haproxy.Denied(502), queries, None)
      case Some(a) => Ending(if IsGuarded(w, rules, ctx, scheme, req, a) then Haproxy.Denied(403) else Running, queries, Some(a))
  {
    hide Run, ReadsTrees, GoodRequest, GoodRule, IsGuarded, GoodContext, ResolveLines, FoundLines, InternalLines, GuardLines,
      IsAddress;
    var rest := InternalLines(ctx) + GuardLines(rules, ctx.listenPort);
    assert AfterRules(rules, ctx) == (ResolveLines() + FoundLines()) + rest;
    RunAppend(w, req, ResolveLines() + FoundLines(), rest, st);
    RunAppend(w, req, ResolveLines(), FoundLines(), st);
    GoodIsOneLine(req);
    ResolveSegment(w, req, st);
    var st1 := AfterResolve(w, req, st);
    FoundSegment(w, req, st1);
    var st2 := Run(w, req, FoundLines(), st1);
    var (address, queries) := Destination(w, req.host);
    match address
    case None => StoppedStays(w, req, rest, st2);
    case Some(a) => GuardSegment(w, req, rules, ctx, scheme, st2, a);
  }

  lemma ExtensionIsOne(ctx: Context)
    requires GoodContext(ctx)
    ensures IsExtension(ctx.extension)
  {
  }

  /**
   * How every run of the frontend ends: for all rules, extensions, requests and DNS answers, with
   * the status, the number of queries issued and the destination the design states. In particular
   * the configuration loads wherever the extension's own lines do.
   */
  lemma EveryRunEndsAsDesigned(w: World, req: Request, rules: seq<CompiledRule>, ctx: Context, scheme: Scheme)
    requires ReadsTrees(w.engine) && OnlyCuts(w) && IsView(w, req) && GoodRules(rules) && GoodContext(ctx)
    ensures EndingOf(Run(w, req, Stage(rules, ctx, scheme), START)) == Verdict(w, rules, ctx, scheme, req)
  {
    hide Run, ReadsTrees, GoodRequest, GoodContext, Block, AfterRules, HasHost, IsHostNameText, HasClimb, AfterName, IsView, IsGuarded, Destination, OnlyCuts, DistinctIds, GoodRule, IsAfterRules, HostLinesOf, NameLines, ClimbLines, IsExtension;
    var block := Block(rules, ctx.mode, scheme);
    var tail := if DeniesEverything(rules, ctx.mode) then [] else ctx.extension + AfterRules(rules, ctx);
    assert Stage(rules, ctx, scheme) == Prelude() + block + tail;
    RunAppend(w, req, Prelude() + block, tail, START);
    RunAppend(w, req, Prelude(), block, START);
    PreludeEnds(w, req);
    var st1 := Run(w, req, Prelude(), START);
    if !PassesChecks(req) {
      StoppedStays(w, req, block, st1);
      StoppedStays(w, req, tail, st1);
    } else {
      HostIsGood(w, req);
      RulesSegment(w, req, rules, ctx, scheme);
      var st2 := Run(w, req, block, st1);
      if !IsPermitted(w, rules, ctx.mode, scheme, req) {
        StoppedStays(w, req, tail, st2);
      } else {
        assert !DeniesEverything(rules, ctx.mode);
        RunAppend(w, req, ctx.extension, AfterRules(rules, ctx), st2);
        ExtensionIsOne(ctx);
        ExtensionKeeps(w, req, ctx.extension, st2);
        var st3 := Run(w, req, ctx.extension, st2);
        if st3.status != Running {
          StoppedStays(w, req, AfterRules(rules, ctx), st3);
        } else {
          AfterRulesEnd(w, req, rules, ctx, scheme, st3);
        }
      }
    }
  }

  /** In restrict mode no DNS query leaves unless some rule matched the whole request. */
  lemma NoQueryWithoutAMatch(w: World, req: Request, rules: seq<CompiledRule>, ctx: Context, scheme: Scheme)
    requires ReadsTrees(w.engine) && OnlyCuts(w) && IsView(w, req) && GoodRules(rules) && GoodContext(ctx)
    requires ctx.mode == Restrict
    ensures var st := Run(w, req, Stage(rules, ctx, scheme), START);
      && (st.queries > 0 ==> AnyMatches(w.engine, rules, scheme, req) && !IsAddress(req.host)) && st.queries <= 2
      && (st.status == Running ==> AnyMatches(w.engine, rules, scheme, req))
  {
    hide Run, Stage, AnyMatches, IsAddress, IsGuarded, HasClimb, IsHostNameText, HasHost, GoodContext, IsView, GoodRules,
      ReadsTrees, OnlyCuts;
    EveryRunEndsAsDesigned(w, req, rules, ctx, scheme);
  }

  predicate IsSafe(w: World, rules: seq<CompiledRule>, ctx: Context, scheme: Scheme, req: Request, a: string) {
    || !IsInternal(w, ctx, a)
    || (a == req.host && AnyNames(w, rules, scheme, req) && !w.inside(a, PROXY_SUBNET) && req.port != ctx.listenPort)
  }

  /**
   * In both modes the origin is reached only at a destination that is not internal, or at the very
   * address a rule names as its host while matching the whole request; never at the proxy itself.
   */
  lemma OnlySafeDestinations(w: World, req: Request, rules: seq<CompiledRule>, ctx: Context, scheme: Scheme)
    requires ReadsTrees(w.engine) && OnlyCuts(w) && IsView(w, req) && GoodRules(rules) && GoodContext(ctx)
    ensures var st := Run(w, req, Stage(rules, ctx, scheme), START);
      st.status == Running ==> (st.target.Some? && IsSafe(w, rules, ctx, scheme, req, st.target.value))
  {
    hide Run, Stage, AnyMatches, IsAddress, HasClimb, IsHostNameText, HasHost, GoodContext, IsView, GoodRules, ReadsTrees,
      OnlyCuts, IsInternal, RuleMatches, HostMatcher;
    EveryRunEndsAsDesigned(w, req, rules, ctx, scheme);
    if AnyNames(w, rules, scheme, req) {
      var k :| 0 <= k < |rules| && NamedBy(w, rules[k], scheme, req);
      assert IsAddress(req.host);
    }
  }
}
