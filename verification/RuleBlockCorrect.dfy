/**
 * Running the emitted rule block decides as the rules do: in restrict mode a request is denied
 * just when no rule matches it.
 */
module RuleBlockCorrect {
  import opened Decimal
  import opened Search
  import opened Regex
  import opened Matchers
  import opened Haproxy
  import opened RuleBlocks

  // ---- what the rules come with ----

  /** The ids compiled rules carry: `s0`, `s1`, ... and `p0`, `p1`, ... (haproxy-rules.ts 249-251). */
  predicate IsId(id: string) {
    |id| >= 2 && (id[0] == 's' || id[0] == 'p') && forall k | 1 <= k < |id| :: IsDigit(id[k])
  }

  predicate IsMethodName(m: string) {
    m != [] && forall k | 0 <= k < |m| :: IsAlnum(m[k])
  }

  /** What the rule compiler guarantees of each rule. */
  predicate GoodRule(rule: CompiledRule) {
    && IsId(rule.id) && rule.hostRegex != [] && "^" <= rule.pathRegex
    && (rule.hostMatch != Wildcard ==> rule.port == None)
    && (rule.methods.Some? ==> forall k | 0 <= k < |rule.methods.value| :: IsMethodName(rule.methods.value[k]))
  }

  predicate GoodRules(rules: seq<CompiledRule>) {
    DistinctIds(rules) && forall k | 0 <= k < |rules| :: GoodRule(rules[k])
  }

  /** A host as `txn.host` holds it, and a path: neither can carry a line break. */
  predicate GoodRequest(req: Request) {
    OneLine(req.host) && LowerText(req.host) == req.host && OneLine(req.path)
  }

  // ---- words ----

  lemma {:induction false} PlainWordReads(word: string)
    requires forall k | 0 <= k < |word| :: word[k] !in SPECIAL
    ensures ReadWord(word) == Some((word, []))
  {
    if word != [] {
      PlainWordReads(word[1..]);
      assert word[0] !in SPECIAL;
      assert '\\' in SPECIAL && '#' in SPECIAL && '\'' in SPECIAL && '"' in SPECIAL && ' ' in SPECIAL;
      assert word == [word[0]] + word[1..];
    }
  }

  lemma AlnumWord(word: string)
    requires word != [] && forall k | 0 <= k < |word| :: IsAlnum(word[k])
    ensures IsReadable(word) && Word(word) == word
  {
    hide ReadWord;
    forall k | 0 <= k < |word| ensures word[k] !in SPECIAL {
      assert IsAlnum(word[k]);
    }
    PlainWordReads(word);
  }

  lemma EscapedReads(value: string)
    requires value != []
    ensures IsReadable(EscapeForHaproxy(value)) && Word(EscapeForHaproxy(value)) == value
  {
    hide ReadWord, EscapeForHaproxy, Unquoted;
    EscapedValue(value);
  }

  // ---- single tests ----

  lemma PatternTest(w: World, req: Request, vars: map<string, Datum>, fetch: Fetch, m: Matcher, subject: string)
    requires m.pattern != []
    requires (fetch == PathOf && req.path == subject) || (fetch.Var? && fetch.name in vars && vars[fetch.name] == Text(subject))
    ensures AreReadable(MatchTest(fetch, m).words)
    ensures Holds(w, req, vars, MatchTest(fetch, m)) == Accepts(w.engine, m, subject)
  {
    hide IsReadable, Word, EscapeForHaproxy, Accepts;
    EscapedReads(m.pattern);
    var test := MatchTest(fetch, m);
    assert Matcher(m.op, Word(test.words[0])) == m;
  }

  lemma NumberTest(w: World, req: Request, vars: map<string, Datum>, p: nat)
    ensures AreReadable([Dec(p)])
    ensures Holds(w, req, vars, Test(DstPort, IsNumber, [Dec(p)])) == (req.port == p)
  {
    hide Dec, Value, IsReadable, Word;
    forall k | 0 <= k < |Dec(p)| ensures IsAlnum(Dec(p)[k]) {
      assert IsDigit(Dec(p)[k]);
    }
    AlnumWord(Dec(p));
    ValueOfDec(p);
    var test := Test(DstPort, IsNumber, [Dec(p)]);
    assert IsNumeral(Word(test.words[0]), req.port) == (req.port == p);
  }

  lemma MethodTest(w: World, req: Request, vars: map<string, Datum>, methods: seq<string>)
    requires forall k | 0 <= k < |methods| :: IsMethodName(methods[k])
    ensures AreReadable(methods)
    ensures Holds(w, req, vars, Test(MethodOf, IsMethod, methods)) == (req.verb in methods)
  {
    hide IsReadable, Word;
    forall k | 0 <= k < |methods| ensures IsReadable(methods[k]) && Word(methods[k]) == methods[k] {
      assert IsMethodName(methods[k]);
      AlnumWord(methods[k]);
    }
  }

  // ---- names ----

  lemma FirstUnderscore(a: string, x: string, b: string, y: string)
    requires IsId(a) && IsId(b) && a + "_" + x == b + "_" + y
    ensures a == b && x == y
  {
    var u, v := a + "_" + x, b + "_" + y;
    assert u[|a|] == '_' && v[|b|] == '_';
    assert forall k | 0 <= k < |a| :: u[k] == a[k] && a[k] != '_';
    assert forall k | 0 <= k < |b| :: v[k] == b[k] && b[k] != '_';
    assert |a| == |b|;
    assert a == u[..|a|] == v[..|b|] == b;
    assert x == u[|a| + 1..] == v[|b| + 1..] == y;
  }

  predicate IsNameOf(name: string, id: string) {
    name == HostName(id) || name == PortName(id) || name == PathName(id) || name == MethodName(id)
  }

  lemma NamesOfIds(name: string, a: string, b: string)
    requires IsId(a) && IsId(b) && IsNameOf(name, a) && IsNameOf(name, b)
    ensures a == b
  {
    var suffixes := ["host", "port", "path", "method"];
    assert HostName(a) == a + "_" + "host" && PortName(a) == a + "_" + "port"
        && PathName(a) == a + "_" + "path" && MethodName(a) == a + "_" + "method";
    assert HostName(b) == b + "_" + "host" && PortName(b) == b + "_" + "port"
        && PathName(b) == b + "_" + "path" && MethodName(b) == b + "_" + "method";
    var x :| name == a + "_" + x;
    var y :| name == b + "_" + y;
    FirstUnderscore(a, x, b, y);
  }

  lemma FourNames(id: string)
    ensures HostName(id) != PortName(id) && HostName(id) != PathName(id) && HostName(id) != MethodName(id)
    ensures PortName(id) != PathName(id) && PortName(id) != MethodName(id) && PathName(id) != MethodName(id)
  {
    var n := |id|;
    assert HostName(id)[n..] == "_host" && PortName(id)[n..] == "_port";
    assert PathName(id)[n..] == "_path" && MethodName(id)[n..] == "_method";
  }

  lemma OkNames(a: string, b: string)
    requires OkName(a) == OkName(b)
    ensures a == b
  {
    assert a == OkName(a)[..|OkName(a)| - 3];
    assert b == OkName(b)[..|OkName(b)| - 3];
  }

  // ---- what holds while the acls are being declared ----

  /** Everything but `txn.allowed` is added to, never changed. */
  ghost predicate Grows(st: State, st': State) {
    && (forall name | name in st.acls :: name in st'.acls && st'.acls[name] == st.acls[name])
    && (forall v | v in st.vars && v != "allowed" :: v in st'.vars && st'.vars[v] == st.vars[v])
    && st'.queries == st.queries && st'.target == st.target
  }

  /** The acl is declared, and reads only variables that are already set for good. */
  predicate Settled(st: State, name: string) {
    name in st.acls && forall k | 0 <= k < |st.acls[name]| ::
      st.acls[name][k].fetch.Var? ==> st.acls[name][k].fetch.name in st.vars && st.acls[name][k].fetch.name != "allowed"
  }

  predicate Answers(w: World, req: Request, st: State, name: string, b: bool) {
    Settled(st, name) && AclHolds(w, req, st, name) == b
  }

  lemma HoldsStays(w: World, req: Request, st: State, st': State, test: Test)
    requires Grows(st, st') && (test.fetch.Var? ==> test.fetch.name in st.vars && test.fetch.name != "allowed")
    ensures Holds(w, req, st'.vars, test) == Holds(w, req, st.vars, test)
  {
    hide Accepts, Word, IsNumeral;
  }

  lemma AnswerStays(w: World, req: Request, st: State, st': State, name: string, b: bool)
    requires Grows(st, st') && Answers(w, req, st, name, b)
    ensures Answers(w, req, st', name, b)
  {
    hide Holds;
    assert name in st'.acls && st'.acls[name] == st.acls[name];
    forall k | 0 <= k < |st.acls[name]|
      ensures Holds(w, req, st'.vars, st.acls[name][k]) == Holds(w, req, st.vars, st.acls[name][k])
    {
      HoldsStays(w, req, st, st', st.acls[name][k]);
    }
    assert Settled(st', name);
  }

  lemma GrowsOn(a: State, b: State, c: State)
    requires Grows(a, b) && Grows(b, c)
    ensures Grows(a, c)
  {
  }

  /** The rule's acls answer as its own expressions do. */
  predicate Declared(w: World, req: Request, st: State, rule: CompiledRule, scheme: Scheme, hostAcl: string) {
    && Answers(w, req, st, hostAcl, HostHalfMatches(w.engine, rule, scheme, req))
    && Answers(w, req, st, PathName(rule.id), w.engine(rule.pathRegex, req.path, false))
    && (rule.port.Some? ==> Answers(w, req, st, PortName(rule.id), req.port == rule.port.value))
    && (rule.methods.Some? ==> Answers(w, req, st, MethodName(rule.id), req.verb in rule.methods.value))
  }

  lemma DeclaredStays(w: World, req: Request, st: State, st': State, rule: CompiledRule, scheme: Scheme, hostAcl: string)
    requires Grows(st, st') && Declared(w, req, st, rule, scheme, hostAcl)
    ensures Declared(w, req, st', rule, scheme, hostAcl)
  {
    hide Answers, HostHalfMatches;
    AnswerStays(w, req, st, st', hostAcl, HostHalfMatches(w.engine, rule, scheme, req));
    AnswerStays(w, req, st, st', PathName(rule.id), w.engine(rule.pathRegex, req.path, false));
    if rule.port.Some? {
      AnswerStays(w, req, st, st', PortName(rule.id), req.port == rule.port.value);
    }
    if rule.methods.Some? {
      AnswerStays(w, req, st, st', MethodName(rule.id), req.verb in rule.methods.value);
    }
  }

  /** The variables and the acl the rules' host halves are matched on. */
  predicate HostIsSet(w: World, req: Request, st: State, how: HostMatch, scheme: Scheme) {
    && st.status == Running && "host" in st.vars && st.vars["host"] == Text(req.host)
    && (how == HostPort ==> "host_port" in st.vars && st.vars["host_port"] == Text(HostPortText(req)))
    && (how == HostBareFull ==> "host_full" in st.vars && st.vars["host_full"] == Text(HostPortText(req)))
    && (how == HostBareFull ==> Answers(w, req, st, "is_default_port", req.port == DefaultPort(scheme)))
  }

  lemma HostStaysSet(w: World, req: Request, st: State, st': State, how: HostMatch, scheme: Scheme)
    requires Grows(st, st') && HostIsSet(w, req, st, how, scheme) && st'.status == Running
    ensures HostIsSet(w, req, st', how, scheme)
  {
    hide Answers;
    if how == HostBareFull {
      AnswerStays(w, req, st, st', "is_default_port", req.port == DefaultPort(scheme));
    }
  }

  /** None of the rule's own names is taken yet. */
  predicate IsFree(st: State, id: string) {
    && HostName(id) !in st.acls && PortName(id) !in st.acls && PathName(id) !in st.acls && MethodName(id) !in st.acls
    && OkName(id) !in st.vars
  }

  /** Every shared acl is the one test its key stands for. */
  ghost predicate SharesWell(st: State, shared: map<string, string>) {
    forall key | key in shared :: SharedAcl(st, key, shared[key])
  }

  ghost predicate SharedAcl(st: State, key: string, name: string) {
    name in st.acls && exists m: Matcher :: (m.op == Str || m.op == RegI) && key == Key(m) && st.acls[name] == [MatchTest(Var("host"), m)]
  }

  lemma KeyTells(m: Matcher, n: Matcher)
    requires (m.op == Str || m.op == RegI) && (n.op == Str || n.op == RegI) && Key(m) == Key(n)
    ensures m == n
  {
    assert "-m str"[3] == 's' && "-m reg -i"[3] == 'r';
    assert Key(m)[3] == OpText(m.op)[3] && Key(n)[3] == OpText(n.op)[3];
    assert m.op == n.op;
    assert m.pattern == Key(m)[|OpText(m.op)| + 1..];
    assert n.pattern == Key(n)[|OpText(n.op)| + 1..];
  }

  /** Only the rule's own names are added. */
  ghost predicate OnlyAdds(st: State, st': State, id: string) {
    && (forall name | name in st'.acls :: name in st.acls || IsNameOf(name, id))
    && (forall v | v in st'.vars :: v in st.vars || v == OkName(id))
  }

  // ---- one line at a time ----

  lemma DeclaresAcl(w: World, req: Request, st: State, name: string, test: Test)
    requires st.status == Running && name !in st.acls && AreReadable(test.words)
    requires test.fetch.Var? ==> test.fetch.name in st.vars && test.fetch.name != "allowed"
    ensures var st' := Step(w, req, AclLine(name, test), st);
      && st' == st.(acls := st.acls[name := [test]]) && Grows(st, st')
      && Answers(w, req, st', name, Holds(w, req, st.vars, test))
  {
    hide Holds, AreReadable;
    var st' := Step(w, req, AclLine(name, test), st);
    assert st'.acls[name] == [test];
    assert st'.acls[name][0] == test;
  }

  lemma DeclaresPath(w: World, req: Request, rule: CompiledRule, st: State)
    requires ReadsTrees(w.engine) && GoodRule(rule) && GoodRequest(req)
    requires st.status == Running && PathName(rule.id) !in st.acls && MethodName(rule.id) !in st.acls
    ensures var st' := Run(w, req, PathLines(rule), st);
      && st'.status == Running && Grows(st, st') && st'.vars == st.vars
      && (forall name | name in st'.acls :: name in st.acls || name == PathName(rule.id) || name == MethodName(rule.id))
      && Answers(w, req, st', PathName(rule.id), w.engine(rule.pathRegex, req.path, false))
      && (rule.methods.Some? ==> Answers(w, req, st', MethodName(rule.id), req.verb in rule.methods.value))
  {
    hide Step, Run, Holds, Answers, Grows, AreReadable, IsId, PathMatcher, ReadsTrees, Accepts;
    var m := PathMatcher(rule.pathRegex);
    assert m.pattern != [] by { PathPattern(rule.pathRegex); }
    assert OneLine(req.path);
    PathNarrowingIsExact(w.engine, rule.pathRegex, req.path);
    PatternTest(w, req, st.vars, PathOf, m, req.path);
    assert MatchTest(PathOf, m).fetch == PathOf;
    var line := AclLine(PathName(rule.id), MatchTest(PathOf, m));
    DeclaresAcl(w, req, st, PathName(rule.id), MatchTest(PathOf, m));
    var mid := Step(w, req, line, st);
    RunOne(w, req, line, st);
    match rule.methods
    case None => assert PathLines(rule) == [line];
    case Some(methods) =>
      var more := AclLine(MethodName(rule.id), Test(MethodOf, IsMethod, methods));
      assert PathLines(rule) == [line] + [more];
      RunMore(w, req, [line], more, st);
      MethodTest(w, req, mid.vars, methods);
      FourNames(rule.id);
      DeclaresAcl(w, req, mid, MethodName(rule.id), Test(MethodOf, IsMethod, methods));
      var st' := Step(w, req, more, mid);
      AnswerStays(w, req, mid, st', PathName(rule.id), w.engine(rule.pathRegex, req.path, false));
      GrowsOn(st, mid, st');
  }

  lemma PathPattern(pathRegex: string)
    requires "^" <= pathRegex
    ensures PathMatcher(pathRegex).pattern != []
  {
    hide IsLiteralBody;
    var m := PathMatcher(pathRegex);
    if m.op != Reg {
      var rest := pathRegex[1..];
      var exact := rest[..|rest| - (if EndsWith(rest, "$") then 1 else 0)];
    }
  }

  lemma HostPattern(hostRegex: string)
    requires hostRegex != []
    ensures var m := HostMatcher(hostRegex); m.pattern != [] && (m.op == Str || m.op == RegI)
  {
    hide IsLiteralBody;
    var body := if |hostRegex| >= 3 then hostRegex[1..|hostRegex| - 1] else [];
    assert body != [] ==> Unescape(body) != [];
  }

  /** A host acl over a variable that is set: its answer is the match on that variable. */
  lemma DeclaresHost(w: World, req: Request, st: State, id: string, variable: string, m: Matcher, subject: string)
    requires st.status == Running && HostName(id) !in st.acls && m.pattern != [] && variable != "allowed"
    requires variable in st.vars && st.vars[variable] == Text(subject)
    ensures var st' := Step(w, req, AclLine(HostName(id), MatchTest(Var(variable), m)), st);
      && st' == st.(acls := st.acls[HostName(id) := [MatchTest(Var(variable), m)]]) && Grows(st, st')
      && Answers(w, req, st', HostName(id), Accepts(w.engine, m, subject))
  {
    hide Step, Holds, Answers, Grows, AreReadable, Accepts;
    PatternTest(w, req, st.vars, Var(variable), m, subject);
    DeclaresAcl(w, req, st, HostName(id), MatchTest(Var(variable), m));
  }

  lemma DeclaresPort(w: World, req: Request, rule: CompiledRule, st: State)
    requires st.status == Running && PortName(rule.id) !in st.acls
    ensures var st' := Run(w, req, PortLines(rule), st);
      && st'.status == Running && Grows(st, st') && st'.vars == st.vars
      && (forall name | name in st'.acls :: name in st.acls || name == PortName(rule.id))
      && (rule.port.Some? ==> Answers(w, req, st', PortName(rule.id), req.port == rule.port.value))
  {
    hide Step, Holds, Answers, AreReadable, Dec;
    match rule.port
    case None =>

    case Some(p) =>
      var test := Test(DstPort, IsNumber, [Dec(p)]);
      NumberTest(w, req, st.vars, p);
      DeclaresAcl(w, req, st, PortName(rule.id), test);
      RunOne(w, req, AclLine(PortName(rule.id), test), st);
  }

  // ---- the flag of a rule whose host half is matched bare and in full ----

  lemma InlineHolds(w: World, req: Request, st: State, test: Test)
    ensures AllLoad(st, [Inline(false, test)]) == AreReadable(test.words)
    ensures AllHold(w, req, st, [Inline(false, test)]) == Holds(w, req, st.vars, test)
  {
    hide Holds, AreReadable;
    var terms := [Inline(false, test)];
    assert TermLoads(st, terms[0]) == AreReadable(test.words);
    assert TermHolds(w, req, st, terms[0]) == Holds(w, req, st.vars, test);
  }

  lemma NamedThenInline(w: World, req: Request, st: State, name: string, b: bool, test: Test)
    requires Answers(w, req, st, name, b) && AreReadable(test.words)
    ensures AllLoad(st, [Named(false, name), Inline(false, test)])
    ensures AllHold(w, req, st, [Named(false, name), Inline(false, test)]) == (b && Holds(w, req, st.vars, test))
  {
    hide Holds, AreReadable, AclHolds;
    var terms := [Named(false, name), Inline(false, test)];
    assert TermLoads(st, terms[0]) && TermLoads(st, terms[1]);
    assert TermHolds(w, req, st, terms[0]) == b;
    assert TermHolds(w, req, st, terms[1]) == Holds(w, req, st.vars, test);
  }

  /** `set-var ... if terms`: set just when the terms hold. */
  lemma SetsWhen(w: World, req: Request, st: State, name: string, b: bool, terms: seq<Term>)
    requires st.status == Running && AllLoad(st, terms)
    ensures Step(w, req, SetVar(name, Constant(Flag(b)), When([terms])), st)
         == if AllHold(w, req, st, terms) then st.(vars := st.vars[name := Flag(b)]) else st
  {
    hide AllHold, AllLoad;
    var cond := When([terms]);
    assert cond.any[0] == terms;
    assert CondLoads(st, cond);
    assert CondHolds(w, req, st, cond) == AllHold(w, req, st, terms);
  }

  lemma SetsAlways(w: World, req: Request, st: State, name: string, b: bool)
    requires st.status == Running
    ensures Step(w, req, SetVar(name, Constant(Flag(b)), Always), st) == st.(vars := st.vars[name := Flag(b)])
  {
  }

  lemma OkIsNotSet(id: string)
    requires IsId(id)
    ensures OkName(id) != "host" && OkName(id) != "host_full" && OkName(id) != "host_port" && OkName(id) != "allowed"
  {
    assert OkName(id)[0] == id[0];
  }

  /** After its first three lines, the flag is what the host half says. */
  lemma BareFullFlag(w: World, req: Request, rule: CompiledRule, scheme: Scheme, st: State)
    requires HostIsSet(w, req, st, HostBareFull, scheme) && GoodRule(rule) && OkName(rule.id) !in st.vars
    requires rule.hostMatch == HostBareFull
    ensures var st' := Run(w, req, BareFullLines(rule)[..3], st);
      st' == st.(vars := st.vars[OkName(rule.id) := Flag(HostHalfMatches(w.engine, rule, scheme, req))]) && Grows(st, st')
  {
    hide Step, Run, Holds, Answers, Grows, AreReadable, MatchTest, IsId, AllHold, AllLoad;
    var ok := OkName(rule.id);
    assert IsId(rule.id);
    OkIsNotSet(rule.id);
    var m := Matcher(RegI, rule.hostRegex);
    var bare, full := HostRegexTest("host", rule), HostRegexTest("host_full", rule);
    var a := SetVar(ok, Constant(Flag(false)), Always);
    var b := SetVar(ok, Constant(Flag(true)), When([[Named(false, "is_default_port"), Inline(false, bare)]]));
    var c := SetVar(ok, Constant(Flag(true)), When([[Inline(false, full)]]));
    assert BareFullLines(rule)[..3] == [a] + [b] + [c];
    RunOne(w, req, a, st);
    RunMore(w, req, [a], b, st);
    RunMore(w, req, [a] + [b], c, st);
    var st1 := Step(w, req, a, st);
    SetsAlways(w, req, st, ok, false);
    FlagGrows(st, ok, false);
    AnswerStays(w, req, st, st1, "is_default_port", req.port == DefaultPort(scheme));
    PatternTest(w, req, st1.vars, Var("host"), m, req.host);
    NamedThenInline(w, req, st1, "is_default_port", req.port == DefaultPort(scheme), bare);
    SetsWhen(w, req, st1, ok, true, [Named(false, "is_default_port"), Inline(false, bare)]);
    var st2 := Step(w, req, b, st1);
    assert st2 == st.(vars := st.vars[ok := st2.vars[ok]]);
    PatternTest(w, req, st2.vars, Var("host_full"), m, HostPortText(req));
    InlineHolds(w, req, st2, full);
    SetsWhen(w, req, st2, ok, true, [Inline(false, full)]);
    assert Accepts(w.engine, m, req.host) == w.engine(rule.hostRegex, req.host, true);
    assert Accepts(w.engine, m, HostPortText(req)) == w.engine(rule.hostRegex, HostPortText(req), true);
    FlagGrows(st, ok, HostHalfMatches(w.engine, rule, scheme, req));
  }

  lemma FlagGrows(st: State, name: string, b: bool)
    requires name !in st.vars || name == "allowed"
    ensures Grows(st, st.(vars := st.vars[name := Flag(b)]))
  {
  }

  lemma DeclaresBareFull(w: World, req: Request, rule: CompiledRule, scheme: Scheme, st: State)
    requires HostIsSet(w, req, st, HostBareFull, scheme) && GoodRule(rule) && IsFree(st, rule.id)
    requires rule.hostMatch == HostBareFull
    ensures var st' := Run(w, req, BareFullLines(rule), st);
      && st'.status == Running && Grows(st, st')
      && st'.acls == st.acls[HostName(rule.id) := [Test(Var(OkName(rule.id)), IsTrue, [])]]
      && (forall v | v in st'.vars :: v in st.vars || v == OkName(rule.id))
      && Answers(w, req, st', HostName(rule.id), HostHalfMatches(w.engine, rule, scheme, req))
  {
    hide Step, Run, Answers, Grows, HostHalfMatches, IsId, HostRegexTest;
    BareFullFlag(w, req, rule, scheme, st);
    assert st.status == Running;
    var first := BareFullLines(rule)[..3];
    var test := Test(Var(OkName(rule.id)), IsTrue, []);
    var line := AclLine(HostName(rule.id), test);
    assert BareFullLines(rule) == first + [line];
    RunMore(w, req, first, line, st);
    var mid := Run(w, req, first, st);
    assert IsId(rule.id);
    OkIsNotSet(rule.id);
    DeclaresAcl(w, req, mid, HostName(rule.id), test);
    GrowsOn(st, mid, Step(w, req, line, mid));
  }

  // ---- one rule ----

  /** What declaring a rule leaves: its own answers, and nothing of anyone else's touched. */
  ghost predicate RuleIsIn(w: World, req: Request, st: State, st': State, rule: CompiledRule, scheme: Scheme,
    shared: map<string, string>)
  {
    && st'.status == Running && Grows(st, st') && OnlyAdds(st, st', rule.id)
    && Declared(w, req, st', rule, scheme, HostAcl(rule, shared))
    && SharesWell(st', Sharing(rule, shared))
  }

  /** The host lines alone. */
  ghost predicate HostIsIn(w: World, req: Request, st: State, st': State, rule: CompiledRule, scheme: Scheme,
    shared: map<string, string>)
  {
    && st'.status == Running && Grows(st, st') && OnlyAdds(st, st', rule.id)
    && PathName(rule.id) !in st'.acls && MethodName(rule.id) !in st'.acls
    && Answers(w, req, st', HostAcl(rule, shared), HostHalfMatches(w.engine, rule, scheme, req))
    && (rule.port.Some? ==> Answers(w, req, st', PortName(rule.id), req.port == rule.port.value))
    && SharesWell(st', Sharing(rule, shared))
  }

  lemma SharingStays(st: State, st': State, shared: map<string, string>)
    requires SharesWell(st, shared) && Grows(st, st')
    ensures SharesWell(st', shared)
  {
    hide MatchTest, Key;
    forall key | key in shared ensures SharedAcl(st', key, shared[key]) {
      assert SharedAcl(st, key, shared[key]);
    }
  }

  lemma HostOfHostPort(w: World, req: Request, rule: CompiledRule, scheme: Scheme, st: State, shared: map<string, string>)
    requires HostIsSet(w, req, st, HostPort, scheme) && GoodRule(rule) && IsFree(st, rule.id)
    requires rule.hostMatch == HostPort && SharesWell(st, shared)
    ensures HostIsIn(w, req, st, Run(w, req, HostLines(rule, shared), st), rule, scheme, shared)
  {
    hide Step, Run, Answers, Grows, IsId, MatchTest, SharesWell;
    var m := Matcher(RegI, rule.hostRegex);
    DeclaresHost(w, req, st, rule.id, "host_port", m, HostPortText(req));
    RunOne(w, req, AclLine(HostName(rule.id), MatchTest(Var("host_port"), m)), st);
    assert Accepts(w.engine, m, HostPortText(req)) == w.engine(rule.hostRegex, HostPortText(req), true);
    FourNames(rule.id);
    SharingStays(st, Run(w, req, HostLines(rule, shared), st), shared);
  }

  lemma HostOfBareFull(w: World, req: Request, rule: CompiledRule, scheme: Scheme, st: State, shared: map<string, string>)
    requires HostIsSet(w, req, st, HostBareFull, scheme) && GoodRule(rule) && IsFree(st, rule.id)
    requires rule.hostMatch == HostBareFull && SharesWell(st, shared)
    ensures HostIsIn(w, req, st, Run(w, req, HostLines(rule, shared), st), rule, scheme, shared)
  {
    hide Run, Answers, Grows, IsId, BareFullLines, HostHalfMatches, HostIsSet, SharesWell;
    DeclaresBareFull(w, req, rule, scheme, st);
    FourNames(rule.id);
    SharingStays(st, Run(w, req, HostLines(rule, shared), st), shared);
  }

  lemma SharedAnswers(w: World, req: Request, st: State, shared: map<string, string>, m: Matcher)
    requires SharesWell(st, shared) && Key(m) in shared && (m.op == Str || m.op == RegI) && m.pattern != []
    requires "host" in st.vars && st.vars["host"] == Text(req.host)
    ensures Answers(w, req, st, shared[Key(m)], Accepts(w.engine, m, req.host))
  {
    hide Key, Holds, AreReadable, Accepts;
    var name := shared[Key(m)];
    assert SharedAcl(st, Key(m), name);
    var n: Matcher :| (n.op == Str || n.op == RegI) && Key(m) == Key(n) && st.acls[name] == [MatchTest(Var("host"), n)];
    KeyTells(m, n);
    PatternTest(w, req, st.vars, Var("host"), m, req.host);
    assert st.acls[name][0] == MatchTest(Var("host"), m);
  }

  lemma SharesMore(st: State, shared: map<string, string>, m: Matcher, name: string)
    requires SharesWell(st, shared) && name in st.acls && (m.op == Str || m.op == RegI)
    requires st.acls[name] == [MatchTest(Var("host"), m)]
    ensures SharesWell(st, shared[Key(m) := name])
  {
    hide Key, MatchTest;
    assert SharedAcl(st, Key(m), name);
  }

  lemma HostOfWildcard(w: World, req: Request, rule: CompiledRule, scheme: Scheme, st: State, shared: map<string, string>)
    requires ReadsTrees(w.engine) && GoodRequest(req)
    requires HostIsSet(w, req, st, Wildcard, scheme) && GoodRule(rule) && IsFree(st, rule.id)
    requires rule.hostMatch == Wildcard && SharesWell(st, shared)
    ensures HostIsIn(w, req, st, Run(w, req, HostLines(rule, shared), st), rule, scheme, shared)
  {
    hide Step, Run, Answers, Grows, IsId, MatchTest, Accepts, SharesWell, Key, HostMatcher, PortLines, ReadsTrees;
    var m := HostMatcher(rule.hostRegex);
    HostPattern(rule.hostRegex);
    HostNarrowingIsExact(w.engine, rule.hostRegex, req.host);
    FourNames(rule.id);
    if Key(m) in shared {
      SharedAnswers(w, req, st, shared, m);
      assert HostLines(rule, shared) == PortLines(rule);
      DeclaresPort(w, req, rule, st);
      var st' := Run(w, req, PortLines(rule), st);
      AnswerStays(w, req, st, st', shared[Key(m)], Accepts(w.engine, m, req.host));
      SharingStays(st, st', shared);
    } else {
      var line := AclLine(HostName(rule.id), MatchTest(Var("host"), m));
      assert HostLines(rule, shared) == [line] + PortLines(rule);
      RunAppend(w, req, [line], PortLines(rule), st);
      RunOne(w, req, line, st);
      DeclaresHost(w, req, st, rule.id, "host", m, req.host);
      var mid := Step(w, req, line, st);
      SharingStays(st, mid, shared);
      SharesMore(mid, shared, m, HostName(rule.id));
      DeclaresPort(w, req, rule, mid);
      var st' := Run(w, req, PortLines(rule), mid);
      AnswerStays(w, req, mid, st', HostName(rule.id), Accepts(w.engine, m, req.host));
      SharingStays(mid, st', Sharing(rule, shared));
      GrowsOn(st, mid, st');
    }
  }

  /** Running one rule's lines declares acls that answer as the rule itself does. */
  lemma RuleGoesIn(w: World, req: Request, rule: CompiledRule, scheme: Scheme, st: State, shared: map<string, string>)
    requires ReadsTrees(w.engine) && GoodRequest(req) && GoodRule(rule)
    requires HostIsSet(w, req, st, rule.hostMatch, scheme) && IsFree(st, rule.id) && SharesWell(st, shared)
    ensures RuleIsIn(w, req, st, Run(w, req, RuleLines(rule, shared), st), rule, scheme, shared)
  {
    hide Run, Answers, Grows, GoodRequest, HostLines, PathLines, HostIsSet, SharesWell, ReadsTrees, HostHalfMatches,
      HostAcl, Sharing;
    match rule.hostMatch {
      case HostPort => HostOfHostPort(w, req, rule, scheme, st, shared);
      case HostBareFull => HostOfBareFull(w, req, rule, scheme, st, shared);
      case Wildcard => HostOfWildcard(w, req, rule, scheme, st, shared);
    }
    RunAppend(w, req, HostLines(rule, shared), PathLines(rule), st);
    var mid := Run(w, req, HostLines(rule, shared), st);
    var st' := Run(w, req, PathLines(rule), mid);
    DeclaresPath(w, req, rule, mid);
    AnswerStays(w, req, mid, st', HostAcl(rule, shared), HostHalfMatches(w.engine, rule, scheme, req));
    if rule.port.Some? {
      AnswerStays(w, req, mid, st', PortName(rule.id), req.port == rule.port.value);
    }
    SharingStays(mid, st', Sharing(rule, shared));
    GrowsOn(st, mid, st');
  }

  // ---- all the rules ----

  predicate AllFree(st: State, rules: seq<CompiledRule>) {
    forall k | 0 <= k < |rules| :: IsFree(st, rules[k].id)
  }

  lemma OthersStayFree(st: State, st': State, rule: CompiledRule, rest: seq<CompiledRule>)
    requires OnlyAdds(st, st', rule.id) && IsId(rule.id) && AllFree(st, rest)
    requires forall k | 0 <= k < |rest| :: IsId(rest[k].id) && rest[k].id != rule.id
    ensures AllFree(st', rest)
  {
    hide IsId;
    forall k | 0 <= k < |rest| ensures IsFree(st', rest[k].id) {
      assert IsFree(st, rest[k].id);
      OtherStaysFree(st, st', rule.id, rest[k].id);
    }
  }

  lemma OtherStaysFree(st: State, st': State, id: string, other: string)
    requires OnlyAdds(st, st', id) && IsId(id) && IsId(other) && id != other && IsFree(st, other)
    ensures IsFree(st', other)
  {
    hide IsId, HostName, PortName, PathName, MethodName, OkName;
    forall name | IsNameOf(name, other) ensures !IsNameOf(name, id) {
      if IsNameOf(name, id) {
        NamesOfIds(name, id, other);
      }
    }
    assert IsNameOf(HostName(other), other) && IsNameOf(PortName(other), other)
        && IsNameOf(PathName(other), other) && IsNameOf(MethodName(other), other);
    if OkName(other) == OkName(id) {
      OkNames(other, id);
    }
  }

  predicate HostsAreSet(w: World, req: Request, st: State, rules: seq<CompiledRule>, scheme: Scheme) {
    forall k | 0 <= k < |rules| :: HostIsSet(w, req, st, rules[k].hostMatch, scheme)
  }

  /** Every rule is declared under the host acl the flag line will name. */
  ghost predicate AllDeclared(w: World, req: Request, st: State, rules: seq<CompiledRule>, scheme: Scheme,
    shared: map<string, string>)
    decreases |rules|
  {
    rules == [] ||
    (Declared(w, req, st, rules[0], scheme, HostAcl(rules[0], shared)) &&
     AllDeclared(w, req, st, rules[1..], scheme, Sharing(rules[0], shared)))
  }

  lemma {:induction false} AllDeclaredStays(w: World, req: Request, st: State, st': State, rules: seq<CompiledRule>,
    scheme: Scheme, shared: map<string, string>)
    requires Grows(st, st') && AllDeclared(w, req, st, rules, scheme, shared)
    ensures AllDeclared(w, req, st', rules, scheme, shared)
    decreases |rules|
  {
    hide Declared, Grows, HostAcl, Sharing;
    if rules != [] {
      DeclaredStays(w, req, st, st', rules[0], scheme, HostAcl(rules[0], shared));
      AllDeclaredStays(w, req, st, st', rules[1..], scheme, Sharing(rules[0], shared));
    }
  }

  /** A name one of the rules could have added. */
  predicate IsRuleName(name: string) {
    |name| >= 2 && (name[0] == 's' || name[0] == 'p') && IsDigit(name[1])
  }

  ghost predicate OnlyAddsRules(st: State, st': State) {
    && (forall name | name in st'.acls :: name in st.acls || IsRuleName(name))
    && (forall v | v in st'.vars :: v in st.vars || IsRuleName(v))
  }

  lemma AddsRuleNames(st: State, st': State, id: string)
    requires OnlyAdds(st, st', id) && IsId(id)
    ensures OnlyAddsRules(st, st')
  {
    assert IsRuleName(id);
    assert forall name | IsNameOf(name, id) :: name[0] == id[0] && name[1] == id[1] && |name| >= 2;
  }

  lemma {:induction false} RulesGoIn(w: World, req: Request, rules: seq<CompiledRule>, scheme: Scheme, st: State,
    shared: map<string, string>)
    requires ReadsTrees(w.engine) && GoodRequest(req) && GoodRules(rules) && st.status == Running
    requires HostsAreSet(w, req, st, rules, scheme) && AllFree(st, rules) && SharesWell(st, shared)
    ensures var st' := Run(w, req, AclLines(rules, shared), st);
      && st'.status == Running && Grows(st, st') && OnlyAddsRules(st, st')
      && AllDeclared(w, req, st', rules, scheme, shared)
    decreases |rules|
  {
    hide ReadsTrees, GoodRequest, HostIsSet, IsFree, SharesWell, Declared, RuleLines, HostAcl, Sharing, OnlyAdds;
    if rules == [] {
    } else {
      var rule, rest := rules[0], rules[1..];
      var shared' := Sharing(rule, shared);
      RuleGoesIn(w, req, rule, scheme, st, shared);
      var mid := Run(w, req, RuleLines(rule, shared), st);
      forall k | 0 <= k < |rest| ensures HostIsSet(w, req, mid, rest[k].hostMatch, scheme) {
        assert rest[k] == rules[k + 1];
        HostStaysSet(w, req, st, mid, rest[k].hostMatch, scheme);
      }
      assert GoodRule(rule);
      forall k | 0 <= k < |rest| ensures GoodRule(rest[k]) && IsId(rest[k].id) && rest[k].id != rule.id {
        assert rest[k] == rules[k + 1] && GoodRule(rules[k + 1]);
      }
      assert IsId(rule.id);
      assert AllFree(st, rest) by {
        forall k | 0 <= k < |rest| ensures IsFree(st, rest[k].id) {
          assert rest[k] == rules[k + 1];
        }
      }
      OthersStayFree(st, mid, rule, rest);
      AddsRuleNames(st, mid, rule.id);
      RulesGoIn(w, req, rest, scheme, mid, shared');
      RunAppend(w, req, RuleLines(rule, shared), AclLines(rest, shared'), st);
      var st' := Run(w, req, AclLines(rest, shared'), mid);
      DeclaredStays(w, req, mid, st', rule, scheme, HostAcl(rule, shared));
      GrowsOn(st, mid, st');
      assert OnlyAddsRules(st, st');
    }
  }

  // ---- the flag loop ----

  lemma AllHoldAppend(w: World, req: Request, st: State, a: seq<Term>, b: seq<Term>)
    ensures AllHold(w, req, st, a + b) == (AllHold(w, req, st, a) && AllHold(w, req, st, b))
    ensures AllLoad(st, a + b) == (AllLoad(st, a) && AllLoad(st, b))
  {
    hide TermHolds, TermLoads;
    if AllHold(w, req, st, a + b) {
      assert forall k | 0 <= k < |b| :: (a + b)[|a| + k] == b[k];
      assert forall k | 0 <= k < |a| :: (a + b)[k] == a[k];
    }
    if AllLoad(st, a + b) {
      assert forall k | 0 <= k < |b| :: (a + b)[|a| + k] == b[k];
      assert forall k | 0 <= k < |a| :: (a + b)[k] == a[k];
    }
  }

  lemma OneNamed(w: World, req: Request, st: State, name: string, b: bool)
    requires Answers(w, req, st, name, b)
    ensures AllLoad(st, [Named(false, name)]) && AllHold(w, req, st, [Named(false, name)]) == b
  {
    hide AclHolds;
    var terms := [Named(false, name)];
    assert TermLoads(st, terms[0]) && TermHolds(w, req, st, terms[0]) == b;
  }

  /** A rule's clause holds just when the rule matches. */
  lemma ClauseDecides(w: World, req: Request, st: State, rule: CompiledRule, scheme: Scheme, hostAcl: string)
    requires Declared(w, req, st, rule, scheme, hostAcl)
    ensures AllLoad(st, Clause(rule, hostAcl))
    ensures AllHold(w, req, st, Clause(rule, hostAcl)) == RuleMatches(w.engine, rule, scheme, req)
  {
    hide Answers, HostHalfMatches;
    var host, path := [Named(false, hostAcl)], [Named(false, PathName(rule.id))];
    var port := if rule.port.Some? then [Named(false, PortName(rule.id))] else [];
    var verb := if rule.methods.Some? then [Named(false, MethodName(rule.id))] else [];
    assert Clause(rule, hostAcl) == host + port + path + verb;
    AllHoldAppend(w, req, st, host, port);
    AllHoldAppend(w, req, st, host + port, path);
    AllHoldAppend(w, req, st, host + port + path, verb);
    OneNamed(w, req, st, hostAcl, HostHalfMatches(w.engine, rule, scheme, req));
    OneNamed(w, req, st, PathName(rule.id), w.engine(rule.pathRegex, req.path, false));
    if rule.port.Some? {
      OneNamed(w, req, st, PortName(rule.id), req.port == rule.port.value);
    }
    if rule.methods.Some? {
      OneNamed(w, req, st, MethodName(rule.id), req.verb in rule.methods.value);
    }
    assert AllHold(w, req, st, []) && AllLoad(st, []);
  }

  predicate IsFlag(st: State, b: bool) {
    st.status == Running && "allowed" in st.vars && st.vars["allowed"] == Flag(b)
  }

  /** One flag line: the flag is set once the rule matches, and never unset. */
  lemma FlagLineDecides(w: World, req: Request, st: State, rule: CompiledRule, scheme: Scheme, hostAcl: string, b: bool)
    requires Declared(w, req, st, rule, scheme, hostAcl) && IsFlag(st, b)
    ensures var st' := Step(w, req, FlagLine(Clause(rule, hostAcl)), st);
      Grows(st, st') && IsFlag(st', b || RuleMatches(w.engine, rule, scheme, req))
      && st'.acls == st.acls && st'.vars.Keys == st.vars.Keys
  {
    hide Declared, Clause, RuleMatches, Step;
    var clause := Clause(rule, hostAcl);
    var terms := [Inline(true, ALLOWED)] + clause;
    ClauseDecides(w, req, st, rule, scheme, hostAcl);
    AllHoldAppend(w, req, st, [Inline(true, ALLOWED)], clause);
    assert AllLoad(st, [Inline(true, ALLOWED)]) && AllHold(w, req, st, [Inline(true, ALLOWED)]) == !b by {
      var first := [Inline(true, ALLOWED)];
      assert TermLoads(st, first[0]) && TermHolds(w, req, st, first[0]) == !b;
    }
    SetsWhen(w, req, st, "allowed", true, terms);
    FlagGrows(st, "allowed", true);
    assert Grows(st, st);
  }

  lemma {:induction false} FlagLinesDecide(w: World, req: Request, st: State, rules: seq<CompiledRule>, scheme: Scheme,
    shared: map<string, string>, b: bool)
    requires AllDeclared(w, req, st, rules, scheme, shared) && IsFlag(st, b)
    ensures var st' := Run(w, req, FlagLines(rules, shared), st);
      Grows(st, st') && IsFlag(st', b || AnyMatches(w.engine, rules, scheme, req))
      && st'.acls == st.acls && st'.vars.Keys == st.vars.Keys
    decreases |rules|
  {
    hide Declared, HostAcl, Sharing, RuleMatches, FlagLine, Clause, Step, IsFlag;
    if rules == [] {
    } else {
      var rule, rest := rules[0], rules[1..];
      var line := FlagLine(Clause(rule, HostAcl(rule, shared)));
      FlagLineDecides(w, req, st, rule, scheme, HostAcl(rule, shared), b);
      var mid := Step(w, req, line, st);
      AllDeclaredStays(w, req, st, mid, rest, scheme, Sharing(rule, shared));
      var b' := b || RuleMatches(w.engine, rule, scheme, req);
      FlagLinesDecide(w, req, mid, rest, scheme, Sharing(rule, shared), b');
      var st' := Run(w, req, FlagLines(rest, Sharing(rule, shared)), mid);
      assert FlagLines(rules, shared)[0] == line && FlagLines(rules, shared)[1..] == FlagLines(rest, Sharing(rule, shared));
      GrowsOn(st, mid, st');
      MatchesSplit(w.engine, rules, scheme, req);
    }
  }

  lemma MatchesSplit(engine: Engine, rules: seq<CompiledRule>, scheme: Scheme, req: Request)
    requires rules != []
    ensures AnyMatches(engine, rules, scheme, req)
         == (RuleMatches(engine, rules[0], scheme, req) || AnyMatches(engine, rules[1..], scheme, req))
  {
    hide RuleMatches;
    if AnyMatches(engine, rules, scheme, req) {
      var k :| 0 <= k < |rules| && RuleMatches(engine, rules[k], scheme, req);
      assert k > 0 ==> rules[1..][k - 1] == rules[k];
    }
    if AnyMatches(engine, rules[1..], scheme, req) {
      var k :| 0 <= k < |rules[1..]| && RuleMatches(engine, rules[1..][k], scheme, req);
      assert rules[k + 1] == rules[1..][k];
    }
  }

  // ---- the header ----

  /** The state the block starts from: the host is known and no name of the block's is taken. */
  ghost predicate CanStart(req: Request, rules: seq<CompiledRule>, st: State) {
    && st.status == Running && "host" in st.vars && st.vars["host"] == Text(req.host)
    && "host_port" !in st.vars && "host_full" !in st.vars && "allowed" !in st.vars && "is_default_port" !in st.acls
    && AllFree(st, rules)
  }

  /** What the block may add besides rule names. */
  ghost predicate OnlyAddsBlock(st: State, st': State) {
    && (forall name | name in st'.acls :: name in st.acls || IsRuleName(name) || name == "is_default_port")
    && (forall v | v in st'.vars :: v in st.vars || IsRuleName(v) || v == "host_port" || v == "host_full" || v == "allowed")
  }

  lemma SetsHostPort(w: World, req: Request, st: State, name: string)
    requires st.status == Running && "host" in st.vars && st.vars["host"] == Text(req.host) && name !in st.vars
    ensures var st' := Step(w, req, SetVar(name, HostWithPort, Always), st);
      st' == st.(vars := st.vars[name := Text(HostPortText(req))]) && Grows(st, st')
  {
    hide Dec;
  }

  ghost predicate HeaderDone(w: World, req: Request, rules: seq<CompiledRule>, scheme: Scheme, st: State, st': State) {
    && Grows(st, st') && OnlyAddsBlock(st, st') && AllFree(st', rules) && st'.status == Running && "allowed" !in st'.vars
    && HostsAreSet(w, req, st', rules, scheme)
  }

  lemma HeaderRuns(w: World, req: Request, rules: seq<CompiledRule>, scheme: Scheme, st: State)
    requires CanStart(req, rules, st) && GoodRules(rules)
    ensures HeaderDone(w, req, rules, scheme, st, Run(w, req, Header(rules, scheme), st))
  {
    hide Step, Answers, Dec, Holds, HostPortText, GoodRule, IsFree;
    var first := if Uses(rules, HostPort) then [SetVar("host_port", HostWithPort, Always)] else [];
    var test := Test(DstPort, IsNumber, [Dec(DefaultPort(scheme))]);
    var a, b := AclLine("is_default_port", test), SetVar("host_full", HostWithPort, Always);
    var second := if Uses(rules, HostBareFull) then [a, b] else [];
    RunAppend(w, req, first, second, st);
    var mid := Run(w, req, first, st);
    if Uses(rules, HostPort) {
      RunOne(w, req, SetVar("host_port", HostWithPort, Always), st);
      SetsHostPort(w, req, st, "host_port");
    } else {
      assert mid == st;
      assert Grows(st, mid);
    }
    var st' := Run(w, req, second, mid);
    if Uses(rules, HostBareFull) {
      assert second == [a] + [b];
      RunMore(w, req, [a], b, mid);
      RunOne(w, req, a, mid);
      NumberTest(w, req, mid.vars, DefaultPort(scheme));
      DeclaresAcl(w, req, mid, "is_default_port", test);
      var next := Step(w, req, a, mid);
      SetsHostPort(w, req, next, "host_full");
      AnswerStays(w, req, next, st', "is_default_port", req.port == DefaultPort(scheme));
      GrowsOn(mid, next, st');
    } else {
      assert st' == mid;
      assert Grows(mid, st');
    }
    GrowsOn(st, mid, st');
    HeaderNamesFree(rules, st, st');
    forall k | 0 <= k < |rules| ensures HostIsSet(w, req, st', rules[k].hostMatch, scheme) {
      assert Uses(rules, rules[k].hostMatch);
      assert "host_port" in mid.vars ==> st'.vars["host_port"] == mid.vars["host_port"];
    }
  }

  lemma HeaderNamesFree(rules: seq<CompiledRule>, st: State, st': State)
    requires GoodRules(rules) && AllFree(st, rules)
    requires forall name | name in st'.acls :: name in st.acls || name == "is_default_port"
    requires forall v | v in st'.vars :: v in st.vars || v == "host_port" || v == "host_full"
    ensures AllFree(st', rules)
  {
    forall k | 0 <= k < |rules| ensures IsFree(st', rules[k].id) {
      var id := rules[k].id;
      assert GoodRule(rules[k]) && IsFree(st, id);
      assert HostName(id)[0] == id[0] && PortName(id)[0] == id[0] && PathName(id)[0] == id[0]
          && MethodName(id)[0] == id[0] && OkName(id)[0] == id[0];
    }
  }

  // ---- the theorem ----

  lemma FooterDecides(w: World, req: Request, st: State, b: bool)
    requires IsFlag(st, b)
    ensures Run(w, req, Footer(), st) == if b then st else st.(status := Haproxy.Denied(403))
  {
    hide Run;
    var line := Footer()[0];
    RunOne(w, req, line, st);
    assert Footer() == [line];
    var terms := [Inline(false, ALLOWED)];
    assert line.cond.any[0] == terms;
    assert TermLoads(st, terms[0]);
    assert TermHolds(w, req, st, terms[0]) == b;
  }

  /**
   * Compiler correctness of the rule block. For every non-empty rule list and every request, running
   * the emitted lines in restrict mode ends in the one denial just when no rule matches the request's
   * host, port, path and method; otherwise the run goes on with nothing but the block's own names
   * added. No DNS query is issued and the configuration loads.
   */
  lemma BlockDecidesAsTheRules(w: World, req: Request, rules: seq<CompiledRule>, scheme: Scheme, st: State)
    requires ReadsTrees(w.engine) && GoodRequest(req) && GoodRules(rules) && rules != [] && CanStart(req, rules, st)
    ensures var st' := Run(w, req, Block(rules, Restrict, scheme), st);
      && Grows(st, st') && OnlyAddsBlock(st, st')
      && st'.status == if AnyMatches(w.engine, rules, scheme, req) then Running else Haproxy.Denied(403)
  {
    hide Run, ReadsTrees, GoodRequest, GoodRules, Header, AclLines, FlagLines, Footer, AnyMatches, CanStart, HostsAreSet, AllFree;
    var open := SetVar("allowed", Constant(Flag(false)), Always);
    var tail := [open] + FlagLines(rules, map[]) + Footer();
    RunAppend(w, req, Header(rules, scheme) + AclLines(rules, map[]), tail, st);
    RunAppend(w, req, Header(rules, scheme), AclLines(rules, map[]), st);
    RunAppend(w, req, [open] + FlagLines(rules, map[]), Footer(), Run(w, req, Header(rules, scheme) + AclLines(rules, map[]), st));
    HeaderRuns(w, req, rules, scheme, st);
    var st1 := Run(w, req, Header(rules, scheme), st);
    assert SharesWell(st1, map[]);
    RulesGoIn(w, req, rules, scheme, st1, map[]);
    var st2 := Run(w, req, AclLines(rules, map[]), st1);
    RunAppend(w, req, [open], FlagLines(rules, map[]), st2);
    RunOne(w, req, open, st2);
    SetsAlways(w, req, st2, "allowed", false);
    var st3 := Step(w, req, open, st2);
    FlagGrows(st2, "allowed", false);
    AllDeclaredStays(w, req, st2, st3, rules, scheme, map[]);
    FlagLinesDecide(w, req, st3, rules, scheme, map[], false);
    var st4 := Run(w, req, FlagLines(rules, map[]), st3);
    FooterDecides(w, req, st4, AnyMatches(w.engine, rules, scheme, req));
    GrowsOn(st, st1, st2);
    GrowsOn(st, st2, st3);
    GrowsOn(st, st3, st4);
    var st' := Run(w, req, Block(rules, Restrict, scheme), st);
    assert Grows(st, st');
    assert OnlyAddsBlock(st, st');
  }

  /** With no rules everything is denied, and an audit block decides nothing. */
  lemma EmptyAndAuditBlocks(w: World, req: Request, rules: seq<CompiledRule>, scheme: Scheme, st: State)
    requires st.status == Running
    ensures Run(w, req, Block([], Restrict, scheme), st) == st.(status := Haproxy.Denied(403))
    ensures Run(w, req, Block(rules, Audit, scheme), st) == st
  {
    RunOne(w, req, Deny(403, Always), st);
  }
}
