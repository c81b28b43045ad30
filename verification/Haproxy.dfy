/**
 * The part of the proxy's language the generators write: acls, transaction variables, denials and
 * name resolution, run in order over one request.
 *
 * An acl line only records a test; it is evaluated where a condition names it, and several lines
 * under one name are alternatives. Words are kept as written and read by the parser's rule.
 */
module Haproxy {
  import opened Decimal
  import opened Matchers
  import opened Regex
  import opened Search

  datatype Fetch = Var(name: string) | DstPort | PathOf | MethodOf | HostHeader

  /** How a fetched value is tried. */
  datatype Kind =
    | Pattern(op: Op) | IsTrue | IsNumber | IsMethod | InNetwork | IsFound
    | IsLong | HasBackslash

  datatype Test = Test(fetch: Fetch, kind: Kind, words: seq<string>)

  datatype Term = Named(negated: bool, name: string) | Inline(negated: bool, test: Test)

  /** `if` and `unless` take alternatives (`or`) of conjunctions. */
  datatype Cond = Always | When(any: seq<seq<Term>>) | Unless(any: seq<seq<Term>>)

  datatype Datum = Flag(b: bool) | Text(s: string)

  datatype Source = Constant(value: Datum) | HostWithPort | CopyOf(name: string) | CleanHeader

  datatype Instr =
    | AclLine(name: string, test: Test)
    | SetVar(name: string, source: Source, cond: Cond)
    | Deny(code: nat, cond: Cond)
    | Resolve(cond: Cond)
    | SetDst

  /**
   * A request: its Host header as sent, the name in it without port or final dot and in lower case,
   * the port connected to, and the path after normalization.
   */
  datatype Request = Request(header: Option<string>, host: string, port: nat, path: string, verb: string)

  /**
   * What the proxy does not decide: the regex engine, the converter that drops a header's port,
   * whether an address is in a network, and what the `n`-th DNS query for a name answers.
   */
  datatype World = World(
    engine: Engine,
    hostOnly: string -> string,
    inside: (string, string) -> bool,
    answer: (string, nat) -> Option<string>)

  /** `Broken`: the configuration would not load, so nothing after that is claimed. */
  datatype Status = Running | Denied(code: nat) | Broken

  datatype State = State(
    status: Status,
    vars: map<string, Datum>,
    acls: map<string, seq<Test>>,
    queries: nat,
    target: Option<string>)

  // ---- conditions ----

  predicate IsReadable(word: string) {
    Unquoted(word).Some? && Unquoted(word).value != []
  }

  function Word(word: string): string {
    match Unquoted(word)
    case Some(value) => value
    case None => []
  }

  predicate AreReadable(words: seq<string>) {
    forall k | 0 <= k < |words| :: IsReadable(words[k])
  }

  predicate IsNumeral(word: string, n: nat) {
    word != [] && (forall k | 0 <= k < |word| :: IsDigit(word[k])) && Value(word) == n
  }

  /** `lower,host_only,regsub(\\.$,)` */
  function CleanHost(w: World, header: string): string {
    var name := w.hostOnly(LowerText(header));
    if EndsWith(name, ".") then name[..|name| - 1] else name
  }

  predicate HasText(vars: map<string, Datum>, name: string) {
    name in vars && vars[name].Text?
  }

  predicate Holds(w: World, req: Request, vars: map<string, Datum>, test: Test) {
    match test.kind
    case Pattern(op) =>
      var subject := if test.fetch == PathOf then Some(req.path)
        else if test.fetch.Var? && HasText(vars, test.fetch.name) then Some(vars[test.fetch.name].s)
        else None;
      subject.Some? && exists k | 0 <= k < |test.words| :: Accepts(w.engine, Matcher(op, Word(test.words[k])), subject.value)
    case IsTrue => test.fetch.Var? && test.fetch.name in vars && vars[test.fetch.name] == Flag(true)
    case IsNumber =>
      test.fetch == DstPort && exists k | 0 <= k < |test.words| :: IsNumeral(Word(test.words[k]), req.port)
    case IsMethod =>
      test.fetch == MethodOf && exists k | 0 <= k < |test.words| :: Word(test.words[k]) == req.verb
    case InNetwork =>
      && test.fetch.Var? && HasText(vars, test.fetch.name)
      && exists k | 0 <= k < |test.words| :: w.inside(vars[test.fetch.name].s, Word(test.words[k]))
    case IsFound => if test.fetch == HostHeader then req.header.Some? else test.fetch.Var? && test.fetch.name in vars
    case IsLong => test.fetch == HostHeader && req.header.Some? && req.header.value != []
    case HasBackslash => test.fetch == PathOf && '\\' in req.path
  }

  predicate AclHolds(w: World, req: Request, st: State, name: string) {
    name in st.acls && exists k | 0 <= k < |st.acls[name]| :: Holds(w, req, st.vars, st.acls[name][k])
  }

  predicate TermLoads(st: State, term: Term) {
    match term
    case Named(_, name) => name in st.acls
    case Inline(_, test) => AreReadable(test.words)
  }

  predicate TermHolds(w: World, req: Request, st: State, term: Term) {
    match term
    case Named(negated, name) => AclHolds(w, req, st, name) != negated
    case Inline(negated, test) => Holds(w, req, st.vars, test) != negated
  }

  predicate AllHold(w: World, req: Request, st: State, terms: seq<Term>) {
    forall k | 0 <= k < |terms| :: TermHolds(w, req, st, terms[k])
  }

  predicate AllLoad(st: State, terms: seq<Term>) {
    forall k | 0 <= k < |terms| :: TermLoads(st, terms[k])
  }

  predicate AnyHolds(w: World, req: Request, st: State, any: seq<seq<Term>>) {
    exists k | 0 <= k < |any| :: AllHold(w, req, st, any[k])
  }

  predicate CondLoads(st: State, cond: Cond) {
    cond.Always? || forall k | 0 <= k < |cond.any| :: AllLoad(st, cond.any[k])
  }

  predicate CondHolds(w: World, req: Request, st: State, cond: Cond) {
    match cond
    case Always => true
    case When(any) => AnyHolds(w, req, st, any)
    case Unless(any) => !AnyHolds(w, req, st, any)
  }

  // ---- running ----

  function Taken(w: World, req: Request, st: State, source: Source): Option<Datum> {
    match source
    case Constant(value) => Some(value)
    case HostWithPort =>
      if HasText(st.vars, "host") then Some(Text(st.vars["host"].s + ":" + Dec(req.port))) else None
    case CopyOf(name) => if name in st.vars then Some(st.vars[name]) else None
    case CleanHeader => if req.header.Some? then Some(Text(CleanHost(w, req.header.value))) else None
  }

  /** A query for `txn.host`; an answer goes to `txn.dst`, and a failure leaves it as it is. */
  function Resolved(w: World, st: State): State {
    if !HasText(st.vars, "host") then st
    else
      var asked := st.(queries := st.queries + 1);
      match w.answer(st.vars["host"].s, st.queries)
      case Some(address) => asked.(vars := asked.vars["dst" := Text(address)])
      case None => asked
  }

  function Perform(w: World, req: Request, instr: Instr, st: State): State {
    match instr
    case AclLine(name, test) =>
      st.(acls := st.acls[name := (if name in st.acls then st.acls[name] else []) + [test]])
    case SetVar(name, source, _) =>
      (match Taken(w, req, st, source)
       case Some(value) => st.(vars := st.vars[name := value])
       case None => st)
    case Deny(code, _) => st.(status := Denied(code))
    case Resolve(_) => Resolved(w, st)
    case SetDst => if HasText(st.vars, "dst") then st.(target := Some(st.vars["dst"].s)) else st
  }

  function CondOf(instr: Instr): Cond {
    match instr
    case SetVar(_, _, cond) => cond
    case Deny(_, cond) => cond
    case Resolve(cond) => cond
    case _ => Always
  }

  predicate Loads(st: State, instr: Instr) {
    if instr.AclLine? then AreReadable(instr.test.words) else CondLoads(st, CondOf(instr))
  }

  function Step(w: World, req: Request, instr: Instr, st: State): State {
    if st.status != Running then st
    else if !Loads(st, instr) then st.(status := Broken)
    else if CondHolds(w, req, st, CondOf(instr)) then Perform(w, req, instr, st)
    else st
  }

  function Run(w: World, req: Request, prog: seq<Instr>, st: State): State {
    if prog == [] then st else Run(w, req, prog[1..], Step(w, req, prog[0], st))
  }

  lemma RunOne(w: World, req: Request, instr: Instr, st: State)
    ensures Run(w, req, [instr], st) == Step(w, req, instr, st)
  {
  }

  lemma {:induction false} RunAppend(w: World, req: Request, a: seq<Instr>, b: seq<Instr>, st: State)
    ensures Run(w, req, a + b, st) == Run(w, req, b, Run(w, req, a, st))
  {
    hide Step;
    if a == [] {
      assert a + b == b;
    } else {
      assert (a + b)[1..] == a[1..] + b;
      RunAppend(w, req, a[1..], b, Step(w, req, a[0], st));
    }
  }

  lemma RunMore(w: World, req: Request, a: seq<Instr>, instr: Instr, st: State)
    ensures Run(w, req, a + [instr], st) == Step(w, req, instr, Run(w, req, a, st))
  {
    hide Step, Run;
    RunAppend(w, req, a, [instr], st);
    RunOne(w, req, instr, Run(w, req, a, st));
  }

  /** Nothing runs after a denial. */
  lemma {:induction false} StoppedStays(w: World, req: Request, prog: seq<Instr>, st: State)
    requires st.status != Running
    ensures Run(w, req, prog, st) == st
  {
    if prog != [] {
      StoppedStays(w, req, prog[1..], st);
    }
  }
}
