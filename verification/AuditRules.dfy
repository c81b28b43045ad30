/**
 * From what an audit run observed to the rules a restrict run needs
 * (src/core/lib/report/render/inspect-example.ts 33-208, src/core/lib/log/authority.ts 31-37).
 */
module AuditRules {
  import opened Decimal
  import opened Regex
  import opened RuleBlocks
  import opened RuleSets
  import opened Search
  import opened Sorting
  import opened Text

  /** What the log holds of one request; a field it does not hold is None. */
  datatype Event = Event(blocked: bool, url: Option<string>, verb: Option<string>, port: Option<nat>)

  /** `origin` is what a rule is written against: `https://host` or `https://host:9443`. */
  datatype Parsed = Parsed(origin: string, verb: string, path: string)

  datatype Part = OfMethod | OfHost | OfPath

  datatype Reading = Unread | LeftOut(verb: string, url: string, part: Part) | Writable(request: Parsed)

  // ---- one request ----

  predicate IsLiteralMethod(m: string) {
    m != [] && forall k | 0 <= k < |m| :: 'A' <= m[k] <= 'Z'
  }

  predicate IsLiteralLabel(part: string) {
    part != [] && forall k | 0 <= k < |part| :: IsAlnum(part[k]) || part[k] == '_' || part[k] == '-'
  }

  predicate IsLiteralHost(host: string) {
    var parts := Split(host, '.');
    forall k | 0 <= k < |parts| :: IsLiteralLabel(parts[k])
  }

  /** The host half of an authority. */
  function HostOf(authority: string): string {
    var colon := LastIndexOfChar(authority, ':');
    if colon <= 0 || ']' in authority[colon + 1..] then authority else authority[..colon]
  }

  function SchemeText(scheme: Scheme): string {
    if scheme == Https then "https" else "http"
  }

  function OriginText(scheme: Scheme, host: string, port: nat): string {
    SchemeText(scheme) + "://" + host + (if port == DefaultPort(scheme) then "" else ":" + Dec(port))
  }

  /** A URL's scheme, authority and target, the target without query and fragment. */
  function ReadUrl(url: string): Option<(Scheme, string, string)> {
    if !("https://" <= url || "http://" <= url) then None
    else
      var scheme := if "https://" <= url then Https else Http;
      var rest := url[|SchemeText(scheme)| + 3..];
      var k := IndexOfChar(rest, '/');
      var target := rest[k..];
      Some((scheme, rest[..k], target[..Min(IndexOfChar(target, '?'), IndexOfChar(target, '#'))]))
  }

  function ParseRequest(event: Event): Reading {
    if event.url == None || event.verb == None || event.port == None then Unread
    else
      match ReadUrl(event.url.value)
      case None => Unread
      case Some((scheme, authority, target)) =>
        var host := HostOf(authority);
        var path := if target == [] then "/" else target;
        var shown := SchemeText(scheme) + "://" + authority + path;
        if !IsLiteralMethod(event.verb.value) then LeftOut(event.verb.value, shown, OfMethod)
        else if !IsLiteralHost(host) then LeftOut(event.verb.value, shown, OfHost)
        else if '*' in path then LeftOut(event.verb.value, shown, OfPath)
        else Writable(Parsed(OriginText(scheme, host, event.port.value), event.verb.value, path))
  }

  function WritableOf(events: seq<Event>): seq<Parsed> {
    if events == [] then []
    else
      var rest, last := WritableOf(events[..|events| - 1]), events[|events| - 1];
      if !last.blocked && ParseRequest(last).Writable? then rest + [ParseRequest(last).request] else rest
  }

  /** A left-out request is shown once for its method and URL. */
  function KeyOf(reading: Reading): string
    requires reading.LeftOut?
  {
    reading.verb + " " + reading.url
  }

  /** Two are shown as one just where method and URL are the same; a method as logged has no space in it. */
  lemma KeysTell(a: Reading, b: Reading)
    requires a.LeftOut? && b.LeftOut? && ' ' !in a.verb && ' ' !in b.verb
    ensures KeyOf(a) == KeyOf(b) <==> a.verb == b.verb && a.url == b.url
  {
    var s, t := KeyOf(a), KeyOf(b);
    assert s[|a.verb|] == ' ' && t[|b.verb|] == ' ';
    assert forall k | 0 <= k < |a.verb| :: s[k] == a.verb[k] && a.verb[k] in a.verb;
    assert forall k | 0 <= k < |b.verb| :: t[k] == b.verb[k] && b.verb[k] in b.verb;
    assert s[..|a.verb|] == a.verb && t[..|b.verb|] == b.verb;
    assert s[|a.verb| + 1..] == a.url && t[|b.verb| + 1..] == b.url;
  }

  predicate IsLeftOut(event: Event) {
    !event.blocked && ParseRequest(event).LeftOut?
  }

  function LeftOutKeys(events: seq<Event>): seq<string> {
    if events == [] then []
    else
      var rest, last := LeftOutKeys(events[..|events| - 1]), events[|events| - 1];
      if IsLeftOut(last) then rest + [KeyOf(ParseRequest(last))] else rest
  }

  /** `reading` is what the `k`-th event gives, and none after it is shown as the same. */
  predicate IsLatest(events: seq<Event>, k: nat, reading: Reading)
    requires k < |events|
  {
    && IsLeftOut(events[k]) && ParseRequest(events[k]) == reading
    && forall j | k < j < |events| && IsLeftOut(events[j]) :: KeyOf(ParseRequest(events[j])) != KeyOf(reading)
  }

  predicate HasLatest(events: seq<Event>, reading: Reading) {
    exists k | 0 <= k < |events| :: IsLatest(events, k, reading)
  }

  lemma StaysLatest(events: seq<Event>, n: nat, reading: Reading)
    requires n < |events| && HasLatest(events[..n], reading) && reading.LeftOut?
    requires IsLeftOut(events[n]) ==> KeyOf(ParseRequest(events[n])) != KeyOf(reading)
    ensures HasLatest(events[..n + 1], reading)
  {
    hide ParseRequest, KeyOf;
    var k :| 0 <= k < n && IsLatest(events[..n], k, reading);
    forall j | k <= j < n ensures events[..n + 1][j] == events[..n][j] {
    }
    assert IsLatest(events[..n + 1], k, reading);
  }

  lemma IsItsLatest(events: seq<Event>, n: nat)
    requires n < |events| && IsLeftOut(events[n])
    ensures HasLatest(events[..n + 1], ParseRequest(events[n]))
  {
    hide ParseRequest, KeyOf;
    assert IsLatest(events[..n + 1], n, ParseRequest(events[n]));
  }

  /**
   * The requests a rule can be written from, and beside them those it cannot: one for each method
   * and URL, in the order they were first seen, each as it was seen last. A blocked request is neither.
   */
  method PartitionRequests(events: seq<Event>) returns (writable: seq<Parsed>, leftOut: seq<Reading>)
    ensures writable == WritableOf(events)
    ensures |leftOut| == |Distinct(LeftOutKeys(events))|
    ensures forall i | 0 <= i < |leftOut| ::
      leftOut[i].LeftOut? && KeyOf(leftOut[i]) == Distinct(LeftOutKeys(events))[i] && HasLatest(events, leftOut[i])
  {
    hide ParseRequest, KeyOf, HasLatest;
    writable := [];
    var order: seq<string>, shown: map<string, Reading> := [], map[];
    for n := 0 to |events|
      invariant writable == WritableOf(events[..n])
      invariant order == Distinct(LeftOutKeys(events[..n]))
      invariant forall key :: key in shown <==> key in order
      invariant forall key | key in shown ::
        shown[key].LeftOut? && KeyOf(shown[key]) == key && HasLatest(events[..n], shown[key])
    {
      assert events[..n + 1][..n] == events[..n] && events[..n + 1][n] == events[n];
      forall key | key in shown && (IsLeftOut(events[n]) ==> KeyOf(ParseRequest(events[n])) != key)
        ensures HasLatest(events[..n + 1], shown[key])
      {
        StaysLatest(events, n, shown[key]);
      }
      if events[n].blocked { continue; }
      var reading := ParseRequest(events[n]);
      match reading {
        case Unread =>
        case LeftOut(verb, url, _) =>
          var key := KeyOf(reading);
          IsItsLatest(events, n);
          DistinctMore(LeftOutKeys(events[..n]), key);
          if key !in shown {
            order := order + [key];
          }
          shown := shown[key := reading];
        case Writable(request) => writable := writable + [request];
      }
    }
    assert events[..|events|] == events;
    leftOut := seq(|order|, i requires 0 <= i < |order| => assert order[i] in order; shown[order[i]]);
  }

  lemma DistinctMore(xs: seq<string>, x: string)
    ensures Distinct(xs + [x]) == if x in Distinct(xs) then Distinct(xs) else Distinct(xs) + [x]
  {
    assert (xs + [x])[..|xs|] == xs;
  }

  /** The keys are in the order first seen: one of each was there before any of a later one. */
  lemma {:induction false} LeftOutInOrder(events: seq<Event>, i: nat, j: nat) returns (p: nat)
    requires i < j < |Distinct(LeftOutKeys(events))|
    ensures p < |events| && IsLeftOut(events[p]) && KeyOf(ParseRequest(events[p])) == Distinct(LeftOutKeys(events))[i]
    ensures forall q | 0 <= q <= p && IsLeftOut(events[q]) ::
      KeyOf(ParseRequest(events[q])) != Distinct(LeftOutKeys(events))[j]
  {
    hide ParseRequest, KeyOf;
    var n := |events| - 1;
    var before := events[..n];
    var keys := Distinct(LeftOutKeys(before));
    if IsLeftOut(events[n]) {
      DistinctMore(LeftOutKeys(before), KeyOf(ParseRequest(events[n])));
    }
    if j < |keys| {
      p := LeftOutInOrder(before, i, j);
      assert forall q | 0 <= q <= p :: before[q] == events[q];
    } else {
      p := KeyWasSeen(before, i);
      KeysAreAll(before);
      assert before[p] == events[p];
      forall q | 0 <= q <= p && IsLeftOut(events[q])
        ensures KeyOf(ParseRequest(events[q])) != Distinct(LeftOutKeys(events))[j]
      {
        assert before[q] == events[q];
      }
    }
  }

  lemma {:induction false} KeyWasSeen(events: seq<Event>, i: nat) returns (p: nat)
    requires i < |Distinct(LeftOutKeys(events))|
    ensures p < |events| && IsLeftOut(events[p]) && KeyOf(ParseRequest(events[p])) == Distinct(LeftOutKeys(events))[i]
  {
    hide ParseRequest, KeyOf;
    var n := |events| - 1;
    var before := events[..n];
    if IsLeftOut(events[n]) {
      DistinctMore(LeftOutKeys(before), KeyOf(ParseRequest(events[n])));
    }
    if i < |Distinct(LeftOutKeys(before))| {
      p := KeyWasSeen(before, i);
    } else {
      p := n;
    }
  }

  lemma {:induction false} KeysAreAll(events: seq<Event>)
    ensures forall q | 0 <= q < |events| && IsLeftOut(events[q]) ::
      KeyOf(ParseRequest(events[q])) in Distinct(LeftOutKeys(events))
  {
    hide ParseRequest, KeyOf;
    if events != [] {
      var n := |events| - 1;
      KeysAreAll(events[..n]);
      if IsLeftOut(events[n]) {
        DistinctMore(LeftOutKeys(events[..n]), KeyOf(ParseRequest(events[n])));
      }
      forall q | 0 <= q < n && IsLeftOut(events[q])
        ensures KeyOf(ParseRequest(events[q])) in Distinct(LeftOutKeys(events))
      {
        assert events[..n][q] == events[q];
      }
    }
  }

  // ---- the patterns of one group of paths ----

  function Segments(path: string): seq<string> {
    Split(path, '/')[1..]
  }

  /** How many segments two lists share from the left. */
  function Shared(a: seq<string>, b: seq<string>): (n: nat)
    ensures n <= |a| && n <= |b| && a[..n] == b[..n]
    ensures n == |a| || n == |b| || a[n] != b[n]
  {
    if a == [] || b == [] || a[0] != b[0] then 0
    else
      var n := Shared(a[1..], b[1..]);
      assert a[..n + 1] == [a[0]] + a[1..][..n] && b[..n + 1] == [b[0]] + b[1..][..n];
      1 + n
  }

  function CommonOf(paths: seq<string>): seq<string>
    requires paths != []
  {
    if |paths| == 1 then Segments(paths[0])
    else
      var rest := CommonOf(paths[..|paths| - 1]);
      rest[..Shared(rest, Segments(paths[|paths| - 1]))]
  }

  method CommonPrefixSegments(paths: seq<string>) returns (prefix: seq<string>)
    requires paths != []
    ensures prefix == CommonOf(paths)
  {
    hide Segments;
    prefix := Segments(paths[0]);
    assert paths[..1] == [paths[0]];
    for k := 1 to |paths|
      invariant prefix == CommonOf(paths[..k])
    {
      var segments := Segments(paths[k]);
      var i := 0;
      while i < |prefix| && i < |segments| && prefix[i] == segments[i]
        invariant i <= |prefix| && i <= |segments| && prefix[..i] == segments[..i]
      {
        i := i + 1;
      }
      SharedIs(prefix, segments, i);
      assert paths[..k + 1][..k] == paths[..k];
      prefix := prefix[..i];
    }
    assert paths[..|paths|] == paths;
  }

  lemma SharedIs(a: seq<string>, b: seq<string>, i: nat)
    requires i <= |a| && i <= |b| && a[..i] == b[..i] && (i == |a| || i == |b| || a[i] != b[i])
    ensures Shared(a, b) == i
  {
    SameUpTo(a, b, i);
    SameUpTo(a, b, Shared(a, b));
  }

  lemma SameUpTo(a: seq<string>, b: seq<string>, n: nat)
    requires n <= |a| && n <= |b| && a[..n] == b[..n]
    ensures forall k | 0 <= k < n :: a[k] == b[k]
  {
    assert forall k | 0 <= k < n :: a[k] == a[..n][k];
  }

  function SortedDistinct(paths: seq<string>): seq<string> {
    Sort((s: string, t: string) => Before(s, t), Distinct(paths))
  }

  function BaseOf(prefix: seq<string>): string {
    "/" + Join(prefix, "/")
  }

  /** The patterns covering a group of observed paths: usually one. */
  function PatternsFor(paths: seq<string>): seq<string> {
    var distinct := SortedDistinct(paths);
    if |distinct| <= 1 then distinct
    else
      var prefix := CommonOf(distinct);
      if prefix == [] then ["/**"]
      else
        var base := BaseOf(prefix);
        (if base in distinct then [base] else []) + [base + "/**"]
  }

  method PathPatternsFor(paths: seq<string>) returns (patterns: seq<string>)
    ensures patterns == PatternsFor(paths)
  {
    var distinct := SortedDistinct(paths);
    if |distinct| <= 1 { return distinct; }
    var prefix := CommonPrefixSegments(distinct);
    if prefix == [] { return ["/**"]; }
    var base := BaseOf(prefix);
    patterns := [base + "/**"];
    if base in distinct {
      patterns := [base] + patterns;
    }
  }

  // ---- the rules ----

  /** Where a method stands in the conventional order; after all of it where it has no place. */
  function Place(m: string): nat {
    if m == "GET" then 0 else if m == "HEAD" then 1 else if m == "POST" then 2 else if m == "PUT" then 3
    else if m == "PATCH" then 4 else if m == "DELETE" then 5 else if m == "OPTIONS" then 6 else 7
  }

  predicate MethodBefore(a: string, b: string) {
    Place(a) < Place(b) || (Place(a) == Place(b) && Before(a, b))
  }

  function SortMethods(methods: seq<string>): seq<string> {
    Sort((a: string, b: string) => MethodBefore(a, b), Distinct(methods))
  }

  datatype Entry = Entry(origin: string, pattern: string, methods: seq<string>)

  predicate EntryBefore(a: Entry, b: Entry) {
    Before(a.origin, b.origin) || (a.origin == b.origin && Before(a.pattern, b.pattern))
  }

  function Line(e: Entry): string {
    Join(SortMethods(e.methods), "|") + " " + e.origin + e.pattern
  }

  function Lines(entries: seq<Entry>): seq<string> {
    seq(|entries|, i requires 0 <= i < |entries| => Line(entries[i]))
  }

  /** The paths a method reached at an origin. */
  function PathsOf(requests: seq<Parsed>, origin: string, verb: string): seq<string> {
    if requests == [] then []
    else
      var last := requests[|requests| - 1];
      PathsOf(requests[..|requests| - 1], origin, verb) +
        if last.origin == origin && last.verb == verb then [last.path] else []
  }

  /** The method was seen at the origin, and its paths there give the pattern. */
  predicate Gives(requests: seq<Parsed>, origin: string, verb: string, pattern: string) {
    pattern in PatternsFor(PathsOf(requests, origin, verb))
  }

  predicate HasEntry(entries: seq<Entry>, origin: string, pattern: string) {
    exists k | 0 <= k < |entries| :: entries[k].origin == origin && entries[k].pattern == pattern
  }

  /** One rule for each origin and pattern, with exactly the methods whose own paths gave that pattern. */
  ghost predicate AreRulesOf(entries: seq<Entry>, requests: seq<Parsed>) {
    && (forall k | 0 <= k < |entries| :: entries[k].methods != [])
    && (forall k, m: string | 0 <= k < |entries| ::
         m in entries[k].methods <==> Gives(requests, entries[k].origin, m, entries[k].pattern))
    && (forall origin: string, verb: string, pattern: string ::
         Gives(requests, origin, verb, pattern) ==> HasEntry(entries, origin, pattern))
    && (forall j, k | 0 <= j < k < |entries| ::
         || Before(entries[j].origin, entries[k].origin)
         || (entries[j].origin == entries[k].origin && Before(entries[j].pattern, entries[k].pattern)))
  }

  // ---- grouping by origin and method ----

  type Key = (string, string)

  ghost predicate Grouped(requests: seq<Parsed>, keys: seq<Key>, paths: map<Key, seq<string>>) {
    && (forall key | key in paths :: paths[key] == PathsOf(requests, key.0, key.1) && paths[key] != [])
    && (forall key: Key | PathsOf(requests, key.0, key.1) != [] :: key in paths)
    && (forall i, j | 0 <= i < j < |keys| :: keys[i] != keys[j])
    && (forall key :: key in paths <==> key in keys)
  }

  method GroupRequests(requests: seq<Parsed>) returns (keys: seq<Key>, paths: map<Key, seq<string>>)
    ensures Grouped(requests, keys, paths)
  {
    keys, paths := [], map[];
    assert Grouped(requests[..0], keys, paths);
    for k := 0 to |requests|
      invariant Grouped(requests[..k], keys, paths)
    {
      var key := (requests[k].origin, requests[k].verb);
      GroupStep(requests, k, keys, paths);
      if key in paths {
        paths := paths[key := paths[key] + [requests[k].path]];
      } else {
        keys := keys + [key];
        paths := paths[key := [requests[k].path]];
      }
    }
    assert requests[..|requests|] == requests;
  }

  lemma PathsStep(requests: seq<Parsed>, k: nat, key: Key)
    requires k < |requests|
    ensures PathsOf(requests[..k + 1], key.0, key.1) ==
      PathsOf(requests[..k], key.0, key.1) + if key == (requests[k].origin, requests[k].verb) then [requests[k].path] else []
  {
    var now := requests[..k + 1];
    assert now[..|now| - 1] == requests[..k] && now[|now| - 1] == requests[k];
  }

  lemma GroupStep(requests: seq<Parsed>, k: nat, keys: seq<Key>, paths: map<Key, seq<string>>)
    requires k < |requests| && Grouped(requests[..k], keys, paths)
    ensures var key := (requests[k].origin, requests[k].verb);
      if key in paths then Grouped(requests[..k + 1], keys, paths[key := paths[key] + [requests[k].path]])
      else Grouped(requests[..k + 1], keys + [key], paths[key := [requests[k].path]])
  {
    hide PathsOf;
    var key := (requests[k].origin, requests[k].verb);
    forall other: Key
      ensures PathsOf(requests[..k + 1], other.0, other.1) ==
        PathsOf(requests[..k], other.0, other.1) + if other == key then [requests[k].path] else []
    {
      PathsStep(requests, k, other);
    }
    if key !in paths {
      assert PathsOf(requests[..k], key.0, key.1) == [];
      assert [] + [requests[k].path] == [requests[k].path];
      assert forall other :: other in keys + [key] <==> other in keys || other == key;
    }
  }

  // ---- grouping by origin and pattern ----

  /** `methods` lists the groups among the first `n` keys whose paths gave the pattern. */
  ghost predicate Among(keys: seq<Key>, n: nat, paths: map<Key, seq<string>>, at: Key, m: string)
    requires n <= |keys| && forall k | 0 <= k < |keys| :: keys[k] in paths
  {
    exists i | 0 <= i < n :: keys[i] == (at.0, m) && at.1 in PatternsFor(paths[keys[i]])
  }

  ghost predicate Merged(keys: seq<Key>, n: nat, paths: map<Key, seq<string>>, order: seq<Key>, methods: map<Key, seq<string>>)
    requires n <= |keys| && forall k | 0 <= k < |keys| :: keys[k] in paths
  {
    && (forall at | at in methods :: methods[at] != [])
    && (forall at, m | at in methods :: m in methods[at] <==> Among(keys, n, paths, at, m))
    && (forall at: Key, m: string | Among(keys, n, paths, at, m) :: at in methods)
    && (forall i, j | 0 <= i < j < |order| :: order[i] != order[j])
    && (forall at :: at in methods <==> at in order)
  }

  /** As `Merged`, with the first `p` patterns of the next key taken in as well. */
  ghost predicate MergedPart(keys: seq<Key>, n: nat, paths: map<Key, seq<string>>, p: nat, order: seq<Key>,
    methods: map<Key, seq<string>>)
    requires n < |keys| && (forall k | 0 <= k < |keys| :: keys[k] in paths) && p <= |PatternsFor(paths[keys[n]])|
  {
    && (forall at | at in methods :: methods[at] != [])
    && (forall at, m | at in methods :: m in methods[at] <==> AmongPart(keys, n, paths, p, at, m))
    && (forall at: Key, m: string | AmongPart(keys, n, paths, p, at, m) :: at in methods)
    && (forall i, j | 0 <= i < j < |order| :: order[i] != order[j])
    && (forall at :: at in methods <==> at in order)
  }

  ghost predicate AmongPart(keys: seq<Key>, n: nat, paths: map<Key, seq<string>>, p: nat, at: Key, m: string)
    requires n < |keys| && (forall k | 0 <= k < |keys| :: keys[k] in paths) && p <= |PatternsFor(paths[keys[n]])|
  {
    Among(keys, n, paths, at, m) || (keys[n] == (at.0, m) && at.1 in PatternsFor(paths[keys[n]])[..p])
  }

  lemma TakeOne(keys: seq<Key>, n: nat, paths: map<Key, seq<string>>, p: nat, next: nat, order: seq<Key>,
    methods: map<Key, seq<string>>)
    requires n < |keys| && (forall k | 0 <= k < |keys| :: keys[k] in paths) && p < |PatternsFor(paths[keys[n]])|
    requires MergedPart(keys, n, paths, p, order, methods) && next == p + 1
    ensures var at := (keys[n].0, PatternsFor(paths[keys[n]])[p]);
      if at in methods then MergedPart(keys, n, paths, next, order, methods[at := methods[at] + [keys[n].1]])
      else MergedPart(keys, n, paths, next, order + [at], methods[at := [keys[n].1]])
  {
    hide PatternsFor, Among;
    var patterns := PatternsFor(paths[keys[n]]);
    var at: Key, verb := (keys[n].0, patterns[p]), keys[n].1;
    forall other: Key, m: string
      ensures AmongPart(keys, n, paths, next, other, m) <==>
        AmongPart(keys, n, paths, p, other, m) || (other == at && m == verb)
    {
      assert patterns[..p + 1] == patterns[..p] + [patterns[p]];
    }
    var methods' := methods[at := (if at in methods then methods[at] else []) + [verb]];
    assert at !in methods ==> [] + [verb] == [verb];
    forall other, m | other in methods' ensures m in methods'[other] <==> AmongPart(keys, n, paths, next, other, m) {
      assert other != at ==> other in methods;
      assert other == at && at !in methods ==> !AmongPart(keys, n, paths, p, at, m);
    }
    if at !in methods {
      assert forall other :: other in order + [at] <==> other in order || other == at;
    }
  }

  lemma StartPart(keys: seq<Key>, n: nat, paths: map<Key, seq<string>>, order: seq<Key>, methods: map<Key, seq<string>>)
    requires n < |keys| && (forall k | 0 <= k < |keys| :: keys[k] in paths) && Merged(keys, n, paths, order, methods)
    ensures MergedPart(keys, n, paths, 0, order, methods)
  {
    hide PatternsFor, Among;
    forall at: Key, m: string ensures AmongPart(keys, n, paths, 0, at, m) <==> Among(keys, n, paths, at, m) {
    }
  }

  lemma EndPart(keys: seq<Key>, n: nat, next: nat, paths: map<Key, seq<string>>, p: nat, order: seq<Key>,
    methods: map<Key, seq<string>>)
    requires n < |keys| && next == n + 1 && (forall k | 0 <= k < |keys| :: keys[k] in paths)
    requires p == |PatternsFor(paths[keys[n]])| && MergedPart(keys, n, paths, p, order, methods)
    ensures Merged(keys, next, paths, order, methods)
  {
    hide PatternsFor, Among, AmongPart;
    forall at: Key, m: string
      ensures AmongPart(keys, n, paths, p, at, m) <==> Among(keys, next, paths, at, m)
    {
      AmongNext(keys, n, paths, at, m);
    }
  }

  lemma AmongNext(keys: seq<Key>, n: nat, paths: map<Key, seq<string>>, at: Key, m: string)
    requires n < |keys| && (forall k | 0 <= k < |keys| :: keys[k] in paths)
    ensures AmongPart(keys, n, paths, |PatternsFor(paths[keys[n]])|, at, m) <==> Among(keys, n + 1, paths, at, m)
  {
    hide PatternsFor;
    var patterns := PatternsFor(paths[keys[n]]);
    assert patterns[..|patterns|] == patterns;
    if Among(keys, n + 1, paths, at, m) {
      var i :| 0 <= i < n + 1 && keys[i] == (at.0, m) && at.1 in PatternsFor(paths[keys[i]]);
      if i < n {
        assert Among(keys, n, paths, at, m);
      }
    }
    if Among(keys, n, paths, at, m) {
      var i :| 0 <= i < n && keys[i] == (at.0, m) && at.1 in PatternsFor(paths[keys[i]]);
      assert Among(keys, n + 1, paths, at, m);
    }
  }

  method MergePatterns(keys: seq<Key>, paths: map<Key, seq<string>>) returns (order: seq<Key>, methods: map<Key, seq<string>>)
    requires forall k | 0 <= k < |keys| :: keys[k] in paths
    ensures Merged(keys, |keys|, paths, order, methods)
  {
    hide MergedPart, PatternsFor;
    order, methods := [], map[];
    assert Merged(keys, 0, paths, order, methods);
    for n := 0 to |keys|
      invariant Merged(keys, n, paths, order, methods)
    {
      StartPart(keys, n, paths, order, methods);
      var patterns := PathPatternsFor(paths[keys[n]]);
      for p := 0 to |patterns|
        invariant MergedPart(keys, n, paths, p, order, methods)
      {
        TakeOne(keys, n, paths, p, p + 1, order, methods);
        var at: Key := (keys[n].0, patterns[p]);
        if at in methods {
          methods := methods[at := methods[at] + [keys[n].1]];
        } else {
          order := order + [at];
          methods := methods[at := [keys[n].1]];
        }
      }
      EndPart(keys, n, n + 1, paths, |patterns|, order, methods);
    }
  }

  // ---- the lines ----

  lemma EntriesAreOrdered()
    ensures IsOrder((a: Entry, b: Entry) => EntryBefore(a, b))
  {
    var less := (a: Entry, b: Entry) => EntryBefore(a, b);
    forall x, y | less(x, y) ensures !less(y, x) {
      BeforeIsTotal(x.origin, y.origin);
      BeforeIsTotal(x.pattern, y.pattern);
    }
    forall x, y, z | less(x, z) ensures less(x, y) || less(y, z) {
      BeforeIsTotal(x.origin, y.origin);
      BeforeIsTotal(y.origin, z.origin);
      if Before(x.origin, z.origin) {
        BeforeIsOrder(x.origin, y.origin, z.origin);
      } else {
        BeforeIsOrder(x.pattern, y.pattern, z.pattern);
      }
    }
  }

  lemma MembersOf(requests: seq<Parsed>, keys: seq<Key>, paths: map<Key, seq<string>>, at: Key, m: string)
    requires Grouped(requests, keys, paths)
    ensures Among(keys, |keys|, paths, at, m) <==> Gives(requests, at.0, m, at.1)
  {
    hide PatternsFor, PathsOf;
    if Among(keys, |keys|, paths, at, m) {
      var i :| 0 <= i < |keys| && keys[i] == (at.0, m) && at.1 in PatternsFor(paths[keys[i]]);
    }
    if Gives(requests, at.0, m, at.1) {
      assert PathsOf(requests, at.0, m) != [] by { NoPatterns(); }
      assert (at.0, m) in keys;
      var i :| 0 <= i < |keys| && keys[i] == (at.0, m);
    }
  }

  lemma NoPatterns()
    ensures PatternsFor([]) == []
  {
  }

  /** The entries of `order`, which sorting then puts in line. */
  function Entries(order: seq<Key>, methods: map<Key, seq<string>>): seq<Entry>
    requires forall k | 0 <= k < |order| :: order[k] in methods
  {
    seq(|order|, i requires 0 <= i < |order| => Entry(order[i].0, order[i].1, methods[order[i]]))
  }

  lemma SortedEntries(requests: seq<Parsed>, keys: seq<Key>, paths: map<Key, seq<string>>, order: seq<Key>,
    methods: map<Key, seq<string>>, entries: seq<Entry>)
    requires Grouped(requests, keys, paths) && Merged(keys, |keys|, paths, order, methods)
    requires forall k | 0 <= k < |order| :: order[k] in methods
    requires entries == Sort((a: Entry, b: Entry) => EntryBefore(a, b), Entries(order, methods))
    ensures AreRulesOf(entries, requests)
  {
    hide PatternsFor, PathsOf, Sort, Grouped, Among, EntryBefore, Gives;
    var less := (a: Entry, b: Entry) => EntryBefore(a, b);
    var all := Entries(order, methods);
    SortMembers(less, all);
    forall k | 0 <= k < |entries| ensures entries[k].methods != [] {
      var i := PlaceOf(all, entries, k);
    }
    forall k, m: string | 0 <= k < |entries|
      ensures m in entries[k].methods <==> Gives(requests, entries[k].origin, m, entries[k].pattern)
    {
      var i := PlaceOf(all, entries, k);
      MembersOf(requests, keys, paths, order[i], m);
    }
    forall origin: string, verb: string, pattern: string | Gives(requests, origin, verb, pattern)
      ensures HasEntry(entries, origin, pattern)
    {
      MembersOf(requests, keys, paths, (origin, pattern), verb);
      assert (origin, pattern) in order;
      var i :| 0 <= i < |order| && order[i] == (origin, pattern);
      assert all[i] in entries;
      var k :| 0 <= k < |entries| && entries[k] == all[i];
    }
    forall j, k | 0 <= j < k < |entries|
      ensures Before(entries[j].origin, entries[k].origin) ||
        (entries[j].origin == entries[k].origin && Before(entries[j].pattern, entries[k].pattern))
    {
      EntriesInOrder(order, methods, j, k);
    }
  }

  lemma PlaceOf(all: seq<Entry>, entries: seq<Entry>, k: nat) returns (i: nat)
    requires k < |entries| && entries[k] in all
    ensures i < |all| && all[i] == entries[k]
  {
    i :| i < |all| && all[i] == entries[k];
  }

  lemma EntriesInOrder(order: seq<Key>, methods: map<Key, seq<string>>, j: nat, k: nat)
    requires forall i | 0 <= i < |order| :: order[i] in methods
    requires forall i, l | 0 <= i < l < |order| :: order[i] != order[l]
    requires j < k < |Sort((a: Entry, b: Entry) => EntryBefore(a, b), Entries(order, methods))|
    ensures var s := Sort((a: Entry, b: Entry) => EntryBefore(a, b), Entries(order, methods));
      Before(s[j].origin, s[k].origin) || (s[j].origin == s[k].origin && Before(s[j].pattern, s[k].pattern))
  {
    hide Sort;
    var less := (a: Entry, b: Entry) => EntryBefore(a, b);
    var s := Sort(less, Entries(order, methods));
    EntriesAreOrdered();
    SortInOrder(less, Entries(order, methods));
    DistinctEntries(order, methods, less, j, k);
    assert !less(s[k], s[j]);
    BeforeIsTotal(s[j].origin, s[k].origin);
    BeforeIsTotal(s[j].pattern, s[k].pattern);
  }

  /** No two entries are for one origin and pattern. */
  lemma DistinctEntries(order: seq<Key>, methods: map<Key, seq<string>>, less: (Entry, Entry) -> bool, j: nat, k: nat)
    requires forall i | 0 <= i < |order| :: order[i] in methods
    requires forall i, l | 0 <= i < l < |order| :: order[i] != order[l]
    requires j < k < |Sort(less, Entries(order, methods))|
    ensures var s := Sort(less, Entries(order, methods)); (s[j].origin, s[j].pattern) != (s[k].origin, s[k].pattern)
  {
    hide Sort;
    var all := Entries(order, methods);
    var s := Sort(less, all);
    SortPermutes(less, all);
    SortMembers(less, all);
    assert s[j] in all && s[k] in all;
    var a :| 0 <= a < |all| && all[a] == s[j];
    var b :| 0 <= b < |all| && all[b] == s[k];
    assert forall i, l | 0 <= i < l < |all| :: all[i] != all[l];
    StaysDistinct(all, s, a, j, k);
    assert a != b;
    assert order[a] != order[b];
  }

  /** One line per rule, in a stable order. */
  method RuleLinesFrom(requests: seq<Parsed>) returns (lines: seq<string>, ghost entries: seq<Entry>)
    ensures lines == Lines(entries) && AreRulesOf(entries, requests)
  {
    hide AreRulesOf, Sort, Line;
    var keys, paths := GroupRequests(requests);
    assert forall k | 0 <= k < |keys| :: keys[k] in paths;
    var order, methods := MergePatterns(keys, paths);
    assert forall k | 0 <= k < |order| :: order[k] in methods;
    var sorted := Sort((a: Entry, b: Entry) => EntryBefore(a, b), Entries(order, methods));
    SortedEntries(requests, keys, paths, order, methods, sorted);
    lines, entries := Lines(sorted), sorted;
  }
}
