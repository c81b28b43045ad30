/**
 * From audit to restrict and back: every request a rule could be written from is allowed when the
 * printed lines are parsed and compiled, and nothing else is allowed than what the paths seen share.
 */
module AuditRoundTrip {
  import opened AuditRules
  import opened Decimal
  import opened Haproxy
  import opened Matchers
  import opened Regex
  import opened RequestUrls
  import opened ResolverAgreement
  import opened RawRules
  import opened RuleBlocks
  import opened RuleLines
  import opened RuleSets
  import opened Search
  import opened Sorting
  import opened Text
  import opened UrlRules
  import opened Wildcards

  // ---- what was observed ----

  /** A path a request line can carry and no rule reads as a pattern. */
  predicate IsPlainPath(path: string) {
    "/" <= path && forall k | 0 <= k < |path| :: path[k] !in "*?#" && !IsSpace(path[k])
  }

  /** The request is one sent by `verb` to this host and port, at this path. */
  predicate IsObserved(r: Parsed, scheme: Scheme, host: string, port: nat) {
    && r.origin == OriginText(scheme, host, port) && 1 <= port <= 65535
    && IsLiteralHost(host) && IsLiteralMethod(r.verb) && IsPlainPath(r.path)
  }

  ghost predicate WasObserved(r: Parsed) {
    exists scheme, host, port :: IsObserved(r, scheme, host, port)
  }

  ghost predicate AreObserved(requests: seq<Parsed>) {
    forall k | 0 <= k < |requests| :: WasObserved(requests[k])
  }

  /** What the proxy logs: a port it was connected to, and a URL in one word. */
  predicate IsLogged(event: Event) {
    (event.port.Some? ==> 1 <= event.port.value <= 65535) && (event.url.Some? ==> NoSpaceIn(event.url.value))
  }

  predicate AreLogged(events: seq<Event>) {
    forall k | 0 <= k < |events| :: IsLogged(events[k])
  }

  /** The event is a request that was let through, to a URL of these parts, and rules can name all it asked for. */
  predicate IsRequestTo(event: Event, url: Url) {
    && !event.blocked && event.url == Some(url.Written()) && event.verb.Some? && event.port.Some?
    && url.IsParts() && IsLiteralMethod(event.verb.value) && IsLiteralHost(url.host) && '*' !in url.path
  }

  /** What is read out of it is what its URL and its port say. */
  lemma WritableIsObserved(event: Event, url: Url)
    requires IsRequestTo(event, url) && IsLogged(event)
    ensures ParseRequest(event) == Writable(Parsed(OriginText(url.scheme, url.host, event.port.value), event.verb.value, url.Asked()))
    ensures IsObserved(ParseRequest(event).request, url.scheme, url.host, event.port.value)
  {
    hide OriginText, IsLiteralHost, IsLiteralMethod, ParseRequest;
    RequestIs(url, event);
    PathHasNoSpace(url);
    AskedIsPlain(url);
  }

  lemma PathHasNoSpace(url: Url)
    requires NoSpaceIn(url.Written())
    ensures NoSpaceIn(url.path)
  {
    var head := SchemeText(url.scheme) + "://";
    NoSpaceJoin(head, (url.host + url.header) + (url.path + url.query));
    NoSpaceJoin(url.host + url.header, url.path + url.query);
    NoSpaceJoin(url.path, url.query);
  }

  lemma AskedIsPlain(url: Url)
    requires url.IsParts() && '*' !in url.path && NoSpaceIn(url.path)
    ensures IsPlainPath(url.Asked())
  {
    var path := url.Asked();
    forall k | 0 <= k < |path| ensures path[k] !in "*?#" && !IsSpace(path[k]) {
      assert url.path != "" ==> path[k] in url.path;
    }
  }

  /** And nothing else is written from. */
  lemma WritableHasUrl(event: Event) returns (url: Url)
    requires !event.blocked && ParseRequest(event).Writable?
    ensures IsRequestTo(event, url)
  {
    hide IsLiteralHost, IsLiteralMethod, OriginText, HostOf;
    assert ReadUrl(event.url.value).Some?;
    url := UrlHasParts(event.url.value);
    RequestIs(url, event);
  }

  /** The `k`-th event gives a request rules are written from. */
  predicate IsWritable(events: seq<Event>, k: nat) {
    k < |events| && !events[k].blocked && ParseRequest(events[k]).Writable?
  }

  lemma {:induction false} WritableIsThere(events: seq<Event>, k: nat) returns (i: nat)
    requires IsWritable(events, k)
    ensures i < |WritableOf(events)| && WritableOf(events)[i] == ParseRequest(events[k]).request
  {
    hide ParseRequest;
    var n := |events| - 1;
    if k == n {
      i := |WritableOf(events[..n])|;
    } else {
      i := WritableIsThere(events[..n], k);
    }
  }

  lemma {:induction false} WritableCameFrom(events: seq<Event>, i: nat) returns (k: nat)
    requires i < |WritableOf(events)|
    ensures IsWritable(events, k) && WritableOf(events)[i] == ParseRequest(events[k]).request
  {
    hide ParseRequest;
    var n := |events| - 1;
    if i < |WritableOf(events[..n])| {
      k := WritableCameFrom(events[..n], i);
    } else {
      k := n;
    }
  }

  /** Whatever the timeline, what rules are written from was observed. */
  lemma EventsAreObserved(events: seq<Event>)
    requires AreLogged(events)
    ensures AreObserved(WritableOf(events))
  {
    hide ParseRequest, IsLogged, IsObserved, IsRequestTo;
    forall i | 0 <= i < |WritableOf(events)|
      ensures WasObserved(WritableOf(events)[i])
    {
      var k := WritableCameFrom(events, i);
      assert IsLogged(events[k]);
      var url := WritableHasUrl(events[k]);
      WritableIsObserved(events[k], url);
      HasItsParts(events[k], url);
      assert IsObserved(WritableOf(events)[i], url.scheme, url.host, events[k].port.value);
    }
  }

  lemma HasItsParts(event: Event, url: Url)
    requires IsRequestTo(event, url)
    ensures event.verb.Some? && event.port.Some? && IsLiteralHost(url.host)
  {
  }

  // ---- reading a line back ----

  /** What a rule's path may be: no query, no fragment, no space, though it may end in a wildcard. */
  predicate IsPattern(pattern: string) {
    "/" <= pattern && forall k | 0 <= k < |pattern| :: pattern[k] !in "?#" && !IsSpace(pattern[k])
  }

  lemma PatternIsUrlPath(pattern: string)
    requires IsPattern(pattern)
    ensures pattern != "" && IsUrlPath(pattern) && !CarriesQuery(pattern) && NoSpaceIn(pattern)
  {
    assert forall k | 0 <= k < |pattern| :: pattern[k] != '#' && pattern[k] != '\n' && pattern[k] != '?';
  }

  /** An origin as rules are printed with it: its host, and its port where the scheme does not imply it. */
  lemma OriginParts(scheme: Scheme, host: string, port: nat, pattern: string) returns (suffix: string, written: string)
    requires 1 <= port <= 65535
    ensures OriginText(scheme, host, port) + pattern == SchemeText(scheme) + "://" + (host + suffix) + pattern
    ensures IsPortSuffix(suffix, written) && written != "*"
    ensures (if written == "" then Dec(DefaultPort(scheme)) else written) == Dec(port)
  {
    hide Dec, IsPort;
    PortIsPort(port);
    if port == DefaultPort(scheme) {
      suffix, written := "", "";
      assert host + "" == host && OriginText(scheme, host, port) == SchemeText(scheme) + "://" + host;
    } else {
      suffix, written := ":" + Dec(port), Dec(port);
      assert OriginText(scheme, host, port) == SchemeText(scheme) + "://" + (host + suffix);
    }
  }

  lemma UrlCompilesBack(scheme: Scheme, host: string, port: nat, pattern: string)
    requires IsLiteralHost(host) && 1 <= port <= 65535 && IsPattern(pattern)
    ensures var url := OriginText(scheme, host, port) + pattern;
      && CompileUrl(url) == Some((scheme, "^" + HostText(host) + ":" + Dec(port) + "$", PatternRegex(pattern)))
      && url != [] && url[0] == 'h' && NoSpaceIn(url)
  {
    hide CompileUrl, PatternRegex, HostText, Dec, IsPort, IsLiteralHost, OriginText, CarriesQuery, GoodDomain, IsUrlPath;
    LiteralHostChars(host);
    DomainChars(host);
    PatternIsUrlPath(pattern);
    var suffix, written := OriginParts(scheme, host, port, pattern);
    SuffixChars(suffix, written);
    UrlCompiles(scheme, host, suffix, written, pattern);
    var head := SchemeText(scheme) + "://";
    assert NoSpaceIn(head);
    NoSpaceJoin(host, suffix);
    NoSpaceJoin(head, host + suffix);
    NoSpaceJoin(head + (host + suffix), pattern);
  }

  /** A printed line parses to the rule it was printed from. */
  lemma LineReadsBack(checks: Checks, e: Entry, scheme: Scheme, host: string, port: nat)
    requires e.origin == OriginText(scheme, host, port) && IsLiteralHost(host) && 1 <= port <= 65535 && IsPattern(e.pattern)
    requires AreMethods(SortMethods(e.methods))
    ensures ConvertUrlRule(checks, Line(e)) == Some(UrlRule(Some(SortMethods(e.methods)), scheme,
      "^" + HostText(host) + ":" + Dec(port) + "$", PatternRegex(e.pattern)))
  {
    hide SortMethods, AreMethods, ParseMethods, CompileUrl, Trim, TrimStart, IndexOfSpace, IsLiteralHost, OriginText, HostText, Dec,
      PatternRegex;
    var spec, url := Join(SortMethods(e.methods), "|"), e.origin + e.pattern;
    MethodsReadBack(SortMethods(e.methods));
    UrlCompilesBack(scheme, host, port, e.pattern);
    assert Line(e) == "" + (spec + " " + url) + "";
    LineParts("", spec, " ", url, "");
  }

  // ---- what the compiled rule accepts ----

  // base/** takes base/ and whatever follows it on the line.
  lemma PrefixFits(base: string, s: string)
    requires '*' !in base && '?' !in base && OneLine(s)
    ensures Fits(Globs(base + "/**"), Paths, s, false) <==> base + "/" <= s
  {
    var t := base + "/";
    assert base + "/**" == t + "**";
    GlobsOfLiteral(t, "**");
    assert Globs("**") == [Across] by { assert "**"[2..] == []; }
    hide Globs;
    FitsAfterLiteral(t, [Across], Paths, s, false);
    if |t| <= |s| {
      var rest := s[|t|..];
      AcrossFits(rest);
      SameExactly(t, s);
    }
  }

  lemma AcrossFits(rest: string)
    requires OneLine(rest)
    ensures Fits([Across], Paths, rest, false)
  {
    var gs := [Across];
    assert gs[1..] == [] && rest[..|rest|] == rest && rest[|rest|..] == [];
    assert Takes(gs[0], Paths, rest[..|rest|], false) && Fits(gs[1..], Paths, rest[|rest|..], false);
  }

  // ---- the patterns cover the paths ----

  lemma SegmentsGiveBack(path: string)
    requires "/" <= path
    ensures path == "/" + Join(Segments(path), "/") && Segments(path) != []
  {
    SplitAt([], path[1..], '/');
    assert [] + ['/'] + path[1..] == path;
    JoinOfSplit(path[1..], '/');
    assert Segments(path) == Split(path[1..], '/');
  }

  lemma {:induction false} JoinConcat(a: seq<string>, b: seq<string>)
    requires a != [] && b != []
    ensures Join(a + b, "/") == Join(a, "/") + "/" + Join(b, "/")
    decreases |a|
  {
    if |a| == 1 {
      assert (a + b)[1..] == b && (a + b)[0] == a[0];
    } else {
      JoinConcat(a[1..], b);
      assert (a + b)[1..] == a[1..] + b && (a + b)[0] == a[0];
      assert Join(a, "/") == a[0] + "/" + Join(a[1..], "/");
      assert a[0] + "/" + (Join(a[1..], "/") + "/" + Join(b, "/")) == (a[0] + "/" + Join(a[1..], "/")) + "/" + Join(b, "/");
    }
  }

  predicate Starts(prefix: seq<string>, path: string) {
    prefix <= Segments(path)
  }

  lemma {:induction false} CommonStartsAll(paths: seq<string>)
    requires paths != []
    ensures forall k | 0 <= k < |paths| :: Starts(CommonOf(paths), paths[k])
    decreases |paths|
  {
    hide Segments;
    if |paths| > 1 {
      CommonStartsAll(paths[..|paths| - 1]);
      var rest, last := CommonOf(paths[..|paths| - 1]), Segments(paths[|paths| - 1]);
      var n := Shared(rest, last);
      assert rest[..n] == last[..n] && rest[..n] <= last;
      forall k | 0 <= k < |paths| - 1 ensures Starts(CommonOf(paths), paths[k]) {
        assert Starts(rest, paths[..|paths| - 1][k]);
        assert rest[..n] <= rest <= Segments(paths[k]);
      }
    }
  }

  ghost predicate StartsAll(c: seq<string>, paths: seq<string>) {
    forall k | 0 <= k < |paths| :: Starts(c, paths[k])
  }

  lemma {:induction false} SharedAtLeast(a: seq<string>, b: seq<string>, c: seq<string>)
    requires c <= a && c <= b
    ensures c <= a[..Shared(a, b)]
    decreases |c|
  {
    if c != [] {
      SharedAtLeast(a[1..], b[1..], c[1..]);
      assert a[..Shared(a, b)][1..] == a[1..][..Shared(a[1..], b[1..])];
    }
  }

  /** Nothing longer is shared by all. */
  lemma {:induction false} CommonIsLongest(paths: seq<string>, c: seq<string>)
    requires paths != [] && StartsAll(c, paths)
    ensures c <= CommonOf(paths)
    decreases |paths|
  {
    hide Segments;
    assert Starts(c, paths[|paths| - 1]);
    if |paths| > 1 {
      var init := paths[..|paths| - 1];
      forall k | 0 <= k < |init| ensures Starts(c, init[k]) {
        assert init[k] == paths[k] && Starts(c, paths[k]);
      }
      CommonIsLongest(init, c);
      SharedAtLeast(CommonOf(init), Segments(paths[|paths| - 1]), c);
    }
  }

  /** A path under the common segments is their base, or goes on after it. */
  lemma PathUnderBase(prefix: seq<string>, path: string)
    requires "/" <= path && Starts(prefix, path) && prefix != []
    ensures if prefix == Segments(path) then path == BaseOf(prefix) else BaseOf(prefix) + "/" <= path
  {
    hide Segments, Join;
    SegmentsGiveBack(path);
    var segments := Segments(path);
    if prefix != segments {
      var rest := segments[|prefix|..];
      assert segments == prefix + rest && rest != [];
      JoinConcat(prefix, rest);
      assert path == BaseOf(prefix) + "/" + Join(rest, "/");
    }
  }

  /** The pattern takes the path, as a rule's expression would. */
  ghost predicate PatternTakes(pattern: string, path: string) {
    Fits(Globs(pattern), Paths, path, false)
  }

  lemma PlainHasNoWildcard(path: string)
    requires IsPlainPath(path)
    ensures '*' !in path && '?' !in path && OneLine(path)
  {
    assert forall k | 0 <= k < |path| :: path[k] != '*' && path[k] != '?' && path[k] != '\n';
  }

  lemma PlainPrefix(base: string, path: string)
    requires base <= path && IsPlainPath(path) && "/" <= base
    ensures IsPlainPath(base) && IsPattern(base) && IsPattern(base + "/**")
  {
    assert forall k | 0 <= k < |base| :: base[k] == path[k];
    var p := base + "/**";
    forall k | 0 <= k < |p| ensures p[k] !in "?#" && !IsSpace(p[k]) {
      if k < |base| {
        assert p[k] == base[k];
      } else {
        assert p[k] == '/' || p[k] == '*';
      }
    }
    assert p[0] == base[0];
  }

  lemma DistinctPaths(paths: seq<string>)
    ensures forall p :: p in SortedDistinct(paths) <==> p in paths
  {
    hide Sort, Distinct;
    DistinctHolds(paths);
    SortMembers((s: string, t: string) => Before(s, t), Distinct(paths));
  }

  /** Every observed path is taken by one of the patterns written for its group. */
  lemma PatternsCover(paths: seq<string>, path: string) returns (pattern: string)
    requires path in paths && forall k | 0 <= k < |paths| :: IsPlainPath(paths[k])
    ensures pattern in PatternsFor(paths) && PatternTakes(pattern, path)
  {
    hide SortedDistinct, CommonOf, Globs, Fits, SameText;
    DistinctPaths(paths);
    var distinct := SortedDistinct(paths);
    assert IsPlainPath(path);
    PlainHasNoWildcard(path);
    if |distinct| <= 1 {
      pattern := path;
      assert distinct[0] == path;
      TakesItself(path);
    } else {
      var prefix := CommonOf(distinct);
      CommonStartsAll(distinct);
      var i :| 0 <= i < |distinct| && distinct[i] == path;
      assert Starts(prefix, path);
      assert "/" <= path;
      if prefix == [] {
        pattern := "/**";
        PrefixFits("", path);
        assert "" + "/**" == "/**" && "" + "/" == "/";
      } else {
        PathUnderBase(prefix, path);
        var base := BaseOf(prefix);
        if prefix == Segments(path) {
          pattern := base;
          TakesItself(path);
        } else {
          pattern := base + "/**";
          assert "/" <= base;
          assert base <= path;
          PlainPrefix(base, path);
          PlainHasNoWildcard(base);
          PrefixFits(base, path);
        }
      }
    }
  }

  lemma TakesItself(path: string)
    requires '*' !in path && '?' !in path
    ensures PatternTakes(path, path)
  {
    hide Globs, Fits;
    LiteralFits(path, Paths, path, false);
    SameExactly(path, path);
  }

  lemma ExactTakesItself(pattern: string, path: string)
    requires IsPlainPath(pattern)
    ensures IsPattern(pattern) && (PatternTakes(pattern, path) <==> path == pattern)
  {
    hide Globs, Fits, SameText;
    PlainHasNoWildcard(pattern);
    PlainPrefix(pattern, pattern);
    LiteralFits(pattern, Paths, path, false);
    SameExactly(pattern, path);
  }

  /** The pattern over everything under some segments of a plain path. */
  lemma UnderTakesPrefix(prefix: seq<string>, first: string, path: string)
    requires IsPlainPath(first) && Starts(prefix, first) && OneLine(path)
    ensures var base := if prefix == [] then "" else BaseOf(prefix);
      IsPattern(base + "/**") && (PatternTakes(base + "/**", path) <==> base + "/" <= path)
  {
    hide Globs, Fits, Segments;
    assert "/" <= first;
    var base := if prefix == [] then "" else BaseOf(prefix);
    if prefix == [] {
      assert "" + "/**" == "/**";
      assert IsPattern("/**") by { assert forall k | 0 <= k < 3 :: "/**"[k] == '/' || "/**"[k] == '*'; }
    } else {
      PathUnderBase(prefix, first);
      assert "/" <= base;
      assert base <= first;
      PlainPrefix(base, first);
      PlainHasNoWildcard(base);
    }
    PrefixFits(base, path);
  }

  /**
   * What a pattern takes: a path seen, or one under the longest run of segments every path seen
   * shares. Its text is fit for a rule.
   */
  lemma PatternsTakeNoMore(paths: seq<string>, pattern: string, path: string)
    requires pattern in PatternsFor(paths) && (forall k | 0 <= k < |paths| :: IsPlainPath(paths[k])) && OneLine(path)
    ensures IsPattern(pattern)
    ensures PatternTakes(pattern, path) ==> path in paths || UnderCommon(paths, path)
  {
    hide SortedDistinct, CommonOf, PatternTakes, BaseOf, IsPlainPath, IsPattern;
    DistinctPaths(paths);
    var distinct := SortedDistinct(paths);
    if pattern in distinct {
      assert pattern in paths;
      ExactTakesItself(pattern, path);
    } else {
      var prefix := CommonOf(distinct);
      CommonStartsAll(distinct);
      var first := distinct[0];
      assert first in paths && Starts(prefix, first);
      UnderTakesPrefix(prefix, first, path);
      assert "" + "/**" == "/**";
      if (if prefix == [] then "" else BaseOf(prefix)) + "/" <= path {
        LongestOf(paths);
        assert UnderCommon(paths, path);
      }
    }
  }

  /** The path goes on from the longest segments all of `paths` share. */
  ghost predicate UnderCommon(paths: seq<string>, path: string) {
    exists prefix: seq<string> :: IsLongestCommon(prefix, paths) && (if prefix == [] then "" else BaseOf(prefix)) + "/" <= path
  }

  ghost predicate IsLongestCommon(prefix: seq<string>, paths: seq<string>) {
    StartsAll(prefix, paths) && forall c: seq<string> :: StartsAll(c, paths) ==> c <= prefix
  }

  lemma LongestOf(paths: seq<string>)
    requires paths != []
    ensures IsLongestCommon(CommonOf(SortedDistinct(paths)), paths)
  {
    hide SortedDistinct, CommonOf, Segments, Starts;
    DistinctPaths(paths);
    var distinct := SortedDistinct(paths);
    assert paths[0] in distinct;
    CommonStartsAll(distinct);
    var prefix := CommonOf(distinct);
    forall k | 0 <= k < |paths| ensures Starts(prefix, paths[k]) {
      assert paths[k] in distinct;
      var j :| 0 <= j < |distinct| && distinct[j] == paths[k];
    }
    forall c: seq<string> | StartsAll(c, paths) ensures c <= prefix {
      forall j | 0 <= j < |distinct| ensures Starts(c, distinct[j]) {
        assert distinct[j] in paths;
        var k :| 0 <= k < |paths| && paths[k] == distinct[j];
      }
      CommonIsLongest(distinct, c);
    }
  }

  // ---- the rules, end to end ----

  lemma {:induction false} PathsAreSeen(requests: seq<Parsed>, origin: string, verb: string)
    ensures forall p | p in PathsOf(requests, origin, verb) :: Parsed(origin, verb, p) in requests
    ensures forall r | r in requests && r.origin == origin && r.verb == verb :: r.path in PathsOf(requests, origin, verb)
  {
    if requests != [] {
      PathsAreSeen(requests[..|requests| - 1], origin, verb);
      assert requests == requests[..|requests| - 1] + [requests[|requests| - 1]];
    }
  }

  lemma ObservedGroup(requests: seq<Parsed>, origin: string, verb: string)
    requires AreObserved(requests)
    ensures forall k | 0 <= k < |PathsOf(requests, origin, verb)| :: IsPlainPath(PathsOf(requests, origin, verb)[k])
    ensures PathsOf(requests, origin, verb) != [] ==> IsLiteralMethod(verb)
  {
    hide IsPlainPath, PathsOf, OriginText, IsLiteralHost, IsLiteralMethod;
    var paths := PathsOf(requests, origin, verb);
    PathsAreSeen(requests, origin, verb);
    forall k | 0 <= k < |paths| ensures IsPlainPath(paths[k]) && IsLiteralMethod(verb) {
      assert paths[k] in paths;
      assert Parsed(origin, verb, paths[k]) in requests;
      var i :| 0 <= i < |requests| && requests[i] == Parsed(origin, verb, paths[k]);
      assert WasObserved(requests[i]);
      var scheme, host, port :| IsObserved(requests[i], scheme, host, port);
    }
    if paths != [] {
      assert IsLiteralMethod(verb) by { assert IsPlainPath(paths[0]); }
    }
  }

  /** The methods of a rule are fit to be printed: literal and without repeats. */
  lemma EntryMethods(requests: seq<Parsed>, entries: seq<Entry>, k: nat)
    requires AreObserved(requests) && AreRulesOf(entries, requests) && k < |entries|
    ensures AreMethods(SortMethods(entries[k].methods))
    ensures forall m :: m in SortMethods(entries[k].methods) <==> Gives(requests, entries[k].origin, m, entries[k].pattern)
  {
    hide Sort, Distinct, IsLiteralMethod, PathsOf, PatternsFor, AreObserved, MethodBefore;
    var e := entries[k];
    var less := (a: string, b: string) => MethodBefore(a, b);
    DistinctHolds(e.methods);
    SortMembers(less, Distinct(e.methods));
    SortStaysDistinct(less, Distinct(e.methods));
    var ms := SortMethods(e.methods);
    assert e.methods[0] in ms;
    forall m ensures m in ms <==> Gives(requests, e.origin, m, e.pattern) {
      assert m in ms <==> m in e.methods;
    }
    forall i | 0 <= i < |ms| ensures IsLiteralMethod(ms[i]) {
      assert ms[i] in ms;
      ObservedGroup(requests, e.origin, ms[i]);
      assert PathsOf(requests, e.origin, ms[i]) != [] by { NoPatterns(); }
    }
  }

  /** The order methods are conventionally written in. */
  const CONVENTION := ["GET", "HEAD", "POST", "PUT", "PATCH", "DELETE", "OPTIONS"]

  /** A line lists its methods as a person would: the conventional ones in their order, then any others by name. */
  lemma MethodsInOrder(methods: seq<string>, j: nat, k: nat)
    requires j < k < |SortMethods(methods)|
    ensures var a, b := SortMethods(methods)[j], SortMethods(methods)[k];
      && (b in CONVENTION ==> a in CONVENTION && exists p, q | 0 <= p < q < |CONVENTION| :: CONVENTION[p] == a && CONVENTION[q] == b)
      && (a !in CONVENTION ==> Before(a, b))
  {
    hide Sort, Distinct;
    var less := (x: string, y: string) => MethodBefore(x, y);
    var distinct := Distinct(methods);
    DistinctHolds(methods);
    MethodsOrdered();
    SortInOrder(less, distinct);
    SortStaysDistinct(less, distinct);
    var a, b := SortMethods(methods)[j], SortMethods(methods)[k];
    assert !less(b, a);
    PlaceIs(a);
    PlaceIs(b);
    BeforeIsTotal(a, b);
    if b in CONVENTION {
      assert Place(a) < Place(b);
      assert CONVENTION[Place(a)] == a && CONVENTION[Place(b)] == b;
    }
  }

  lemma PlaceIs(m: string)
    ensures Place(m) <= 7 && (m in CONVENTION <==> Place(m) < 7) && (Place(m) < 7 ==> CONVENTION[Place(m)] == m)
  {
    assert CONVENTION[0] == "GET" && CONVENTION[1] == "HEAD" && CONVENTION[2] == "POST" && CONVENTION[3] == "PUT"
        && CONVENTION[4] == "PATCH" && CONVENTION[5] == "DELETE" && CONVENTION[6] == "OPTIONS";
  }

  lemma MethodsOrdered()
    ensures IsOrder((x: string, y: string) => MethodBefore(x, y))
  {
    var less := (x: string, y: string) => MethodBefore(x, y);
    forall x, y | less(x, y) ensures !less(y, x) {
      BeforeIsTotal(x, y);
    }
    forall x, y, z | less(x, z) ensures less(x, y) || less(y, z) {
      if Place(x) == Place(z) == Place(y) {
        BeforeIsOrder(x, y, z);
      }
    }
  }

  /** The rule compiled from an entry's line. */
  function CompiledOf(e: Entry, host: string, port: nat): CompiledRule {
    CompiledRule("", Wildcard, HostRegexOf(host), Some(port), PatternRegex(e.pattern), Some(SortMethods(e.methods)))
  }

  lemma LineCompiles(checks: Checks, requests: seq<Parsed>, entries: seq<Entry>, k: nat, scheme: Scheme, host: string, port: nat)
    requires AreObserved(requests) && AreRulesOf(entries, requests) && k < |entries|
    requires entries[k].origin == OriginText(scheme, host, port) && IsLiteralHost(host) && 1 <= port <= 65535
    ensures var read := ConvertUrlRule(checks, Line(entries[k]));
      read.Some? && IsOfScheme(read.value, scheme) && FromUrlRule(read.value) == CompiledOf(entries[k], host, port)
    ensures IsPattern(entries[k].pattern)
  {
    hide AreObserved, AreRulesOf, ConvertUrlRule, Line, OriginText, IsLiteralHost, SortMethods, PatternRegex, HostText, HostOnlyRegexOfUrlRule, UrlRuleToMatcher, Dec, Value, PatternsFor, PathsOf, IsPattern;
    var e := entries[k];
    EntryMethods(requests, entries, k);
    assert SortMethods(e.methods) != [];
    var m := SortMethods(e.methods)[0];
    assert m in SortMethods(e.methods);
    ObservedGroup(requests, e.origin, m);
    assert e.pattern in PatternsFor(PathsOf(requests, e.origin, m));
    PatternsTakeNoMore(PathsOf(requests, e.origin, m), e.pattern, "");
    LineReadsBack(checks, e, scheme, host, port);
    PortIsPort(port);
    var rule := ConvertUrlRule(checks, Line(e)).value;
    DigitsAreNot(Dec(port));
    AuthorityCutsBack(rule, HostText(host), Dec(port));
  }

  lemma CompiledMatches(engine: Engine, e: Entry, scheme: Scheme, host: string, port: nat, req: Request)
    requires ReadsTrees(engine) && IsLiteralHost(host) && OneLine(req.host) && OneLine(req.path)
    ensures RuleMatches(engine, CompiledOf(e, host, port), scheme, req) <==>
      && SameText(host, req.host, true) && req.port == port && req.verb in SortMethods(e.methods)
      && PatternTakes(e.pattern, req.path)
  {
    hide ReadsTrees, IsLiteralHost, SortMethods, Globs, GlobsText, Fits, SameText;
    LiteralHostChars(host);
    assert forall k | 0 <= k < |host| :: IsHostChar(host[k]);
    assert '*' !in host && '?' !in host;
    GlobsAreGlobs(host);
    GlobsAreGlobs(e.pattern);
    GlobsRead(engine, Globs(host), Names, req.host, true);
    LiteralFits(host, Names, req.host, true);
    GlobsRead(engine, Globs(e.pattern), Paths, req.path, false);
  }

  lemma LowerIsSame(host: string)
    ensures SameText(host, LowerText(host), true)
  {
  }

  /**
   * Audit then restrict: every request a rule could be written from is allowed by one of the printed
   * lines, parsed and compiled. The proxy sees its host in lower case.
   */
  lemma ObservedIsAllowed(engine: Engine, checks: Checks, requests: seq<Parsed>, entries: seq<Entry>, i: nat, scheme: Scheme, host: string,
    port: nat, req: Request) returns (k: nat)
    requires ReadsTrees(engine) && AreObserved(requests) && AreRulesOf(entries, requests)
    requires i < |requests| && IsObserved(requests[i], scheme, host, port)
    requires req.host == LowerText(host) && req.port == port && req.path == requests[i].path && req.verb == requests[i].verb
    ensures k < |entries| && var read := ConvertUrlRule(checks, Line(entries[k]));
      read.Some? && IsOfScheme(read.value, scheme) && RuleMatches(engine, FromUrlRule(read.value), scheme, req)
  {
    hide ReadsTrees, AreObserved, ConvertUrlRule, Line, OriginText, IsLiteralHost, SortMethods, PatternsFor, PathsOf, RuleMatches,
      FromUrlRule, CompiledOf, PatternTakes, LowerText, SameText;
    var r := requests[i];
    ObservedGroup(requests, r.origin, r.verb);
    PathsAreSeen(requests, r.origin, r.verb);
    var paths := PathsOf(requests, r.origin, r.verb);
    var pattern := PatternsCover(paths, r.path);
    assert Gives(requests, r.origin, r.verb, pattern);
    assert HasEntry(entries, r.origin, pattern);
    k :| 0 <= k < |entries| && entries[k].origin == r.origin && entries[k].pattern == pattern;
    LineCompiles(checks, requests, entries, k, scheme, host, port);
    EntryMethods(requests, entries, k);
    PlainHasNoWildcard(r.path);
    HostIsOneLine(host);
    CompiledMatches(engine, entries[k], scheme, host, port, req);
    LowerIsSame(host);
  }

  lemma HostIsOneLine(host: string)
    requires IsLiteralHost(host)
    ensures OneLine(LowerText(host))
  {
    LiteralHostChars(host);
    assert forall k | 0 <= k < |host| :: IsHostChar(host[k]);
    LowerChars(host);
  }

  /**
   * And no more than was observed: whatever a printed line allows goes to a host and a port requests
   * were sent to, by a method they were sent with there, at a path seen or one under the longest run
   * of segments all the paths seen with that method share.
   */
  lemma OnlyObservedIsAllowed(engine: Engine, checks: Checks, requests: seq<Parsed>, entries: seq<Entry>, k: nat, scheme: Scheme, host: string,
    port: nat, req: Request)
    requires ReadsTrees(engine) && AreObserved(requests) && AreRulesOf(entries, requests) && k < |entries|
    requires entries[k].origin == OriginText(scheme, host, port) && IsLiteralHost(host) && 1 <= port <= 65535
    requires OneLine(req.host) && OneLine(req.path)
    ensures var read := ConvertUrlRule(checks, Line(entries[k]));
      && read.Some? && IsOfScheme(read.value, scheme)
      && (RuleMatches(engine, FromUrlRule(read.value), scheme, req) ==>
          && SameText(host, req.host, true) && req.port == port
          && var paths := PathsOf(requests, entries[k].origin, req.verb);
            paths != [] && (req.path in paths || UnderCommon(paths, req.path)))
  {
    hide ReadsTrees, AreObserved, ConvertUrlRule, Line, OriginText, IsLiteralHost, SortMethods, PatternsFor, PathsOf, RuleMatches,
      FromUrlRule, CompiledOf, PatternTakes, SameText, UnderCommon, AreRulesOf;
    LineCompiles(checks, requests, entries, k, scheme, host, port);
    EntryMethods(requests, entries, k);
    CompiledMatches(engine, entries[k], scheme, host, port, req);
    if req.verb in SortMethods(entries[k].methods) {
      var paths := PathsOf(requests, entries[k].origin, req.verb);
      assert Gives(requests, entries[k].origin, req.verb, entries[k].pattern);
      NoPatterns();
      ObservedGroup(requests, entries[k].origin, req.verb);
      PatternsTakeNoMore(paths, entries[k].pattern, req.path);
    }
  }

  // ---- from the timeline ----

  /**
   * For any timeline: a request in it that was let through, and whose method, host and path rules can
   * name, is allowed when it is sent again by one of the lines written from that timeline.
   */
  lemma AuditedIsAllowed(engine: Engine, checks: Checks, events: seq<Event>, entries: seq<Entry>, i: nat, url: Url, req: Request)
    returns (k: nat)
    requires ReadsTrees(engine) && AreLogged(events) && AreRulesOf(entries, WritableOf(events))
    requires i < |events| && IsRequestTo(events[i], url)
    requires req.host == LowerText(url.host) && req.port == events[i].port.value
    requires req.path == url.Asked() && req.verb == events[i].verb.value
    ensures k < |entries| && var read := ConvertUrlRule(checks, Line(entries[k]));
      && read.Some? && IsOfScheme(read.value, url.scheme)
      && RuleMatches(engine, FromUrlRule(read.value), url.scheme, req)
  {
    hide ReadsTrees, AreRulesOf, ParseRequest, ConvertUrlRule, Line, RuleMatches, FromUrlRule, IsObserved, AreObserved, OriginText;
    assert IsLogged(events[i]);
    WritableIsObserved(events[i], url);
    var n := WritableIsThere(events, i);
    EventsAreObserved(events);
    k := ObservedIsAllowed(engine, checks, WritableOf(events), entries, n, url.scheme, url.host, events[i].port.value, req);
  }

  /** The rule an entry's line compiles to, by what it allows of `req` to an event's URL. */
  ghost predicate OnlyAllows(engine: Engine, checks: Checks, events: seq<Event>, e: Entry, event: Event, url: Url, req: Request)
    requires IsRequestTo(event, url)
  {
    var read := ConvertUrlRule(checks, Line(e));
    && read.Some? && IsOfScheme(read.value, url.scheme)
    && (RuleMatches(engine, FromUrlRule(read.value), url.scheme, req) ==>
        && SameText(url.host, req.host, true) && req.port == event.port.value
        && var paths := PathsOf(WritableOf(events), e.origin, req.verb);
          paths != [] && (req.path in paths || UnderCommon(paths, req.path)))
  }

  /**
   * And for any timeline, whatever a line allows goes where some event of it went, by its method, at
   * a path seen or one under the longest run of segments shared there.
   */
  lemma OnlyAuditedIsAllowed(engine: Engine, checks: Checks, events: seq<Event>, entries: seq<Entry>, k: nat, req: Request)
    returns (i: nat, url: Url)
    requires ReadsTrees(engine) && AreLogged(events) && AreRulesOf(entries, WritableOf(events)) && k < |entries|
    requires OneLine(req.host) && OneLine(req.path)
    ensures i < |events| && IsRequestTo(events[i], url) && OnlyAllows(engine, checks, events, entries[k], events[i], url, req)
    ensures RuleMatches(engine, FromUrlRule(ConvertUrlRule(checks, Line(entries[k])).value), url.scheme, req)
      ==> req.verb == events[i].verb.value
  {
    hide ReadsTrees, AreObserved, AreRulesOf, ParseRequest, ConvertUrlRule, Line, RuleMatches, FromUrlRule, IsObserved, SameText,
      UnderCommon, PathsOf, SortMethods, AreLogged, OnlyAllows, IsRequestTo;
    EventsAreObserved(events);
    var requests, origin := WritableOf(events), entries[k].origin;
    EntryMethods(requests, entries, k);
    var m := SortMethods(entries[k].methods)[0];
    assert m in SortMethods(entries[k].methods);
    i := SeenAt(events, origin, m, entries[k].pattern);
    url := OneOfIts(engine, checks, events, entries, k, i, req);
    assert ConvertUrlRule(checks, Line(entries[k])).Some? by { ItIsRead(engine, checks, events, entries[k], events[i], url, req); }
    if RuleMatches(engine, FromUrlRule(ConvertUrlRule(checks, Line(entries[k])).value), url.scheme, req) {
      AllowsSomePath(engine, checks, events, entries[k], events[i], url, req);
      i := SentAt(events, origin, req.verb);
      url := OneOfIts(engine, checks, events, entries, k, i, req);
    }
  }

  lemma ItIsRead(engine: Engine, checks: Checks, events: seq<Event>, e: Entry, event: Event, url: Url, req: Request)
    requires IsRequestTo(event, url) && OnlyAllows(engine, checks, events, e, event, url, req)
    ensures ConvertUrlRule(checks, Line(e)).Some?
  {
    hide RuleMatches, FromUrlRule, ConvertUrlRule, IsRequestTo, PathsOf;
  }

  lemma AllowsSomePath(engine: Engine, checks: Checks, events: seq<Event>, e: Entry, event: Event, url: Url, req: Request)
    requires IsRequestTo(event, url) && OnlyAllows(engine, checks, events, e, event, url, req)
    requires RuleMatches(engine, FromUrlRule(ConvertUrlRule(checks, Line(e)).value), url.scheme, req)
    ensures PathsOf(WritableOf(events), e.origin, req.verb) != []
  {
    hide RuleMatches, FromUrlRule, ConvertUrlRule, IsRequestTo, PathsOf;
  }

  lemma SentAt(events: seq<Event>, origin: string, verb: string) returns (i: nat)
    requires PathsOf(WritableOf(events), origin, verb) != []
    ensures IsWritable(events, i)
    ensures ParseRequest(events[i]).request.origin == origin && ParseRequest(events[i]).request.verb == verb
  {
    hide ParseRequest, PathsOf, WritableOf;
    var requests := WritableOf(events);
    var paths := PathsOf(requests, origin, verb);
    PathsAreSeen(requests, origin, verb);
    assert paths[0] in paths;
    assert Parsed(origin, verb, paths[0]) in requests;
    var n :| 0 <= n < |requests| && requests[n] == Parsed(origin, verb, paths[0]);
    i := WritableCameFrom(events, n);
  }

  lemma SeenAt(events: seq<Event>, origin: string, verb: string, pattern: string) returns (i: nat)
    requires Gives(WritableOf(events), origin, verb, pattern)
    ensures IsWritable(events, i)
    ensures ParseRequest(events[i]).request.origin == origin && ParseRequest(events[i]).request.verb == verb
  {
    hide ParseRequest, PathsOf, WritableOf, PatternsFor;
    NoPatterns();
    i := SentAt(events, origin, verb);
  }

  /** What a line allows, said of one event that gave it its origin. */
  lemma OneOfIts(engine: Engine, checks: Checks, events: seq<Event>, entries: seq<Entry>, k: nat, i: nat, req: Request)
    returns (url: Url)
    requires ReadsTrees(engine) && AreLogged(events) && AreRulesOf(entries, WritableOf(events)) && k < |entries|
    requires OneLine(req.host) && OneLine(req.path)
    requires IsWritable(events, i) && ParseRequest(events[i]).request.origin == entries[k].origin
    ensures IsRequestTo(events[i], url) && OnlyAllows(engine, checks, events, entries[k], events[i], url, req)
    ensures ParseRequest(events[i]).request.verb == events[i].verb.value
  {
    hide ReadsTrees, AreObserved, AreRulesOf, ParseRequest, ConvertUrlRule, Line, RuleMatches, FromUrlRule, SameText, UnderCommon,
      PathsOf, OriginText, IsLiteralHost, IsLogged, IsRequestTo;
    EventsAreObserved(events);
    assert IsLogged(events[i]);
    url := WritableHasUrl(events[i]);
    WritableIsObserved(events[i], url);
    HasItsParts(events[i], url);
    OnlyObservedIsAllowed(engine, checks, WritableOf(events), entries, k, url.scheme, url.host, events[i].port.value, req);
  }
}
