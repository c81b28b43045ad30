/**
 * The `~` rules, whose author writes the expression: cut into a host half, a port pattern and a path
 * half, checked, and anchored (src/core/lib/acl/partial-wildcard.ts 390-533, url-rules.ts 128-250).
 * An error the compiler throws is `None`.
 */
module RawRules {
  import opened Anchoring
  import opened RuleBlocks
  import opened Search

  /**
   * What is decided elsewhere: whether a text compiles as an expression, and whether a half (a host
   * half or not) keeps to the syntax every engine reads alike.
   */
  datatype Checks = Checks(compiles: string -> bool, portable: (string, bool) -> bool)

  // ---- one half ----

  predicate HasEscapedBracket(s: string) {
    exists k | 0 <= k < |s| - 1 :: s[k] == '\\' && s[k + 1] in "[]"
  }

  /** Text that would end the literal the resolver is given, or be taken for a variable in it. */
  predicate IsUnquotable(s: string) {
    '\'' in s || '`' in s || exists k | 0 <= k < |s| - 1 :: s[k] == '{' && s[k + 1] in "$%"
  }

  predicate IsHalf(checks: Checks, text: string, hostHalf: bool) {
    && checks.portable(text, hostHalf)
    && !BarFrom(text, false, 0)
    && (hostHalf ==> !HasEscapedBracket(text) && !IsUnquotable(text))
  }

  method CheckRawRegexHalf(checks: Checks, text: string, hostHalf: bool) returns (ok: bool)
    ensures ok == IsHalf(checks, text, hostHalf)
  {
    if !checks.portable(text, hostHalf) { return false; }
    var bar := HasTopLevelAlternation(text);
    return !bar && (!hostHalf || (!HasEscapedBracket(text) && !IsUnquotable(text)));
  }

  // ---- where the port starts ----

  /** The scan for a port from `i` on; a `(?:` that was met is not looked into before `bodyStart`. */
  function PortFrom(s: string, i: nat, inClass: bool, bodyStart: nat): int
    decreases |s| - i
  {
    if i >= |s| then -1
    else
      var c := s[i];
      if !inClass && i >= bodyStart && StartsPort(s, i) then i
      else
        PortFrom(s, if c == '\\' then i + 2 else i + 1, if c == '\\' then inClass else if inClass then c != ']' else c == '[',
          if !inClass && i >= bodyStart && OpensUnnumbered(s, i) then i + 3 else bodyStart)
  }

  /** A bare colon, or a group that opens right at one. */
  predicate StartsPort(s: string, i: nat)
    requires i < |s|
  {
    s[i] == ':' || (s[i] == '(' && i + 1 < |s| && s[i + 1] == ':')
  }

  predicate OpensUnnumbered(s: string, i: nat)
    requires i < |s|
  {
    "(?:" <= s[i..]
  }

  method PortPatternStart(s: string) returns (start: int)
    ensures start == PortFrom(s, 0, false, 0)
  {
    var bodyStart := 0;
    var chars := RegexChars(s);
    ghost var at: nat, within := 0, false;
    for k := 0 to |chars|
      invariant chars[k..] == Visited(s, at, within)
      invariant PortFrom(s, 0, false, 0) == PortFrom(s, at, within, bodyStart)
    {
      var (i, inClass) := chars[k];
      assert i == at && inClass == within;
      assert chars[k..][1..] == chars[k + 1..];
      ghost var c := s[at];
      at, within := if c == '\\' then at + 2 else at + 1, if c == '\\' then within else if within then c != ']' else c == '[';
      if inClass || i < bodyStart {
        continue;
      }
      if s[i] == ':' {
        return i;
      }
      if s[i] == '(' {
        if i + 1 < |s| && s[i + 1] == ':' {
          return i;
        }
        if "(?:" <= s[i..] {
          bodyStart := i + 3;
        }
      }
    }
    return -1;
  }

  lemma {:induction false} PortIsInside(s: string, i: nat, inClass: bool, bodyStart: nat)
    ensures var k := PortFrom(s, i, inClass, bodyStart); k == -1 || (i <= k < |s| && StartsPort(s, k))
    decreases |s| - i
  {
    if i < |s| && (inClass || i < bodyStart || !StartsPort(s, i)) {
      var c := s[i];
      PortIsInside(s, if c == '\\' then i + 2 else i + 1, if c == '\\' then inClass else if inClass then c != ']' else c == '[',
        if !inClass && i >= bodyStart && OpensUnnumbered(s, i) then i + 3 else bodyStart);
    }
  }

  // ---- which place that is ----

  /** The `d`-th character back from `i` was visited last but `d`, outside any class, and opens a `(?:`. */
  predicate Opened(s: string, seen: seq<(nat, bool)>, d: nat, i: nat) {
    0 < d <= |seen| && d <= i && seen[|seen| - d] == (i - d, false) && i - d < |s| && OpensUnnumbered(s, i - d)
  }

  /** At the `m`-th character the scan visits a port starts: it is in no class, nor the colon of a `(?:`. */
  predicate IsPortStart(s: string, visited: seq<(nat, bool)>, m: nat)
    requires m < |visited|
  {
    var (i, inClass) := visited[m];
    && i < |s| && !inClass && !Opened(s, visited[..m], 2, i)
    && (s[i] == ':' || (s[i] == '(' && i + 1 < |s| && s[i + 1] == ':'))
  }

  predicate NoPortStart(s: string, visited: seq<(nat, bool)>, lo: nat, hi: nat)
    requires hi <= |visited|
  {
    forall m | lo <= m < hi :: !IsPortStart(s, visited, m)
  }

  /** `k` is where the first port starts, -1 where none does. */
  ghost predicate IsFirstStart(s: string, visited: seq<(nat, bool)>, lo: nat, k: int) {
    if k == -1 then NoPortStart(s, visited, lo, |visited|)
    else exists m: nat :: m < |visited| && IsStartAt(s, visited, lo, m, k)
  }

  predicate IsStartAt(s: string, visited: seq<(nat, bool)>, lo: nat, m: nat, k: int)
    requires m < |visited|
  {
    lo <= m && visited[m] == (k, false) && IsPortStart(s, visited, m) && NoPortStart(s, visited, lo, m)
  }

  lemma NotHere(s: string, visited: seq<(nat, bool)>, n: nat, k: int)
    requires n < |visited| && !IsPortStart(s, visited, n) && IsFirstStart(s, visited, n + 1, k)
    ensures IsFirstStart(s, visited, n, k)
  {
    hide IsPortStart;
    if k != -1 {
      var m: nat :| m < |visited| && IsStartAt(s, visited, n + 1, m, k);
      assert IsStartAt(s, visited, n, m, k);
    }
  }

  /** How far a `(?:` met on the way to `i` is still being stepped over. */
  predicate IsBodyStart(s: string, seen: seq<(nat, bool)>, i: nat, bodyStart: nat) {
    && (bodyStart == i + 2 <==> Opened(s, seen, 1, i)) && (bodyStart == i + 1 <==> Opened(s, seen, 2, i))
    && bodyStart <= i + 2
  }

  lemma VisitedStep(s: string, i: nat, inClass: bool)
    requires i < |s|
    ensures var c := s[i];
      Visited(s, i, inClass) == [(i, inClass)] +
        Visited(s, if c == '\\' then i + 2 else i + 1, if c == '\\' then inClass else if inClass then c != ']' else c == '[')
  {
  }

  lemma OpensAt(s: string, i: nat)
    requires i < |s| && OpensUnnumbered(s, i)
    ensures i + 2 < |s| && s[i] == '(' && s[i + 1] == '?' && s[i + 2] == ':'
  {
    assert s[i..][..3] == "(?:" && s[i] == s[i..][0] && s[i + 1] == s[i..][1] && s[i + 2] == s[i..][2];
  }

  lemma OpenedNext(s: string, i: nat, inClass: bool, seen: seq<(nat, bool)>)
    requires i < |s| && (seen != [] ==> seen[|seen| - 1].0 < i)
    ensures var next := if s[i] == '\\' then i + 2 else i + 1; var more := seen + [(i, inClass)];
      && (Opened(s, more, 1, next) <==> s[i] != '\\' && !inClass && OpensUnnumbered(s, i))
      && (Opened(s, more, 2, next) <==> s[i] != '\\' && Opened(s, seen, 1, i))
      && more[|more| - 1].0 < next
  {
    hide OpensUnnumbered;
  }

  lemma PortStep(s: string, i: nat, inClass: bool, bodyStart: nat)
    ensures i >= |s| ==> PortFrom(s, i, inClass, bodyStart) == -1 && Visited(s, i, inClass) == []
    ensures i < |s| ==> var c := s[i];
      PortFrom(s, i, inClass, bodyStart) ==
        if !inClass && i >= bodyStart && StartsPort(s, i) then i
        else PortFrom(s, if c == '\\' then i + 2 else i + 1, if c == '\\' then inClass else if inClass then c != ']' else c == '[',
          if !inClass && i >= bodyStart && OpensUnnumbered(s, i) then i + 3 else bodyStart)
  {
    hide OpensUnnumbered, StartsPort;
  }

  /** From any point of the scan on. */
  lemma {:induction false} PortIsFirst(s: string, i: nat, inClass: bool, bodyStart: nat, seen: seq<(nat, bool)>, visited: seq<(nat, bool)>)
    requires visited == seen + Visited(s, i, inClass) && IsBodyStart(s, seen, i, bodyStart)
    requires seen != [] ==> seen[|seen| - 1].0 < i
    ensures IsFirstStart(s, visited, |seen|, PortFrom(s, i, inClass, bodyStart))
    decreases |s| - i
  {
    hide OpensUnnumbered, StartsPort, IsBodyStart, IsPortStart, Opened, IsFirstStart, IsStartAt, Visited, PortFrom;
    PortStep(s, i, inClass, bodyStart);
    if i < |s| {
      VisitedStep(s, i, inClass);
      var n, c := |seen|, s[i];
      assert visited[n] == (i, inClass) && visited[..n] == seen;
      ThisStart(s, i, inClass, bodyStart, seen, visited);
      if !inClass && i >= bodyStart && StartsPort(s, i) {
        StartsThere(s, visited, n, i);
      } else {
        var next := if c == '\\' then i + 2 else i + 1;
        var within := if c == '\\' then inClass else if inClass then c != ']' else c == '[';
        var body := if !inClass && i >= bodyStart && OpensUnnumbered(s, i) then i + 3 else bodyStart;
        NextBody(s, i, inClass, bodyStart, seen);
        OpenedNext(s, i, inClass, seen);
        PortIsFirst(s, next, within, body, seen + [(i, inClass)], visited);
        NotHere(s, visited, n, PortFrom(s, next, within, body));
      }
    } else {
      assert visited == seen;
      NoneLeft(s, visited);
    }
  }

  lemma NoneLeft(s: string, visited: seq<(nat, bool)>)
    ensures IsFirstStart(s, visited, |visited|, -1)
  {
  }

  lemma StartsThere(s: string, visited: seq<(nat, bool)>, m: nat, k: nat)
    requires m < |visited| && visited[m] == (k, false) && IsPortStart(s, visited, m)
    ensures IsFirstStart(s, visited, m, k)
  {
    hide IsPortStart;
    assert IsStartAt(s, visited, m, m, k);
  }

  lemma ThisStart(s: string, i: nat, inClass: bool, bodyStart: nat, seen: seq<(nat, bool)>, visited: seq<(nat, bool)>)
    requires i < |s| && |seen| < |visited| && visited[|seen|] == (i, inClass) && visited[..|seen|] == seen
    requires IsBodyStart(s, seen, i, bodyStart)
    ensures IsPortStart(s, visited, |seen|) <==> !inClass && i >= bodyStart && StartsPort(s, i)
  {
    hide OpensUnnumbered;
    if bodyStart == i + 2 {
      OpensAt(s, i - 1);
    }
  }

  lemma NextBody(s: string, i: nat, inClass: bool, bodyStart: nat, seen: seq<(nat, bool)>)
    requires i < |s| && IsBodyStart(s, seen, i, bodyStart) && (seen != [] ==> seen[|seen| - 1].0 < i)
    ensures var next := if s[i] == '\\' then i + 2 else i + 1;
      IsBodyStart(s, seen + [(i, inClass)], next, if !inClass && i >= bodyStart && OpensUnnumbered(s, i) then i + 3 else bodyStart)
  {
    OpenedNext(s, i, inClass, seen);
    if OpensUnnumbered(s, i) { OpensAt(s, i); }
    if bodyStart == i + 2 { OpensAt(s, i - 1); }
    if bodyStart == i + 1 { OpensAt(s, i - 2); }
    hide OpensUnnumbered, Opened;
  }

  /** The host half and, where a port is named, the port pattern. */
  function SplitDomainFromPort(s: string): (string, Option<string>) {
    var start := PortFrom(s, 0, false, 0);
    PortIsInside(s, 0, false, 0);
    if start == -1 then (s, None) else (s[..start], Some(s[start..]))
  }

  /**
   * The port pattern starts at the first such place, and what stands before it is the host half; there is
   * none just where no place is one.
   */
  lemma PortStartsFirst(s: string)
    ensures var (host, port) := SplitDomainFromPort(s);
      match port
      case None => host == s && IsFirstStart(s, Visited(s, 0, false), 0, -1)
      case Some(pattern) => host + pattern == s && IsFirstStart(s, Visited(s, 0, false), 0, |host|)
  {
    hide IsFirstStart, Visited, PortFrom;
    var visited, start := Visited(s, 0, false), PortFrom(s, 0, false, 0);
    assert [] + visited == visited;
    assert IsBodyStart(s, [], 0, 0);
    PortIsFirst(s, 0, false, 0, [], visited);
    PortIsInside(s, 0, false, 0);
    if start != -1 {
      assert s[..start] + s[start..] == s && |s[..start]| == start;
    }
  }

  // ---- a host rule ----

  /** The host half of a `~` host rule, which names a port and has no top-level alternation. */
  function SplitRawRegexHost(checks: Checks, pattern: string): Option<string> {
    var regex := if pattern == [] then [] else pattern[1..];
    if !checks.compiles(regex) || !IsHalf(checks, regex, false) then None
    else
      var (domain, port) := SplitDomainFromPort(regex);
      var host := if "^" <= domain then domain[1..] else domain;
      if port.None? || !IsHalf(checks, host, true) || !checks.compiles(host) then None else Some(host)
  }

  // ---- a URL rule ----

  /** What a `~` URL rule compiles to; `authorityRegex` is the host half with its port pattern dropped. */
  datatype RawUrl = RawUrl(schemes: seq<Scheme>, hostRegex: string, authorityRegex: string, pathRegex: string)

  /** A slash, bare or escaped, at `i`: how long it is, 0 where there is none. */
  function SlashLength(s: string, i: nat): (n: nat)
    ensures n > 0 ==> i + n <= |s|
  {
    if i < |s| && s[i] == '/' then 1
    else if i + 1 < |s| && s[i] == '\\' && s[i + 1] == '/' then 2
    else 0
  }

  /** The first slash at or after `i`, or the end. */
  function SlashFrom(s: string, i: nat): (k: nat)
    requires i <= |s|
    ensures i <= k <= |s| && (k < |s| ==> SlashLength(s, k) > 0)
    decreases |s| - i
  {
    if i == |s| || SlashLength(s, i) > 0 then i else SlashFrom(s, i + 1)
  }

  /** A colon and two slashes at `i`: how long they are, 0 where they are not there. */
  function SeparatorLength(s: string, i: nat): (n: nat)
    ensures n > 0 ==> i + n <= |s|
  {
    if i >= |s| || s[i] != ':' then 0
    else
      var a := SlashLength(s, i + 1);
      var b := SlashLength(s, i + 1 + a);
      if a == 0 || b == 0 then 0 else 1 + a + b
  }

  function SeparatorFrom(s: string, i: nat): (k: nat)
    requires i <= |s|
    ensures i <= k <= |s| && (k < |s| ==> SeparatorLength(s, k) > 0)
    decreases |s| - i
  {
    if i == |s| || SeparatorLength(s, i) > 0 then i else SeparatorFrom(s, i + 1)
  }

  function RawRegexSchemes(prefix: string): seq<Scheme> {
    var scheme := if "^" <= prefix then prefix[1..] else prefix;
    if scheme == "https" then [Https] else if scheme == "http" then [Http] else if scheme == "https?" then [Https, Http] else []
  }

  function SplitRawRegexUrl(checks: Checks, regex: string): Option<RawUrl> {
    var separator := SeparatorFrom(regex, 0);
    if !IsHalf(checks, regex, false) || separator == |regex| then None
    else
      var schemes := RawRegexSchemes(regex[..separator]);
      var hostStart := separator + SeparatorLength(regex, separator);
      var pathStart := SlashFrom(regex, hostStart);
      if schemes == [] || pathStart == |regex| then None
      else
        var host, path := regex[hostStart..pathStart], regex[pathStart..];
        var hostOnly := SplitDomainFromPort(host).0;
        if !IsHalf(checks, host, false) || !IsHalf(checks, path, false) || '@' in host || !IsHalf(checks, hostOnly, true) then None
        else
          var raw := RawUrl(schemes, AnchorRawRegex(host), AnchorRawRegex(hostOnly), "^" + path);
          if checks.compiles(raw.hostRegex) && checks.compiles(raw.authorityRegex) && checks.compiles(raw.pathRegex) then Some(raw)
          else None
  }
}
