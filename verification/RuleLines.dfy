/**
 * Writing a rule and having it read: what the parsers make of a host, a port, methods, a URL and a
 * line put together from their parts (src/core/lib/acl/url-rules.ts 81-127, 252-350).
 */
module RuleLines {
  import opened AuditRules
  import opened Decimal
  import opened RawRules
  import opened Regex
  import opened ResolverAgreement
  import opened RuleBlocks
  import opened RuleSets
  import opened Search
  import opened Text
  import opened UrlRules
  import opened Wildcards

  // ---- whitespace ----

  predicate NoSpaceIn(s: string) {
    forall k | 0 <= k < |s| :: !IsSpace(s[k])
  }

  predicate IsBlank(s: string) {
    forall k | 0 <= k < |s| :: IsSpace(s[k])
  }

  lemma {:induction false} TrimsStart(blank: string, s: string)
    requires IsBlank(blank) && s != "" && !IsSpace(s[0])
    ensures TrimStart(blank + s) == s
  {
    hide IsSpace;
    if blank == "" {
      assert blank + s == s;
    } else {
      assert (blank + s)[1..] == blank[1..] + s;
      TrimsStart(blank[1..], s);
    }
  }

  lemma {:induction false} TrimsEnd(s: string, blank: string)
    requires IsBlank(blank) && s != "" && !IsSpace(s[|s| - 1])
    ensures TrimEnd(s + blank) == s
  {
    hide IsSpace;
    if blank == "" {
      assert s + blank == s;
    } else {
      var n := |blank| - 1;
      assert (s + blank)[..|s| + n] == s + blank[..n] && (s + blank)[|s| + n] == blank[n];
      TrimsEnd(s, blank[..n]);
    }
  }

  lemma Trims(before: string, s: string, after: string)
    requires IsBlank(before) && IsBlank(after) && s != "" && !IsSpace(s[0]) && !IsSpace(s[|s| - 1])
    ensures Trim(before + s + after) == s
  {
    hide IsSpace, TrimStart, TrimEnd;
    assert before + s + after == before + (s + after);
    TrimsStart(before, s + after);
    TrimsEnd(s, after);
  }

  lemma FirstSpace(a: string, gap: string, b: string)
    requires NoSpaceIn(a) && gap != "" && IsBlank(gap)
    ensures IndexOfSpace(a + gap + b) == |a|
  {
    hide IsSpace;
    var s := a + gap + b;
    assert s[|a|] == gap[0] && forall k | 0 <= k < |a| :: s[k] == a[k];
  }

  lemma NoSpaceJoin(a: string, b: string)
    ensures NoSpaceIn(a + b) <==> NoSpaceIn(a) && NoSpaceIn(b)
  {
    var s := a + b;
    assert forall k | 0 <= k < |a| :: s[k] == a[k];
    assert forall k | 0 <= k < |b| :: s[|a| + k] == b[k];
  }

  /** A line of a first word and a last, with whitespace around and between them. */
  lemma LineParts(before: string, spec: string, gap: string, url: string, after: string)
    requires spec != [] && url != [] && NoSpaceIn(spec) && NoSpaceIn(url)
    requires IsBlank(before) && IsBlank(gap) && gap != "" && IsBlank(after)
    ensures var line := spec + gap + url;
      && Trim(before + line + after) == line && IndexOfSpace(line) == |spec| < |line| && line[..|spec|] == spec
      && Trim(TrimStart(line[|spec|..])) == url && !HasSpace(url)
  {
    hide Trim, TrimStart, IndexOfSpace, IsSpace;
    var line := spec + gap + url;
    assert line[0] == spec[0] && line[|line| - 1] == url[|url| - 1];
    Trims(before, line, after);
    FirstSpace(spec, gap, url);
    assert line[|spec|..] == gap + url;
    TrimsStart(gap, url);
    Trims("", url, "");
    assert "" + url + "" == url;
  }

  // ---- methods ----

  predicate AreMethods(ms: seq<string>) {
    && ms != [] && (forall k | 0 <= k < |ms| :: IsLiteralMethod(ms[k]))
    && (forall j, k | 0 <= j < k < |ms| :: ms[j] != ms[k])
  }

  predicate AreTokens(ts: seq<string>) {
    ts != [] && forall k | 0 <= k < |ts| :: IsMethodToken(ts[k])
  }

  lemma TokenChars(t: string)
    requires IsMethodToken(t)
    ensures '|' !in t && ',' !in t && NoSpaceIn(t) && Trim(t) == t && t != "*"
  {
    Trims("", t, "");
    assert "" + t + "" == t;
    assert t != "*" by { assert t[0] != '*'; }
  }

  lemma CutAtBar(a: string, b: string)
    requires '|' !in a && ',' !in a
    ensures SplitMethods(a + "|" + b) == [a] + SplitMethods(b)
  {
    var s := a + "|" + b;
    assert s[..|a|] == a && s[|a|] == '|' && s[|a| + 1..] == b;
    IndexOfIsFirst(s, '|', |a|);
    assert forall k | 0 <= k < |a| :: s[k] == a[k] && a[k] != ',';
    assert IndexOfChar(s, ',') > |a|;
  }

  lemma NoCut(a: string)
    requires '|' !in a && ',' !in a
    ensures SplitMethods(a) == [a]
  {
    assert a[..|a|] == a;
    IndexOfIsFirst(a, '|', |a|);
    IndexOfIsFirst(a, ',', |a|);
  }

  lemma KeepsToken(tokens: seq<string>)
    requires tokens != [] && Trim(tokens[0]) == tokens[0] != [] && TrimmedTokens(tokens[1..]) == tokens[1..]
    ensures TrimmedTokens(tokens) == tokens
  {
    assert tokens == [tokens[0]] + tokens[1..];
  }

  lemma {:induction false} TokensSplitBack(ts: seq<string>)
    requires AreTokens(ts)
    ensures SplitMethods(Join(ts, "|")) == ts && TrimmedTokens(ts) == ts && NoSpaceIn(Join(ts, "|"))
  {
    hide Trim, SplitMethods, UpperText;
    var t, rest := ts[0], ts[1..];
    assert t != [];
    TokenChars(t);
    hide IsMethodToken;
    assert ts == [t] + rest;
    if |ts| == 1 {
      NoCut(t);
      assert TrimmedTokens(rest) == rest;
    } else {
      TokensSplitBack(rest);
      CutAtBar(t, Join(rest, "|"));
      assert NoSpaceIn("|");
      NoSpaceJoin(t, "|");
      NoSpaceJoin(t + "|", Join(rest, "|"));
    }
    KeepsToken(ts);
  }

  lemma {:induction false} UpperHolds(ts: seq<string>)
    ensures forall m :: m in DistinctUpper(ts) <==> exists k | 0 <= k < |ts| :: UpperText(ts[k]) == m
    ensures forall i, j | 0 <= i < j < |DistinctUpper(ts)| :: DistinctUpper(ts)[i] != DistinctUpper(ts)[j]
  {
    hide UpperText;
    if ts != [] {
      var n := |ts| - 1;
      UpperHolds(ts[..n]);
      forall m ensures m in DistinctUpper(ts) <==> exists k | 0 <= k < |ts| :: UpperText(ts[k]) == m {
        if k :| 0 <= k < |ts[..n]| && UpperText(ts[..n][k]) == m {
          assert UpperText(ts[k]) == m;
        }
        if k :| 0 <= k < |ts| && UpperText(ts[k]) == m {
          assert k < n ==> UpperText(ts[..n][k]) == m;
        }
      }
    }
  }

  /** The methods a rule is written with, in either case and joined by bars, are read as each of them in upper case. */
  lemma MethodsRead(ts: seq<string>)
    requires AreTokens(ts)
    ensures ParseMethods(Join(ts, "|")) == Some(Some(DistinctUpper(ts))) && NoSpaceIn(Join(ts, "|")) && Join(ts, "|") != []
    ensures forall m :: m in DistinctUpper(ts) <==> exists k | 0 <= k < |ts| :: UpperText(ts[k]) == m
  {
    hide Trim, SplitMethods, TrimmedTokens, DistinctUpper, UpperText;
    TokensSplitBack(ts);
    UpperHolds(ts);
    forall k | 0 <= k < |ts| ensures ts[k] != "*" {
      assert IsMethodToken(ts[k]);
      TokenChars(ts[k]);
    }
    assert IsMethodToken(ts[0]);
    assert Join(ts, "|") != [];
  }

  /** A star is every method. */
  lemma StarRead()
    ensures ParseMethods("*") == Some(None) && NoSpaceIn("*")
  {
    hide Trim, SplitMethods;
    NoCut("*");
    Trims("", "*", "");
    assert "" + "*" + "" == "*";
    assert TrimmedTokens(["*"]) == ["*"] by { KeepsToken(["*"]); }
  }

  lemma {:induction false} UpperIsSame(ms: seq<string>)
    requires (forall k | 0 <= k < |ms| :: IsLiteralMethod(ms[k])) && forall j, k | 0 <= j < k < |ms| :: ms[j] != ms[k]
    ensures DistinctUpper(ms) == ms
  {
    if ms != [] {
      UpperIsSame(ms[..|ms| - 1]);
      var last := ms[|ms| - 1];
      assert IsLiteralMethod(last);
      assert UpperText(last) == last by { assert forall k | 0 <= k < |last| :: Upper(last[k]) == last[k]; }
      assert ms == ms[..|ms| - 1] + [last];
    }
  }

  lemma MethodsReadBack(ms: seq<string>)
    requires AreMethods(ms)
    ensures ParseMethods(Join(ms, "|")) == Some(Some(ms)) && NoSpaceIn(Join(ms, "|")) && Join(ms, "|") != []
  {
    hide ParseMethods, DistinctUpper, UpperText;
    forall k | 0 <= k < |ms| ensures IsMethodToken(ms[k]) {
      assert IsLiteralMethod(ms[k]);
    }
    MethodsRead(ms);
    UpperIsSame(ms);
  }

  // ---- a port ----

  /** A canonical decimal is the text of its value. */
  lemma {:induction false} DecOfValue(t: string)
    requires t != [] && AllDigitsIn(t) && (|t| > 1 ==> t[0] != '0')
    ensures Dec(Value(t)) == t && (|t| > 1 ==> Value(t) >= 10) && (t[0] != '0' ==> Value(t) > 0)
  {
    var head, last := t[..|t| - 1], t[|t| - 1];
    assert IsDigit(last);
    if |t| == 1 {
      assert head == [] && Value(head) == 0;
      assert Dec(Value(t)) == [last];
    } else {
      DecOfValue(head);
      var d := last as int - '0' as int;
      assert Value(t) == 10 * Value(head) + d;
      assert Dec(Value(t)) == Dec(Value(head)) + [last];
      assert t == head + [last];
    }
  }

  lemma {:induction false} NoLeadingZero(n: nat)
    requires n > 0
    ensures Dec(n)[0] != '0'
  {
    if n >= 10 {
      NoLeadingZero(n / 10);
    }
  }

  lemma PortIsPort(port: nat)
    requires 1 <= port <= 65535
    ensures IsPort(Dec(port)) && AllDigitsIn(Dec(port)) && Dec(port) != "*" && Value(Dec(port)) == port
  {
    hide Dec, Value;
    ValueOfDec(port);
    assert Pow10(5) == 100000 by { assert Pow10(3) == 1000; }
    DecLength(port, 5);
    NoLeadingZero(port);
    forall k | 0 <= k < |Dec(port)| ensures IsDigit(Dec(port)[k]) {
    }
    assert IsDigit(Dec(port)[0]);
  }

  /** A port is a star, or the decimal of a number a connection can have. */
  lemma PortIs(port: string)
    ensures IsPort(port) <==> port == "*" || exists n: nat :: 1 <= n <= 65535 && port == Dec(n)
  {
    hide Dec, Value;
    if IsPort(port) && port != "*" {
      DecOfValue(port);
      assert 1 <= Value(port) <= 65535 && port == Dec(Value(port));
    }
    if n: nat :| 1 <= n <= 65535 && port == Dec(n) {
      PortIsPort(n);
    }
  }

  lemma DefaultPorts()
    ensures Dec(443) == "443" && Dec(80) == "80"
  {
    assert Dec(4) == "4" && Dec(44) == "44";
    assert Dec(8) == "8";
  }

  // ---- a host ----

  /** What a host pattern is made of. */
  predicate IsDomainChar(c: char) {
    IsAlnum(c) || c in "_*?-."
  }

  predicate IsHostChar(c: char) {
    IsAlnum(c) || c == '_' || c == '-' || c == '.'
  }

  lemma {:induction false} JoinedChars(parts: seq<string>, sep: char, ok: char -> bool)
    requires ok(sep) && forall k, j | 0 <= k < |parts| && 0 <= j < |parts[k]| :: ok(parts[k][j])
    ensures forall j | 0 <= j < |Join(parts, [sep])| :: ok(Join(parts, [sep])[j])
    decreases |parts|
  {
    if |parts| > 1 {
      JoinedChars(parts[1..], sep, ok);
    }
  }

  lemma EmptyIsNoDomain()
    ensures !GoodDomain("")
  {
    SplitWhole("", '.');
    assert !IsHostLabel(Split("", '.')[0]);
  }

  lemma DomainChars(host: string)
    requires GoodDomain(host)
    ensures host != [] && forall k | 0 <= k < |host| :: IsDomainChar(host[k])
    ensures ':' !in host && '@' !in host && '/' !in host && '#' !in host && ']' !in host && '~' !in host && NoSpaceIn(host)
  {
    var parts := Split(host, '.');
    JoinOfSplit(host, '.');
    forall k, j | 0 <= k < |parts| && 0 <= j < |parts[k]| ensures IsDomainChar(parts[k][j]) {
      assert IsHostLabel(parts[k]);
      assert "_*?-." == "_*?-" + ".";
    }
    assert '.' in "_*?-.";
    JoinedChars(parts, '.', c => IsDomainChar(c));
    EmptyIsNoDomain();
    forall k | 0 <= k < |host| ensures host[k] !in ":@/#]~" && !IsSpace(host[k]) {
      assert IsDomainChar(host[k]);
    }
  }

  /** Names and wildcards between single dots. */
  predicate IsDomainText(s: string) {
    && s != "" && (forall k | 0 <= k < |s| :: IsDomainChar(s[k]))
    && (forall k | 0 <= k < |s| && s[k] == '.' :: 0 < k < |s| - 1 && s[k + 1] != '.')
  }

  /** What a host pattern may be. */
  lemma {:induction false} DomainIs(host: string)
    ensures GoodDomain(host) <==> IsDomainText(host)
    decreases |host|
  {
    hide Split, IndexOfChar;
    var k := IndexOfChar(host, '.');
    SplitStep(host, '.');
    NotBefore(host, '.', k);
    LabelIs(host[..k]);
    if k < |host| {
      var rest := host[k + 1..];
      DomainIs(rest);
      assert forall j | k < j < |host| :: host[j] == rest[j - k - 1];
      var labels := Split(host, '.');
      assert labels[0] == host[..k] && labels[1..] == Split(rest, '.');
      assert forall j | 0 < j < |labels| :: labels[j] == Split(rest, '.')[j - 1];
      assert GoodDomain(host) <==> IsHostLabel(host[..k]) && GoodDomain(rest);
      DotsApart(host, k);
    } else {
      assert host[..k] == host;
      assert Split(host, '.')[0] == host;
    }
  }

  lemma LabelIs(part: string)
    requires '.' !in part
    ensures IsHostLabel(part) <==> part != "" && forall k | 0 <= k < |part| :: IsDomainChar(part[k])
  {
    assert "_*?-." == "_*?-" + ".";
    assert forall k | 0 <= k < |part| :: part[k] in part;
  }

  lemma DotsApart(host: string, k: nat)
    requires k < |host| && host[k] == '.' && forall j | 0 <= j < k :: host[j] != '.'
    ensures IsDomainText(host) <==>
      k > 0 && (forall j | 0 <= j < k :: IsDomainChar(host[..k][j])) && IsDomainText(host[k + 1..])
  {
    var rest := host[k + 1..];
    assert IsDomainChar('.') by { assert "_*?-."[4] == '.'; }
    assert forall j | k < j < |host| :: host[j] == rest[j - k - 1];
    assert forall j | 0 <= j < |rest| :: rest[j] == host[j + k + 1];
    assert forall j | 0 <= j < k :: host[..k][j] == host[j];
    if IsDomainText(host) {
      assert host[k + 1] != '.' && k < |host| - 1;
      forall j | 0 <= j < |rest| && rest[j] == '.' ensures 0 < j < |rest| - 1 && rest[j + 1] != '.' {
        assert host[j + k + 1] == '.';
      }
    }
    if k > 0 && (forall j | 0 <= j < k :: IsDomainChar(host[..k][j])) && IsDomainText(rest) {
      assert rest[0] != '.';
      forall j | 0 <= j < |host| && host[j] == '.' ensures 0 < j < |host| - 1 && host[j + 1] != '.' {
        if j > k {
          assert rest[j - k - 1] == '.';
          assert rest[j - k] == host[j + 1];
        } else {
          assert j == k;
          assert host[k + 1] == rest[0];
        }
      }
    }
  }

  lemma LabelIsLabel(part: string)
    requires IsLiteralLabel(part)
    ensures IsHostLabel(part)
  {
    assert '_' in "_*?-" && '-' in "_*?-" by { assert "_*?-"[0] == '_' && "_*?-"[3] == '-'; }
    assert forall k | 0 <= k < |part| :: IsAlnum(part[k]) || part[k] == '_' || part[k] == '-';
  }

  lemma LiteralHostChars(host: string)
    requires IsLiteralHost(host)
    ensures host != [] && GoodDomain(host) && forall k | 0 <= k < |host| :: IsHostChar(host[k])
  {
    hide IsLiteralLabel;
    var parts := Split(host, '.');
    JoinOfSplit(host, '.');
    forall k | 0 <= k < |parts| ensures IsHostLabel(parts[k]) && forall j | 0 <= j < |parts[k]| :: IsHostChar(parts[k][j]) {
      assert IsLiteralLabel(parts[k]);
      LabelIsLabel(parts[k]);
      LabelChars(parts[k]);
    }
    JoinedChars(parts, '.', c => IsHostChar(c));
    DomainChars(host);
  }

  lemma LabelChars(part: string)
    requires IsLiteralLabel(part)
    ensures forall j | 0 <= j < |part| :: IsHostChar(part[j])
  {
  }

  // ---- a URL ----

  function PatternRegex(pattern: string): string {
    "^" + GlobsText(Globs(pattern), PATH) + "$"
  }

  /** A port as an authority carries it: none, or after a colon, where it may still be missing. */
  predicate IsPortSuffix(suffix: string, port: string) {
    (port == "" || IsPort(port)) && (suffix == ":" + port || (suffix == "" && port == ""))
  }

  predicate IsUrlPath(path: string) {
    (path == "" || "/" <= path) && '#' !in path && OneLine(path)
  }

  lemma SchemeIsRead(scheme: Scheme, rest: string)
    ensures var url := SchemeText(scheme) + "://" + rest;
      && ("https://" <= url <==> scheme == Https) && (scheme == Http ==> "http://" <= url)
      && (if scheme == Https then url[8..] == rest else url[7..] == rest)
      && ('#' in url <==> '#' in rest)
  {
    var head := SchemeText(scheme) + "://";
    var url := head + rest;
    assert forall k | 0 <= k < |head| :: url[k] == head[k] && head[k] != '#';
    if scheme == Https {
      assert url[..8] == "https://" && url[8..] == rest;
    } else {
      assert url[..7] == "http://" && url[7..] == rest;
      assert url[4] == ':';
    }
  }

  lemma UrlSplits(scheme: Scheme, authority: string, path: string)
    requires authority != [] && '/' !in authority && '#' !in authority && IsUrlPath(path)
    ensures SplitUrl(SchemeText(scheme) + "://" + authority + path) == Some((scheme, authority, path))
  {
    hide IndexOfChar;
    var rest := authority + path;
    SchemeIsRead(scheme, rest);
    assert SchemeText(scheme) + "://" + authority + path == SchemeText(scheme) + "://" + rest;
    assert rest[..|authority|] == authority && rest[|authority|..] == path;
    assert path != [] ==> rest[|authority|] == '/';
    IndexOfIsFirst(rest, '/', |authority|);
    assert '#' !in rest;
  }

  lemma SuffixChars(suffix: string, port: string)
    requires IsPortSuffix(suffix, port)
    ensures ':' !in port && ']' !in port && '@' !in suffix && '/' !in suffix && '#' !in suffix && NoSpaceIn(suffix)
  {
    hide Value;
    forall k | 0 <= k < |port| ensures port[k] !in ":]@/#" && !IsSpace(port[k]) {
      assert port == "*" || IsDigit(port[k]);
    }
    if suffix != "" {
      assert NoSpaceIn(":");
      NoSpaceJoin(":", port);
      assert forall k | 0 <= k < |suffix| :: suffix[k] == if k == 0 then ':' else port[k - 1];
    }
  }

  lemma AuthoritySplits(host: string, suffix: string, port: string)
    requires ':' !in host && ']' !in port && ':' !in port && (suffix == ":" + port || (suffix == "" && port == ""))
    ensures SplitAuthority(host + suffix) == (host, port)
  {
    hide LastIndexOfChar;
    if suffix == "" {
      assert host + suffix == host;
    } else {
      assert host + suffix == host + ":" + port;
      CutsAtColon(host, port);
    }
  }

  /** A `?` with a `=` or `&` somewhere after it. */
  predicate CarriesQuery(path: string) {
    exists i, j | 0 <= i < j < |path| :: path[i] == '?' && path[j] in "=&"
  }

  lemma QueryIs(path: string)
    ensures HasQuery(path) <==> CarriesQuery(path)
  {
    hide IndexOfChar;
    var k := IndexOfChar(path, '?');
    NotBefore(path, '?', k);
    var tail := path[k..];
    assert forall j | k <= j < |path| :: tail[j - k] == path[j];
    if HasQuery(path) {
      var c := if '=' in tail then '=' else '&';
      assert c in tail;
      var j :| 0 <= j < |tail| && tail[j] == c;
      assert path[k] == '?' && path[k + j] == c && c in "=&";
      assert k < k + j;
    }
    if i, j :| 0 <= i < j < |path| && path[i] == '?' && path[j] in "=&" {
      assert k <= i;
      assert tail[j - k] == path[j];
      assert path[j] == '=' || path[j] == '&';
    }
  }

  /** What a literal URL compiles to, or that it is refused for the query it carries. */
  lemma UrlCompiles(scheme: Scheme, host: string, suffix: string, port: string, path: string)
    requires GoodDomain(host) && IsPortSuffix(suffix, port) && IsUrlPath(path)
    ensures CompileUrl(SchemeText(scheme) + "://" + (host + suffix) + path) ==
      if CarriesQuery(path) then None
      else Some((scheme,
        "^" + HostText(host) + ":" + (if port == "*" then "[0-9]+" else if port == "" then Dec(DefaultPort(scheme)) else port) + "$",
        if path == "" then "^/" else PatternRegex(path)))
  {
    hide SplitUrl, SplitAuthority, DomainToRegexPartial, PathToRegexPartial, HasQuery, CarriesQuery, Globs, GlobsText, Dec, IsPort;
    DomainChars(host);
    SuffixChars(suffix, port);
    AuthoritySplits(host, suffix, port);
    var a := host + suffix;
    assert '@' !in a && '/' !in a && '#' !in a && a != [];
    UrlSplits(scheme, a, path);
    QueryIs(path);
    DomainTextIs(host);
    assert AreHostLabels(Split(host, '.'));
    PathTextIs(path);
    assert DefaultPortText(scheme) == Dec(DefaultPort(scheme)) by { DefaultPorts(); }
  }
}
