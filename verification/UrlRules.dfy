/**
 * One line of the URL rules, `<methods> <url>`, parsed and compiled
 * (src/core/lib/acl/url-rules.ts 81-127, 252-350); the `~` form is cut up in `RawRules`.
 * An error the compiler throws is `None`.
 */
module UrlRules {
  import opened Decimal
  import opened RawRules
  import opened Regex
  import opened RuleBlocks
  import opened Search
  import opened Text
  import opened Wildcards

  /** A literal URL or a `~` rule. `methods`: upper-cased, or None where the rule allows any. */
  datatype UrlRule =
    | UrlRule(methods: Option<seq<string>>, scheme: Scheme, authorityRegex: string, pathRegex: string)
    | RawUrlRule(methods: Option<seq<string>>, schemes: seq<Scheme>, hostRegex: string, authorityRegex: string,
        pathRegex: string)

  predicate AllDigitsIn(s: string) {
    forall k | 0 <= k < |s| :: IsDigit(s[k])
  }

  /** A decimal from 1 to 65535 without a leading zero, or `*`. */
  predicate IsPort(port: string) {
    port == "*" || (port != [] && |port| <= 5 && AllDigitsIn(port) && port[0] != '0' && Value(port) <= 65535)
  }

  function DefaultPortText(scheme: Scheme): string {
    if scheme == Https then "443" else "80"
  }

  // ---- the methods ----

  /** Cut at either of the two separators. */
  function SplitMethods(spec: string): seq<string>
    decreases |spec|
  {
    var k := Min(IndexOfChar(spec, '|'), IndexOfChar(spec, ','));
    if k == |spec| then [spec] else [spec[..k]] + SplitMethods(spec[k + 1..])
  }

  function TrimmedTokens(tokens: seq<string>): seq<string> {
    if tokens == [] then []
    else (if Trim(tokens[0]) == [] then [] else [Trim(tokens[0])]) + TrimmedTokens(tokens[1..])
  }

  function UpperText(s: string): string {
    seq(|s|, i requires 0 <= i < |s| => Upper(s[i]))
  }

  predicate IsMethodToken(t: string) {
    t != [] && forall k | 0 <= k < |t| :: 'a' <= t[k] <= 'z' || 'A' <= t[k] <= 'Z'
  }

  /** The first of each, in upper case. */
  function DistinctUpper(tokens: seq<string>): seq<string> {
    if tokens == [] then []
    else
      var rest := DistinctUpper(tokens[..|tokens| - 1]);
      var last := UpperText(tokens[|tokens| - 1]);
      if last in rest then rest else rest + [last]
  }

  function ParseMethods(spec: string): Option<Option<seq<string>>> {
    var tokens := TrimmedTokens(SplitMethods(spec));
    if tokens == [] then None
    else if "*" in tokens then Some(None)
    else if exists k | 0 <= k < |tokens| :: !IsMethodToken(tokens[k]) then None
    else Some(Some(DistinctUpper(tokens)))
  }

  // ---- the URL ----

  function SplitUrl(url: string): Option<(Scheme, string, string)> {
    if !("https://" <= url || "http://" <= url) || '#' in url then None
    else
      var scheme := if "https://" <= url then Https else Http;
      var rest := if scheme == Https then url[8..] else url[7..];
      var k := IndexOfChar(rest, '/');
      if k == 0 || !OneLine(rest[k..]) then None else Some((scheme, rest[..k], rest[k..]))
  }

  /** A `?` with a `=` or `&` after it reads as a query string. */
  predicate HasQuery(path: string) {
    var k := IndexOfChar(path, '?');
    '=' in path[k..] || '&' in path[k..]
  }

  /** The authority's host and port; the port is empty where it names none. */
  function SplitAuthority(authority: string): (string, string) {
    var colon := LastIndexOfChar(authority, ':');
    if colon != -1 && ']' !in authority[colon + 1..] then (authority[..colon], authority[colon + 1..]) else (authority, "")
  }

  function CompileUrl(url: string): Option<(Scheme, string, string)> {
    match SplitUrl(url)
    case None => None
    case Some((scheme, authority, path)) =>
      if '@' in authority || HasQuery(path) then None
      else
        var (host, port) := SplitAuthority(authority);
        if host == [] || (port != [] && !IsPort(port)) || ':' in host then None
        else
          match DomainToRegexPartial(host)
          case None => None
          case Some(hostRegex) =>
            var pathRegex := if path == [] then "^/" else "^" + PathToRegexPartial(path) + "$";
            var authorityPort := if port == "*" then "[0-9]+" else if port == [] then DefaultPortText(scheme) else port;
            Some((scheme, "^" + hostRegex + ":" + authorityPort + "$", pathRegex))
  }

  /** The first run of whitespace. */
  function IndexOfSpace(s: string): (k: nat)
    ensures k <= |s| && (forall j | 0 <= j < k :: !IsSpace(s[j])) && (k < |s| ==> IsSpace(s[k]))
  {
    if s == [] || IsSpace(s[0]) then 0
    else
      var k := IndexOfSpace(s[1..]);
      assert forall j | 1 <= j < k + 1 :: s[j] == s[1..][j - 1];
      1 + k
  }

  predicate HasSpace(s: string) {
    exists k | 0 <= k < |s| :: IsSpace(s[k])
  }

  /** The URL half of a rule with the methods before it. */
  function ConvertUrl(checks: Checks, url: string, methods: Option<seq<string>>): Option<UrlRule> {
    if "~" <= url then
      if !checks.compiles(url[1..]) then None
      else
        match SplitRawRegexUrl(checks, url[1..])
        case None => None
        case Some(raw) => Some(RawUrlRule(methods, raw.schemes, raw.hostRegex, raw.authorityRegex, raw.pathRegex))
    else
      match CompileUrl(url)
      case None => None
      case Some((scheme, authorityRegex, pathRegex)) => Some(UrlRule(methods, scheme, authorityRegex, pathRegex))
  }

  function ConvertUrlRule(checks: Checks, rule: string): Option<UrlRule> {
    var trimmed := Trim(rule);
    var k := IndexOfSpace(trimmed);
    if k == |trimmed| then None
    else
      var url := Trim(TrimStart(trimmed[k..]));
      if HasSpace(url) then None
      else
        match ParseMethods(trimmed[..k])
        case None => None
        case Some(methods) => ConvertUrl(checks, url, methods)
  }
}
