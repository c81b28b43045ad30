/**
 * What an audit run reads out of a logged request, in terms of the parts its URL is put together
 * from (src/core/lib/report/render/inspect-example.ts 61-91, src/core/lib/log/authority.ts 31-37).
 */
module RequestUrls {
  import opened AuditRules
  import opened Decimal
  import opened Regex
  import opened RuleBlocks
  import opened RuleLines
  import opened Search
  import opened Text
  import opened Wildcards

  /** `header` is what the `Host` header holds after the name, `query` what follows the path. */
  datatype Url = Url(scheme: Scheme, host: string, header: string, path: string, query: string) {
    function Written(): string {
      SchemeText(scheme) + "://" + ((host + header) + (path + query))
    }

    /** The path asked for: the root where none is written. */
    function Asked(): string {
      if path == "" then "/" else path
    }

    /** As a report shows it. */
    function Shown(): string {
      SchemeText(scheme) + "://" + (host + header) + Asked()
    }

    /** Each part is its own: the header's port starts at the last colon, where that is outside brackets. */
    predicate IsParts() {
      && '/' !in host && '/' !in header && (path == "" || "/" <= path) && '?' !in path && '#' !in path
      && (if header == "" then NamesNoPort(host)
          else host != "" && header[0] == ':' && ':' !in header[1..] && ']' !in header[1..])
      && (query == "" || (path != "" && (query[0] == '?' || query[0] == '#')))
    }
  }

  /** After a colon, but the very first character, comes another or a closing bracket. */
  predicate NamesNoPort(host: string) {
    forall k | 0 < k < |host| && host[k] == ':' :: exists j | k < j < |host| :: host[j] == ':' || host[j] == ']'
  }

  lemma HostIs(url: Url)
    requires url.IsParts()
    ensures HostOf(url.host + url.header) == url.host
  {
    hide LastIndexOfChar;
    var a := url.host + url.header;
    if url.header == "" {
      assert a == url.host;
      var colon := LastIndexOfChar(a, ':');
      if colon > 0 {
        NotAfter(a, ':', colon);
        var j :| colon < j < |a| && (a[j] == ':' || a[j] == ']');
        assert a[colon + 1..][j - colon - 1] == ']';
      }
    } else {
      var port := url.header[1..];
      assert a == url.host + ":" + port;
      assert a[|url.host| + 1..] == port;
      LastIndexIs(a, ':', |url.host|);
      assert a[..|url.host|] == url.host;
    }
  }

  lemma FirstOfQuery(path: string, query: string)
    requires '?' !in path && '#' !in path && (query == "" || query[0] == '?' || query[0] == '#')
    ensures var target := path + query; target[..Min(IndexOfChar(target, '?'), IndexOfChar(target, '#'))] == path
  {
    hide IndexOfChar;
    var target := path + query;
    var q, h := IndexOfChar(target, '?'), IndexOfChar(target, '#');
    NotBefore(target, '?', q);
    NotBefore(target, '#', h);
    assert forall k | 0 <= k < |path| :: target[k] == path[k];
    assert q < |target| ==> q >= |path|;
    assert h < |target| ==> h >= |path|;
    assert query != "" ==> target[|path|] == query[0];
    assert Min(q, h) == |path|;
  }

  lemma UrlIsRead(url: Url)
    requires url.IsParts()
    ensures ReadUrl(url.Written()) == Some((url.scheme, url.host + url.header, url.path))
  {
    hide IndexOfChar;
    var authority, target := url.host + url.header, url.path + url.query;
    var rest := authority + target;
    SchemeIsRead(url.scheme, rest);
    assert rest[..|authority|] == authority && rest[|authority|..] == target;
    if target != "" {
      assert url.path != "" && rest[|authority|] == url.path[0] == '/';
    }
    IndexOfIsFirst(rest, '/', |authority|);
    FirstOfQuery(url.path, url.query);
    assert url.Written() == SchemeText(url.scheme) + "://" + rest;
  }

  /**
   * Whatever a request's URL is put together from: without a method or a host a rule could name, or
   * with a star in its path, it is shown without its query and left out; else a rule is written for
   * its host, the port it was sent to and its path.
   */
  lemma RequestIs(url: Url, event: Event)
    requires url.IsParts() && event.url == Some(url.Written()) && event.verb.Some? && event.port.Some?
    ensures ParseRequest(event) ==
      if !IsLiteralMethod(event.verb.value) then LeftOut(event.verb.value, url.Shown(), OfMethod)
      else if !IsLiteralHost(url.host) then LeftOut(event.verb.value, url.Shown(), OfHost)
      else if '*' in url.path then LeftOut(event.verb.value, url.Shown(), OfPath)
      else Writable(Parsed(OriginText(url.scheme, url.host, event.port.value), event.verb.value, url.Asked()))
  {
    hide ReadUrl, HostOf, IsLiteralHost, IsLiteralMethod, OriginText;
    HostIs(url);
    UrlIsRead(url);
  }

  /** Every URL that starts as one has such parts. */
  lemma UrlHasParts(text: string) returns (url: Url)
    requires "https://" <= text || "http://" <= text
    ensures url.IsParts() && url.Written() == text
  {
    hide Url.IsParts;
    var scheme := if "https://" <= text then Https else Http;
    var head := SchemeText(scheme) + "://";
    assert text == head + text[|head|..] by { assert text[..|head|] == head; }
    url := PartsOf(scheme, text[|head|..]);
  }

  lemma PartsOf(scheme: Scheme, rest: string) returns (url: Url)
    ensures url.IsParts() && url.Written() == SchemeText(scheme) + "://" + rest
  {
    hide IndexOfChar, NamesNoPort;
    var k := IndexOfChar(rest, '/');
    var host, header := CutHeader(rest[..k]);
    var path, query := CutQuery(rest[k..]);
    NoSlash(host, header);
    url := Url(scheme, host, header, path, query);
    assert (host + header) + (path + query) == rest[..k] + rest[k..] == rest;
  }

  lemma CutQuery(target: string) returns (path: string, query: string)
    requires target == "" || target[0] == '/'
    ensures path + query == target && '?' !in path && '#' !in path && (path == "" || "/" <= path)
    ensures query == "" || (path != "" && (query[0] == '?' || query[0] == '#'))
  {
    hide IndexOfChar;
    var a, b := IndexOfChar(target, '?'), IndexOfChar(target, '#');
    NotBefore(target, '?', a);
    NotBefore(target, '#', b);
    var q := Min(a, b);
    path, query := target[..q], target[q..];
    assert forall j | 0 <= j < q :: path[j] == target[j];
  }

  lemma CutHeader(a: string) returns (host: string, header: string)
    ensures host + header == a
    ensures if header == "" then NamesNoPort(host)
      else host != "" && header[0] == ':' && ':' !in header[1..] && ']' !in header[1..]
  {
    hide LastIndexOfChar;
    var colon := LastIndexOfChar(a, ':');
    host, header := a, "";
    assert a + "" == a;
    if colon > 0 && ']' !in a[colon + 1..] {
      host, header := a[..colon], a[colon..];
      assert header[1..] == a[colon + 1..];
    } else if colon > 0 {
      var j :| 0 <= j < |a[colon + 1..]| && a[colon + 1..][j] == ']';
      assert a[colon + 1 + j] == ']';
      NotAfter(a, ':', colon);
    }
  }

  lemma NoSlash(host: string, header: string)
    requires '/' !in host + header
    ensures '/' !in host && '/' !in header
  {
    var a := host + header;
    assert forall k | 0 <= k < |host| :: a[k] == host[k];
    assert forall k | 0 <= k < |header| :: a[|host| + k] == header[k];
  }
}
