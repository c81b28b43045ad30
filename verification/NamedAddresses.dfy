/**
 * A rule that names an address opens it, from the text the rule is written in to the end of the run,
 * though the address be internal.
 */
module NamedAddresses {
  import opened Decimal
  import opened Haproxy
  import opened InspectStages
  import opened InspectStageSafe
  import opened Ipv4
  import opened Matchers
  import opened PlainRuleMeaning
  import opened RawRules
  import opened Regex
  import opened RequestChecks
  import opened ResolverAgreement
  import opened RuleBlockCorrect
  import opened RuleBlocks
  import opened RuleLines
  import opened RuleSets
  import opened Search
  import opened Text
  import opened UrlRules
  import opened Wildcards

  // ---- an address as a host pattern ----

  lemma {:induction false} OctetsAreDomain(s: string, n: nat)
    requires n > 0 && IsOctets(s, n)
    ensures IsDomainText(s)
  {
    hide Value;
    AddressChars(s, n);
    if n > 1 {
      var k := FirstDotIn(s);
      FirstDotSplits(s);
      OctetsAreDomain(s[k + 1..], n - 1);
      DotsApart(s, k);
    }
  }

  /** Text without wildcards is written as an expression of itself. */
  lemma {:induction false} LiteralText(t: string)
    requires IsPlainText(t)
    ensures GlobsText(Globs(t), DOMAIN) == EscapeDots(t)
  {
    if t != [] {
      assert IsPlainText(t[1..]);
      LiteralText(t[1..]);
      var gs := Globs(t);
      assert t[0] != '*' && t[0] != '?';
      assert gs == [Lit(t[0])] + Globs(t[1..]) && gs[1..] == Globs(t[1..]);
      PlainEscaped(t[0]);
    }
  }

  lemma PlainEscaped(c: char)
    requires c == '.' || IsPlain(c)
    ensures Escaped(c) == if c == '.' then "\\." else [c]
  {
    assert IsPlain(c) ==> c !in REGEX_META;
    assert '.' in REGEX_META;
  }

  /** The host rule of an address and a port names just the requests for that address on that port. */
  lemma AddressRuleNames(w: World, checks: Checks, address: string, port: string, scheme: Scheme, req: Request)
    requires ReadsTrees(w.engine) && IsAddress(address) && IsPort(port) && OneLine(req.host) && OneLine(req.path)
    ensures FromHostRule(checks, address + ":" + port).Some?
    ensures NamedBy(w, FromHostRule(checks, address + ":" + port).value, scheme, req) <==>
      req.host == address && IsOnPort(port, req) && "/" <= req.path
  {
    hide ReadsTrees, IsOctets, IsPort, FromHostRule, RuleMatches, Globs, GlobsText, Fits, EscapeDots, Unescape, IsLiteralBody,
      IsOnPort, SameText;
    AddressChars(address, 4);
    OctetsAreDomain(address, 4);
    DomainIs(address);
    PlainHostRuleMeans(w.engine, checks, address, port, scheme, req);
    assert IsPlainText(address);
    LiteralText(address);
    EscapedTextIsBody(address);
    if req.host == address {
      assert '*' !in address && '?' !in address;
      LiteralFits(address, Names, address, true);
      ItsOwnText(address);
    } else if IsAddress(req.host) {
      AddressChars(req.host, 4);
      assert IsPlainText(req.host);
      EscapedTextIsBody(req.host);
      BetweenAnchors(EscapeDots(address), EscapeDots(req.host));
    }
  }

  lemma ItsOwnText(t: string)
    ensures SameText(t, t, true)
  {
  }

  lemma BetweenAnchors(a: string, b: string)
    ensures "^" + a + "$" == "^" + b + "$" <==> a == b
  {
    var x, y := "^" + a + "$", "^" + b + "$";
    assert x[1..|x| - 1] == a && y[1..|y| - 1] == b;
  }

  // ---- from the rule's text to the end of the run ----

  lemma {:induction false} HostRuleAt(checks: Checks, patterns: seq<string>, k: nat)
    requires FromHostRules(checks, patterns).Some? && k < |patterns|
    ensures |FromHostRules(checks, patterns).value| == |patterns|
    ensures FromHostRule(checks, patterns[k]) == Some(FromHostRules(checks, patterns).value[k])
  {
    hide FromHostRule;
    var n := |patterns| - 1;
    if n > 0 {
      HostRuleAt(checks, patterns[..n], if k < n then k else 0);
    }
  }

  lemma AddressIsName(address: string)
    requires IsAddress(address)
    ensures IsHostNameText(address)
  {
    hide IsOctets;
    AddressChars(address, 4);
    AddressWord(address, 4);
  }

  /**
   * For all rules that compile, one of them the host rule of an address: a request for that address, on
   * the rule's port and with a legal path, is sent there without a query, internal or not. The proxy's
   * own listener is all that stays closed.
   */
  lemma NamedAddressIsReached(w: World, checks: Checks, hostRules: seq<string>, urlLines: seq<string>, urlRules: seq<UrlRule>,
    k: nat, address: string, port: string, ctx: Context, scheme: Scheme, req: Request)
    requires ReadsTrees(w.engine) && OnlyCuts(w) && IsView(w, req) && GoodContext(ctx) && ctx.extension == []
    requires AreCompiled(checks, urlLines, urlRules) && SchemeRules(checks, hostRules, urlRules, scheme).Some?
    requires k < |hostRules| && hostRules[k] == address + ":" + port && IsAddress(address) && IsPort(port)
    requires HasHost(req) && req.host == address && IsOnPort(port, req)
    requires "/" <= req.path && !HasClimb(req.path) && '\\' !in req.path
    ensures EndingOf(Run(w, req, Stage(SchemeRules(checks, hostRules, urlRules, scheme).value, ctx, scheme), START)) ==
      Ending(if IsInternal(w, ctx, address) && IsProxy(w, ctx, address, req) then Haproxy.Denied(403) else Running, 0, Some(address))
  {
    hide ReadsTrees, OnlyCuts, GoodContext, ConvertUrlRule, FromHostRules, OfScheme, Run, Stage, IsAddress, IsPort, HasClimb,
      IsInternal, IsProxy, RuleMatches, IdOf, GoodRules, Block, IsOnPort, HasHost, IsHostNameText, NamesHost;
    var rules := SchemeRules(checks, hostRules, urlRules, scheme).value;
    CompiledRulesAreGood(checks, hostRules, urlLines, urlRules, scheme);
    HostRuleAt(checks, hostRules, k);
    AddressRuleNames(w, checks, address, port, scheme, req);
    assert NamedBy(w, rules[k], scheme, req) by {
      SameButId(w, FromHostRules(checks, hostRules).value[k], IdOf(scheme, k), scheme, req);
    }
    assert AnyNames(w, rules, scheme, req) && AnyMatches(w.engine, rules, scheme, req);
    AddressIsName(address);
    EveryRunEndsAsDesigned(w, req, rules, ctx, scheme);
    assert GoodRequest(req) by { HostIsGood(w, req); }
    RulesSegment(w, req, rules, ctx, scheme);
    NothingToRun(w, req, Run(w, req, Block(rules, ctx.mode, scheme), AfterName(req)));
  }

  lemma NothingToRun(w: World, req: Request, st: State)
    ensures Run(w, req, [], st) == st
  {
  }

  lemma SameButId(w: World, rule: CompiledRule, id: string, scheme: Scheme, req: Request)
    ensures NamedBy(w, rule.(id := id), scheme, req) == NamedBy(w, rule, scheme, req)
  {
  }
}
