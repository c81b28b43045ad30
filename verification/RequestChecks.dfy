/**
 * The three expressions the proxy tries a request with before and after the rules: a host name
 * (haproxy-matchers.ts 20), a path that climbs (haproxy-inspect-stage.ts 223) and a dotted address
 * (haproxy-rules.ts 22). Each is tied to what it recognizes.
 */
module RequestChecks {
  import opened Cidr
  import opened Decimal
  import opened Ipv4
  import opened Matchers
  import opened Regex
  import opened Search

  const HOSTNAME_CHARSET := "^[A-Za-z0-9._-]+$"
  const CLIMB := "(^|/|%2f|%5c)\\.\\.($|/|;|%2f|%5c|%3b)"
  const OCTET_TEXT := "(25[0-5]|2[0-4][0-9]|1[0-9]{2}|[1-9]?[0-9])"
  const HOST_IS_ADDRESS := "^" + OCTET_TEXT + "\\." + OCTET_TEXT + "\\." + OCTET_TEXT + "\\." + OCTET_TEXT + "$"

  // ---- what they recognize ----

  predicate IsHostNameChar(c: char) { IsAlnum(c) || c in "._-" }

  predicate IsHostNameText(s: string) {
    s != [] && forall k | 0 <= k < |s| :: IsHostNameChar(s[k])
  }

  /** `t` stands at `i`, letter case aside. */
  predicate StandsAt(s: string, t: string, i: nat) {
    i <= |s| && StartsAs(t, s[i..], true)
  }

  /** Something that parts segments ends at `i`, or the path starts there. */
  predicate IsOpenedAt(path: string, i: nat)
    requires i <= |path|
  {
    || i == 0 || path[i - 1] == '/'
    || (i >= 3 && (StandsAt(path, "%2f", i - 3) || StandsAt(path, "%5c", i - 3)))
  }

  /** Something that ends a segment starts at `i`, or the path ends there. */
  predicate IsClosedAt(path: string, i: nat)
    requires i <= |path|
  {
    || i == |path| || path[i] == '/' || path[i] == ';'
    || StandsAt(path, "%2f", i) || StandsAt(path, "%5c", i) || StandsAt(path, "%3b", i)
  }

  /** A segment an origin may read as `..`. */
  predicate HasClimb(path: string) {
    exists i | 0 <= i < |path| - 1 ::
      path[i] == '.' && path[i + 1] == '.' && IsOpenedAt(path, i) && IsClosedAt(path, i + 2)
  }

  // ---- the host name ----

  const NAME_CHAR := Set(false, [Span('A', false, 'Z', false), Span('a', false, 'z', false), Span('0', false, '9', false),
    One('.', false), One('_', false), One('-', false)])
  const NAME := Cat(Bol, Cat(Quant(NAME_CHAR, Plus, false), Eol))

  lemma ItemsStep(item: Item, rest: seq<Item>, caret: bool, dash: bool)
    requires GoodItem(item, caret, dash || rest == []) && GoodItems(rest, false, !item.One?)
    ensures GoodItems([item] + rest, caret, dash) && PrintItems([item] + rest) == PrintItem(item) + PrintItems(rest)
  {
    assert ([item] + rest)[1..] == rest;
  }

  lemma NameItems()
    ensures GoodItems(NAME_CHAR.items, true, true)
    ensures PrintItems(NAME_CHAR.items) == "A-Z" + ("a-z" + ("0-9" + ("." + ("_" + ("-" + [])))))
  {
    hide GoodItems, PrintItems;
    var a, b, c := Span('A', false, 'Z', false), Span('a', false, 'z', false), Span('0', false, '9', false);
    var d, e, f := One('.', false), One('_', false), One('-', false);
    NoItems();
    ItemsStep(f, [], false, false);
    ItemsStep(e, [f] + [], false, false);
    ItemsStep(d, [e] + ([f] + []), false, true);
    ItemsStep(c, [d] + ([e] + ([f] + [])), false, true);
    ItemsStep(b, [c] + ([d] + ([e] + ([f] + []))), false, true);
    ItemsStep(a, [b] + ([c] + ([d] + ([e] + ([f] + [])))), true, true);
    assert NAME_CHAR.items == [a] + ([b] + ([c] + ([d] + ([e] + ([f] + [])))));
  }

  lemma SetText(items: seq<Item>)
    ensures Print(Set(false, items)) == "[" + PrintItems(items) + "]"
    ensures items != [] && GoodItems(items, true, true) ==> WellFormed(Set(false, items))
  {
  }

  lemma NameCharText()
    ensures WellFormed(NAME_CHAR) && IsPortable(NAME_CHAR)
    ensures Print(NAME_CHAR) == "[A-Za-z0-9._-]"
  {
    assert IsPortable(NAME_CHAR);
    hide GoodItems, PrintItems, Print, WellFormed, IsPortable;
    NameItems();
    SetText(NAME_CHAR.items);
    assert "[" + ("A-Z" + ("a-z" + ("0-9" + ("." + ("_" + ("-" + [])))))) + "]" == "[A-Za-z0-9._-]";
  }

  lemma NoItems()
    ensures GoodItems([], false, false) && PrintItems([]) == []
  {
  }

  lemma QuantIsPortable(body: Re, times: Times)
    requires IsPortable(body) && IsCountable(times)
    ensures IsPortable(Quant(body, times, false))
  {
  }

  lemma NameText()
    ensures WellFormed(NAME) && IsPortable(NAME) && Print(NAME) == HOSTNAME_CHARSET
  {
    hide NAME_CHAR, Print, WellFormed, IsPortable;
    NameCharText();
    IsSet();
    var run := Quant(NAME_CHAR, Plus, false);
    QuantText(NAME_CHAR, Plus);
    QuantIsPortable(NAME_CHAR, Plus);
    PortableParts();
    CatText(run, Eol);
    CatText(Bol, Cat(run, Eol));
    CatIsPortable(run, Eol);
    CatIsPortable(Bol, Cat(run, Eol));
    assert "^" + (("[A-Za-z0-9._-]" + "+") + "$") == HOSTNAME_CHARSET;
  }

  lemma IsSet()
    ensures NAME_CHAR.Set?
  {
  }

  lemma NameCharAt(s: string, i: nat, j: nat)
    requires i <= j <= |s|
    ensures Matches(NAME_CHAR, s, i, j, false) <==> j == i + 1 && IsHostNameChar(s[i])
  {
    if j == i + 1 {
      var items := NAME_CHAR.items;
      assert InItems(items, s[i], false) <==>
        InItem(items[0], s[i]) || InItem(items[1], s[i]) || InItem(items[2], s[i]) || InItem(items[3], s[i])
        || InItem(items[4], s[i]) || InItem(items[5], s[i]);
    }
  }

  /** Repeats of one character at a time: as many as there are characters, each of them one. */
  lemma {:induction false} NameRun(n: nat, s: string, i: nat)
    requires i <= |s|
    ensures Repeats(NAME_CHAR, n, s, i, |s|, false) <==> n == |s| - i && forall k | i <= k < |s| :: IsHostNameChar(s[k])
    decreases n
  {
    hide NAME_CHAR, Matches, IsHostNameChar;
    if n > 0 {
      if Repeats(NAME_CHAR, n, s, i, |s|, false) {
        var k := RepeatsFirst(NAME_CHAR, n, s, i, |s|, false);
        NameCharAt(s, i, k);
        NameRun(n - 1, s, k);
      }
      if n == |s| - i && forall k | i <= k < |s| :: IsHostNameChar(s[k]) {
        NameCharAt(s, i, i + 1);
        NameRun(n - 1, s, i + 1);
        RepeatsMore(NAME_CHAR, n, s, i, i + 1, |s|, false);
      }
    }
  }

  /** The expression finds host names and nothing else. */
  lemma NameFinds(s: string)
    ensures Finds(NAME, s, false) <==> IsHostNameText(s)
  {
    hide NAME_CHAR, Matches, Repeats, IsHostNameChar;
    var run := Quant(NAME_CHAR, Plus, false);
    AnchoredFinds(run, s, false);
    QuantMatches(NAME_CHAR, Plus, false, s, 0, |s|, false);
    if n: nat :| InTimes(Plus, n) && Repeats(NAME_CHAR, n, s, 0, |s|, false) {
      NameRun(n, s, 0);
    }
    if IsHostNameText(s) {
      NameRun(|s|, s, 0);
      assert InTimes(Plus, |s|) && Repeats(NAME_CHAR, |s|, s, 0, |s|, false);
    }
  }

  // ---- the path that climbs ----

  const SLASH := Chr('/', false)
  const SEMICOLON := Chr(';', false)

  const OPENED := Alt(Bol, Alt(SLASH, Alt(Literal("%2f"), Literal("%5c"))))
  const CLOSED := Alt(Eol, Alt(SLASH, Alt(SEMICOLON, Alt(Literal("%2f"), Alt(Literal("%5c"), Literal("%3b"))))))
  const CLIMBING := Cat(Group(Numbered, OPENED), Cat(DOT, Cat(DOT, Group(Numbered, CLOSED))))

  lemma CodeText(c: char, d: char)
    requires IsAlnum(c) && IsAlnum(d)
    ensures Print(Literal(['%', c, d])) == ['%', c, d]
  {
    CodeTree(c, d);
    hide Print, Literal;
    var last := Cat(Chr(d, false), Empty);
    CatText(Chr(d, false), Empty);
    CatText(Chr(c, false), last);
    CatText(Chr('%', false), Cat(Chr(c, false), last));
    BareText('%');
    BareText(c);
    BareText(d);
  }

  lemma BareText(c: char)
    ensures Print(Chr(c, false)) == [c] && Print(Empty) == ""
  {
  }

  lemma CodeTree(c: char, d: char)
    requires IsAlnum(c) && IsAlnum(d)
    ensures Literal(['%', c, d]) == Cat(Chr('%', false), Cat(Chr(c, false), Cat(Chr(d, false), Empty)))
  {
    assert '%' !in META && c !in META && d !in META;
    hide META;
    var t := ['%', c, d];
    assert t[1..] == [c, d] && [c, d][1..] == [d] && [d][1..] == [];
    assert Literal([]) == Empty;
    assert Literal([d]) == Cat(Chr(d, false), Empty);
    assert Literal([c, d]) == Cat(Chr(c, false), Literal([d]));
  }

  lemma CodesText()
    ensures Print(Literal("%2f")) == "%2f" && Print(Literal("%5c")) == "%5c" && Print(Literal("%3b")) == "%3b"
  {
    hide Print, Literal;
    CodeText('2', 'f');
    CodeText('5', 'c');
    CodeText('3', 'b');
  }

  lemma AltIsPortable(left: Re, right: Re)
    requires IsPortable(left) && IsPortable(right)
    ensures IsPortable(Alt(left, right))
  {
  }

  lemma CharText(c: char)
    requires c == '/' || c == ';'
    ensures Print(Chr(c, false)) == [c] && WellFormed(Chr(c, false)) && IsPortable(Chr(c, false))
  {
  }

  lemma OpenedText()
    ensures WellFormed(OPENED) && IsPortable(OPENED) && Print(OPENED) == "^|/|%2f|%5c"
  {
    hide Print, WellFormed, IsPortable, Literal;
    CodesText();
    var a, b := Literal("%2f"), Literal("%5c");
    LiteralShape("%2f");
    LiteralShape("%5c");
    CharText('/');
    PortableParts();
    CatText(Bol, Eol);
    AltText(a, b);
    AltText(SLASH, Alt(a, b));
    AltText(Bol, Alt(SLASH, Alt(a, b)));
    AltIsPortable(a, b);
    AltIsPortable(SLASH, Alt(a, b));
    AltIsPortable(Bol, Alt(SLASH, Alt(a, b)));
    assert "^" + "|" + ("/" + "|" + ("%2f" + "|" + "%5c")) == "^|/|%2f|%5c";
  }

  lemma ClosedText()
    ensures WellFormed(CLOSED) && IsPortable(CLOSED) && Print(CLOSED) == "$|/|;|%2f|%5c|%3b"
  {
    hide Print, WellFormed, IsPortable, Literal;
    CodesText();
    var a, b, c := Literal("%2f"), Literal("%5c"), Literal("%3b");
    LiteralShape("%2f");
    LiteralShape("%5c");
    LiteralShape("%3b");
    CharText('/');
    CharText(';');
    PortableParts();
    CatText(Bol, Eol);
    AltText(b, c);
    AltText(a, Alt(b, c));
    AltText(SEMICOLON, Alt(a, Alt(b, c)));
    AltText(SLASH, Alt(SEMICOLON, Alt(a, Alt(b, c))));
    AltText(Eol, Alt(SLASH, Alt(SEMICOLON, Alt(a, Alt(b, c)))));
    AltIsPortable(b, c);
    AltIsPortable(a, Alt(b, c));
    AltIsPortable(SEMICOLON, Alt(a, Alt(b, c)));
    AltIsPortable(SLASH, Alt(SEMICOLON, Alt(a, Alt(b, c))));
    AltIsPortable(Eol, Alt(SLASH, Alt(SEMICOLON, Alt(a, Alt(b, c)))));
    assert "$" + "|" + ("/" + "|" + (";" + "|" + ("%2f" + "|" + ("%5c" + "|" + "%3b")))) == "$|/|;|%2f|%5c|%3b";
  }

  lemma GroupIsPortable(body: Re)
    requires IsPortable(body)
    ensures IsPortable(Group(Numbered, body))
  {
  }

  lemma DotText()
    ensures Print(DOT) == "\\." && WellFormed(DOT) && IsPortable(DOT)
  {
  }

  lemma ClimbPieces()
    ensures "(" + "^|/|%2f|%5c" + ")" + ("\\." + ("\\." + ("(" + "$|/|;|%2f|%5c|%3b" + ")"))) == CLIMB
  {
  }

  lemma ClimbText()
    ensures WellFormed(CLIMBING) && IsPortable(CLIMBING) && Print(CLIMBING) == CLIMB
  {
    hide Print, WellFormed, IsPortable, OPENED, CLOSED, DOT, CLIMB;
    OpenedText();
    ClosedText();
    DotText();
    var a, b := Group(Numbered, OPENED), Group(Numbered, CLOSED);
    GroupText(OPENED);
    GroupText(CLOSED);
    GroupIsPortable(OPENED);
    GroupIsPortable(CLOSED);
    DotIsChar();
    CatText(DOT, b);
    CatText(DOT, Cat(DOT, b));
    CatText(a, Cat(DOT, Cat(DOT, b)));
    CatIsPortable(DOT, b);
    CatIsPortable(DOT, Cat(DOT, b));
    CatIsPortable(a, Cat(DOT, Cat(DOT, b)));
    ClimbPieces();
  }

  lemma DotIsChar()
    ensures DOT.Chr?
  {
  }

  lemma CodeAt(t: string, s: string, i: nat, j: nat)
    requires i <= j <= |s|
    ensures Matches(Literal(t), s, i, j, true) <==> j == i + |t| && StandsAt(s, t, i)
  {
    hide Matches, Literal;
    LiteralShape(t);
    MatchesSlice(Literal(t), s, i, j, true);
    LiteralCovers(t, s[i..j], true);
    if j == i + |t| {
      assert s[i..][..|t|] == s[i..j];
    }
  }

  lemma CharAt(c: char, s: string, i: nat, j: nat)
    requires i <= j <= |s| && (c == '/' || c == ';' || c == '.')
    ensures forall escaped :: Matches(Chr(c, escaped), s, i, j, true) <==> j == i + 1 && s[i] == c
  {
  }

  lemma OpenedAt(s: string, i: nat, j: nat)
    requires i <= j <= |s|
    ensures Matches(Group(Numbered, OPENED), s, i, j, true) <==>
      || i == j == 0 || (j == i + 1 && s[i] == '/')
      || (j == i + 3 && (StandsAt(s, "%2f", i) || StandsAt(s, "%5c", i)))
  {
    hide Matches, Literal, StandsAt;
    var a, b := Literal("%2f"), Literal("%5c");
    GroupMatches(Numbered, OPENED, s, i, j, true);
    AltMatches(Bol, Alt(SLASH, Alt(a, b)), s, i, j, true);
    AltMatches(SLASH, Alt(a, b), s, i, j, true);
    AltMatches(a, b, s, i, j, true);
    CharAt('/', s, i, j);
    CodeAt("%2f", s, i, j);
    CodeAt("%5c", s, i, j);
    EndsAt(s, i, j);
  }

  lemma EndsAt(s: string, i: nat, j: nat)
    requires i <= j <= |s|
    ensures Matches(Bol, s, i, j, true) <==> i == j == 0
    ensures Matches(Eol, s, i, j, true) <==> i == j == |s|
  {
  }

  lemma ClosedAt(s: string, i: nat, j: nat)
    requires i <= j <= |s|
    ensures Matches(Group(Numbered, CLOSED), s, i, j, true) <==>
      || i == j == |s| || (j == i + 1 && (s[i] == '/' || s[i] == ';'))
      || (j == i + 3 && (StandsAt(s, "%2f", i) || StandsAt(s, "%5c", i) || StandsAt(s, "%3b", i)))
  {
    hide Matches, Literal, StandsAt;
    var a, b, c := Literal("%2f"), Literal("%5c"), Literal("%3b");
    GroupMatches(Numbered, CLOSED, s, i, j, true);
    AltMatches(Eol, Alt(SLASH, Alt(SEMICOLON, Alt(a, Alt(b, c)))), s, i, j, true);
    AltMatches(SLASH, Alt(SEMICOLON, Alt(a, Alt(b, c))), s, i, j, true);
    AltMatches(SEMICOLON, Alt(a, Alt(b, c)), s, i, j, true);
    AltMatches(a, Alt(b, c), s, i, j, true);
    AltMatches(b, c, s, i, j, true);
    CharAt('/', s, i, j);
    CharAt(';', s, i, j);
    CodeAt("%2f", s, i, j);
    CodeAt("%5c", s, i, j);
    CodeAt("%3b", s, i, j);
    EndsAt(s, i, j);
  }

  lemma StandsIn(s: string, t: string, i: nat)
    requires StandsAt(s, t, i)
    ensures i + |t| <= |s|
  {
  }

  /** Where the two dots start, and how far the match reaches on either side. */
  lemma ClimbAt(s: string, i: nat) returns (from: nat, to: nat)
    requires i + 2 <= |s| && s[i] == '.' && s[i + 1] == '.' && IsOpenedAt(s, i) && IsClosedAt(s, i + 2)
    ensures from <= i && i + 2 <= to <= |s| && Matches(CLIMBING, s, from, to, true)
  {
    hide Matches, OPENED, CLOSED, StandsAt;
    from := if i == 0 then 0 else if s[i - 1] == '/' then i - 1 else i - 3;
    OpenedAt(s, from, i);
    if IsCode(s, i + 2) {
      CodeFits(s, i + 2);
    }
    to := if i + 2 == |s| then i + 2 else if s[i + 2] == '/' || s[i + 2] == ';' then i + 3 else i + 5;
    ClosedAt(s, i + 2, to);
    var b := Group(Numbered, CLOSED);
    CharAt('.', s, i, i + 1);
    CharAt('.', s, i + 1, i + 2);
    CatJoins(DOT, b, s, i + 1, i + 2, to, true);
    CatJoins(DOT, Cat(DOT, b), s, i, i + 1, to, true);
    CatJoins(Group(Numbered, OPENED), Cat(DOT, Cat(DOT, b)), s, from, i, to, true);
  }

  predicate IsCode(s: string, i: nat) {
    StandsAt(s, "%2f", i) || StandsAt(s, "%5c", i) || StandsAt(s, "%3b", i)
  }

  lemma CodeFits(s: string, i: nat)
    requires IsCode(s, i)
    ensures i + 3 <= |s|
  {
    hide StandsAt;
    if StandsAt(s, "%2f", i) {
      StandsIn(s, "%2f", i);
    } else if StandsAt(s, "%5c", i) {
      StandsIn(s, "%5c", i);
    } else {
      StandsIn(s, "%3b", i);
    }
  }

  /** The expression finds something just in the paths that climb. */
  lemma ClimbFinds(path: string)
    ensures Finds(CLIMBING, path, true) <==> HasClimb(path)
  {
    hide Matches, OPENED, CLOSED, StandsAt, IsOpenedAt, IsClosedAt;
    var b := Group(Numbered, CLOSED);
    if Finds(CLIMBING, path, true) {
      var i: nat, j: nat :| i <= j <= |path| && Matches(CLIMBING, path, i, j, true);
      var k := CatSplits(Group(Numbered, OPENED), Cat(DOT, Cat(DOT, b)), path, i, j, true);
      var m := CatSplits(DOT, Cat(DOT, b), path, k, j, true);
      var n := CatSplits(DOT, b, path, m, j, true);
      CharAt('.', path, k, m);
      CharAt('.', path, m, n);
      Opens(path, i, k);
      Closes(path, n, j);
    }
    if HasClimb(path) {
      var i :| 0 <= i < |path| - 1 &&
        path[i] == '.' && path[i + 1] == '.' && IsOpenedAt(path, i) && IsClosedAt(path, i + 2);
      var from, to := ClimbAt(path, i);
    }
  }

  lemma Opens(s: string, i: nat, j: nat)
    requires i <= j <= |s| && Matches(Group(Numbered, OPENED), s, i, j, true)
    ensures IsOpenedAt(s, j)
  {
    hide Matches, OPENED, StandsAt;
    OpenedAt(s, i, j);
  }

  lemma Closes(s: string, i: nat, j: nat)
    requires i <= j <= |s| && Matches(Group(Numbered, CLOSED), s, i, j, true)
    ensures IsClosedAt(s, i)
  {
    hide Matches, CLOSED, StandsAt;
    ClosedAt(s, i, j);
  }

  // ---- the address ----

  const ADDRESS := Cat(Bol, Cat(OctetsTree(4), Eol))

  lemma OctetIsPortable()
    ensures IsPortable(OCTET)
  {
    RangesArePortable();
    var a := Cat(Plain('2'), Cat(Plain('5'), Range('0', '5')));
    var b := Cat(Plain('2'), Cat(Range('0', '4'), Range('0', '9')));
    var c := Cat(Plain('1'), Quant(Range('0', '9'), Exactly(2), false));
    var d := Cat(Quant(Range('1', '9'), Opt, false), Range('0', '9'));
    assert IsPortable(a) && IsPortable(b) && IsPortable(c) && IsPortable(d);
    AltIsPortable(c, d);
    AltIsPortable(b, Alt(c, d));
    AltIsPortable(a, Alt(b, Alt(c, d)));
  }

  lemma RangesArePortable()
    ensures IsPortable(Range('0', '5')) && IsPortable(Range('0', '4')) && IsPortable(Range('0', '9'))
    ensures IsPortable(Range('1', '9'))
  {
  }

  lemma OctetPieces()
    ensures "(" + ("25[0-5]" + "|" + ("2[0-4][0-9]" + "|" + ("1[0-9]{2}" + "|" + "[1-9]?[0-9]"))) + ")" == OCTET_TEXT
  {
  }

  lemma OneOctetText()
    ensures WellFormed(OCTET) && IsPortable(OCTET) && Print(OCTET) == OCTET_TEXT && OCTET.Group?
  {
    hide Print, WellFormed, IsPortable, OCTET_TEXT;
    OctetPieces();
    Ipv4.OctetText();
    OctetIsPortable();
  }

  lemma {:induction false} OctetsText(n: nat)
    requires n > 0
    ensures WellFormed(OctetsTree(n)) && IsPortable(OctetsTree(n)) && !OctetsTree(n).Alt?
    ensures Print(OctetsTree(n)) == if n == 1 then OCTET_TEXT else OCTET_TEXT + "\\." + Print(OctetsTree(n - 1))
  {
    hide Print, WellFormed, IsPortable, OCTET, OCTET_TEXT, DOT;
    OneOctetText();
    if n > 1 {
      OctetsText(n - 1);
      DotText();
      DotIsChar();
      var rest := OctetsTree(n - 1);
      CatText(DOT, rest);
      CatText(OCTET, Cat(DOT, rest));
      CatIsPortable(DOT, rest);
      CatIsPortable(OCTET, Cat(DOT, rest));
    }
  }

  lemma AddressText()
    ensures WellFormed(ADDRESS) && IsPortable(ADDRESS) && Print(ADDRESS) == HOST_IS_ADDRESS
  {
    hide Print, WellFormed, IsPortable, OctetsTree, OCTET_TEXT;
    OctetsText(1);
    OctetsText(2);
    OctetsText(3);
    OctetsText(4);
    var r := OctetsTree(4);
    CatText(r, Eol);
    CatText(Bol, Cat(r, Eol));
    PortableParts();
    CatIsPortable(r, Eol);
    CatIsPortable(Bol, Cat(r, Eol));
    var o := OCTET_TEXT;
    assert "^" + (o + "\\." + (o + "\\." + (o + "\\." + o)) + "$") == HOST_IS_ADDRESS;
  }

  // ---- what an engine makes of them ----

  /** An engine that reads trees reads the three texts as what they are to recognize. */
  lemma ChecksRead(engine: Engine, s: string)
    requires ReadsTrees(engine) && OneLine(s)
    ensures engine(HOSTNAME_CHARSET, s, false) <==> IsHostNameText(s)
    ensures engine(CLIMB, s, true) <==> HasClimb(s)
    ensures engine(HOST_IS_ADDRESS, s, false) <==> IsAddress(s)
  {
    hide WellFormed, IsPortable, Print, Finds, NAME, CLIMBING, ADDRESS, HOSTNAME_CHARSET, CLIMB, HOST_IS_ADDRESS,
      IsHostNameText, HasClimb, IsAddress, OneLine;
    NameText();
    NameFinds(s);
    ClimbText();
    ClimbFinds(s);
    AddressText();
    AddressFinds(s);
  }

  lemma AddressFinds(s: string)
    ensures Finds(ADDRESS, s, false) <==> IsAddress(s)
  {
    hide Finds, IsAddress;
    HostIsAddress(s);
  }

  // ---- as words of the configuration ----

  /** What the parser makes of a word, with `t` put before it. */
  function Before(t: string, read: Option<(string, string)>): Option<(string, string)> {
    match read
    case None => None
    case Some((word, rest)) => Some((t + word, rest))
  }

  predicate HasNoSpecial(t: string) {
    forall k | 0 <= k < |t| :: t[k] !in SPECIAL
  }

  lemma NoSpecialAppend(a: string, b: string)
    requires HasNoSpecial(a) && HasNoSpecial(b)
    ensures HasNoSpecial(a + b)
  {
    hide SPECIAL;
  }

  lemma BeforeBoth(a: string, b: string, read: Option<(string, string)>)
    ensures Before(a, Before(b, read)) == Before(a + b, read) && Before([], read) == read
  {
    if read.Some? {
      assert a + (b + read.value.0) == a + b + read.value.0;
      assert [] + read.value.0 == read.value.0;
    }
  }

  lemma {:induction false} PlainReads(t: string, rest: string)
    requires HasNoSpecial(t)
    ensures ReadWord(t + rest) == Before(t, ReadWord(rest))
  {
    hide ReadWord, SPECIAL, Before;
    if t == [] {
      assert t + rest == rest;
      BeforeBoth([], [], ReadWord(rest));
    } else {
      PlainReads(t[1..], rest);
      assert t == [t[0]] + t[1..];
      FreeReads(t[0], t[1..] + rest);
      assert t + rest == [t[0]] + (t[1..] + rest);
      BeforeBoth([t[0]], t[1..], ReadWord(rest));
    }
  }

  lemma FreeReads(c: char, rest: string)
    requires c !in SPECIAL
    ensures ReadWord([c] + rest) == Before([c], ReadWord(rest))
  {
    var line := [c] + rest;
    assert line[1..] == rest;
    assert '\\' in SPECIAL && '#' in SPECIAL && '\'' in SPECIAL && '"' in SPECIAL && ' ' in SPECIAL;
  }

  /** A backslash before a dot folds nothing. */
  lemma DotReads(rest: string)
    ensures ReadWord("\\." + rest) == Before("\\.", ReadWord(rest))
  {
    assert '.' !in SPECIAL;
    BackslashReads(rest);
    hide ReadWord, Before, SPECIAL;
    FreeReads('.', rest);
    BeforeBoth("\\", ".", ReadWord(rest));
    assert "\\" + "." == "\\.";
  }

  lemma BackslashReads(rest: string)
    ensures ReadWord("\\." + rest) == Before("\\", ReadWord("." + rest))
  {
    var line := "\\." + rest;
    assert line[1..] == "." + rest;
    assert line[0] == '\\' && line[1] == '.';
    assert '.' !in SPECIAL;
    hide SPECIAL;
  }

  /** Two words with an escaped dot between them. */
  lemma DottedReads(t: string, rest: string)
    requires HasNoSpecial(t) && ReadWord(rest) == Some((rest, []))
    ensures var word := t + "\\." + rest; ReadWord(word) == Some((word, []))
  {
    hide ReadWord;
    DotReads(rest);
    PlainReads(t, "\\." + rest);
    assert t + "\\." + rest == t + ("\\." + rest);
  }

  lemma LastReads(t: string)
    requires HasNoSpecial(t)
    ensures ReadWord(t) == Some((t, []))
  {
    PlainReads(t, []);
    assert t + [] == t;
  }

  lemma PartsHaveNoSpecial()
    ensures HasNoSpecial("(25[0-5]|2[0-4]") && HasNoSpecial("[0-9]|1[0-9]{2}") && HasNoSpecial("|[1-9]?[0-9])")
    ensures HasNoSpecial("^") && HasNoSpecial("$")
  {
  }

  lemma PartsOfOctet()
    ensures "(25[0-5]|2[0-4]" + ("[0-9]|1[0-9]{2}" + "|[1-9]?[0-9])") == OCTET_TEXT
  {
  }

  lemma OctetHasNoSpecial()
    ensures HasNoSpecial(OCTET_TEXT) && HasNoSpecial("^" + OCTET_TEXT) && HasNoSpecial(OCTET_TEXT + "$")
  {
    hide HasNoSpecial, OCTET_TEXT;
    PartsHaveNoSpecial();
    PartsOfOctet();
    var a, b, c := "(25[0-5]|2[0-4]", "[0-9]|1[0-9]{2}", "|[1-9]?[0-9])";
    NoSpecialAppend(b, c);
    NoSpecialAppend(a, b + c);
    NoSpecialAppend("^", OCTET_TEXT);
    NoSpecialAppend(OCTET_TEXT, "$");
  }

  lemma AddressIsWord()
    ensures Unquoted(HOST_IS_ADDRESS) == Some(HOST_IS_ADDRESS)
  {
    hide ReadWord, OCTET_TEXT, HasNoSpecial;
    OctetHasNoSpecial();
    var o := OCTET_TEXT;
    LastReads(o + "$");
    DottedReads(o, o + "$");
    DottedReads(o, o + "\\." + (o + "$"));
    DottedReads("^" + o, o + "\\." + (o + "\\." + (o + "$")));
    assert "^" + o + "\\." + (o + "\\." + (o + "\\." + (o + "$"))) == HOST_IS_ADDRESS;
  }

  lemma SidesHaveNoSpecial()
    ensures HasNoSpecial("(^|/|%2f|%5c)") && HasNoSpecial("($|/|;|%2f|%5c|%3b)")
  {
  }

  lemma ClimbIsWord()
    ensures Unquoted(CLIMB) == Some(CLIMB)
  {
    hide ReadWord, CLIMB, HasNoSpecial;
    SidesHaveNoSpecial();
    var head, last := "(^|/|%2f|%5c)", "($|/|;|%2f|%5c|%3b)";
    LastReads(last);
    assert HasNoSpecial([]) by { EmptyHasNoSpecial(); }
    DottedReads([], last);
    DottedReads(head, [] + "\\." + last);
    SidesOfClimb();
  }

  lemma EmptyHasNoSpecial()
    ensures HasNoSpecial([])
  {
  }

  lemma SidesOfClimb()
    ensures "(^|/|%2f|%5c)" + "\\." + ([] + "\\." + "($|/|;|%2f|%5c|%3b)") == CLIMB
  {
  }

  lemma NameIsWord()
    ensures Unquoted(HOSTNAME_CHARSET) == Some(HOSTNAME_CHARSET)
  {
    hide ReadWord;
    LastReads(HOSTNAME_CHARSET);
  }
}
