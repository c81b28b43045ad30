/**
 * Narrowing a rule's regex to the cheapest match that accepts exactly it, and writing what
 * comes out so that the config parser reads it back.
 *
 * The regex engine is a parameter. All that is asked of it is `ReadsTrees`: of a text on one line
 * it answers what searching with the tree of the expression finds.
 */
module Matchers {
  import opened Search
  import opened Regex

  /** `engine(pattern, text, icase)`: whether a search for `pattern` finds something in `text`. */
  type Engine = (string, string, bool) -> bool

  datatype Op = Str | Beg | Reg | RegI

  datatype Matcher = Matcher(op: Op, pattern: string)

  // ---- words of the configuration: haproxy-matchers.ts 36-38 ----

  /** The characters the word parser folds, and a backslash only before one of them. */
  const SPECIAL := "\\#'\" "

  function EscapeForHaproxy(value: string): string {
    if value == [] then []
    else (if value[0] in SPECIAL then ['\\', value[0]] else [value[0]]) + EscapeForHaproxy(value[1..])
  }

  /**
   * The word at the start of `line` and what is left after it: a word ends at a space, a `#`
   * drops the rest of the line, a quote opens a string (none is ever written, so it is an error).
   */
  function ReadWord(line: string): (r: Option<(string, string)>) {
    if line == [] || line[0] == ' ' then Some(([], line))
    else if line[0] == '#' then Some(([], []))
    else if line[0] == '\'' || line[0] == '"' then None
    else if line[0] == '\\' && |line| > 1 && line[1] in SPECIAL then
      match ReadWord(line[2..])
      case None => None
      case Some((word, rest)) => Some(([line[1]] + word, rest))
    else
      match ReadWord(line[1..])
      case None => None
      case Some((word, rest)) => Some(([line[0]] + word, rest))
  }

  lemma ReadsEscaped(c: char, tail: string)
    requires c in SPECIAL && ReadWord(tail).Some?
    ensures var (word, rest) := ReadWord(tail).value; ReadWord(['\\', c] + tail) == Some(([c] + word, rest))
  {
    var line := ['\\', c] + tail;
    assert line[2..] == tail;
  }

  lemma ReadsBare(c: char, tail: string)
    requires c !in SPECIAL && ReadWord(tail).Some?
    ensures var (word, rest) := ReadWord(tail).value; ReadWord([c] + tail) == Some(([c] + word, rest))
  {
    var line := [c] + tail;
    assert line[1..] == tail;
    assert '\\' in SPECIAL && '#' in SPECIAL && '\'' in SPECIAL && '"' in SPECIAL && ' ' in SPECIAL;
  }

  lemma EscapeStep(value: string)
    requires value != []
    ensures EscapeForHaproxy(value)
         == (if value[0] in SPECIAL then ['\\', value[0]] else [value[0]]) + EscapeForHaproxy(value[1..])
    ensures value == [value[0]] + value[1..]
  {
  }

  /** A value written into a line is read back whole, and nothing after it is touched. */
  lemma {:induction false} EscapedWordReadsBack(value: string, rest: string)
    requires rest == [] || rest[0] == ' '
    ensures ReadWord(EscapeForHaproxy(value) + rest) == Some((value, rest))
  {
    hide SPECIAL;
    if value == [] {
      assert EscapeForHaproxy(value) == [];
      assert [] + rest == rest;
    } else {
      EscapedWordReadsBack(value[1..], rest);
      EscapeStep(value);
      ReadsNext(value[0], EscapeForHaproxy(value[1..]), rest, value[1..]);
    }
  }

  lemma ReadsNext(c: char, escaped: string, rest: string, word: string)
    requires ReadWord(escaped + rest) == Some((word, rest))
    ensures ReadWord((if c in SPECIAL then ['\\', c] else [c]) + escaped + rest) == Some(([c] + word, rest))
  {
    hide SPECIAL, ReadWord;
    if c in SPECIAL {
      ReadsEscaped(c, escaped + rest);
      assert ['\\', c] + escaped + rest == ['\\', c] + (escaped + rest);
    } else {
      ReadsBare(c, escaped + rest);
      assert [c] + escaped + rest == [c] + (escaped + rest);
    }
  }

  /** The value of a word standing alone. */
  function Unquoted(word: string): Option<string> {
    match ReadWord(word)
    case Some((value, rest)) => if rest == [] then Some(value) else None
    case None => None
  }

  lemma EscapedValue(value: string)
    ensures Unquoted(EscapeForHaproxy(value)) == Some(value)
  {
    hide ReadWord, EscapeForHaproxy;
    EscapedWordReadsBack(value, []);
    assert EscapeForHaproxy(value) + [] == EscapeForHaproxy(value);
  }

  // ---- literal bodies: haproxy-matchers.ts 57-69 ----

  predicate IsPlain(c: char) { IsAlnum(c) || c in "_~:@%-/" }

  predicate IsLiteralBody(body: string) {
    || body == []
    || (IsPlain(body[0]) && IsLiteralBody(body[1..]))
    || (|body| >= 2 && body[0] == '\\' && body[1] == '.' && IsLiteralBody(body[2..]))
  }

  /** Undoes the one escape, wherever it stands. */
  function Unescape(body: string): string {
    if body == [] then []
    else if |body| >= 2 && body[0] == '\\' && body[1] == '.' then "." + Unescape(body[2..])
    else [body[0]] + Unescape(body[1..])
  }

  /** A literal text as an expression writes it. */
  function EscapeDots(t: string): string {
    if t == [] then [] else (if t[0] == '.' then "\\." else [t[0]]) + EscapeDots(t[1..])
  }

  predicate IsPlainText(t: string) {
    forall k | 0 <= k < |t| :: t[k] == '.' || IsPlain(t[k])
  }

  lemma {:induction false} BodyIsEscapedText(body: string)
    requires IsLiteralBody(body)
    ensures IsPlainText(Unescape(body)) && EscapeDots(Unescape(body)) == body
  {
    if body == [] {
    } else if IsPlain(body[0]) {
      BodyIsEscapedText(body[1..]);
      var t := Unescape(body);
      assert t == [body[0]] + Unescape(body[1..]);
      assert t[1..] == Unescape(body[1..]);
      assert body == [body[0]] + body[1..];
    } else {
      BodyIsEscapedText(body[2..]);
      var t := Unescape(body);
      assert t == "." + Unescape(body[2..]);
      assert t[1..] == Unescape(body[2..]);
      assert body == "\\." + body[2..];
    }
  }

  lemma {:induction false} EscapedTextIsBody(t: string)
    requires IsPlainText(t)
    ensures IsLiteralBody(EscapeDots(t)) && Unescape(EscapeDots(t)) == t
  {
    if t != [] {
      assert IsPlainText(t[1..]);
      EscapedTextIsBody(t[1..]);
      var body := EscapeDots(t);
      assert t == [t[0]] + t[1..];
      if t[0] == '.' {
        assert body[2..] == EscapeDots(t[1..]);
      } else {
        assert body[1..] == EscapeDots(t[1..]);
      }
    }
  }

  function LowerText(s: string): (t: string)
    ensures |t| == |s|
  {
    seq(|s|, i requires 0 <= i < |s| => Lower(s[i]))
  }

  // ---- narrowing: haproxy-matchers.ts 72-106 ----

  predicate EndsWith(s: string, suffix: string) {
    |suffix| <= |s| && s[|s| - |suffix|..] == suffix
  }

  function HostMatcher(hostRegex: string): Matcher {
    if |hostRegex| >= 3 && hostRegex[0] == '^' && hostRegex[|hostRegex| - 1] == '$'
       && IsLiteralBody(hostRegex[1..|hostRegex| - 1])
    then Matcher(Str, LowerText(Unescape(hostRegex[1..|hostRegex| - 1])))
    else Matcher(RegI, hostRegex)
  }

  function PathMatcher(pathRegex: string): Matcher {
    var rest := if pathRegex == [] then [] else pathRegex[1..];
    var (body, op) :=
      if EndsWith(rest, "$") then
        var exact := rest[..|rest| - 1];
        if EndsWith(exact, ".*") then (exact[..|exact| - 2], Beg) else (exact, Str)
      else (rest, Beg);
    if body == [] || body[0] != '/' || !IsLiteralBody(body) then Matcher(Reg, pathRegex)
    else Matcher(op, Unescape(body))
  }

  // ---- the engine ----

  /** `s` starts with `t`, letter case aside where `icase` says so. */
  predicate StartsAs(t: string, s: string, icase: bool) {
    |t| <= |s| && SameText(t, s[..|t|], icase)
  }

  /** What is asked of an engine. A text has one meaning, so that it can be asked by the tree. */
  ghost predicate ReadsTrees(engine: Engine) {
    forall r: Re, s: string, icase: bool | WellFormed(r) && IsPortable(r) && OneLine(s) ::
      engine(Print(r), s, icase) <==> Finds(r, s, icase)
  }

  /** What the narrowing needs of it: literal characters between anchors mean their own text. */
  ghost predicate ReadsLiteral(engine: Engine, t: string, s: string, icase: bool) {
    && (engine("^" + EscapeDots(t) + "$", s, icase) <==> SameText(t, s, icase))
    && (engine("^" + EscapeDots(t) + ".*$", s, icase) <==> StartsAs(t, s, icase))
    && (engine("^" + EscapeDots(t), s, icase) <==> StartsAs(t, s, icase))
  }

  ghost predicate ReadsLiterals(engine: Engine) {
    forall t: string, s: string, icase: bool :: IsPlainText(t) && OneLine(s) ==> ReadsLiteral(engine, t, s, icase)
  }

  predicate Accepts(engine: Engine, m: Matcher, s: string) {
    match m.op
    case Str => s == m.pattern
    case Beg => m.pattern <= s
    case Reg => engine(m.pattern, s, false)
    case RegI => engine(m.pattern, s, true)
  }

  lemma SameAsLower(t: string, s: string)
    requires LowerText(s) == s
    ensures SameText(t, s, true) <==> s == LowerText(t)
  {
    if |t| == |s| {
      forall k | 0 <= k < |s| ensures SameChar(t[k], s[k], true) <==> s[k] == LowerText(t)[k] {
        assert LowerText(s)[k] == s[k];
      }
    }
  }

  lemma SameExactly(t: string, s: string)
    ensures SameText(t, s, false) <==> s == t
    ensures StartsAs(t, s, false) <==> t <= s
  {
    if |t| <= |s| {
      assert t <= s <==> s[..|t|] == t;
      assert SameText(t, s[..|t|], false) ==> forall k | 0 <= k < |t| :: SameChar(t[k], s[..|t|][k], false);
    }
    if SameText(t, s, false) {
      assert forall k | 0 <= k < |s| :: SameChar(t[k], s[k], false);
    }
  }

  /** The narrowed host match accepts exactly what the rule's regex accepts of a lowercased host. */
  lemma HostNarrowingIsExact(engine: Engine, hostRegex: string, host: string)
    requires ReadsTrees(engine) && OneLine(host) && LowerText(host) == host
    ensures Accepts(engine, HostMatcher(hostRegex), host) <==> engine(hostRegex, host, true)
  {
    hide ReadsTrees, IsLiteralBody, Unescape, EscapeDots, SameText, StartsAs, LowerText;
    LiteralsRead(engine);
    var m := HostMatcher(hostRegex);
    if m.op == Str {
      var body := hostRegex[1..|hostRegex| - 1];
      BodyIsEscapedText(body);
      assert ReadsLiteral(engine, Unescape(body), host, true);
      assert hostRegex == "^" + body + "$";
      SameAsLower(Unescape(body), host);
    }
  }

  /** The narrowed path match accepts exactly what the rule's regex accepts. */
  lemma PathNarrowingIsExact(engine: Engine, pathRegex: string, path: string)
    requires ReadsTrees(engine) && OneLine(path) && "^" <= pathRegex
    ensures Accepts(engine, PathMatcher(pathRegex), path) <==> engine(pathRegex, path, false)
  {
    hide ReadsTrees, IsLiteralBody, Unescape, EscapeDots, SameText, StartsAs, IsPlainText;
    LiteralsRead(engine);
    var m := PathMatcher(pathRegex);
    if m.op != Reg {
      var rest := pathRegex[1..];
      var exact := EndsWith(rest, "$");
      var body := if !exact then rest
        else if EndsWith(rest[..|rest| - 1], ".*") then rest[..|rest| - 1][..|rest| - 3] else rest[..|rest| - 1];
      BodyIsEscapedText(body);
      var t := Unescape(body);
      assert ReadsLiteral(engine, t, path, false);
      SameExactly(t, path);
      PathForms(pathRegex, body);
    }
  }

  lemma PathForms(pathRegex: string, body: string)
    requires "^" <= pathRegex
    ensures var rest := pathRegex[1..];
      && (!EndsWith(rest, "$") && body == rest ==> pathRegex == "^" + body)
      && (EndsWith(rest, "$") && body == rest[..|rest| - 1] ==> pathRegex == "^" + body + "$")
      && (EndsWith(rest, "$") && EndsWith(rest[..|rest| - 1], ".*") && body == rest[..|rest| - 1][..|rest| - 3]
          ==> pathRegex == "^" + body + ".*$")
  {
    var rest := pathRegex[1..];
    assert pathRegex == "^" + rest;
    if EndsWith(rest, "$") {
      var cut := rest[..|rest| - 1];
      assert rest == cut + "$";
      if EndsWith(cut, ".*") {
        assert cut == cut[..|cut| - 2] + ".*";
      }
    }
  }

  // ---- what an engine that reads trees makes of literals ----

  const ANYTHING := Quant(Any, Star, false)

  lemma PlainChar(c: char)
    requires c == '.' || IsPlain(c)
    ensures Print(Chr(c, c in META)) == if c == '.' then "\\." else [c]
  {
    assert IsPlain(c) ==> c !in META;
    assert '.' in META;
  }

  lemma {:induction false} PrintPlain(t: string)
    requires IsPlainText(t)
    ensures Print(Literal(t)) == EscapeDots(t)
  {
    if t != [] {
      assert IsPlainText(t[1..]);
      PrintPlain(t[1..]);
      PlainChar(t[0]);
    }
  }

  lemma {:induction false} AnythingRepeats(s: string, i: nat, j: nat, icase: bool)
    requires i <= j <= |s| && OneLine(s)
    ensures Repeats(Any, j - i, s, i, j, icase)
    decreases j - i
  {
    if i < j {
      AnythingRepeats(s, i + 1, j, icase);
      assert s[i] in s;
      assert Matches(Any, s, i, i + 1, icase);
      RepeatsMore(Any, j - i, s, i, i + 1, j, icase);
    }
  }

  lemma AnythingMatches(s: string, i: nat, j: nat, icase: bool)
    requires i <= j <= |s| && OneLine(s)
    ensures Matches(ANYTHING, s, i, j, icase)
  {
    hide Matches, Repeats;
    AnythingRepeats(s, i, j, icase);
    QuantMatches(Any, Star, false, s, i, j, icase);
    assert InTimes(Star, j - i) && Repeats(Any, j - i, s, i, j, icase);
  }

  lemma PortableParts()
    ensures IsPortable(Bol) && IsPortable(Eol) && IsPortable(ANYTHING)
  {
    assert IsPortable(Any);
  }

  lemma PortableShapes(r: Re)
    requires IsPortable(r)
    ensures IsPortable(Cat(Bol, r)) && IsPortable(Cat(Bol, Cat(r, Eol)))
    ensures IsPortable(Cat(Bol, Cat(Cat(r, ANYTHING), Eol)))
  {
    hide IsPortable;
    PortableParts();
    CatIsPortable(Bol, r);
    CatIsPortable(r, Eol);
    CatIsPortable(Bol, Cat(r, Eol));
    CatIsPortable(r, ANYTHING);
    CatIsPortable(Cat(r, ANYTHING), Eol);
    CatIsPortable(Bol, Cat(Cat(r, ANYTHING), Eol));
  }

  /** The three shapes as trees: what they are written as, and what searching for them finds. */
  lemma TreesReadLiterals(t: string, s: string, icase: bool)
    requires IsPlainText(t) && OneLine(s)
    ensures var exact, all, open := Cat(Bol, Cat(Literal(t), Eol)),
        Cat(Bol, Cat(Cat(Literal(t), ANYTHING), Eol)), Cat(Bol, Literal(t));
      && WellFormed(exact) && IsPortable(exact) && WellFormed(all) && IsPortable(all) && WellFormed(open) && IsPortable(open)
      && Print(exact) == "^" + EscapeDots(t) + "$" && (Finds(exact, s, icase) <==> SameText(t, s, icase))
      && Print(all) == "^" + EscapeDots(t) + ".*$" && (Finds(all, s, icase) <==> StartsAs(t, s, icase))
      && Print(open) == "^" + EscapeDots(t) && (Finds(open, s, icase) <==> StartsAs(t, s, icase))
  {
    hide Matches, IsPortable, SameText, Literal, EscapeDots, IsPlainText, Finds;
    var lit := Literal(t);
    PrintPlain(t);
    LiteralShape(t);
    PortableShapes(lit);
    CatText(lit, Eol);
    CatText(Bol, Cat(lit, Eol));
    assert Print(ANYTHING) == ".*" && WellFormed(ANYTHING) && AnchorFree(ANYTHING) by {
      assert Print(ANYTHING) == "." + "*" + "";
    }
    CatText(lit, ANYTHING);
    CatText(Cat(lit, ANYTHING), Eol);
    CatText(Bol, Cat(Cat(lit, ANYTHING), Eol));
    CatText(Bol, lit);
    AnchoredFinds(lit, s, icase);
    LiteralCovers(t, s, icase);
    AnchoredFinds(Cat(lit, ANYTHING), s, icase);
    PrefixCovers(t, s, icase);
    OpenFinds(t, s, icase);
  }

  lemma PrefixCovers(t: string, s: string, icase: bool)
    requires OneLine(s)
    ensures Covers(Cat(Literal(t), ANYTHING), s, icase) <==> StartsAs(t, s, icase)
  {
    hide Matches, Literal;
    LiteralShape(t);
    assert AnchorFree(ANYTHING);
    CatCovers(Literal(t), ANYTHING, s, icase);
    if k: nat :| SplitCovers(Literal(t), ANYTHING, s, k, icase) {
      LiteralCovers(t, s[..k], icase);
      assert k == |t|;
    }
    if StartsAs(t, s, icase) {
      LiteralCovers(t, s[..|t|], icase);
      assert OneLine(s[|t|..]);
      AnythingMatches(s[|t|..], 0, |s| - |t|, icase);
      assert SplitCovers(Literal(t), ANYTHING, s, |t|, icase);
    }
  }

  lemma OpenFinds(t: string, s: string, icase: bool)
    ensures Finds(Cat(Bol, Literal(t)), s, icase) <==> StartsAs(t, s, icase)
  {
    hide Literal, AnchorFree;
    var lit := Literal(t);
    LiteralShape(t);
    if Finds(Cat(Bol, lit), s, icase) {
      var i: nat, j: nat :| i <= j <= |s| && Matches(Cat(Bol, lit), s, i, j, icase);
      var k := CatSplits(Bol, lit, s, i, j, icase);
      assert i == k == 0;
      MatchesSlice(lit, s, 0, j, icase);
      LiteralCovers(t, s[0..j], icase);
      assert s[0..j] == s[..j];
      assert j == |t|;
    }
    if StartsAs(t, s, icase) {
      LiteralCovers(t, s[..|t|], icase);
      assert s[0..|t|] == s[..|t|];
      MatchesSlice(lit, s, 0, |t|, icase);
      assert Matches(Bol, s, 0, 0, icase);
      CatJoins(Bol, lit, s, 0, 0, |t|, icase);
    }
  }

  lemma LiteralsRead(engine: Engine)
    requires ReadsTrees(engine)
    ensures ReadsLiterals(engine)
  {
    hide IsPlainText, EscapeDots, SameText, StartsAs, WellFormed, IsPortable, Print, Finds;
    forall t: string, s: string, icase: bool | IsPlainText(t) && OneLine(s)
      ensures ReadsLiteral(engine, t, s, icase)
    {
      TreesReadLiterals(t, s, icase);
    }
  }
}
