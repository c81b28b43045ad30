/**
 * The regular expressions the rules are compiled to and the `~` rules are written in:
 * a syntax tree, the text it is written as, and what it matches.
 *
 * The fragment is the one every engine involved reads alike: literals (bare or escaped), `.`,
 * classes, the shorthands and control escapes, groups numbered, unnumbered and named, lookaround,
 * alternation, greedy and lazy quantifiers, anchors and word boundaries. Subjects are names,
 * addresses and paths, so `$` is the end of the text.
 */
module Regex {
  import opened Decimal
  import opened Search

  /** The ends of a span are written bare or escaped, as a single character is. */
  datatype Item =
    | One(c: char, escaped: bool)
    | Span(lo: char, loEscaped: bool, hi: char, hiEscaped: bool)
    | Short(kind: char)

  /** How a group opens; one that only looks takes no text itself. */
  datatype Opening = Numbered | Unnumbered | Labelled(name: string) | Look(behind: bool, neg: bool)

  datatype Times = Star | Plus | Opt | Exactly(n: nat) | AtLeast(n: nat) | Between(lo: nat, hi: nat)

  datatype Re =
    | Empty
    | Chr(c: char, escaped: bool)
    | Any
    | Set(neg: bool, items: seq<Item>)
    | Shorthand(kind: char)
    | Bol
    | Eol
    | Edge(neg: bool)
    | Group(opening: Opening, body: Re)
    | Quant(body: Re, times: Times, isLazy: bool)
    | Cat(left: Re, right: Re)
    | Alt(left: Re, right: Re)

  const META := ".*+?^$()[]{}|\\"

  predicate IsAlnum(c: char) { '0' <= c <= '9' || 'a' <= c <= 'z' || 'A' <= c <= 'Z' }

  /**
   * A letter or digit has no escaped form of its own here: `\d` is a shorthand, not a `d`. A closing
   * bracket or brace that closes nothing stands for itself.
   */
  predicate IsLiteral(c: char, escaped: bool) {
    if escaped then !IsAlnum(c) else c !in META || c == ']' || c == '}'
  }

  /** The letters that stand for a kind of character, and those for a control character. */
  predicate IsShorthand(kind: char) { kind in "dDwWsSnrtf" }

  /** What stands for itself in a class; a `^` does not where it would negate the class. */
  predicate GoodEnd(c: char, escaped: bool, caret: bool) {
    if escaped then !IsAlnum(c) else c != ']' && c != '\\' && c != '-' && (caret ==> c != '^')
  }

  /** A bare `-` stands for itself where no span could be meant. */
  predicate GoodItem(item: Item, caret: bool, dash: bool) {
    match item
    case One(c, escaped) => GoodEnd(c, escaped, caret) || (c == '-' && !escaped && dash)
    case Span(lo, loEscaped, hi, hiEscaped) => GoodEnd(lo, loEscaped, caret) && GoodEnd(hi, hiEscaped, false)
    case Short(kind) => IsShorthand(kind) || kind == 'b'
  }

  predicate GoodItems(items: seq<Item>, caret: bool, dash: bool) {
    items == [] ||
    (GoodItem(items[0], caret, dash || |items| == 1) && GoodItems(items[1..], false, !items[0].One?))
  }

  predicate GoodOpening(opening: Opening) {
    opening.Labelled? ==>
      && opening.name != [] && !IsDigit(opening.name[0])
      && forall k | 0 <= k < |opening.name| :: IsWord(opening.name[k]) || opening.name[k] == '$'
  }

  /** What a quantifier may follow. */
  predicate IsAtom(r: Re) {
    r.Chr? || r.Any? || r.Set? || r.Shorthand? || (r.Group? && !r.opening.Look?)
  }

  /**
   * The trees a text can be read as: what binds looser than its context is in a group,
   * and what would read as syntax is escaped.
   */
  predicate WellFormed(r: Re) {
    match r
    case Empty => true
    case Chr(c, escaped) => IsLiteral(c, escaped)
    case Any => true
    case Set(neg, items) => items != [] && GoodItems(items, !neg, true)
    case Shorthand(kind) => IsShorthand(kind)
    case Bol => true
    case Eol => true
    case Edge(_) => true
    case Group(opening, body) => GoodOpening(opening) && WellFormed(body)
    case Quant(body, _, _) => IsAtom(body) && WellFormed(body)
    case Cat(left, right) => !left.Alt? && !right.Alt? && WellFormed(left) && WellFormed(right)
    case Alt(left, right) => WellFormed(left) && WellFormed(right)
  }

  /** The most a count may say: the least limit of the engines involved. */
  const MAX_COUNT := 1000

  predicate IsInOrder(item: Item) {
    match item
    case One(_, _) => true
    case Span(lo, _, hi, _) => lo <= hi
    case Short(kind) => kind != 'b'
  }

  predicate IsCountable(times: Times) {
    match times
    case Exactly(n) => n <= MAX_COUNT
    case AtLeast(n) => n <= MAX_COUNT
    case Between(lo, hi) => lo <= hi <= MAX_COUNT
    case _ => true
  }

  /** The trees no engine refuses: no lookaround, no named group, no count or span out of bounds. */
  predicate IsPortable(r: Re) {
    match r
    case Set(_, items) => forall k | 0 <= k < |items| :: IsInOrder(items[k])
    case Group(opening, body) => (opening.Numbered? || opening.Unnumbered?) && IsPortable(body)
    case Quant(body, times, _) => IsPortable(body) && IsCountable(times)
    case Cat(left, right) => IsPortable(left) && IsPortable(right)
    case Alt(left, right) => IsPortable(left) && IsPortable(right)
    case _ => true
  }

  // ---- the text of a tree ----

  function PrintChar(c: char, escaped: bool): string {
    if escaped then ['\\', c] else [c]
  }

  function PrintItem(item: Item): string {
    match item
    case One(c, escaped) => PrintChar(c, escaped)
    case Span(lo, loEscaped, hi, hiEscaped) => PrintChar(lo, loEscaped) + "-" + PrintChar(hi, hiEscaped)
    case Short(kind) => ['\\', kind]
  }

  function PrintItems(items: seq<Item>): string {
    if items == [] then [] else PrintItem(items[0]) + PrintItems(items[1..])
  }

  function PrintTimes(times: Times): string {
    match times
    case Star => "*"
    case Plus => "+"
    case Opt => "?"
    case Exactly(n) => "{" + Dec(n) + "}"
    case AtLeast(n) => "{" + Dec(n) + ",}"
    case Between(lo, hi) => "{" + Dec(lo) + "," + Dec(hi) + "}"
  }

  function PrintOpening(opening: Opening): string {
    match opening
    case Numbered => "("
    case Unnumbered => "(?:"
    case Labelled(name) => "(?<" + name + ">"
    case Look(behind, neg) => "(?" + (if behind then "<" else "") + (if neg then "!" else "=")
  }

  function Print(r: Re): string {
    match r
    case Empty => ""
    case Chr(c, escaped) => PrintChar(c, escaped)
    case Any => "."
    case Set(neg, items) => (if neg then "[^" else "[") + PrintItems(items) + "]"
    case Shorthand(kind) => ['\\', kind]
    case Bol => "^"
    case Eol => "$"
    case Edge(neg) => if neg then "\\B" else "\\b"
    case Group(opening, body) => PrintOpening(opening) + Print(body) + ")"
    case Quant(body, times, isLazy) => Print(body) + PrintTimes(times) + (if isLazy then "?" else "")
    case Cat(left, right) => Print(left) + Print(right)
    case Alt(left, right) => Print(left) + "|" + Print(right)
  }

  lemma CatText(left: Re, right: Re)
    ensures Print(Cat(left, right)) == Print(left) + Print(right)
    ensures !left.Alt? && !right.Alt? && WellFormed(left) && WellFormed(right) ==> WellFormed(Cat(left, right))
    ensures Print(Bol) == "^" && Print(Eol) == "$" && WellFormed(Bol) && WellFormed(Eol)
  {
  }

  lemma AltText(left: Re, right: Re)
    ensures Print(Alt(left, right)) == Print(left) + "|" + Print(right)
    ensures WellFormed(left) && WellFormed(right) ==> WellFormed(Alt(left, right))
  {
  }

  lemma CatIsPortable(left: Re, right: Re)
    requires IsPortable(left) && IsPortable(right)
    ensures IsPortable(Cat(left, right))
  {
  }

  // ---- what a tree matches ----

  function Lower(c: char): char {
    if 'A' <= c <= 'Z' then c + 32 as char else c
  }

  function Upper(c: char): char {
    if 'a' <= c <= 'z' then c - 32 as char else c
  }

  predicate OneLine(s: string) { '\n' !in s }

  predicate SameChar(c: char, d: char, icase: bool) {
    c == d || (icase && Lower(c) == Lower(d))
  }

  predicate IsWord(c: char) { IsAlnum(c) || c == '_' }

  predicate IsSpace(c: char) { c in " \t\n\r" || c == 0x0b as char || c == 0x0c as char }

  predicate InShorthand(kind: char, c: char) {
    match kind
    case 'd' => IsDigit(c)
    case 'D' => !IsDigit(c)
    case 'w' => IsWord(c)
    case 'W' => !IsWord(c)
    case 's' => IsSpace(c)
    case 'S' => !IsSpace(c)
    case 'n' => c == '\n'
    case 'r' => c == '\r'
    case 't' => c == '\t'
    case 'f' => c == 0x0c as char
    case _ => c == 0x08 as char
  }

  predicate InItem(item: Item, c: char) {
    match item
    case One(d, _) => c == d
    case Span(lo, _, hi, _) => lo <= c <= hi
    case Short(kind) => InShorthand(kind, c)
  }

  predicate InItems(items: seq<Item>, c: char, icase: bool) {
    exists k | 0 <= k < |items| ::
      InItem(items[k], c) || (icase && (InItem(items[k], Lower(c)) || InItem(items[k], Upper(c))))
  }

  predicate AtEdge(s: string, i: nat)
    requires i <= |s|
  {
    (i > 0 && IsWord(s[i - 1])) != (i < |s| && IsWord(s[i]))
  }

  predicate InTimes(times: Times, n: nat) {
    match times
    case Star => true
    case Plus => n >= 1
    case Opt => n <= 1
    case Exactly(m) => n == m
    case AtLeast(m) => n >= m
    case Between(lo, hi) => lo <= n <= hi
  }

  /** `r` matches the stretch of `s` from `i` to `j`. */
  ghost predicate Matches(r: Re, s: string, i: nat, j: nat, icase: bool)
    requires i <= j <= |s|
    decreases r, 0
  {
    match r
    case Empty => i == j
    case Chr(c, _) => j == i + 1 && SameChar(c, s[i], icase)
    case Any => j == i + 1 && s[i] != '\n'
    case Set(neg, items) => j == i + 1 && InItems(items, s[i], icase) != neg
    case Shorthand(kind) => j == i + 1 && InShorthand(kind, s[i])
    case Bol => i == j == 0
    case Eol => i == j == |s|
    case Edge(neg) => i == j && AtEdge(s, i) != neg
    case Group(opening, body) =>
      if opening.Look? then
        i == j && (if opening.behind then exists k | 0 <= k <= i :: Matches(body, s, k, i, icase)
                   else exists k | i <= k <= |s| :: Matches(body, s, i, k, icase)) != opening.neg
      else Matches(body, s, i, j, icase)
    case Quant(body, times, _) => exists n: nat :: InTimes(times, n) && Repeats(body, n, s, i, j, icase)
    case Cat(left, right) =>
      exists k | i <= k <= j :: Matches(left, s, i, k, icase) && Matches(right, s, k, j, icase)
    case Alt(left, right) => Matches(left, s, i, j, icase) || Matches(right, s, i, j, icase)
  }

  /** `n` matches of `r`, end to end. */
  ghost predicate Repeats(r: Re, n: nat, s: string, i: nat, j: nat, icase: bool)
    requires i <= j <= |s|
    decreases r, 1, n
  {
    if n == 0 then i == j
    else exists k | i <= k <= j :: Matches(r, s, i, k, icase) && Repeats(r, n - 1, s, k, j, icase)
  }

  /** What an engine searching `s` for `r` answers: a match anywhere. */
  ghost predicate Finds(r: Re, s: string, icase: bool) {
    exists i: nat, j: nat :: i <= j <= |s| && Matches(r, s, i, j, icase)
  }

  /** `r` matches `s` from its first character to its last. */
  ghost predicate Covers(r: Re, s: string, icase: bool) {
    Matches(r, s, 0, |s|, icase)
  }

  lemma CatSplits(left: Re, right: Re, s: string, i: nat, j: nat, icase: bool) returns (k: nat)
    requires i <= j <= |s| && Matches(Cat(left, right), s, i, j, icase)
    ensures i <= k <= j && Matches(left, s, i, k, icase) && Matches(right, s, k, j, icase)
  {
    k :| i <= k <= j && Matches(left, s, i, k, icase) && Matches(right, s, k, j, icase);
  }

  lemma CatJoins(left: Re, right: Re, s: string, i: nat, k: nat, j: nat, icase: bool)
    requires i <= k <= j <= |s| && Matches(left, s, i, k, icase) && Matches(right, s, k, j, icase)
    ensures Matches(Cat(left, right), s, i, j, icase)
  {
  }

  lemma AltMatches(left: Re, right: Re, s: string, i: nat, j: nat, icase: bool)
    requires i <= j <= |s|
    ensures Matches(Alt(left, right), s, i, j, icase)
       <==> Matches(left, s, i, j, icase) || Matches(right, s, i, j, icase)
  {
  }

  lemma GroupMatches(opening: Opening, body: Re, s: string, i: nat, j: nat, icase: bool)
    requires !opening.Look? && i <= j <= |s|
    ensures Matches(Group(opening, body), s, i, j, icase) <==> Matches(body, s, i, j, icase)
  {
  }

  lemma QuantMatches(body: Re, times: Times, isLazy: bool, s: string, i: nat, j: nat, icase: bool)
    requires i <= j <= |s|
    ensures Matches(Quant(body, times, isLazy), s, i, j, icase)
       <==> exists n: nat :: InTimes(times, n) && Repeats(body, n, s, i, j, icase)
  {
  }

  /** Between anchors, finding is covering. */
  lemma AnchoredFinds(r: Re, s: string, icase: bool)
    ensures Finds(Cat(Bol, Cat(r, Eol)), s, icase) <==> Covers(r, s, icase)
  {
    var whole := Cat(Bol, Cat(r, Eol));
    if Covers(r, s, icase) {
      assert Matches(Eol, s, |s|, |s|, icase) && Matches(Bol, s, 0, 0, icase);
      CatJoins(r, Eol, s, 0, |s|, |s|, icase);
      CatJoins(Bol, Cat(r, Eol), s, 0, 0, |s|, icase);
    }
    if Finds(whole, s, icase) {
      var i: nat, j: nat :| i <= j <= |s| && Matches(whole, s, i, j, icase);
      var k := CatSplits(Bol, Cat(r, Eol), s, i, j, icase);
      var m := CatSplits(r, Eol, s, k, j, icase);
      assert i == k == 0 && m == j == |s|;
    }
  }

  // ---- trees without assertions match a stretch for what it holds ----

  predicate AnchorFree(r: Re) {
    match r
    case Bol => false
    case Eol => false
    case Edge(_) => false
    case Group(opening, body) => !opening.Look? && AnchorFree(body)
    case Quant(body, _, _) => AnchorFree(body)
    case Cat(left, right) => AnchorFree(left) && AnchorFree(right)
    case Alt(left, right) => AnchorFree(left) && AnchorFree(right)
    case _ => true
  }

  /** The `n` characters of `s` from `i` are those of `t` from `m`. */
  predicate Agrees(s: string, i: nat, t: string, m: nat, n: nat) {
    i + n <= |s| && m + n <= |t| && s[i..i + n] == t[m..m + n]
  }

  lemma AgreesWithin(s: string, i: nat, t: string, m: nat, n: nat, from: nat, to: nat)
    requires Agrees(s, i, t, m, n) && from <= to <= n
    ensures Agrees(s, i + from, t, m + from, to - from) && i + n <= |s| && m + n <= |t|
    ensures from < n ==> s[i + from] == t[m + from]
  {
    SliceOfSlice(s, i, i + n, from, to);
    SliceOfSlice(t, m, m + n, from, to);
    if from < n {
      assert s[i + from] == s[i..i + n][from];
      assert t[m + from] == t[m..m + n][from];
    }
  }

  lemma {:induction false} MatchesStretch(r: Re, s: string, i: nat, j: nat, t: string, m: nat, icase: bool)
    requires AnchorFree(r) && i <= j <= |s| && Agrees(s, i, t, m, j - i)
    requires Matches(r, s, i, j, icase)
    ensures m + (j - i) <= |t| && Matches(r, t, m, m + (j - i), icase)
    decreases r, 0
  {
    hide InTimes, Repeats, Matches, Agrees;
    AgreesWithin(s, i, t, m, j - i, 0, 0);
    if IsLeaf(r) {
      LeafStretch(r, s, i, j, t, m, icase);
      return;
    }
    match r
    case Group(opening, body) =>
      GroupMatches(opening, body, s, i, j, icase);
      MatchesStretch(body, s, i, j, t, m, icase);
      GroupMatches(opening, body, t, m, m + (j - i), icase);
    case Quant(body, times, isLazy) =>
      QuantMatches(body, times, isLazy, s, i, j, icase);
      var n: nat :| InTimes(times, n) && Repeats(body, n, s, i, j, icase);
      RepeatsStretch(body, n, s, i, j, t, m, icase);
      QuantMatches(body, times, isLazy, t, m, m + (j - i), icase);
    case Cat(left, right) =>
      var k := CatSplits(left, right, s, i, j, icase);
      AgreesWithin(s, i, t, m, j - i, 0, k - i);
      AgreesWithin(s, i, t, m, j - i, k - i, j - i);
      MatchesStretch(left, s, i, k, t, m, icase);
      MatchesStretch(right, s, k, j, t, m + (k - i), icase);
      CatJoins(left, right, t, m, m + (k - i), m + (j - i), icase);
    case Alt(left, right) =>
      AltMatches(left, right, s, i, j, icase);
      if Matches(left, s, i, j, icase) {
        MatchesStretch(left, s, i, j, t, m, icase);
      } else {
        MatchesStretch(right, s, i, j, t, m, icase);
      }
      AltMatches(left, right, t, m, m + (j - i), icase);
  }

  predicate IsLeaf(r: Re) {
    !r.Group? && !r.Quant? && !r.Cat? && !r.Alt?
  }

  lemma LeafStretch(r: Re, s: string, i: nat, j: nat, t: string, m: nat, icase: bool)
    requires IsLeaf(r) && AnchorFree(r) && i <= j <= |s| && Agrees(s, i, t, m, j - i)
    requires Matches(r, s, i, j, icase)
    ensures m + (j - i) <= |t| && Matches(r, t, m, m + (j - i), icase)
  {
    AgreesWithin(s, i, t, m, j - i, 0, 0);
  }

  lemma {:induction false} RepeatsStretch(r: Re, n: nat, s: string, i: nat, j: nat, t: string, m: nat, icase: bool)
    requires AnchorFree(r) && i <= j <= |s| && Agrees(s, i, t, m, j - i)
    requires Repeats(r, n, s, i, j, icase)
    ensures m + (j - i) <= |t| && Repeats(r, n, t, m, m + (j - i), icase)
    decreases r, 1, n
  {
    hide Matches;
    assert m + (j - i) <= |t|;
    if n == 0 {
    } else {
      var k := RepeatsFirst(r, n, s, i, j, icase);
      AgreesWithin(s, i, t, m, j - i, 0, k - i);
      AgreesWithin(s, i, t, m, j - i, k - i, j - i);
      MatchesStretch(r, s, i, k, t, m, icase);
      RepeatsStretch(r, n - 1, s, k, j, t, m + (k - i), icase);
      RepeatsMore(r, n, t, m, m + (k - i), m + (j - i), icase);
    }
  }

  lemma RepeatsFirst(r: Re, n: nat, s: string, i: nat, j: nat, icase: bool) returns (k: nat)
    requires n > 0 && i <= j <= |s| && Repeats(r, n, s, i, j, icase)
    ensures i <= k <= j && Matches(r, s, i, k, icase) && Repeats(r, n - 1, s, k, j, icase)
  {
    hide Matches;
    k :| i <= k <= j && Matches(r, s, i, k, icase) && Repeats(r, n - 1, s, k, j, icase);
  }

  lemma RepeatsMore(r: Re, n: nat, s: string, i: nat, k: nat, j: nat, icase: bool)
    requires n > 0 && i <= k <= j <= |s| && Matches(r, s, i, k, icase) && Repeats(r, n - 1, s, k, j, icase)
    ensures Repeats(r, n, s, i, j, icase)
  {
    hide Matches;
  }

  /** What an assertion-free tree matches at a stretch is what it covers as a whole text. */
  lemma MatchesSlice(r: Re, s: string, i: nat, j: nat, icase: bool)
    requires AnchorFree(r) && i <= j <= |s|
    ensures Matches(r, s, i, j, icase) <==> Covers(r, s[i..j], icase)
  {
    hide Matches, AnchorFree;
    if Matches(r, s, i, j, icase) {
      MatchesStretch(r, s, i, j, s[i..j], 0, icase);
    }
    if Covers(r, s[i..j], icase) {
      MatchesStretch(r, s[i..j], 0, j - i, s, i, icase);
    }
  }

  /** `left` covers the first `k` characters of `s` and `right` the others. */
  ghost predicate SplitCovers(left: Re, right: Re, s: string, k: nat, icase: bool) {
    k <= |s| && Covers(left, s[..k], icase) && Covers(right, s[k..], icase)
  }

  lemma CoverSplits(left: Re, right: Re, s: string, icase: bool) returns (k: nat)
    requires AnchorFree(left) && AnchorFree(right) && Covers(Cat(left, right), s, icase)
    ensures SplitCovers(left, right, s, k, icase)
  {
    hide Matches, AnchorFree;
    k := CatSplits(left, right, s, 0, |s|, icase);
    MatchesSlice(left, s, 0, k, icase);
    MatchesSlice(right, s, k, |s|, icase);
    assert s[0..k] == s[..k] && s[k..|s|] == s[k..];
  }

  lemma SplitsCover(left: Re, right: Re, s: string, k: nat, icase: bool)
    requires AnchorFree(left) && AnchorFree(right) && SplitCovers(left, right, s, k, icase)
    ensures Covers(Cat(left, right), s, icase)
  {
    hide Matches, AnchorFree;
    assert s[0..k] == s[..k] && s[k..|s|] == s[k..];
    MatchesSlice(left, s, 0, k, icase);
    MatchesSlice(right, s, k, |s|, icase);
    CatJoins(left, right, s, 0, k, |s|, icase);
  }

  /** Concatenation of assertion-free trees covers concatenations of texts. */
  lemma CatCovers(left: Re, right: Re, s: string, icase: bool)
    requires AnchorFree(left) && AnchorFree(right)
    ensures Covers(Cat(left, right), s, icase) <==> exists k: nat :: SplitCovers(left, right, s, k, icase)
  {
    hide Covers, SplitCovers, AnchorFree;
    if Covers(Cat(left, right), s, icase) {
      var k := CoverSplits(left, right, s, icase);
    }
    if k: nat :| SplitCovers(left, right, s, k, icase) {
      SplitsCover(left, right, s, k, icase);
    }
  }

  // ---- literal text ----

  /** The tree of a text that stands for itself. */
  function Literal(t: string): Re {
    if t == [] then Empty else Cat(Chr(t[0], t[0] in META), Literal(t[1..]))
  }

  predicate SameText(s: string, t: string, icase: bool) {
    |s| == |t| && forall k | 0 <= k < |s| :: SameChar(s[k], t[k], icase)
  }

  lemma {:induction false} LiteralShape(t: string)
    ensures WellFormed(Literal(t)) && IsPortable(Literal(t)) && AnchorFree(Literal(t)) && !Literal(t).Alt?
  {
    if t != [] {
      assert forall c :: c in META ==> !IsAlnum(c);
      LiteralShape(t[1..]);
    }
  }

  lemma ChrCovers(c: char, escaped: bool, s: string, icase: bool)
    ensures Covers(Chr(c, escaped), s, icase) <==> |s| == 1 && SameChar(c, s[0], icase)
  {
  }

  lemma {:induction false} LiteralCovers(t: string, s: string, icase: bool)
    ensures Covers(Literal(t), s, icase) <==> SameText(t, s, icase)
  {
    hide META;
    if t == [] {
      assert Covers(Empty, s, icase) <==> |s| == 0;
    } else {
      var c := Chr(t[0], t[0] in META);
      LiteralShape(t[1..]);
      CatCovers(c, Literal(t[1..]), s, icase);
      if s == [] {
        ChrCovers(c.c, c.escaped, [], icase);
        assert forall k: nat | k <= |s| :: s[..k] == [];
      } else {
        LiteralCovers(t[1..], s[1..], icase);
        LiteralStep(t, s, icase);
        ChrCovers(c.c, c.escaped, s[..1], icase);
        if k: nat :| SplitCovers(c, Literal(t[1..]), s, k, icase) {
          ChrCovers(c.c, c.escaped, s[..k], icase);
          assert k == 1;
        }
        if SameText(t, s, icase) {
          assert SplitCovers(c, Literal(t[1..]), s, 1, icase);
        }
      }
    }
  }

  lemma LiteralStep(t: string, s: string, icase: bool)
    requires t != [] && s != []
    ensures SameText(t, s, icase) <==> SameChar(t[0], s[0], icase) && SameText(t[1..], s[1..], icase)
  {
    if SameText(t, s, icase) {
      forall k | 0 <= k < |s| - 1 ensures SameChar(t[1..][k], s[1..][k], icase) {
        assert SameChar(t[k + 1], s[k + 1], icase);
      }
    }
    if SameChar(t[0], s[0], icase) && SameText(t[1..], s[1..], icase) {
      forall k | 0 <= k < |s| ensures SameChar(t[k], s[k], icase) {
        if k > 0 {
          assert SameChar(t[1..][k - 1], s[1..][k - 1], icase);
        }
      }
    }
  }
}
