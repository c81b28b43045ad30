/**
 * Anchoring a `~` rule: a top-level `|` is looked for, and where there is none, `^` and `$` are
 * put around the text unless it already carries them.
 *
 * All of it reads text. The lemmas say what that reading means for the tree the text is of.
 */
module Anchoring {
  import opened Decimal
  import opened Regex

  // ---- reading the text: src/core/lib/acl/partial-wildcard.ts ----

  /** The indices the scan visits, each with whether it sits inside a class. */
  function Visited(regex: string, i: nat, inClass: bool): seq<(nat, bool)>
    decreases |regex| - i
  {
    if i >= |regex| then []
    else
      var c := regex[i];
      [(i, inClass)] +
      if c == '\\' then Visited(regex, i + 2, inClass)
      else if inClass then Visited(regex, i + 1, c != ']')
      else Visited(regex, i + 1, c == '[')
  }

  method RegexChars(regex: string) returns (chars: seq<(nat, bool)>)
    ensures chars == Visited(regex, 0, false)
  {
    var inClass := false;
    var i := 0;
    chars := [];
    while i < |regex|
      invariant chars + Visited(regex, i, inClass) == Visited(regex, 0, false)
      decreases |regex| - i
    {
      assert forall rest: seq<(nat, bool)> :: chars + ([(i, inClass)] + rest) == (chars + [(i, inClass)]) + rest;
      chars := chars + [(i, inClass)];
      var c := regex[i];
      if c == '\\' {
        i := i + 1;
      } else if inClass {
        if c == ']' { inClass := false; }
      } else if c == '[' {
        inClass := true;
      }
      i := i + 1;
    }
    assert chars + [] == chars;
  }

  /** Where `want` first stands outside every group and class of `s`, read from `depth` groups in; the end if nowhere. */
  function Seek(s: string, inClass: bool, depth: int, want: char): (k: nat)
    ensures k <= |s|
    decreases |s|
  {
    if s == [] then 0
    else if s[0] == '\\' then (if |s| < 2 then 1 else 2 + Seek(s[2..], inClass, depth, want))
    else if inClass then 1 + Seek(s[1..], s[0] != ']', depth, want)
    else if s[0] == want && depth == 0 then 0
    else 1 + Seek(s[1..], s[0] == '[', if s[0] == '(' then depth + 1 else if s[0] == ')' then depth - 1 else depth, want)
  }

  predicate BarFrom(s: string, inClass: bool, depth: int) {
    Seek(s, inClass, depth, '|') < |s|
  }

  method HasTopLevelAlternation(regex: string) returns (found: bool)
    ensures found == BarFrom(regex, false, 0)
  {
    var depth := 0;
    var chars := RegexChars(regex);
    ghost var at: nat, within := 0, false;
    assert regex[0..] == regex;
    for k := 0 to |chars|
      invariant chars[k..] == Visited(regex, at, within)
      invariant BarFrom(regex, false, 0) == BarFrom(if at < |regex| then regex[at..] else [], within, depth)
    {
      var (i, inClass) := chars[k];
      assert i == at && inClass == within;
      assert chars[k..][1..] == chars[k + 1..];
      VisitStep(regex, at, within, depth);
      at, within := at + (if regex[at] == '\\' then 2 else 1),
        if regex[at] == '\\' then within else if within then regex[at] != ']' else regex[at] == '[';
      if !inClass {
        var c := regex[i];
        if c == '(' {
          depth := depth + 1;
        } else if c == ')' {
          depth := depth - 1;
        } else if c == '|' && depth == 0 {
          return true;
        }
      }
    }
    found := false;
  }

  lemma VisitStep(regex: string, i: nat, inClass: bool, depth: int)
    requires i < |regex|
    ensures regex[i..][0] == regex[i]
    ensures regex[i..][1..] == regex[i + 1..]
    ensures i + 2 <= |regex| ==> regex[i..][2..] == regex[i + 2..]
    ensures |regex[i..]| == |regex| - i
  {
  }

  /** How many backslashes `s` ends in. */
  function Trailing(s: string): (n: nat)
    ensures n <= |s|
  {
    if s != [] && s[|s| - 1] == '\\' then 1 + Trailing(s[..|s| - 1]) else 0
  }

  predicate IsAnchoredAtEnd(regex: string) {
    regex != [] && regex[|regex| - 1] == '$' && Trailing(regex[..|regex| - 1]) % 2 == 0
  }

  method EndsAnchored(regex: string) returns (anchored: bool)
    ensures anchored == IsAnchoredAtEnd(regex)
  {
    if regex == [] || regex[|regex| - 1] != '$' { return false; }
    var backslashes := 0;
    var i := |regex| - 2;
    while i >= 0 && regex[i] == '\\'
      invariant -1 <= i <= |regex| - 2
      invariant backslashes + Trailing(regex[..i + 1]) == Trailing(regex[..|regex| - 1])
    {
      assert regex[..i + 1][..i] == regex[..i];
      backslashes := backslashes + 1;
      i := i - 1;
    }
    return backslashes % 2 == 0;
  }

  function AnchorRawRegex(regex: string): string {
    (if "^" <= regex then "" else "^") + regex + (if IsAnchoredAtEnd(regex) then "" else "$")
  }

  // ---- the scan sees exactly what stands outside ----

  /** The characters the scan does more with than step over. */
  const SCANNED := "\\[()|"

  /** What is looked for: the bar of an alternation, or the parenthesis that closes a group around the text. */
  predicate IsWanted(want: char) { want == '|' || want == ')' }

  lemma {:induction false} PassesOver(t: string, post: string, depth: int, want: char)
    requires IsWanted(want) && forall k | 0 <= k < |t| :: t[k] !in SCANNED
    ensures Seek(t + post, false, depth, want) == |t| + Seek(post, false, depth, want)
  {
    if t == [] {
      assert t + post == post;
    } else {
      assert (t + post)[1..] == t[1..] + post;
      assert t[0] !in SCANNED;
      assert '\\' in SCANNED && '[' in SCANNED && '(' in SCANNED && ')' in SCANNED && '|' in SCANNED;
      PassesOver(t[1..], post, depth, want);
    }
  }

  lemma PassesEnd(c: char, escaped: bool, post: string, depth: int, want: char)
    requires escaped || (c != ']' && c != '\\')
    ensures Seek(PrintChar(c, escaped) + post, true, depth, want) == |PrintChar(c, escaped)| + Seek(post, true, depth, want)
  {
    var t := PrintChar(c, escaped) + post;
    assert t[1..] == if escaped then [c] + post else post;
    if escaped {
      assert t[2..] == post;
    }
  }

  lemma PassesItem(item: Item, caret: bool, dash: bool, post: string, depth: int, want: char)
    requires GoodItem(item, caret, dash)
    ensures Seek(PrintItem(item) + post, true, depth, want) == |PrintItem(item)| + Seek(post, true, depth, want)
  {
    hide Seek;
    match item
    case One(c, escaped) => PassesEnd(c, escaped, post, depth, want);
    case Span(lo, loEscaped, hi, hiEscaped) =>
      var end := PrintChar(hi, hiEscaped) + post;
      PassesEnd(lo, loEscaped, PrintChar('-', false) + end, depth, want);
      PassesEnd('-', false, end, depth, want);
      PassesEnd(hi, hiEscaped, post, depth, want);
      assert PrintItem(item) + post == PrintChar(lo, loEscaped) + (PrintChar('-', false) + end);
    case Short(kind) => PassesEnd(kind, true, post, depth, want);
  }

  lemma {:induction false} PassesItems(items: seq<Item>, caret: bool, dash: bool, post: string, depth: int, want: char)
    requires GoodItems(items, caret, dash)
    ensures Seek(PrintItems(items) + post, true, depth, want) == |PrintItems(items)| + Seek(post, true, depth, want)
  {
    hide Seek, PrintItem, GoodItem;
    if items == [] {
      assert PrintItems(items) + post == post;
    } else {
      var rest := PrintItems(items[1..]) + post;
      assert PrintItems(items) + post == PrintItem(items[0]) + rest;
      PassesItem(items[0], caret, dash || |items| == 1, rest, depth, want);
      PassesItems(items[1..], false, !items[0].One?, post, depth, want);
    }
  }

  lemma DigitsPass(n: nat)
    ensures forall k | 0 <= k < |Dec(n)| :: Dec(n)[k] !in SCANNED
  {
    hide Dec;
    forall k | 0 <= k < |Dec(n)| ensures Dec(n)[k] !in SCANNED {
      assert IsDigit(Dec(n)[k]);
    }
  }

  lemma TimesPass(times: Times)
    ensures forall k | 0 <= k < |PrintTimes(times)| :: PrintTimes(times)[k] !in SCANNED
  {
    hide Dec;
    match times
    case Star => case Plus => case Opt =>
    case Exactly(n) => DigitsPass(n);
    case AtLeast(n) => DigitsPass(n);
    case Between(lo, hi) => DigitsPass(lo); DigitsPass(hi);
  }

  /** Reading past the text of a tree, which holds none of what is wanted outside its groups. */
  lemma {:induction false} ScanOfTree(r: Re, post: string, depth: nat, want: char)
    requires WellFormed(r) && IsWanted(want) && !(r.Alt? && depth == 0 && want == '|')
    ensures Seek(Print(r) + post, false, depth, want) == |Print(r)| + Seek(post, false, depth, want)
  {
    hide Seek, PrintTimes, PrintItems, GoodItems, IsLiteral, PrintOpening, GoodOpening;
    match r
    case Empty => assert Print(r) + post == post;
    case Chr(c, escaped) => ScanOfChar(c, escaped, post, depth, want);
    case Any => PassesOver(".", post, depth, want);
    case Bol => PassesOver("^", post, depth, want);
    case Eol => PassesOver("$", post, depth, want);
    case Shorthand(kind) => ScanOfEscape(kind, post, depth, want);
    case Edge(neg) => ScanOfEscape(if neg then 'B' else 'b', post, depth, want);
    case Set(neg, items) => ScanOfSet(neg, items, post, depth, want);
    case Group(opening, body) =>
      ScanOfTree(body, ")" + post, depth + 1, want);
      ScanOfGroup(opening, Print(body), post, depth, want);
    case Quant(body, times, isLazy) =>
      var tail := PrintTimes(times) + (if isLazy then "?" else "");
      TimesPass(times);
      QuantText(body, times, isLazy);
      ScanOfTree(body, tail + post, depth, want);
      PassesOver(tail, post, depth, want);
      ScanOfTwo(Print(body), tail, post, depth, want);
    case Cat(left, right) =>
      CatText(left, right);
      ScanOfTree(left, Print(right) + post, depth, want);
      ScanOfTree(right, post, depth, want);
      ScanOfTwo(Print(left), Print(right), post, depth, want);
    case Alt(left, right) =>
      AltText(left, right);
      ScanOfTree(left, "|" + (Print(right) + post), depth, want);
      ScanOfTree(right, post, depth, want);
      ScanOfBar(Print(right) + post, depth, want);
      ScanOfThree(Print(left), Print(right), post, depth, want);
  }

  lemma QuantText(body: Re, times: Times, isLazy: bool)
    ensures Print(Quant(body, times, isLazy)) == Print(body) + (PrintTimes(times) + (if isLazy then "?" else ""))
  {
  }

  lemma ScanOfTwo(p: string, q: string, post: string, depth: int, want: char)
    requires Seek(p + (q + post), false, depth, want) == |p| + Seek(q + post, false, depth, want)
    requires Seek(q + post, false, depth, want) == |q| + Seek(post, false, depth, want)
    ensures Seek(p + q + post, false, depth, want) == |p + q| + Seek(post, false, depth, want)
  {
    hide Seek;
    assert p + q + post == p + (q + post);
  }

  lemma ScanOfThree(p: string, q: string, post: string, depth: int, want: char)
    requires Seek(p + ("|" + (q + post)), false, depth, want) == |p| + Seek("|" + (q + post), false, depth, want)
    requires Seek("|" + (q + post), false, depth, want) == 1 + Seek(q + post, false, depth, want)
    requires Seek(q + post, false, depth, want) == |q| + Seek(post, false, depth, want)
    ensures Seek(p + "|" + q + post, false, depth, want) == |p + "|" + q| + Seek(post, false, depth, want)
  {
    hide Seek;
    assert p + "|" + q + post == p + ("|" + (q + post));
  }

  lemma ScanOfBar(post: string, depth: int, want: char)
    ensures want == '|' && depth == 0 ==> Seek("|" + post, false, depth, want) == 0
    ensures IsWanted(want) && !(want == '|' && depth == 0) ==>
              Seek("|" + post, false, depth, want) == 1 + Seek(post, false, depth, want)
  {
    assert ("|" + post)[1..] == post;
  }

  lemma ScanOfChar(c: char, escaped: bool, post: string, depth: int, want: char)
    requires IsLiteral(c, escaped) && IsWanted(want)
    ensures Seek(PrintChar(c, escaped) + post, false, depth, want) == |PrintChar(c, escaped)| + Seek(post, false, depth, want)
  {
    if escaped {
      ScanOfEscape(c, post, depth, want);
    } else {
      assert forall d :: d in SCANNED ==> d in META && d != ']' && d != '}';
      PassesOver([c], post, depth, want);
    }
  }

  lemma ScanOfEscape(c: char, post: string, depth: int, want: char)
    ensures Seek(['\\', c] + post, false, depth, want) == 2 + Seek(post, false, depth, want)
  {
    assert (['\\', c] + post)[2..] == post;
  }

  lemma ScanOfSet(neg: bool, items: seq<Item>, post: string, depth: int, want: char)
    requires GoodItems(items, !neg, true) && IsWanted(want)
    ensures var t := Print(Set(neg, items)); Seek(t + post, false, depth, want) == |t| + Seek(post, false, depth, want)
  {
    hide GoodItems, PrintItems, Print, Seek;
    ClassText(neg, items, post);
    PassesItems(items, !neg, true, "]" + post, depth, want);
    ClosesClass(post, depth, want);
    OpensClass(neg, PrintItems(items) + ("]" + post), depth, want);
  }

  lemma ClassText(neg: bool, items: seq<Item>, post: string)
    ensures var head, t := if neg then "[^" else "[", Print(Set(neg, items));
      |t| == |head| + |PrintItems(items)| + 1 && t + post == head + (PrintItems(items) + ("]" + post))
  {
    hide PrintItems;
    var head, p := if neg then "[^" else "[", PrintItems(items);
    assert head + p + "]" + post == head + (p + ("]" + post));
  }

  lemma ClosesClass(post: string, depth: int, want: char)
    requires IsWanted(want)
    ensures Seek("]" + post, true, depth, want) == 1 + Seek(post, false, depth, want)
  {
    assert ("]" + post)[1..] == post;
  }

  lemma OpensClass(neg: bool, inner: string, depth: int, want: char)
    requires IsWanted(want)
    ensures var head := if neg then "[^" else "["; Seek(head + inner, false, depth, want) == |head| + Seek(inner, true, depth, want)
  {
    if neg {
      assert ("[^" + inner)[1..] == "^" + inner;
      assert ("^" + inner)[1..] == inner;
    } else {
      assert ("[" + inner)[1..] == inner;
    }
  }

  /** What follows the parenthesis of an opening. */
  function AfterParen(opening: Opening): string {
    PrintOpening(opening)[1..]
  }

  lemma OpeningPasses(opening: Opening)
    requires GoodOpening(opening)
    ensures PrintOpening(opening) == "(" + AfterParen(opening)
    ensures forall k | 0 <= k < |AfterParen(opening)| :: AfterParen(opening)[k] !in SCANNED
  {
    match opening
    case Labelled(name) => assert AfterParen(opening) == "?<" + name + ">";
    case _ =>
  }

  lemma ScanOfGroup(opening: Opening, body: string, post: string, depth: nat, want: char)
    requires GoodOpening(opening) && IsWanted(want)
    ensures Seek(PrintOpening(opening) + body + ")" + post, false, depth, want)
         == |PrintOpening(opening)| + Seek(body + (")" + post), false, depth + 1, want)
    ensures Seek(")" + post, false, depth + 1, want) == 1 + Seek(post, false, depth, want)
  {
    hide PrintOpening, AfterParen, GoodOpening;
    var inner := body + (")" + post);
    var t := PrintOpening(opening) + body + ")" + post;
    assert (")" + post)[1..] == post;
    OpeningPasses(opening);
    assert t == "(" + (AfterParen(opening) + inner);
    assert t[1..] == AfterParen(opening) + inner;
    PassesOver(AfterParen(opening), inner, depth + 1, want);
  }

  /** An alternation's first bar stands right behind its first branch. */
  lemma {:induction false} BarIsSeen(r: Re, post: string)
    requires WellFormed(r) && r.Alt?
    ensures Seek(Print(r) + post, false, 0, '|') < |Print(r)|
  {
    hide Seek;
    var rest := Print(r.right) + post;
    assert Print(r) + post == Print(r.left) + ("|" + rest);
    if r.left.Alt? {
      BarIsSeen(r.left, "|" + rest);
    } else {
      ScanOfTree(r.left, "|" + rest, 0, '|');
      ScanOfBar(rest, 0, '|');
    }
  }

  /**
   * `hasTopLevelAlternation` answers for the whole expression: it holds of a text just when
   * the tree that text is of has an alternation at its root.
   */
  lemma AlternationIsAtTheRoot(r: Re)
    requires WellFormed(r)
    ensures BarFrom(Print(r), false, 0) <==> r.Alt?
  {
    assert Print(r) + [] == Print(r);
    if r.Alt? {
      BarIsSeen(r, []);
    } else {
      ScanOfTree(r, [], 0, '|');
    }
  }

  // ---- the ends of the text are the ends of the tree ----

  lemma {:induction false} TrailingOfConcat(a: string, b: string)
    ensures Trailing(a + b) == if Trailing(b) == |b| then |b| + Trailing(a) else Trailing(b)
  {
    if b == [] {
      assert a + b == a;
    } else {
      assert (a + b)[..|a + b| - 1] == a + b[..|b| - 1];
      TrailingOfConcat(a, b[..|b| - 1]);
    }
  }

  lemma PlainEnd(t: string)
    requires t != [] && t[|t| - 1] != '\\'
    ensures Trailing(t) == 0
  {
  }

  lemma CharEndsWhole(c: char, escaped: bool)
    requires IsLiteral(c, escaped)
    ensures Trailing(PrintChar(c, escaped)) % 2 == 0
  {
    if escaped {
      assert ['\\', c] == ['\\'] + [c];
      assert [c][..0] == [] && ['\\'][..0] == [];
      TrailingOfConcat(['\\'], [c]);
    } else {
      assert '\\' in META;
      PlainEnd([c]);
    }
  }

  /** Only a literal or a shorthand is written with a backslash that could come last. */
  lemma PieceEndsPlain(r: Re)
    requires r.Any? || r.Bol? || r.Eol? || r.Edge? || r.Set? || r.Group? || r.Quant?
    ensures Print(r) != [] && Print(r)[|Print(r)| - 1] != '\\'
  {
    hide PrintItems, PrintTimes;
    match r
    case Quant(body, times, isLazy) =>
      QuantEnds(body, times, isLazy);
      assert '\\' !in "*+?}";
    case _ =>
  }

  lemma {:induction false} TreesEndWhole(r: Re)
    requires WellFormed(r)
    ensures Trailing(Print(r)) % 2 == 0
  {
    hide IsLiteral;
    match r
    case Empty => assert Print(r) == [] && Trailing([]) == 0;
    case Chr(c, escaped) =>
      CharEndsWhole(c, escaped);
    case Shorthand(kind) =>
      assert Print(r) == ['\\', kind] && kind != '\\';
      PlainEnd(Print(r));
    case Cat(left, right) =>
      TreesEndWhole(left);
      TreesEndWhole(right);
      JoinEndsWhole(Print(left), false, Print(right));
      assert Print(r) == Print(left) + Print(right);
    case Alt(left, right) =>
      TreesEndWhole(left);
      TreesEndWhole(right);
      JoinEndsWhole(Print(left), true, Print(right));
      assert Print(r) == Print(left) + "|" + Print(right);
    case _ =>
      PieceEndsPlain(r);
      PlainEnd(Print(r));
  }

  lemma JoinEndsWhole(left: string, bar: bool, right: string)
    requires Trailing(left) % 2 == 0 && Trailing(right) % 2 == 0
    ensures Trailing(if bar then left + "|" + right else left + right) % 2 == 0
  {
    hide Trailing;
    if bar {
      PlainEnd(left + "|");
      TrailingOfConcat(left + "|", right);
    } else {
      TrailingOfConcat(left, right);
    }
  }

  lemma QuantEnds(body: Re, times: Times, isLazy: bool)
    ensures var t := Print(Quant(body, times, isLazy)); t != [] && t[|t| - 1] in "*+?}"
  {
    hide Dec;
    var tail := PrintTimes(times);
    assert tail != [] && tail[|tail| - 1] in "*+?}";
    var t := Print(Quant(body, times, isLazy));
    assert t == (Print(body) + tail) + (if isLazy then "?" else "");
    assert !isLazy ==> t == Print(body) + tail;
  }

  /** The tree's last written piece is a `$` that anchors. */
  predicate LastIsEol(r: Re) {
    match r
    case Eol => true
    case Cat(left, right) => if Print(right) == [] then LastIsEol(left) else LastIsEol(right)
    case Alt(left, right) => LastIsEol(right)
    case _ => false
  }

  predicate FirstIsBol(r: Re) {
    match r
    case Bol => true
    case Cat(left, right) => if Print(left) == [] then FirstIsBol(right) else FirstIsBol(left)
    case Alt(left, right) => FirstIsBol(left)
    case _ => false
  }

  lemma EndOfConcat(a: string, b: string)
    requires b != [] && Trailing(a) % 2 == 0
    ensures IsAnchoredAtEnd(a + b) == IsAnchoredAtEnd(b)
  {
    hide Trailing;
    assert (a + b)[..|a + b| - 1] == a + b[..|b| - 1];
    assert (a + b)[|a + b| - 1] == b[|b| - 1];
    TrailingOfConcat(a, b[..|b| - 1]);
  }

  lemma {:induction false} EndIsLastPiece(r: Re)
    requires WellFormed(r)
    ensures IsAnchoredAtEnd(Print(r)) == LastIsEol(r)
  {
    hide PrintItems, GoodItems;
    match r
    case Empty => case Any => case Bol => case Edge(_) => case Shorthand(_) =>
    case Eol => assert Trailing([]) == 0; assert "$"[..0] == [];
    case Chr(c, escaped) =>
      if escaped {
        assert ['\\', c][..1] == ['\\'];
        assert Trailing(['\\']) == 1 by { assert ['\\'][..0] == []; }
      } else {
        assert '$' in META;
      }
    case Set(neg, items) =>
      var t := Print(r);
      assert t[|t| - 1] == ']';
    case Group(_, _) =>
      var t := Print(r);
      assert t[|t| - 1] == ')';
    case Quant(body, times, isLazy) =>
      QuantEnds(body, times, isLazy);
      assert '$' !in "*+?}";
    case Cat(left, right) =>
      EndIsLastPiece(left);
      EndIsLastPiece(right);
      TreesEndWhole(left);
      if Print(right) == [] {
        assert Print(r) == Print(left);
      } else {
        EndOfConcat(Print(left), Print(right));
      }
    case Alt(left, right) =>
      EndIsLastPiece(right);
      assert Print(r) == (Print(left) + "|") + Print(right);
      if Print(right) != [] {
        assert Trailing(Print(left) + "|") == 0;
        EndOfConcat(Print(left) + "|", Print(right));
      }
  }

  lemma FirstChar(t: string)
    requires t != []
    ensures ("^" <= t) == (t[0] == '^')
  {
  }

  lemma {:induction false} StartIsFirstPiece(r: Re)
    requires WellFormed(r)
    ensures ("^" <= Print(r)) == FirstIsBol(r)
  {
    hide PrintItems, GoodItems, PrintTimes;
    var t := Print(r);
    if t != [] {
      FirstChar(t);
    }
    match r
    case Chr(c, escaped) => assert '^' in META;
    case Set(neg, items) => assert t[0] == '[';
    case Group(_, _) => assert t[0] == '(';
    case Quant(body, times, isLazy) =>
      StartIsFirstPiece(body);
      AtomIsWritten(body);
      FirstChar(Print(body));
      assert t[0] == Print(body)[0];
    case Cat(left, right) =>
      StartIsFirstPiece(left);
      StartIsFirstPiece(right);
      if Print(left) == [] {
        assert t == Print(right);
      } else {
        FirstChar(Print(left));
        assert t[0] == Print(left)[0];
      }
    case Alt(left, right) =>
      StartIsFirstPiece(left);
      if Print(left) == [] {
        assert t[0] == '|';
      } else {
        FirstChar(Print(left));
        assert t[0] == Print(left)[0];
      }
    case _ =>
  }

  lemma AtomIsWritten(r: Re)
    requires IsAtom(r)
    ensures Print(r) != []
  {
  }

  lemma {:induction false} UnwrittenMatchesNothing(r: Re, s: string, i: nat, j: nat, icase: bool)
    requires WellFormed(r) && Print(r) == [] && i <= j <= |s| && Matches(r, s, i, j, icase)
    ensures i == j
  {
    hide PrintItems, GoodItems, PrintTimes;
    match r
    case Cat(left, right) =>
      var k := CatSplits(left, right, s, i, j, icase);
      UnwrittenMatchesNothing(left, s, i, k, icase);
      UnwrittenMatchesNothing(right, s, k, j, icase);
    case Quant(body, _, _) => AtomIsWritten(body);
    case _ =>
  }

  lemma {:induction false} FirstBolBinds(r: Re, s: string, i: nat, j: nat, icase: bool)
    requires WellFormed(r) && !r.Alt? && FirstIsBol(r) && i <= j <= |s| && Matches(r, s, i, j, icase)
    ensures i == 0
  {
    if r.Cat? {
      var k := CatSplits(r.left, r.right, s, i, j, icase);
      if Print(r.left) == [] {
        UnwrittenMatchesNothing(r.left, s, i, k, icase);
        FirstBolBinds(r.right, s, k, j, icase);
      } else {
        FirstBolBinds(r.left, s, i, k, icase);
      }
    }
  }

  lemma {:induction false} LastEolBinds(r: Re, s: string, i: nat, j: nat, icase: bool)
    requires WellFormed(r) && !r.Alt? && LastIsEol(r) && i <= j <= |s| && Matches(r, s, i, j, icase)
    ensures j == |s|
  {
    if r.Cat? {
      var k := CatSplits(r.left, r.right, s, i, j, icase);
      if Print(r.right) == [] {
        UnwrittenMatchesNothing(r.right, s, k, j, icase);
        LastEolBinds(r.left, s, i, k, icase);
      } else {
        LastEolBinds(r.right, s, k, j, icase);
      }
    }
  }

  // ---- the theorem ----

  /** The tree of the anchored text. */
  function Anchored(r: Re): Re {
    var ended := if LastIsEol(r) then r else Cat(r, Eol);
    if FirstIsBol(r) then ended else Cat(Bol, ended)
  }

  /** `anchorRawRegex` writes exactly the anchored tree. */
  lemma AnchoredText(r: Re)
    requires WellFormed(r) && !r.Alt?
    ensures WellFormed(Anchored(r)) && Print(Anchored(r)) == AnchorRawRegex(Print(r))
  {
    hide IsAnchoredAtEnd, FirstIsBol, LastIsEol, Print, WellFormed;
    EndIsLastPiece(r);
    StartIsFirstPiece(r);
    var ended := if LastIsEol(r) then r else Cat(r, Eol);
    var head, tail := if FirstIsBol(r) then "" else "^", if LastIsEol(r) then "" else "$";
    CatText(r, Eol);
    CatText(Bol, ended);
    assert Print(Anchored(r)) == head + (Print(r) + tail);
    assert head + Print(r) + tail == head + (Print(r) + tail);
  }

  /**
   * Anchoring binds the whole expression. Where the scan finds no top-level `|`, a search with
   * the anchored text accepts a name just when the author's own expression matches it from its
   * first character to its last.
   */
  lemma AnchoringBindsTheWhole(r: Re, s: string, icase: bool)
    requires WellFormed(r) && !BarFrom(Print(r), false, 0)
    ensures WellFormed(Anchored(r)) && Print(Anchored(r)) == AnchorRawRegex(Print(r))
    ensures Finds(Anchored(r), s, icase) <==> Covers(r, s, icase)
  {
    hide BarFrom, Matches, LastIsEol, FirstIsBol, WellFormed, Print;
    AlternationIsAtTheRoot(r);
    AnchoredText(r);
    if Finds(Anchored(r), s, icase) {
      FoundIsCovered(r, s, icase);
    }
    if Covers(r, s, icase) {
      CoveredIsFound(r, s, icase);
    }
  }

  lemma FoundIsCovered(r: Re, s: string, icase: bool)
    requires WellFormed(r) && !r.Alt? && Finds(Anchored(r), s, icase)
    ensures Covers(r, s, icase)
  {
    hide WellFormed, Print;
    var i: nat, j: nat :| i <= j <= |s| && Matches(Anchored(r), s, i, j, icase);
    var ended := if LastIsEol(r) then r else Cat(r, Eol);
    var k := i;
    if !FirstIsBol(r) {
      k := CatSplits(Bol, ended, s, i, j, icase);
      assert i == k == 0;
    }
    var m := j;
    if !LastIsEol(r) {
      m := CatSplits(r, Eol, s, k, j, icase);
      assert m == j == |s|;
    }
    if FirstIsBol(r) {
      FirstBolBinds(r, s, k, m, icase);
    }
    if LastIsEol(r) {
      LastEolBinds(r, s, k, m, icase);
    }
  }

  lemma CoveredIsFound(r: Re, s: string, icase: bool)
    requires Covers(r, s, icase)
    ensures Finds(Anchored(r), s, icase)
  {
    var ended := if LastIsEol(r) then r else Cat(r, Eol);
    if !LastIsEol(r) {
      CatJoins(r, Eol, s, 0, |s|, |s|, icase);
    }
    assert Matches(ended, s, 0, |s|, icase);
    if !FirstIsBol(r) {
      CatJoins(Bol, ended, s, 0, 0, |s|, icase);
    }
    assert Matches(Anchored(r), s, 0, |s|, icase);
  }

  ghost predicate MatchesPrefix(r: Re, s: string, icase: bool) {
    exists j: nat :: j <= |s| && Matches(r, s, 0, j, icase)
  }

  ghost predicate MatchesSuffix(r: Re, s: string, icase: bool) {
    exists i: nat :: i <= |s| && Matches(r, s, i, |s|, icase)
  }

  // ---- what a top-level alternation would do ----

  function Branches(r: Re): (branches: seq<Re>)
    ensures branches != [] && (r.Alt? ==> |branches| > 1)
  {
    if r.Alt? then Branches(r.left) + Branches(r.right) else [r]
  }

  function StartAnchored(r: Re): Re {
    if r.Alt? then Alt(StartAnchored(r.left), r.right) else if FirstIsBol(r) then r else Cat(Bol, r)
  }

  function EndAnchored(r: Re): Re {
    if r.Alt? then Alt(r.left, EndAnchored(r.right)) else if LastIsEol(r) then r else Cat(r, Eol)
  }

  lemma {:induction false} StartAnchoredText(r: Re)
    requires WellFormed(r)
    ensures var r' := StartAnchored(r); WellFormed(r') && Print(r') == (if FirstIsBol(r) then "" else "^") + Print(r)
  {
    hide Print;
    if r.Alt? {
      StartAnchoredText(r.left);
      AltText(r.left, r.right);
      AltText(StartAnchored(r.left), r.right);
      Prefixed(if FirstIsBol(r) then "" else "^", Print(r.left), Print(r.right));
    } else {
      CatText(Bol, r);
    }
  }

  lemma {:induction false} EndAnchoredText(r: Re)
    requires WellFormed(r)
    ensures var r' := EndAnchored(r); WellFormed(r') && Print(r') == Print(r) + (if LastIsEol(r) then "" else "$")
  {
    hide Print;
    if r.Alt? {
      EndAnchoredText(r.right);
      AltText(r.left, r.right);
      AltText(r.left, EndAnchored(r.right));
      Suffixed(Print(r.left), Print(r.right), if LastIsEol(r) then "" else "$");
    } else {
      CatText(r, Eol);
    }
  }

  lemma {:induction false} BranchesAre(r: Re)
    requires WellFormed(r)
    ensures forall k | 0 <= k < |Branches(r)| :: WellFormed(Branches(r)[k]) && !Branches(r)[k].Alt?
  {
    if r.Alt? {
      BranchesAre(r.left);
      BranchesAre(r.right);
    }
  }

  lemma {:induction false} StartAnchoredBranches(r: Re)
    ensures Branches(StartAnchored(r)) == [StartAnchored(Branches(r)[0])] + Branches(r)[1..]
  {
    if r.Alt? {
      StartAnchoredBranches(r.left);
    } else {
      assert !StartAnchored(r).Alt?;
    }
  }

  lemma {:induction false} EndAnchoredBranches(r: Re)
    ensures var n := |Branches(r)| - 1; Branches(EndAnchored(r)) == Branches(r)[..n] + [EndAnchored(Branches(r)[n])]
  {
    if r.Alt? {
      EndAnchoredBranches(r.right);
      var a, b, n := Branches(r.left), Branches(r.right), |Branches(r.right)| - 1;
      hide Branches;
      assert (a + b)[..|a| + n] == a + b[..n] && (a + b)[|a| + n] == b[n];
    } else {
      assert !EndAnchored(r).Alt?;
    }
  }

  lemma Prefixed(head: string, a: string, b: string)
    ensures (head + a) + "|" + b == head + (a + "|" + b)
  {
  }

  lemma Suffixed(a: string, b: string, tail: string)
    ensures a + "|" + (b + tail) == (a + "|" + b) + tail
  {
  }

  /** Some of the trees is found. */
  ghost predicate AnyFinds(branches: seq<Re>, s: string, icase: bool) {
    exists k | 0 <= k < |branches| :: Finds(branches[k], s, icase)
  }

  lemma AnyOfTwo(a: seq<Re>, b: seq<Re>, s: string, icase: bool)
    ensures AnyFinds(a + b, s, icase) <==> AnyFinds(a, s, icase) || AnyFinds(b, s, icase)
  {
    hide Finds;
    if k :| 0 <= k < |a| && Finds(a[k], s, icase) {
      assert (a + b)[k] == a[k];
    }
    if k :| 0 <= k < |b| && Finds(b[k], s, icase) {
      assert (a + b)[|a| + k] == b[k];
    }
    if k :| 0 <= k < |a + b| && Finds((a + b)[k], s, icase) && k >= |a| {
      assert Finds(b[k - |a|], s, icase);
    }
  }

  lemma {:induction false} FindsBranch(r: Re, s: string, icase: bool)
    ensures Finds(r, s, icase) <==> AnyFinds(Branches(r), s, icase)
  {
    hide Finds;
    if r.Alt? {
      FindsBranch(r.left, s, icase);
      FindsBranch(r.right, s, icase);
      EitherFinds(r.left, r.right, s, icase);
      AnyOfTwo(Branches(r.left), Branches(r.right), s, icase);
    } else {
      assert Branches(r)[0] == r;
    }
  }

  lemma EitherFinds(left: Re, right: Re, s: string, icase: bool)
    ensures Finds(Alt(left, right), s, icase) <==> Finds(left, s, icase) || Finds(right, s, icase)
  {
    hide Matches;
    if Finds(Alt(left, right), s, icase) {
      var i: nat, j: nat :| i <= j <= |s| && Matches(Alt(left, right), s, i, j, icase);
      AltMatches(left, right, s, i, j, icase);
    }
    if Finds(left, s, icase) {
      var i: nat, j: nat :| i <= j <= |s| && Matches(left, s, i, j, icase);
      AltMatches(left, right, s, i, j, icase);
    }
    if Finds(right, s, icase) {
      var i: nat, j: nat :| i <= j <= |s| && Matches(right, s, i, j, icase);
      AltMatches(left, right, s, i, j, icase);
    }
  }

  /** Anchored at its start, a branch is found just where it starts the text. */
  lemma StartFinds(r: Re, s: string, icase: bool)
    requires WellFormed(r) && !r.Alt?
    ensures Finds(StartAnchored(r), s, icase) <==> MatchesPrefix(r, s, icase)
  {
    hide WellFormed, Print;
    if Finds(StartAnchored(r), s, icase) {
      var i: nat, j: nat :| i <= j <= |s| && Matches(StartAnchored(r), s, i, j, icase);
      if FirstIsBol(r) {
        FirstBolBinds(r, s, i, j, icase);
      } else {
        var k := CatSplits(Bol, r, s, i, j, icase);
        assert i == k == 0;
      }
    }
    if MatchesPrefix(r, s, icase) {
      var j: nat :| j <= |s| && Matches(r, s, 0, j, icase);
      if !FirstIsBol(r) {
        CatJoins(Bol, r, s, 0, 0, j, icase);
      }
      assert Matches(StartAnchored(r), s, 0, j, icase);
    }
  }

  lemma EndFinds(r: Re, s: string, icase: bool)
    requires WellFormed(r) && !r.Alt?
    ensures Finds(EndAnchored(r), s, icase) <==> MatchesSuffix(r, s, icase)
  {
    hide WellFormed, Print;
    if Finds(EndAnchored(r), s, icase) {
      var i: nat, j: nat :| i <= j <= |s| && Matches(EndAnchored(r), s, i, j, icase);
      if LastIsEol(r) {
        LastEolBinds(r, s, i, j, icase);
      } else {
        var k := CatSplits(r, Eol, s, i, j, icase);
        assert k == j == |s|;
      }
    }
    if MatchesSuffix(r, s, icase) {
      var i: nat :| i <= |s| && Matches(r, s, i, |s|, icase);
      if !LastIsEol(r) {
        CatJoins(r, Eol, s, i, |s|, |s|, icase);
      }
      assert Matches(EndAnchored(r), s, i, |s|, icase);
    }
  }

  /** Some branch between the first and the last is found anywhere. */
  ghost predicate MiddleFinds(branches: seq<Re>, s: string, icase: bool) {
    exists k | 0 < k < |branches| - 1 :: Finds(branches[k], s, icase)
  }

  /** The anchored text of an alternation, and its branches. */
  lemma SplitText(r: Re)
    requires WellFormed(r) && r.Alt?
    ensures var tree := EndAnchored(StartAnchored(r)); var branches := Branches(r); var n := |branches| - 1;
      && WellFormed(tree) && Print(tree) == AnchorRawRegex(Print(r))
      && |Branches(tree)| == |branches|
      && Branches(tree)[0] == StartAnchored(branches[0]) && Branches(tree)[n] == EndAnchored(branches[n])
      && (forall k | 0 < k < n :: Branches(tree)[k] == branches[k])
      && WellFormed(branches[0]) && !branches[0].Alt? && WellFormed(branches[n]) && !branches[n].Alt?
  {
    hide WellFormed, Print, IsAnchoredAtEnd, FirstIsBol, Branches, EndAnchored;
    EndIsLastPiece(r);
    StartIsFirstPiece(r);
    StartAnchoredText(r);
    StartAnchoredBranches(r);
    var started := StartAnchored(r);
    assert LastIsEol(started) == LastIsEol(r);
    EndAnchoredText(started);
    EndAnchoredBranches(started);
    BranchesAre(r);
  }

  /** A search with anchored branches, given what each of them finds. */
  lemma SplitFinds(anchored: seq<Re>, branches: seq<Re>, s: string, icase: bool)
    requires |anchored| == |branches| > 1 && forall k | 0 < k < |branches| - 1 :: anchored[k] == branches[k]
    ensures AnyFinds(anchored, s, icase) <==>
      Finds(anchored[0], s, icase) || Finds(anchored[|anchored| - 1], s, icase) || MiddleFinds(branches, s, icase)
  {
    hide Finds;
    if k :| 0 <= k < |anchored| && Finds(anchored[k], s, icase) && 0 < k < |anchored| - 1 {
      assert Finds(branches[k], s, icase);
    }
    if MiddleFinds(branches, s, icase) {
      var k :| 0 < k < |branches| - 1 && Finds(branches[k], s, icase);
      assert Finds(anchored[k], s, icase);
    }
  }

  /**
   * Why a top-level `|` has to be refused: the anchors bind the first branch at the start and the last
   * at the end, so a name is accepted just when it starts with the one, ends with the other, or has
   * any branch between them anywhere in it.
   */
  lemma AnchorsSplitByAlternation(r: Re, s: string, icase: bool)
    requires WellFormed(r) && BarFrom(Print(r), false, 0)
    ensures var tree := EndAnchored(StartAnchored(r)); var branches := Branches(r);
      && WellFormed(tree) && Print(tree) == AnchorRawRegex(Print(r)) && |branches| > 1
      && (Finds(tree, s, icase) <==>
            || MatchesPrefix(branches[0], s, icase)
            || MatchesSuffix(branches[|branches| - 1], s, icase)
            || MiddleFinds(branches, s, icase))
  {
    hide BarFrom, WellFormed, Print, AnchorRawRegex, Finds, MatchesPrefix, MatchesSuffix, MiddleFinds, Branches,
      StartAnchored, EndAnchored, AnyFinds;
    AlternationIsAtTheRoot(r);
    SplitText(r);
    var tree, branches := EndAnchored(StartAnchored(r)), Branches(r);
    FindsBranch(tree, s, icase);
    SplitFinds(Branches(tree), branches, s, icase);
    StartFinds(branches[0], s, icase);
    EndFinds(branches[|branches| - 1], s, icase);
  }
}
