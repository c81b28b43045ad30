/**
 * A text has one meaning: two trees that are written alike match alike. So what an engine answers
 * for a text can be asked for by the tree the text was printed from.
 */
module Unambiguous {
  import opened Anchoring
  import opened Decimal
  import opened Matchers
  import opened Regex
  import opened Search

  ghost predicate Same(a: Re, b: Re) {
    forall s: string, i: nat, j: nat, icase: bool | i <= j <= |s| :: Matches(a, s, i, j, icase) <==> Matches(b, s, i, j, icase)
  }

  // ---- meaning does not depend on how a tree is put together ----

  lemma SameAlt(a: Re, b: Re, a': Re, b': Re)
    requires Same(a, a') && Same(b, b')
    ensures Same(Alt(a, b), Alt(a', b'))
  {
    hide Matches;
    forall s: string, i: nat, j: nat, icase: bool | i <= j <= |s|
      ensures Matches(Alt(a, b), s, i, j, icase) <==> Matches(Alt(a', b'), s, i, j, icase)
    {
      AltMatches(a, b, s, i, j, icase);
      AltMatches(a', b', s, i, j, icase);
    }
  }

  lemma AltAgain(a: Re, b: Re, c: Re)
    ensures Same(Alt(Alt(a, b), c), Alt(a, Alt(b, c)))
  {
    hide Matches;
    forall s: string, i: nat, j: nat, icase: bool | i <= j <= |s|
      ensures Matches(Alt(Alt(a, b), c), s, i, j, icase) <==> Matches(Alt(a, Alt(b, c)), s, i, j, icase)
    {
      AltMatches(Alt(a, b), c, s, i, j, icase);
      AltMatches(a, b, s, i, j, icase);
      AltMatches(a, Alt(b, c), s, i, j, icase);
      AltMatches(b, c, s, i, j, icase);
    }
  }

  lemma CatBothWays(a: Re, b: Re, a': Re, b': Re, s: string, i: nat, j: nat, icase: bool)
    requires Same(a, a') && Same(b, b') && i <= j <= |s| && Matches(Cat(a, b), s, i, j, icase)
    ensures Matches(Cat(a', b'), s, i, j, icase)
  {
    hide Matches;
    var k := CatSplits(a, b, s, i, j, icase);
    CatJoins(a', b', s, i, k, j, icase);
  }

  lemma SameCat(a: Re, b: Re, a': Re, b': Re)
    requires Same(a, a') && Same(b, b')
    ensures Same(Cat(a, b), Cat(a', b'))
  {
    hide Matches;
    forall s: string, i: nat, j: nat, icase: bool | i <= j <= |s|
      ensures Matches(Cat(a, b), s, i, j, icase) <==> Matches(Cat(a', b'), s, i, j, icase)
    {
      if Matches(Cat(a, b), s, i, j, icase) {
        CatBothWays(a, b, a', b', s, i, j, icase);
      }
      if Matches(Cat(a', b'), s, i, j, icase) {
        CatBothWays(a', b', a, b, s, i, j, icase);
      }
    }
  }

  lemma CatRight(a: Re, b: Re, c: Re, s: string, i: nat, j: nat, icase: bool)
    requires i <= j <= |s| && Matches(Cat(Cat(a, b), c), s, i, j, icase)
    ensures Matches(Cat(a, Cat(b, c)), s, i, j, icase)
  {
    hide Matches;
    var k := CatSplits(Cat(a, b), c, s, i, j, icase);
    var m := CatSplits(a, b, s, i, k, icase);
    CatJoins(b, c, s, m, k, j, icase);
    CatJoins(a, Cat(b, c), s, i, m, j, icase);
  }

  lemma CatLeft(a: Re, b: Re, c: Re, s: string, i: nat, j: nat, icase: bool)
    requires i <= j <= |s| && Matches(Cat(a, Cat(b, c)), s, i, j, icase)
    ensures Matches(Cat(Cat(a, b), c), s, i, j, icase)
  {
    hide Matches;
    var m := CatSplits(a, Cat(b, c), s, i, j, icase);
    var k := CatSplits(b, c, s, m, j, icase);
    CatJoins(a, b, s, i, m, k, icase);
    CatJoins(Cat(a, b), c, s, i, k, j, icase);
  }

  lemma CatAgain(a: Re, b: Re, c: Re)
    ensures Same(Cat(Cat(a, b), c), Cat(a, Cat(b, c)))
  {
    hide Matches;
    forall s: string, i: nat, j: nat, icase: bool | i <= j <= |s|
      ensures Matches(Cat(Cat(a, b), c), s, i, j, icase) <==> Matches(Cat(a, Cat(b, c)), s, i, j, icase)
    {
      if Matches(Cat(Cat(a, b), c), s, i, j, icase) {
        CatRight(a, b, c, s, i, j, icase);
      }
      if Matches(Cat(a, Cat(b, c)), s, i, j, icase) {
        CatLeft(a, b, c, s, i, j, icase);
      }
    }
  }

  lemma {:induction false} UnwrittenMatches(r: Re, s: string, i: nat, icase: bool)
    requires WellFormed(r) && Print(r) == [] && i <= |s|
    ensures Matches(r, s, i, i, icase)
  {
    hide PrintItems, GoodItems, PrintTimes, PrintOpening;
    match r
    case Cat(left, right) =>
      UnwrittenMatches(left, s, i, icase);
      UnwrittenMatches(right, s, i, icase);
      CatJoins(left, right, s, i, i, i, icase);
    case Quant(body, _, _) => AtomIsWritten(body);
    case _ =>
  }

  /** A tree with no text is as good as none. */
  lemma UnwrittenIsEmpty(r: Re)
    requires WellFormed(r) && Print(r) == []
    ensures Same(r, Empty)
  {
    hide Print, WellFormed;
    forall s: string, i: nat, j: nat, icase: bool | i <= j <= |s|
      ensures Matches(r, s, i, j, icase) <==> Matches(Empty, s, i, j, icase)
    {
      UnwrittenMatches(r, s, i, icase);
      if Matches(r, s, i, j, icase) {
        UnwrittenMatchesNothing(r, s, i, j, icase);
      }
    }
  }

  lemma EmptyMatches(s: string, i: nat, j: nat, icase: bool)
    requires i <= j <= |s|
    ensures Matches(Empty, s, i, j, icase) <==> i == j
  {
  }

  lemma EmptyAround(r: Re)
    ensures Same(Cat(Empty, r), r) && Same(Cat(r, Empty), r)
  {
    hide Matches;
    forall s: string, i: nat, j: nat, icase: bool | i <= j <= |s|
      ensures Matches(Cat(Empty, r), s, i, j, icase) <==> Matches(r, s, i, j, icase)
      ensures Matches(Cat(r, Empty), s, i, j, icase) <==> Matches(r, s, i, j, icase)
    {
      EmptyMatches(s, i, i, icase);
      EmptyMatches(s, j, j, icase);
      if Matches(r, s, i, j, icase) {
        CatJoins(Empty, r, s, i, i, j, icase);
        CatJoins(r, Empty, s, i, j, j, icase);
      }
      if Matches(Cat(Empty, r), s, i, j, icase) {
        var k := CatSplits(Empty, r, s, i, j, icase);
        EmptyMatches(s, i, k, icase);
      }
      if Matches(Cat(r, Empty), s, i, j, icase) {
        var k := CatSplits(r, Empty, s, i, j, icase);
        EmptyMatches(s, k, j, icase);
      }
    }
  }

  /** What looking around from `i` asks of the body. */
  ghost predicate Looks(opening: Opening, body: Re, s: string, i: nat, icase: bool)
    requires opening.Look? && i <= |s|
  {
    if opening.behind then exists k | 0 <= k <= i :: Matches(body, s, k, i, icase)
    else exists k | i <= k <= |s| :: Matches(body, s, i, k, icase)
  }

  lemma LookMatches(opening: Opening, body: Re, s: string, i: nat, j: nat, icase: bool)
    requires opening.Look? && i <= j <= |s|
    ensures Matches(Group(opening, body), s, i, j, icase) <==> i == j && Looks(opening, body, s, i, icase) != opening.neg
  {
  }

  lemma SameLooks(opening: Opening, a: Re, b: Re, s: string, i: nat, icase: bool)
    requires Same(a, b) && opening.Look? && i <= |s|
    ensures Looks(opening, a, s, i, icase) == Looks(opening, b, s, i, icase)
  {
    hide Matches;
  }

  lemma SameGroup(opening: Opening, a: Re, b: Re)
    requires Same(a, b)
    ensures Same(Group(opening, a), Group(opening, b))
  {
    hide Matches, Looks;
    forall s: string, i: nat, j: nat, icase: bool | i <= j <= |s|
      ensures Matches(Group(opening, a), s, i, j, icase) <==> Matches(Group(opening, b), s, i, j, icase)
    {
      if opening.Look? {
        LookMatches(opening, a, s, i, j, icase);
        LookMatches(opening, b, s, i, j, icase);
        SameLooks(opening, a, b, s, i, icase);
      } else {
        GroupMatches(opening, a, s, i, j, icase);
        GroupMatches(opening, b, s, i, j, icase);
      }
    }
  }

  lemma {:induction false} SameRepeats(a: Re, b: Re, n: nat, s: string, i: nat, j: nat, icase: bool)
    requires Same(a, b) && i <= j <= |s| && Repeats(a, n, s, i, j, icase)
    ensures Repeats(b, n, s, i, j, icase)
    decreases n
  {
    hide Matches;
    if n > 0 {
      var k := RepeatsFirst(a, n, s, i, j, icase);
      SameRepeats(a, b, n - 1, s, k, j, icase);
      RepeatsMore(b, n, s, i, k, j, icase);
    }
  }

  lemma SameQuant(a: Re, b: Re, times: Times, isLazy: bool)
    requires Same(a, b)
    ensures Same(Quant(a, times, isLazy), Quant(b, times, isLazy))
  {
    hide Matches, Repeats;
    forall s: string, i: nat, j: nat, icase: bool | i <= j <= |s|
      ensures Matches(Quant(a, times, isLazy), s, i, j, icase) <==> Matches(Quant(b, times, isLazy), s, i, j, icase)
    {
      QuantMatches(a, times, isLazy, s, i, j, icase);
      QuantMatches(b, times, isLazy, s, i, j, icase);
      if n: nat :| InTimes(times, n) && Repeats(a, n, s, i, j, icase) {
        SameRepeats(a, b, n, s, i, j, icase);
      }
      if n: nat :| InTimes(times, n) && Repeats(b, n, s, i, j, icase) {
        SameRepeats(b, a, n, s, i, j, icase);
      }
    }
  }

  // ---- the first branch and the first piece of a tree ----

  function FirstBranch(r: Re): Re {
    if r.Alt? then FirstBranch(r.left) else r
  }

  function OtherBranches(r: Re): Re
    requires r.Alt?
  {
    if r.left.Alt? then Alt(OtherBranches(r.left), r.right) else r.right
  }

  lemma {:induction false} AltParts(r: Re)
    requires WellFormed(r) && r.Alt?
    ensures var first, others := FirstBranch(r), OtherBranches(r);
      && WellFormed(first) && !first.Alt? && WellFormed(others)
      && Print(r) == Print(first) + "|" + Print(others) && Same(r, Alt(first, others))
  {
    hide Print, Same;
    AltText(r.left, r.right);
    if r.left.Alt? {
      AltParts(r.left);
      var first, others := FirstBranch(r.left), OtherBranches(r.left);
      AltText(others, r.right);
      BarsAgain(Print(first), Print(others), Print(r.right));
      SameSelf(r.right);
      SameAlt(r.left, r.right, Alt(first, others), r.right);
      AltAgain(first, others, r.right);
      SameThrough(r, Alt(Alt(first, others), r.right), Alt(first, Alt(others, r.right)));
    } else {
      SameSelf(r);
    }
  }

  lemma BarsAgain(a: string, b: string, c: string)
    ensures (a + "|" + b) + "|" + c == a + "|" + (b + "|" + c)
  {
  }

  lemma SameSelf(r: Re)
    ensures Same(r, r)
  {
  }

  lemma SameThrough(a: Re, b: Re, c: Re)
    requires Same(a, b) && Same(b, c)
    ensures Same(a, c)
  {
    hide Matches;
  }

  lemma SameBack(a: Re, b: Re)
    requires Same(a, b)
    ensures Same(b, a)
  {
    hide Matches;
  }

  function FirstPiece(r: Re): Re {
    if !r.Cat? then r else if Print(r.left) == [] then FirstPiece(r.right) else FirstPiece(r.left)
  }

  function OtherPieces(r: Re): Re {
    if !r.Cat? then Empty else if Print(r.left) == [] then OtherPieces(r.right) else Cat(OtherPieces(r.left), r.right)
  }

  predicate IsPiece(r: Re) {
    !r.Alt? && !r.Cat? && !r.Empty?
  }

  lemma AfterNothing(left: Re, right: Re, r: Re)
    requires WellFormed(left) && Print(left) == [] && Same(right, r)
    ensures Same(Cat(left, right), r)
  {
    hide Same, Print, WellFormed;
    UnwrittenIsEmpty(left);
    SameSelf(right);
    SameCat(left, right, Empty, right);
    EmptyAround(right);
    SameThrough(Cat(left, right), Cat(Empty, right), right);
    SameThrough(Cat(left, right), right, r);
  }

  lemma BeforeMore(left: Re, right: Re, first: Re, others: Re)
    requires Same(left, Cat(first, others))
    ensures Same(Cat(left, right), Cat(first, Cat(others, right)))
  {
    hide Same;
    SameSelf(right);
    SameCat(left, right, Cat(first, others), right);
    CatAgain(first, others, right);
    SameThrough(Cat(left, right), Cat(Cat(first, others), right), Cat(first, Cat(others, right)));
  }

  lemma {:induction false} CatPieces(r: Re)
    requires WellFormed(r) && !r.Alt? && Print(r) != []
    ensures var first, others := FirstPiece(r), OtherPieces(r);
      && IsPiece(first) && WellFormed(first) && WellFormed(others) && !others.Alt?
      && Print(r) == Print(first) + Print(others)
  {
    hide GoodItems, GoodOpening, IsAtom, PrintOpening, PrintItems, PrintTimes;
    if r.Cat? {
      hide Print;
      CatText(r.left, r.right);
      if Print(r.left) == [] {
        CatPieces(r.right);
      } else {
        CatPieces(r.left);
        var first, others := FirstPiece(r.left), OtherPieces(r.left);
        CatText(others, r.right);
        assert (Print(first) + Print(others)) + Print(r.right) == Print(first) + (Print(others) + Print(r.right));
      }
    }
  }

  lemma {:induction false} CatMeans(r: Re)
    requires WellFormed(r) && !r.Alt?
    ensures Same(r, Cat(FirstPiece(r), OtherPieces(r)))
  {
    hide Same, Print;
    if r.Cat? {
      if Print(r.left) == [] {
        CatMeans(r.right);
        AfterNothing(r.left, r.right, Cat(FirstPiece(r.right), OtherPieces(r.right)));
      } else {
        CatMeans(r.left);
        BeforeMore(r.left, r.right, FirstPiece(r.left), OtherPieces(r.left));
      }
    } else {
      EmptyAround(r);
      SameBack(Cat(r, Empty), r);
    }
  }

  // ---- how pieces start ----

  const QUANTIFIERS := "*+?{"

  lemma {:induction false} PieceStart(r: Re)
    requires WellFormed(r) && IsPiece(r)
    ensures Print(r) != [] && Print(r)[0] !in QUANTIFIERS
  {
    hide PrintItems, PrintTimes, GoodItems, GoodOpening;
    match r
    case Chr(c, escaped) => assert forall d :: d in QUANTIFIERS ==> d in META && d != ']' && d != '}';
    case Quant(body, times, isLazy) =>
      PieceStart(body);
      assert Print(r)[0] == Print(body)[0];
    case Group(opening, body) => assert PrintOpening(opening)[0] == '(';
    case _ =>
  }

  lemma TreeStart(r: Re)
    requires WellFormed(r) && !r.Alt? && Print(r) != []
    ensures Print(r)[0] !in QUANTIFIERS
  {
    hide Print, WellFormed;
    CatPieces(r);
    PieceStart(FirstPiece(r));
  }

  // ---- classes ----

  lemma EndUnique(c: char, ce: bool, d: char, de: bool, x: string, y: string)
    requires (!ce ==> c != '\\') && (!de ==> d != '\\')
    requires PrintChar(c, ce) + x == PrintChar(d, de) + y
    ensures c == d && ce == de && x == y
  {
    var a, b := PrintChar(c, ce) + x, PrintChar(d, de) + y;
    assert a[0] == b[0];
    assert a[|PrintChar(c, ce)|..] == x && b[|PrintChar(d, de)|..] == y;
    if ce {
      assert a[1] == b[1];
    }
  }

  /** After one character of a class that is not a bare dash, a dash starts a span just when the class goes on behind it. */
  lemma DashAfterOne(items: seq<Item>, x: string)
    requires GoodItems(items, false, false)
    ensures var t := PrintItems(items) + ("]" + x);
      t[0] == '-' ==> |t| > 1 && t[1] == ']'
  {
    if items != [] {
      var item := items[0];
      var rest := PrintItems(items[1..]) + ("]" + x);
      assert PrintItems(items) + ("]" + x) == PrintItem(item) + rest;
      if item.One? && item.c == '-' && !item.escaped {
        assert |items| == 1 && items[1..] == [];
        assert rest == "]" + x;
      }
    }
  }

  /** The character an item starts with, and the rest of the item. */
  function FirstEnd(item: Item): (char, bool) {
    match item
    case One(c, escaped) => (c, escaped)
    case Span(lo, loEscaped, _, _) => (lo, loEscaped)
    case Short(kind) => (kind, true)
  }

  function AfterFirst(item: Item): string {
    if item.Span? then "-" + PrintChar(item.hi, item.hiEscaped) else ""
  }

  lemma ItemText(item: Item, x: string)
    ensures PrintItem(item) + x == PrintChar(FirstEnd(item).0, FirstEnd(item).1) + (AfterFirst(item) + x)
  {
    if !item.Span? {
      assert AfterFirst(item) + x == x;
    }
  }

  /** A dash behind the first character makes a span, unless the class ends behind it. */
  predicate GoesOn(x: string) {
    |x| > 1 && x[0] == '-' && x[1] != ']'
  }

  /** Which kind an item is can be told from its first character and what follows. */
  lemma ItemKind(item: Item, caret: bool, dash: bool, x: string)
    requires GoodItem(item, caret, dash)
    requires item.One? && item != One('-', false) && x != [] && x[0] == '-' ==> |x| > 1 && x[1] == ']'
    ensures var (c, escaped) := FirstEnd(item);
      && (!escaped ==> c != '\\')
      && (item.Short? <==> escaped && IsAlnum(c))
      && (item.Span? <==> !item.Short? && (c, escaped) != ('-', false) && GoesOn(AfterFirst(item) + x))
  {
    if item.Span? {
      assert (AfterFirst(item) + x)[1] == PrintChar(item.hi, item.hiEscaped)[0];
    } else {
      assert AfterFirst(item) + x == x;
    }
  }

  /** One item is read off the text of a class. */
  lemma ItemUnique(a: Item, b: Item, caret: bool, dash: bool, dash': bool, x: string, y: string)
    requires GoodItem(a, caret, dash) && GoodItem(b, caret, dash') && PrintItem(a) + x == PrintItem(b) + y
    requires a.One? && a != One('-', false) && x != [] && x[0] == '-' ==> |x| > 1 && x[1] == ']'
    requires b.One? && b != One('-', false) && y != [] && y[0] == '-' ==> |y| > 1 && y[1] == ']'
    ensures a == b && x == y
  {
    hide GoodItem, PrintItem;
    ItemText(a, x);
    ItemText(b, y);
    ItemKind(a, caret, dash, x);
    ItemKind(b, caret, dash', y);
    EndUnique(FirstEnd(a).0, FirstEnd(a).1, FirstEnd(b).0, FirstEnd(b).1, AfterFirst(a) + x, AfterFirst(b) + y);
    if a.Span? {
      SpanRest(a.hi, a.hiEscaped, x, b.hi, b.hiEscaped, y, caret, dash, dash', a, b);
    } else {
      assert AfterFirst(a) + x == x && AfterFirst(b) + y == y;
    }
  }

  lemma SpanRest(hi: char, he: bool, x: string, hi': char, he': bool, y: string, caret: bool, dash: bool, dash': bool, a: Item, b: Item)
    requires a.Span? && b.Span? && GoodItem(a, caret, dash) && GoodItem(b, caret, dash')
    requires hi == a.hi && he == a.hiEscaped && hi' == b.hi && he' == b.hiEscaped
    requires AfterFirst(a) + x == AfterFirst(b) + y
    ensures hi == hi' && he == he' && x == y
  {
    assert (AfterFirst(a) + x)[1..] == PrintChar(hi, he) + x;
    assert (AfterFirst(b) + y)[1..] == PrintChar(hi', he') + y;
    EndUnique(hi, he, hi', he', x, y);
  }

  lemma ItemsStart(items: seq<Item>, caret: bool, dash: bool, x: string)
    requires GoodItems(items, caret, dash)
    ensures var t := PrintItems(items) + ("]" + x);
      && (items == [] <==> t[0] == ']') && (items == [] ==> t == "]" + x) && (items != [] && caret ==> t[0] != '^')
      && (items != [] ==> t == PrintItem(items[0]) + (PrintItems(items[1..]) + ("]" + x)))
  {
  }

  lemma {:induction false} ItemsUnique(a: seq<Item>, b: seq<Item>, caret: bool, dash: bool, x: string, y: string)
    requires GoodItems(a, caret, dash) && GoodItems(b, caret, dash)
    requires PrintItems(a) + ("]" + x) == PrintItems(b) + ("]" + y)
    ensures a == b && x == y
  {
    hide GoodItem, PrintItem, PrintItems;
    ItemsStart(a, caret, dash, x);
    ItemsStart(b, caret, dash, y);
    if a == [] {
      assert ("]" + x)[1..] == x && ("]" + y)[1..] == y;
    } else {
      if a[0].One? {
        DashAfterOne(a[1..], x);
      }
      if b[0].One? {
        DashAfterOne(b[1..], y);
      }
      ItemUnique(a[0], b[0], caret, dash || |a| == 1, dash || |b| == 1, PrintItems(a[1..]) + ("]" + x), PrintItems(b[1..]) + ("]" + y));
      ItemsUnique(a[1..], b[1..], false, !a[0].One?, x, y);
      assert a == [a[0]] + a[1..] && b == [b[0]] + b[1..];
    }
  }

  lemma SetText(neg: bool, items: seq<Item>, x: string)
    requires items != [] && GoodItems(items, !neg, true)
    ensures var t, inner := Print(Set(neg, items)) + x, PrintItems(items) + ("]" + x);
      && |t| > 1 && t[0] == '[' && (neg <==> t[1] == '^') && (if neg then t[2..] == inner else t[1..] == inner)
  {
    hide GoodItems, PrintItems;
    ItemsStart(items, !neg, true, x);
    var inner := PrintItems(items) + ("]" + x);
    var t := Print(Set(neg, items)) + x;
    if neg {
      assert t == "[^" + inner;
    } else {
      assert t == "[" + inner;
    }
  }

  lemma SetUnique(neg: bool, a: seq<Item>, neg': bool, b: seq<Item>, x: string, y: string)
    requires a != [] && b != [] && GoodItems(a, !neg, true) && GoodItems(b, !neg', true)
    requires Print(Set(neg, a)) + x == Print(Set(neg', b)) + y
    ensures neg == neg' && a == b && x == y
  {
    hide GoodItems, PrintItems, Print;
    SetText(neg, a, x);
    SetText(neg', b, y);
    ItemsUnique(a, b, !neg, true, x, y);
  }

  // ---- groups ----

  lemma OpeningUnique(a: Opening, b: Opening, x: string, y: string)
    requires GoodOpening(a) && GoodOpening(b)
    requires PrintOpening(a) + x == PrintOpening(b) + y
    requires x != [] && x[0] !in QUANTIFIERS && y != [] && y[0] !in QUANTIFIERS
    ensures a == b && x == y
  {
    OpeningRead(a, x);
    OpeningRead(b, y);
    var t, u := PrintOpening(a) + x, PrintOpening(b) + y;
    if a.Labelled? {
      NameUnique(a.name, b.name, x, y);
    }
    assert t[|PrintOpening(a)|..] == x && u[|PrintOpening(b)|..] == y;
  }

  predicate LooksAs(t: string, behind: bool, neg: bool) {
    var mark := if behind then 3 else 2;
    && |t| > 3 && (behind <==> t[2] == '<')
    && t[mark] in "!=" && (neg <==> t[mark] == '!')
  }

  /** How a group opens can be told from the characters behind its parenthesis. */
  lemma OpeningRead(opening: Opening, x: string)
    requires GoodOpening(opening) && x != [] && x[0] !in QUANTIFIERS
    ensures var t := PrintOpening(opening) + x;
      && (opening.Numbered? <==> |t| < 2 || t[1] != '?')
      && (opening.Unnumbered? <==> |t| > 2 && t[1] == '?' && t[2] == ':')
      && (opening.Look? ==> LooksAs(t, opening.behind, opening.neg))
      && (opening.Labelled? ==> |t| > 3 && t[2] == '<' && t[3] !in "!=" && t[3..] == opening.name + (">" + x))
  {
    match opening
    case Numbered => assert PrintOpening(opening) + x == "(" + x; assert '?' in QUANTIFIERS; assert ("(" + x)[1..] == x;
    case Unnumbered => assert PrintOpening(opening) + x == "(?:" + x;
    case Labelled(name) =>
      assert PrintOpening(opening) + x == "(?<" + (name + (">" + x));
      assert IsWord(name[0]) || name[0] == '$';
      assert (PrintOpening(opening) + x)[3] == name[0];
    case Look(behind, neg) =>
      assert PrintOpening(opening) == "(?" + (if behind then "<" else "") + (if neg then "!" else "=");
      assert behind ==> PrintOpening(opening) == "(?<" + (if neg then "!" else "=");
      assert !behind ==> PrintOpening(opening) == "(?" + (if neg then "!" else "=");
  }

  lemma {:induction false} NameUnique(a: string, b: string, x: string, y: string)
    requires '>' !in a && '>' !in b && a + (">" + x) == b + (">" + y)
    ensures a == b && x == y
  {
    var t := a + (">" + x);
    assert t[|a|] == '>' && t[|b|] == '>';
    assert forall k | 0 <= k < |a| :: t[k] == a[k] && a[k] in a;
    assert forall k | 0 <= k < |b| :: t[k] == b[k] && b[k] in b;
    assert |a| == |b|;
    assert t[..|a|] == a && t[..|b|] == b;
    assert t[|a| + 1..] == x && t[|b| + 1..] == y;
  }

  lemma BodyUnique(a: Re, b: Re, x: string, y: string)
    requires WellFormed(a) && WellFormed(b) && Print(a) + (")" + x) == Print(b) + (")" + y)
    ensures Print(a) == Print(b) && x == y
  {
    hide Print, WellFormed;
    ScanOfTree(a, ")" + x, 0, ')');
    ScanOfTree(b, ")" + y, 0, ')');
    var t := Print(a) + (")" + x);
    assert t[..|Print(a)|] == Print(a) && t[|Print(a)| + 1..] == x;
    assert (Print(b) + (")" + y))[..|Print(b)|] == Print(b) && (Print(b) + (")" + y))[|Print(b)| + 1..] == y;
  }

  // ---- quantifiers ----

  /** What a quantifier follows, and what it is written as. */
  function Core(r: Re): Re {
    if r.Quant? then r.body else r
  }

  function Tail(r: Re): string {
    if r.Quant? then PrintTimes(r.times) + (if r.isLazy then "?" else "") else ""
  }

  lemma PieceText(r: Re, x: string)
    requires WellFormed(r) && IsPiece(r)
    ensures Print(r) + x == Print(Core(r)) + (Tail(r) + x)
    ensures WellFormed(Core(r)) && IsPiece(Core(r)) && !Core(r).Quant?
  {
    hide PrintTimes;
    if r.Quant? {
      assert Print(r) == (Print(r.body) + PrintTimes(r.times)) + (if r.isLazy then "?" else "");
    } else {
      assert Tail(r) + x == x;
    }
  }

  lemma DigitsUnique(m: nat, n: nat, x: string, y: string)
    requires x != [] && y != [] && !IsDigit(x[0]) && !IsDigit(y[0]) && Dec(m) + x == Dec(n) + y
    ensures m == n && x == y
  {
    hide Dec;
    var t := Dec(m) + x;
    assert t[|Dec(m)|] == x[0] && (Dec(n) + y)[|Dec(n)|] == y[0];
    assert forall k | 0 <= k < |Dec(m)| :: t[k] == Dec(m)[k] && IsDigit(t[k]);
    assert forall k | 0 <= k < |Dec(n)| :: t[k] == Dec(n)[k] && IsDigit(t[k]);
    assert |Dec(m)| == |Dec(n)|;
    assert t[..|Dec(m)|] == Dec(m) && t[..|Dec(n)|] == Dec(n);
    assert t[|Dec(m)|..] == x && (Dec(n) + y)[|Dec(n)|..] == y;
    DecInjective(m, n);
  }

  /** A bounded count starts with a number; what follows the number tells which kind it is. */
  function CountStart(times: Times): nat
    requires times.Exactly? || times.AtLeast? || times.Between?
  {
    match times
    case Exactly(n) => n
    case AtLeast(n) => n
    case Between(lo, _) => lo
  }

  function CountRest(times: Times): string
    requires times.Exactly? || times.AtLeast? || times.Between?
  {
    match times
    case Exactly(_) => "}"
    case AtLeast(_) => ",}"
    case Between(_, hi) => "," + (Dec(hi) + "}")
  }

  lemma CountForm(times: Times)
    requires times.Exactly? || times.AtLeast? || times.Between?
    ensures PrintTimes(times) == "{" + (Dec(CountStart(times)) + CountRest(times))
  {
    hide Dec;
  }

  lemma CountRestRead(times: Times, x: string)
    requires times.Exactly? || times.AtLeast? || times.Between?
    ensures var rest := CountRest(times) + x;
      && |rest| > 0 && !IsDigit(rest[0]) && (times.Exactly? <==> rest[0] == '}')
      && (times.Exactly? ==> rest[1..] == x)
      && (!times.Exactly? ==> |rest| > 1 && (times.AtLeast? <==> rest[1] == '}'))
      && (times.AtLeast? ==> rest[2..] == x)
      && (times.Between? ==> rest[1..] == Dec(times.hi) + ("}" + x))
  {
    hide Dec;
    match times
    case Exactly(_) =>
    case AtLeast(_) =>
    case Between(_, hi) =>
      assert CountRest(times) + x == "," + (Dec(hi) + ("}" + x));
      assert IsDigit(Dec(hi)[0]);
  }

  lemma CountText(times: Times, x: string)
    requires times.Exactly? || times.AtLeast? || times.Between?
    ensures (PrintTimes(times) + x)[1..] == Dec(CountStart(times)) + (CountRest(times) + x)
  {
    hide Dec, PrintTimes, CountRest, CountStart;
    CountForm(times);
    var head, rest := Dec(CountStart(times)), CountRest(times);
    assert ("{" + (head + rest)) + x == "{" + (head + (rest + x));
  }

  lemma TimesUnique(a: Times, b: Times, x: string, y: string)
    requires PrintTimes(a) + x == PrintTimes(b) + y
    ensures a == b && x == y
  {
    hide Dec, PrintTimes, CountRest;
    TimesStart(a, x);
    TimesStart(b, y);
    if a.Exactly? || a.AtLeast? || a.Between? {
      CountText(a, x);
      CountText(b, y);
      CountRestRead(a, x);
      CountRestRead(b, y);
      DigitsUnique(CountStart(a), CountStart(b), CountRest(a) + x, CountRest(b) + y);
      if a.Between? {
        DigitsUnique(a.hi, b.hi, "}" + x, "}" + y);
        assert ("}" + x)[1..] == x && ("}" + y)[1..] == y;
      }
    }
  }

  lemma TimesStart(times: Times, x: string)
    ensures var t := PrintTimes(times) + x;
      && t != [] && t[0] in QUANTIFIERS
      && (times.Star? <==> t[0] == '*') && (times.Plus? <==> t[0] == '+') && (times.Opt? <==> t[0] == '?')
      && (times.Star? || times.Plus? || times.Opt? ==> t[1..] == x)
  {
    hide Dec;
  }

  /** The quantifier of a piece, or none, is read off what follows its core. */
  lemma TailUnique(a: Re, b: Re, x: string, y: string)
    requires Tail(a) + x == Tail(b) + y
    requires (x != [] ==> x[0] !in QUANTIFIERS) && (y != [] ==> y[0] !in QUANTIFIERS)
    ensures a.Quant? == b.Quant? && (a.Quant? ==> a.times == b.times && a.isLazy == b.isLazy) && x == y
  {
    hide PrintTimes;
    TailText(a, x);
    TailText(b, y);
    if a.Quant? {
      var lazyA, lazyB := (if a.isLazy then "?" else "") + x, (if b.isLazy then "?" else "") + y;
      TimesUnique(a.times, b.times, lazyA, lazyB);
      assert '?' in QUANTIFIERS;
      assert a.isLazy ==> lazyA[0] == '?' && lazyA[1..] == x;
      assert b.isLazy ==> lazyB[0] == '?' && lazyB[1..] == y;
      assert !a.isLazy ==> lazyA == x;
      assert !b.isLazy ==> lazyB == y;
    } else {
      assert "" + x == x && "" + y == y;
    }
  }

  lemma TailText(r: Re, x: string)
    requires x != [] ==> x[0] !in QUANTIFIERS
    ensures var t := Tail(r) + x;
      && (r.Quant? <==> t != [] && t[0] in QUANTIFIERS)
      && (r.Quant? ==> t == PrintTimes(r.times) + ((if r.isLazy then "?" else "") + x))
  {
    hide PrintTimes;
    if r.Quant? {
      assert Tail(r) + x == PrintTimes(r.times) + ((if r.isLazy then "?" else "") + x);
      TimesStart(r.times, (if r.isLazy then "?" else "") + x);
    } else {
      assert Tail(r) + x == x;
    }
  }

  // ---- the theorem ----

  /** Alike but for what a group holds, whose text is the same. */
  predicate AreAlike(a: Re, b: Re) {
    a == b || (a.Group? && b.Group? && a.opening == b.opening && Print(a.body) == Print(b.body))
  }

  /** A piece is one written with a backslash, a class, a group, or one character of its own. */
  predicate IsEscape(r: Re) {
    r.Shorthand? || r.Edge? || (r.Chr? && r.escaped)
  }

  /** The escape whose letter is `c`. */
  function EscapeOf(c: char): Re {
    if IsShorthand(c) then Shorthand(c) else if c == 'b' || c == 'B' then Edge(c == 'B') else Chr(c, true)
  }

  /** The piece that is one character. */
  function SingleOf(c: char): Re {
    if c == '.' then Any else if c == '^' then Bol else if c == '$' then Eol else Chr(c, false)
  }

  lemma EscapeRead(r: Re, x: string)
    requires WellFormed(r) && IsEscape(r)
    ensures var t := Print(r) + x; |t| > 1 && t[0] == '\\' && r == EscapeOf(t[1]) && t[2..] == x
  {
    assert forall k :: IsShorthand(k) || k == 'b' || k == 'B' ==> IsAlnum(k);
    assert |Print(r)| == 2;
  }

  lemma SingleRead(r: Re, x: string)
    requires WellFormed(r) && IsPiece(r) && !r.Quant? && !IsEscape(r) && !r.Set? && !r.Group?
    ensures var t := Print(r) + x; t != [] && t[0] !in "\\[(" && r == SingleOf(t[0]) && t[1..] == x
  {
    assert '\\' in META && '[' in META && '(' in META && '.' in META && '^' in META && '$' in META;
    assert |Print(r)| == 1;
  }

  /** The kind of a piece is told by its first character. */
  lemma KindRead(r: Re, x: string)
    requires WellFormed(r) && IsPiece(r) && !r.Quant?
    ensures var t := Print(r) + x;
      t != [] && (r.Set? <==> t[0] == '[') && (r.Group? <==> t[0] == '(') && (IsEscape(r) <==> t[0] == '\\')
  {
    hide Print, WellFormed, IsPiece, IsEscape;
    if IsEscape(r) {
      EscapeRead(r, x);
      EscapeIsNeither(r);
    } else if r.Set? || r.Group? {
      BracketRead(r, x);
    } else {
      SingleRead(r, x);
    }
  }

  lemma EscapeIsNeither(r: Re)
    requires IsEscape(r)
    ensures !r.Set? && !r.Group?
  {
  }

  lemma BracketRead(r: Re, x: string)
    requires r.Set? || r.Group?
    ensures var t := Print(r) + x; t != [] && t[0] == if r.Set? then '[' else '('
  {
    hide PrintItems;
    if r.Group? {
      assert PrintOpening(r.opening)[0] == '(';
    }
  }

  lemma AnyStart(r: Re)
    requires WellFormed(r) && Print(r) != []
    ensures Print(r)[0] !in QUANTIFIERS
  {
    if r.Alt? {
      hide Print, Same;
      AltParts(r);
      var first := FirstBranch(r);
      if Print(first) == [] {
        assert Print(r)[0] == '|' && '|' !in QUANTIFIERS;
      } else {
        TreeStart(first);
      }
    } else {
      TreeStart(r);
    }
  }

  lemma GroupUnique(a: Re, b: Re, x: string, y: string)
    requires a.Group? && b.Group? && WellFormed(a) && WellFormed(b) && Print(a) + x == Print(b) + y
    ensures a.opening == b.opening && Print(a.body) == Print(b.body) && x == y
  {
    hide PrintOpening, GoodOpening;
    var inA, inB := Print(a.body) + (")" + x), Print(b.body) + (")" + y);
    assert Print(a) + x == PrintOpening(a.opening) + inA;
    assert Print(b) + y == PrintOpening(b.opening) + inB;
    assert ')' !in QUANTIFIERS;
    if Print(a.body) != [] {
      AnyStart(a.body);
    }
    if Print(b.body) != [] {
      AnyStart(b.body);
    }
    OpeningUnique(a.opening, b.opening, inA, inB);
    BodyUnique(a.body, b.body, x, y);
  }

  lemma SetIsGood(r: Re)
    requires r.Set? && WellFormed(r)
    ensures r.items != [] && GoodItems(r.items, !r.neg, true)
  {
  }

  lemma CoreUnique(a: Re, b: Re, x: string, y: string)
    requires WellFormed(a) && WellFormed(b) && IsPiece(a) && IsPiece(b) && !a.Quant? && !b.Quant?
    requires Print(a) + x == Print(b) + y
    ensures AreAlike(a, b) && x == y
  {
    hide Print, WellFormed, IsPiece, IsEscape;
    KindRead(a, x);
    KindRead(b, y);
    if a.Group? {
      GroupUnique(a, b, x, y);
    } else if a.Set? {
      SetIsGood(a);
      SetIsGood(b);
      SetUnique(a.neg, a.items, b.neg, b.items, x, y);
    } else if IsEscape(a) {
      EscapeRead(a, x);
      EscapeRead(b, y);
    } else {
      SingleRead(a, x);
      SingleRead(b, y);
    }
  }

  lemma BranchIsWhole(a: Re, b: Re, x: string, y: string)
    requires WellFormed(a) && !a.Alt? && WellFormed(b) && !b.Alt?
    requires Print(a) + ("|" + x) == Print(b) + ("|" + y)
    ensures Print(a) == Print(b) && x == y
  {
    hide Print, WellFormed;
    ScanOfTree(a, "|" + x, 0, '|');
    ScanOfTree(b, "|" + y, 0, '|');
    ScanOfBar(x, 0, '|');
    ScanOfBar(y, 0, '|');
    var t := Print(a) + ("|" + x);
    assert t[..|Print(a)|] == Print(a) && t[|Print(a)| + 1..] == x;
    assert (Print(b) + ("|" + y))[..|Print(b)|] == Print(b) && (Print(b) + ("|" + y))[|Print(b)| + 1..] == y;
  }

  /** The first pieces of two texts that are one. */
  lemma PiecesAlike(a: Re, b: Re)
    requires WellFormed(a) && !a.Alt? && WellFormed(b) && !b.Alt? && Print(a) == Print(b) != []
    ensures var p, q := FirstPiece(a), FirstPiece(b);
      && AreAlike(Core(p), Core(q)) && p.Quant? == q.Quant?
      && (p.Quant? ==> p.times == q.times && p.isLazy == q.isLazy)
      && Print(OtherPieces(a)) == Print(OtherPieces(b))
  {
    hide Print, WellFormed, FirstPiece, OtherPieces, Core, Tail, AreAlike, IsPiece;
    CatPieces(a);
    CatPieces(b);
    var p, q, x, y := FirstPiece(a), FirstPiece(b), Print(OtherPieces(a)), Print(OtherPieces(b));
    PieceText(p, x);
    PieceText(q, y);
    CoreUnique(Core(p), Core(q), Tail(p) + x, Tail(q) + y);
    if x != [] {
      TreeStart(OtherPieces(a));
    }
    if y != [] {
      TreeStart(OtherPieces(b));
    }
    TailUnique(p, q, x, y);
  }

  lemma WholePiece(p: Re, q: Re)
    requires Same(Core(p), Core(q)) && p.Quant? == q.Quant? && (p.Quant? ==> p.times == q.times && p.isLazy == q.isLazy)
    ensures Same(p, q)
  {
    hide Same;
    if p.Quant? {
      SameQuant(p.body, q.body, p.times, p.isLazy);
    }
  }

  lemma FirstIsShorter(a: Re)
    requires WellFormed(a) && !a.Alt? && Print(a) != []
    ensures |Print(OtherPieces(a))| < |Print(a)| && WellFormed(OtherPieces(a)) && !OtherPieces(a).Alt?
    ensures WellFormed(Core(FirstPiece(a)))
    ensures var core := Core(FirstPiece(a)); core.Group? ==> |Print(core.body)| < |Print(a)| && WellFormed(core.body)
  {
    hide FirstPiece, OtherPieces, PrintItems, PrintTimes, PrintOpening;
    CatPieces(a);
    var p := FirstPiece(a);
    PieceStart(p);
    PieceText(p, []);
    assert Print(p) + [] == Print(p) && Tail(p) + [] == Tail(p);
  }

  /** Trees written alike match alike. */
  lemma {:induction false} SameTextSameMeaning(a: Re, b: Re)
    requires WellFormed(a) && WellFormed(b) && Print(a) == Print(b)
    ensures Same(a, b)
    decreases |Print(a)|
  {
    hide Same, Print, WellFormed, FirstPiece, OtherPieces, Core, FirstBranch, OtherBranches, BarFrom;
    AlternationIsAtTheRoot(a);
    AlternationIsAtTheRoot(b);
    if a.Alt? {
      AltParts(a);
      AltParts(b);
      var f, o, f', o' := FirstBranch(a), OtherBranches(a), FirstBranch(b), OtherBranches(b);
      assert Print(a) == Print(f) + ("|" + Print(o)) && Print(b) == Print(f') + ("|" + Print(o'));
      BranchIsWhole(f, f', Print(o), Print(o'));
      SameTextSameMeaning(f, f');
      SameTextSameMeaning(o, o');
      SameAlt(f, o, f', o');
      SameThrough(a, Alt(f, o), Alt(f', o'));
      SameBack(b, Alt(f', o'));
      SameThrough(a, Alt(f', o'), b);
    } else if Print(a) == [] {
      UnwrittenIsEmpty(a);
      UnwrittenIsEmpty(b);
      SameBack(b, Empty);
      SameThrough(a, Empty, b);
    } else {
      PiecesAlike(a, b);
      FirstIsShorter(a);
      FirstIsShorter(b);
      var p, q, x, y := FirstPiece(a), FirstPiece(b), OtherPieces(a), OtherPieces(b);
      if Core(p) == Core(q) {
        SameSelf(Core(p));
      } else {
        SameTextSameMeaning(Core(p).body, Core(q).body);
        SameGroup(Core(p).opening, Core(p).body, Core(q).body);
      }
      WholePiece(p, q);
      SameTextSameMeaning(x, y);
      SameCat(p, x, q, y);
      CatMeans(a);
      CatMeans(b);
      SameThrough(a, Cat(p, x), Cat(q, y));
      SameBack(b, Cat(q, y));
      SameThrough(a, Cat(q, y), b);
    }
  }

  // ---- an engine can be asked for texts ----

  /** The engine that looks for a tree the pattern could have been written from. */
  ghost predicate FindsAny(pattern: string, s: string, icase: bool) {
    exists r :: WellFormed(r) && Print(r) == pattern && Finds(r, s, icase)
  }

  lemma SameFinds(a: Re, b: Re, s: string, icase: bool)
    requires Same(a, b)
    ensures Finds(a, s, icase) <==> Finds(b, s, icase)
  {
    hide Matches;
  }

  /** It reads every tree, so what is asked of an engine can be met. */
  lemma SomeEngineReadsTrees()
    ensures exists engine :: ReadsTrees(engine)
  {
    hide WellFormed, IsPortable, Print, Finds, Same, OneLine;
    var engine: Engine := (p, s, icase) => FindsAny(p, s, icase);
    forall r: Re, s: string, icase: bool | WellFormed(r) && IsPortable(r) && OneLine(s)
      ensures engine(Print(r), s, icase) <==> Finds(r, s, icase)
    {
      if FindsAny(Print(r), s, icase) {
        var q :| WellFormed(q) && Print(q) == Print(r) && Finds(q, s, icase);
        SameTextSameMeaning(q, r);
        SameFinds(q, r, s, icase);
      }
    }
    assert ReadsTrees(engine);
  }
}
