/**
 * Canonical dotted addresses, and the expression that recognizes them (src/core/lib/acl/ipv4.ts).
 * Whatever it matches is used as a destination unresolved, so it must match nothing else.
 */
module Ipv4 {
  import opened Decimal
  import opened Regex
  import opened Cidr

  /** A number below 256 in decimal, without a leading zero. */
  predicate IsOctetText(s: string) {
    s != [] && AllDigits(s) && |s| <= 3 && (|s| > 1 ==> s[0] != '0') && Value(s) < 256
  }

  function FirstDotIn(s: string): (k: nat)
    ensures k <= |s|
  {
    if s == [] || s[0] == '.' then 0 else 1 + FirstDotIn(s[1..])
  }

  /** `n` octets, dots between them. */
  predicate IsOctets(s: string, n: nat)
    requires n > 0
  {
    if n == 1 then IsOctetText(s)
    else
      var k := FirstDotIn(s);
      k < |s| && IsOctetText(s[..k]) && IsOctets(s[k + 1..], n - 1)
  }

  predicate IsAddress(s: string) {
    IsOctets(s, 4)
  }

  // ---- the expression ----

  function Range(lo: char, hi: char): Re {
    Set(false, [Span(lo, false, hi, false)])
  }

  function Plain(c: char): Re { Chr(c, false) }

  /** `(25[0-5]|2[0-4][0-9]|1[0-9]{2}|[1-9]?[0-9])` */
  const OCTET := Group(Numbered, Alt(
    Cat(Plain('2'), Cat(Plain('5'), Range('0', '5'))), Alt(
    Cat(Plain('2'), Cat(Range('0', '4'), Range('0', '9'))), Alt(
    Cat(Plain('1'), Quant(Range('0', '9'), Exactly(2), false)),
    Cat(Quant(Range('1', '9'), Opt, false), Range('0', '9'))))))

  function OctetsTree(n: nat): Re
    requires n > 0
  {
    if n == 1 then OCTET else Cat(OCTET, Cat(DOT, OctetsTree(n - 1)))
  }

  // ---- single characters ----

  predicate InRange(c: char, lo: char, hi: char) { lo <= c <= hi }

  lemma RangeCovers(lo: char, hi: char, s: string)
    ensures Covers(Range(lo, hi), s, false) <==> |s| == 1 && InRange(s[0], lo, hi)
  {
    if |s| == 1 {
      assert InItem(Range(lo, hi).items[0], s[0]) <==> InRange(s[0], lo, hi);
    }
  }

  /** The tree takes exactly one character. */
  ghost predicate TakesOne(r: Re) {
    AnchorFree(r) && forall s: string :: Covers(r, s, false) ==> |s| == 1
  }

  lemma OneThen(r: Re, rest: Re, s: string)
    requires TakesOne(r) && AnchorFree(rest)
    ensures Covers(Cat(r, rest), s, false) <==> s != [] && Covers(r, s[..1], false) && Covers(rest, s[1..], false)
  {
    hide Matches, AnchorFree;
    CatCovers(r, rest, s, false);
    if k: nat :| SplitCovers(r, rest, s, k, false) {
      assert |s[..k]| == 1;
    }
    if s != [] && Covers(r, s[..1], false) && Covers(rest, s[1..], false) {
      assert SplitCovers(r, rest, s, 1, false);
    }
  }

  lemma RangeTakesOne(lo: char, hi: char)
    ensures TakesOne(Range(lo, hi))
  {
    hide Matches;
    forall s: string ensures Covers(Range(lo, hi), s, false) ==> |s| == 1 {
      RangeCovers(lo, hi, s);
    }
  }

  lemma PlainTakesOne(c: char)
    ensures TakesOne(Plain(c))
  {
    hide Matches;
    forall s: string ensures Covers(Plain(c), s, false) ==> |s| == 1 {
      ChrCovers(c, false, s, false);
    }
  }

  lemma RangePair(lo: char, hi: char, lo': char, hi': char, s: string)
    ensures Covers(Cat(Range(lo, hi), Range(lo', hi')), s, false)
       <==> |s| == 2 && InRange(s[0], lo, hi) && InRange(s[1], lo', hi')
  {
    hide Matches, Range;
    RangeTakesOne(lo, hi);
    RangeTakesOne(lo', hi');
    OneThen(Range(lo, hi), Range(lo', hi'), s);
    if s != [] {
      RangeCovers(lo, hi, s[..1]);
      RangeCovers(lo', hi', s[1..]);
    }
  }

  lemma PlainThen(c: char, rest: Re, s: string)
    requires AnchorFree(rest)
    ensures Covers(Cat(Plain(c), rest), s, false) <==> s != [] && s[0] == c && Covers(rest, s[1..], false)
  {
    hide Matches, AnchorFree;
    PlainTakesOne(c);
    OneThen(Plain(c), rest, s);
    if s != [] {
      assert Plain(c) == Chr(c, false);
      ChrCovers(c, false, s[..1], false);
    }
  }

  lemma RangeAt(lo: char, hi: char, s: string, i: nat, j: nat)
    requires i <= j <= |s|
    ensures Matches(Range(lo, hi), s, i, j, false) <==> j == i + 1 && InRange(s[i], lo, hi)
  {
    RangeTakesOne(lo, hi);
    MatchesSlice(Range(lo, hi), s, i, j, false);
    RangeCovers(lo, hi, s[i..j]);
  }

  lemma TwoDigits(s: string)
    ensures Covers(Quant(Range('0', '9'), Exactly(2), false), s, false) <==> |s| == 2 && AllDigits(s)
  {
    hide Matches, Repeats;
    var r := Range('0', '9');
    QuantMatches(r, Exactly(2), false, s, 0, |s|, false);
    assert DIGIT == r;
    assert s[0..] == s;
    DigitRun(2, s, 0, false);
    assert InTimes(Exactly(2), 2);
  }

  lemma MaybeThen(s: string)
    ensures Covers(Cat(Quant(Range('1', '9'), Opt, false), Range('0', '9')), s, false) <==>
      (|s| == 1 && InRange(s[0], '0', '9')) || (|s| == 2 && InRange(s[0], '1', '9') && InRange(s[1], '0', '9'))
  {
    hide Matches, Repeats;
    var head, last := Range('1', '9'), Range('0', '9');
    var opt := Quant(head, Opt, false);
    CatCovers(opt, last, s, false);
    forall t: string ensures Covers(opt, t, false) <==> t == [] || (|t| == 1 && InRange(t[0], '1', '9')) {
      OptCovers(t);
    }
    forall k: nat | k <= |s|
      ensures SplitCovers(opt, last, s, k, false) <==>
        (k == 0 && |s| == 1 && InRange(s[0], '0', '9')) ||
        (k == 1 && |s| == 2 && InRange(s[0], '1', '9') && InRange(s[1], '0', '9'))
    {
      RangeCovers('0', '9', s[k..]);
    }
    if |s| == 1 && InRange(s[0], '0', '9') {
      assert SplitCovers(opt, last, s, 0, false);
    }
    if |s| == 2 && InRange(s[0], '1', '9') && InRange(s[1], '0', '9') {
      assert SplitCovers(opt, last, s, 1, false);
    }
  }

  lemma OptCovers(t: string)
    ensures Covers(Quant(Range('1', '9'), Opt, false), t, false) <==> t == [] || (|t| == 1 && InRange(t[0], '1', '9'))
  {
    hide Matches;
    var head := Range('1', '9');
    QuantMatches(head, Opt, false, t, 0, |t|, false);
    if n: nat :| InTimes(Opt, n) && Repeats(head, n, t, 0, |t|, false) {
      if n == 1 {
        var k := RepeatsFirst(head, 1, t, 0, |t|, false);
        RangeAt('1', '9', t, 0, k);
      }
    }
    if t == [] {
      assert InTimes(Opt, 0) && Repeats(head, 0, t, 0, |t|, false);
    }
    if |t| == 1 && InRange(t[0], '1', '9') {
      RangeAt('1', '9', t, 0, 1);
      assert Repeats(head, 0, t, 1, 1, false);
      RepeatsMore(head, 1, t, 0, 1, 1, false);
      assert InTimes(Opt, 1) && Repeats(head, 1, t, 0, |t|, false);
    }
  }

  // ---- one octet ----

  lemma ValueOfThree(s: string)
    requires AllDigits(s) && 1 <= |s| <= 3
    ensures Value(s) == if |s| == 1 then s[0] as int - 48
      else if |s| == 2 then 10 * (s[0] as int - 48) + (s[1] as int - 48)
      else 100 * (s[0] as int - 48) + 10 * (s[1] as int - 48) + (s[2] as int - 48)
  {
    assert '0' as int == 48;
    assert Value([]) == 0;
    var a := s[..|s| - 1];
    if |s| == 1 {
      assert a == [];
    } else {
      var b := a[..|a| - 1];
      if |s| == 2 {
        assert b == [];
      } else {
        assert b[..|b| - 1] == [];
      }
    }
  }

  lemma OctetTextByShape(s: string)
    ensures IsOctetText(s) <==>
      || (|s| == 1 && InRange(s[0], '0', '9'))
      || (|s| == 2 && InRange(s[0], '1', '9') && InRange(s[1], '0', '9'))
      || (|s| == 3 && s[0] == '1' && InRange(s[1], '0', '9') && InRange(s[2], '0', '9'))
      || (|s| == 3 && s[0] == '2' && InRange(s[1], '0', '4') && InRange(s[2], '0', '9'))
      || (|s| == 3 && s[0] == '2' && s[1] == '5' && InRange(s[2], '0', '5'))
  {
    hide Value;
    if 1 <= |s| <= 3 && AllDigits(s) {
      ValueOfThree(s);
      assert forall k | 0 <= k < |s| :: 48 <= s[k] as int <= 57;
    }
  }

  lemma OctetTreeCovers(s: string)
    ensures Covers(OCTET, s, false) <==> IsOctetText(s)
  {
    hide Matches, IsOctetText;
    OctetTextByShape(s);
    OctetTreeByShape(s);
  }

  lemma OctetTreeByShape(s: string)
    ensures Covers(OCTET, s, false) <==>
      || (|s| == 1 && InRange(s[0], '0', '9'))
      || (|s| == 2 && InRange(s[0], '1', '9') && InRange(s[1], '0', '9'))
      || (|s| == 3 && s[0] == '1' && InRange(s[1], '0', '9') && InRange(s[2], '0', '9'))
      || (|s| == 3 && s[0] == '2' && InRange(s[1], '0', '4') && InRange(s[2], '0', '9'))
      || (|s| == 3 && s[0] == '2' && s[1] == '5' && InRange(s[2], '0', '5'))
  {
    hide Matches, Range, Plain;
    var a := Cat(Plain('2'), Cat(Plain('5'), Range('0', '5')));
    var b := Cat(Plain('2'), Cat(Range('0', '4'), Range('0', '9')));
    var c := Cat(Plain('1'), Quant(Range('0', '9'), Exactly(2), false));
    var d := Cat(Quant(Range('1', '9'), Opt, false), Range('0', '9'));
    GroupMatches(Numbered, Alt(a, Alt(b, Alt(c, d))), s, 0, |s|, false);
    AltMatches(a, Alt(b, Alt(c, d)), s, 0, |s|, false);
    AltMatches(b, Alt(c, d), s, 0, |s|, false);
    AltMatches(c, d, s, 0, |s|, false);
    RangeTakesOne('0', '5');
    RangeTakesOne('0', '4');
    RangeTakesOne('0', '9');
    PlainTakesOne('5');
    PlainThen('2', Cat(Plain('5'), Range('0', '5')), s);
    PlainThen('2', Cat(Range('0', '4'), Range('0', '9')), s);
    PlainThen('1', Quant(Range('0', '9'), Exactly(2), false), s);
    MaybeThen(s);
    if s != [] {
      var t := s[1..];
      PlainThen('5', Range('0', '5'), t);
      RangePair('0', '4', '0', '9', t);
      TwoDigits(t);
      if t != [] {
        RangeCovers('0', '5', t[1..]);
      }
    }
  }

  // ---- the whole address ----

  lemma OctetShape()
    ensures AnchorFree(OCTET) && CoversOnlyDigits(OCTET, false)
  {
    hide Matches, Value;
    forall s: string | Covers(OCTET, s, false) ensures AllDigits(s) {
      hide OCTET;
      OctetTreeCovers(s);
    }
  }

  lemma OctetsShape(n: nat)
    requires n > 0
    ensures AnchorFree(OctetsTree(n)) && AnchorFree(OCTET) && CoversOnlyDigits(OCTET, false)
  {
    hide Matches, Value;
    OctetShape();
    hide OCTET;
    if n > 1 {
      OctetsShape(n - 1);
      assert AnchorFree(Cat(DOT, OctetsTree(n - 1)));
    }
  }

  lemma {:induction false} FirstDotSplits(s: string)
    ensures var k := FirstDotIn(s); (forall j | 0 <= j < k :: s[j] != '.') && (k < |s| ==> s[k] == '.')
  {
    if s != [] && s[0] != '.' {
      FirstDotSplits(s[1..]);
      var k := FirstDotIn(s[1..]);
      assert k < |s[1..]| ==> s[k + 1] == s[1..][k];
      forall j | 0 <= j < k + 1 ensures s[j] != '.' {
        assert j > 0 ==> s[j] == s[1..][j - 1];
      }
    }
  }

  /** The expression matches a dotted quad and nothing else: the text is one just when it covers it. */
  lemma {:induction false} TreeIsAddress(s: string, n: nat)
    requires n > 0
    ensures Covers(OctetsTree(n), s, false) <==> IsOctets(s, n)
  {
    hide Matches, AnchorFree, CoversOnlyDigits, OCTET;
    if n == 1 {
      OctetTreeCovers(s);
    } else {
      var k, rest := FirstDotIn(s), OctetsTree(n - 1);
      FirstDotSplits(s);
      OctetsShape(n);
      OctetsShape(n - 1);
      if k < |s| && AllDigits(s[..k]) {
        assert s == s[..k] + "." + s[k + 1..];
        OctetThenRest(OCTET, rest, s[..k], s[k + 1..], false);
        OctetTreeCovers(s[..k]);
        TreeIsAddress(s[k + 1..], n - 1);
      } else {
        if Covers(OctetsTree(n), s, false) {
          SplitsAtDot(s, rest);
          assert false;
        }
        if k < |s| && IsOctetText(s[..k]) {
          assert false;
        }
      }
    }
  }

  lemma SplitsAtDot(s: string, rest: Re)
    requires AnchorFree(OCTET) && AnchorFree(rest) && CoversOnlyDigits(OCTET, false)
    requires Covers(Cat(OCTET, Cat(DOT, rest)), s, false)
    ensures FirstDotIn(s) < |s| && AllDigits(s[..FirstDotIn(s)])
  {
    hide Matches, OCTET;
    assert AnchorFree(Cat(DOT, rest));
    CatCovers(OCTET, Cat(DOT, rest), s, false);
    var k: nat :| SplitCovers(OCTET, Cat(DOT, rest), s, k, false);
    assert AllDigits(s[..k]);
    StartsWithDot(rest, s[k..], false);
    FirstDotSplits(s);
    assert s[k] == '.';
    assert FirstDotIn(s) <= k;
    forall j | 0 <= j < FirstDotIn(s) ensures IsDigit(s[j]) {
      assert IsDigit(s[..k][j]);
    }
  }

  lemma OctetText()
    ensures WellFormed(OCTET)
    ensures Print(OCTET) == "(" + ("25[0-5]" + "|" + ("2[0-4][0-9]" + "|" + ("1[0-9]{2}" + "|" + "[1-9]?[0-9]"))) + ")"
  {
    hide Print, WellFormed, Range;
    var a := Cat(Plain('2'), Cat(Plain('5'), Range('0', '5')));
    var b := Cat(Plain('2'), Cat(Range('0', '4'), Range('0', '9')));
    var c := Cat(Plain('1'), Quant(Range('0', '9'), Exactly(2), false));
    var d := Cat(Quant(Range('1', '9'), Opt, false), Range('0', '9'));
    UpperShapes(a, b);
    LowerShapes(c, d);
    AltText(c, d);
    AltText(b, Alt(c, d));
    AltText(a, Alt(b, Alt(c, d)));
    GroupText(Alt(a, Alt(b, Alt(c, d))));
  }

  lemma GroupText(body: Re)
    ensures Print(Group(Numbered, body)) == "(" + Print(body) + ")"
    ensures WellFormed(body) ==> WellFormed(Group(Numbered, body))
  {
  }

  lemma UpperShapes(a: Re, b: Re)
    requires a == Cat(Plain('2'), Cat(Plain('5'), Range('0', '5')))
    requires b == Cat(Plain('2'), Cat(Range('0', '4'), Range('0', '9')))
    ensures WellFormed(a) && Print(a) == "25[0-5]" && WellFormed(b) && Print(b) == "2[0-4][0-9]"
  {
    hide Print, WellFormed, Range;
    RangeText('0', '5');
    RangeText('0', '4');
    RangeText('0', '9');
    PlainText('5');
    PlainText('2');
    CatText(Plain('5'), Range('0', '5'));
    CatText(Plain('2'), Cat(Plain('5'), Range('0', '5')));
    CatText(Range('0', '4'), Range('0', '9'));
    CatText(Plain('2'), Cat(Range('0', '4'), Range('0', '9')));
  }

  lemma LowerShapes(c: Re, d: Re)
    requires c == Cat(Plain('1'), Quant(Range('0', '9'), Exactly(2), false))
    requires d == Cat(Quant(Range('1', '9'), Opt, false), Range('0', '9'))
    ensures WellFormed(c) && Print(c) == "1[0-9]{2}" && WellFormed(d) && Print(d) == "[1-9]?[0-9]"
  {
    hide Print, WellFormed, Range;
    RangeText('0', '9');
    RangeText('1', '9');
    PlainText('1');
    QuantText(Range('0', '9'), Exactly(2));
    QuantText(Range('1', '9'), Opt);
    assert PrintTimes(Exactly(2)) == "{2}" by { assert Dec(2) == "2"; }
    CatText(Plain('1'), Quant(Range('0', '9'), Exactly(2), false));
    CatText(Quant(Range('1', '9'), Opt, false), Range('0', '9'));
  }

  lemma PlainText(c: char)
    requires IsAlnum(c)
    ensures WellFormed(Plain(c)) && Print(Plain(c)) == [c]
  {
  }

  lemma QuantText(body: Re, times: Times)
    ensures Print(Quant(body, times, false)) == Print(body) + PrintTimes(times)
    ensures IsAtom(body) && WellFormed(body) ==> WellFormed(Quant(body, times, false))
  {
  }

  lemma RangeText(lo: char, hi: char)
    requires IsAlnum(lo) && IsAlnum(hi)
    ensures Print(Range(lo, hi)) == "[" + [lo, '-', hi] + "]" && WellFormed(Range(lo, hi))
    ensures IsAtom(Range(lo, hi)) && !Range(lo, hi).Alt?
  {
    var items := [Span(lo, false, hi, false)];
    assert items[1..] == [];
    assert PrintItems(items) == [lo, '-', hi];
  }

  /** The anchored expression hosts are tried against finds exactly the canonical addresses. */
  lemma HostIsAddress(s: string)
    ensures Finds(Cat(Bol, Cat(OctetsTree(4), Eol)), s, false) <==> IsAddress(s)
  {
    hide Matches, OctetsTree, IsOctets;
    AnchoredFinds(OctetsTree(4), s, false);
    TreeIsAddress(s, 4);
  }
}
