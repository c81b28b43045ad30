/**
 * A CIDR block as a regular expression over dotted addresses, and as arithmetic on them.
 *
 * One engine matches an address rule as text and another takes the block itself, so the two
 * readings of a block have to agree (section 3.1 of RFC 4632).
 */
module Cidr {
  import opened Decimal
  import opened Regex

  type Octet = n: nat | n < 256

  function Pow2(k: nat): (n: nat)
    ensures n > 0
  {
    if k == 0 then 1 else 2 * Pow2(k - 1)
  }

  /** `n` shifted right by `k` bits. */
  function Shr(n: nat, k: nat): nat
    decreases k
  {
    if k == 0 then n else Shr(n / 2, k - 1)
  }

  // ---- the text: src/core/lib/acl/wildcard-rules.ts ----

  /** How many of octet `i`'s bits the prefix fixes. */
  function FixedBits(prefix: nat, i: nat): (bits: nat)
    ensures bits <= 8
  {
    var left := prefix - 8 * i;
    if left < 0 then 0 else if left > 8 then 8 else left
  }

  /** The octet with its free bits cleared. */
  function Low(octet: Octet, bits: nat): nat
    requires bits <= 8
  {
    Shr(octet, 8 - bits) * Pow2(8 - bits)
  }

  /** The `count` numbers from `low`, as alternatives. */
  function ValuesText(low: nat, count: nat): string
    requires count > 0
    decreases count
  {
    if count == 1 then Dec(low) else Dec(low) + "|" + ValuesText(low + 1, count - 1)
  }

  function OctetText(octet: Octet, bits: nat): string
    requires bits <= 8
  {
    if bits == 0 then "[0-9]+"
    else if bits == 8 then Dec(Low(octet, bits))
    else "(?:" + ValuesText(Low(octet, bits), Pow2(8 - bits)) + ")"
  }

  function CidrText(address: seq<Octet>, prefix: nat, i: nat): string
    decreases |address| - i
  {
    if i >= |address| then ""
    else (if i == 0 then "" else "\\.") + OctetText(address[i], FixedBits(prefix, i)) + CidrText(address, prefix, i + 1)
  }

  // ---- the tree the text is of ----

  function ValuesTree(low: nat, count: nat): Re
    requires count > 0
    decreases count
  {
    if count == 1 then Literal(Dec(low)) else Alt(Literal(Dec(low)), ValuesTree(low + 1, count - 1))
  }

  function OctetTree(octet: Octet, bits: nat): Re
    requires bits <= 8
  {
    if bits == 0 then Quant(DIGIT, Plus, false)
    else if bits == 8 then Literal(Dec(Low(octet, bits)))
    else Group(Unnumbered, ValuesTree(Low(octet, bits), Pow2(8 - bits)))
  }

  const DOT := Chr('.', true)

  function CidrTree(address: seq<Octet>, prefix: nat, i: nat): Re
    requires i < |address|
    decreases |address| - i
  {
    var octet := OctetTree(address[i], FixedBits(prefix, i));
    if i == |address| - 1 then octet
    else Cat(octet, Cat(DOT, CidrTree(address, prefix, i + 1)))
  }

  lemma {:induction false} PrintDigits(t: string)
    requires forall k | 0 <= k < |t| :: IsDigit(t[k])
    ensures Print(Literal(t)) == t
  {
    if t != [] {
      assert IsDigit(t[0]);
      assert forall c | IsDigit(c) :: c !in META;
      PrintDigits(t[1..]);
      assert Print(Chr(t[0], false)) == [t[0]];
      assert t == [t[0]] + t[1..];
    }
  }

  lemma {:induction false} ValuesPrint(low: nat, count: nat)
    requires count > 0
    ensures Print(ValuesTree(low, count)) == ValuesText(low, count)
    ensures WellFormed(ValuesTree(low, count)) && AnchorFree(ValuesTree(low, count))
    decreases count
  {
    hide Dec, Literal;
    PrintDigits(Dec(low));
    LiteralShape(Dec(low));
    if count > 1 {
      ValuesPrint(low + 1, count - 1);
    }
  }

  lemma OctetPrints(octet: Octet, bits: nat)
    requires bits <= 8
    ensures var r := OctetTree(octet, bits);
      Print(r) == OctetText(octet, bits) && WellFormed(r) && AnchorFree(r) && !r.Alt?
  {
    hide Dec, Literal, Pow2, ValuesTree, ValuesText;
    if bits == 0 {
      assert DIGIT.items[1..] == [];
      assert PrintItems(DIGIT.items) == "0-9";
      assert Print(DIGIT) == "[0-9]";
      assert Print(OctetTree(octet, 0)) == "[0-9]" + "+" + "";
    } else if bits == 8 {
      PrintDigits(Dec(Low(octet, bits)));
      LiteralShape(Dec(Low(octet, bits)));
    } else {
      ValuesPrint(Low(octet, bits), Pow2(8 - bits));
    }
  }

  /** The text is that of the tree. */
  lemma {:induction false} CidrPrints(address: seq<Octet>, prefix: nat, i: nat)
    requires i < |address|
    ensures var r := CidrTree(address, prefix, i);
      && (if i == 0 then "" else "\\.") + Print(r) == CidrText(address, prefix, i)
      && WellFormed(r) && AnchorFree(r) && !r.Alt?
    decreases |address| - i
  {
    hide OctetTree, OctetText, Print, WellFormed, AnchorFree, CidrText;
    var bits := FixedBits(prefix, i);
    var octet := OctetTree(address[i], bits);
    OctetPrints(address[i], bits);
    if i < |address| - 1 {
      CidrPrints(address, prefix, i + 1);
      JoinPrints(octet, CidrTree(address, prefix, i + 1));
    }
    CidrTextStep(address, prefix, i);
  }

  lemma CidrTextStep(address: seq<Octet>, prefix: nat, i: nat)
    requires i < |address|
    ensures CidrText(address, prefix, i) == (if i == 0 then "" else "\\.") +
      (OctetText(address[i], FixedBits(prefix, i)) +
       if i == |address| - 1 then "" else CidrText(address, prefix, i + 1))
    ensures forall s: string :: s + "" == s
  {
    hide OctetText;
  }

  lemma JoinPrints(octet: Re, rest: Re)
    requires WellFormed(octet) && AnchorFree(octet) && !octet.Alt?
    requires WellFormed(rest) && AnchorFree(rest) && !rest.Alt?
    ensures var r := Cat(octet, Cat(DOT, rest));
      WellFormed(r) && AnchorFree(r) && !r.Alt? && Print(r) == Print(octet) + ("\\." + Print(rest))
  {
    assert Print(DOT) == "\\." && WellFormed(DOT);
    CatText(DOT, rest);
    CatText(octet, Cat(DOT, rest));
    assert AnchorFree(DOT) && AnchorFree(Cat(DOT, rest));
  }

  // ---- one octet ----

  predicate AllDigits(s: string) {
    forall k | 0 <= k < |s| :: IsDigit(s[k])
  }

  lemma SameDigits(t: string, s: string, icase: bool)
    requires AllDigits(t)
    ensures SameText(t, s, icase) <==> s == t
  {
    if SameText(t, s, icase) {
      forall k | 0 <= k < |s| ensures s[k] == t[k] {
        assert SameChar(t[k], s[k], icase) && IsDigit(t[k]);
      }
    }
  }

  /** `s` is one of the `count` numbers from `low`. */
  ghost predicate IsAmong(s: string, low: nat, count: nat) {
    exists v: nat :: low <= v < low + count && s == Dec(v)
  }

  lemma AmongStep(s: string, low: nat, count: nat)
    requires count > 0
    ensures IsAmong(s, low, count) <==> s == Dec(low) || IsAmong(s, low + 1, count - 1)
  {
    hide Dec;
    if IsAmong(s, low, count) {
      var v: nat :| low <= v < low + count && s == Dec(v);
      if v != low {
        assert low + 1 <= v < low + 1 + (count - 1);
      }
    }
    if IsAmong(s, low + 1, count - 1) {
      var v: nat :| low + 1 <= v < low + 1 + (count - 1) && s == Dec(v);
      assert low <= v < low + count;
    }
    if s == Dec(low) {
      assert low <= low < low + count;
    }
  }

  lemma {:induction false} ValuesCover(low: nat, count: nat, s: string, icase: bool)
    requires count > 0
    ensures Covers(ValuesTree(low, count), s, icase) <==> IsAmong(s, low, count)
    decreases count
  {
    hide Dec, Literal, Matches;
    LiteralCovers(Dec(low), s, icase);
    SameDigits(Dec(low), s, icase);
    AmongStep(s, low, count);
    if count > 1 {
      ValuesCover(low + 1, count - 1, s, icase);
      AltMatches(Literal(Dec(low)), ValuesTree(low + 1, count - 1), s, 0, |s|, icase);
    } else {
      assert !IsAmong(s, low + 1, 0);
    }
  }

  const DIGIT := Set(false, [Span('0', false, '9', false)])

  lemma DigitClass(s: string, i: nat, j: nat, icase: bool)
    requires i <= j <= |s|
    ensures Matches(DIGIT, s, i, j, icase) <==> j == i + 1 && IsDigit(s[i])
  {
    if j == i + 1 {
      assert InItem(DIGIT.items[0], s[i]) <==> IsDigit(s[i]);
      assert Lower(s[i]) == s[i] || !IsDigit(Lower(s[i]));
      assert Upper(s[i]) == s[i] || !IsDigit(Upper(s[i]));
    }
  }

  lemma {:induction false} DigitRun(n: nat, s: string, i: nat, icase: bool)
    requires i <= |s|
    ensures Repeats(DIGIT, n, s, i, |s|, icase) <==> n == |s| - i && AllDigits(s[i..])
  {
    hide Matches, DIGIT;
    if n > 0 {
      if Repeats(DIGIT, n, s, i, |s|, icase) {
        var k := RepeatsFirst(DIGIT, n, s, i, |s|, icase);
        DigitClass(s, i, k, icase);
        DigitRun(n - 1, s, k, icase);
        assert s[i..] == [s[i]] + s[k..];
      }
      if n == |s| - i && AllDigits(s[i..]) {
        assert s[i] == s[i..][0] && IsDigit(s[i..][0]);
        assert s[i + 1..] == s[i..][1..];
        DigitRun(n - 1, s, i + 1, icase);
        DigitClass(s, i, i + 1, icase);
        RepeatsMore(DIGIT, n, s, i, i + 1, |s|, icase);
      }
    }
  }

  /** The texts an octet's tree covers. */
  lemma OctetCovers(octet: Octet, bits: nat, s: string, icase: bool)
    requires bits <= 8
    ensures Covers(OctetTree(octet, bits), s, icase) <==>
      if bits == 0 then s != [] && AllDigits(s) else IsAmong(s, Low(octet, bits), Pow2(8 - bits))
  {
    hide Dec, Literal, Matches, Pow2, ValuesTree, Repeats;
    var low := Low(octet, bits);
    if bits == 0 {
      QuantMatches(DIGIT, Plus, false, s, 0, |s|, icase);
      assert s[0..] == s;
      forall n: nat ensures Repeats(DIGIT, n, s, 0, |s|, icase) <==> n == |s| && AllDigits(s) {
        DigitRun(n, s, 0, icase);
      }
      if s != [] && AllDigits(s) {
        assert InTimes(Plus, |s|) && Repeats(DIGIT, |s|, s, 0, |s|, icase);
      }
    } else if bits == 8 {
      LiteralCovers(Dec(low), s, icase);
      SameDigits(Dec(low), s, icase);
      Pow2Of8();
      AmongStep(s, low, 1);
      assert !IsAmong(s, low + 1, 0);
    } else {
      ValuesCover(low, Pow2(8 - bits), s, icase);
      GroupMatches(Unnumbered, ValuesTree(low, Pow2(8 - bits)), s, 0, |s|, icase);
    }
  }

  lemma {:induction false} ShrBounds(n: nat, k: nat)
    ensures Shr(n, k) * Pow2(k) <= n < Shr(n, k) * Pow2(k) + Pow2(k)
    decreases k
  {
    if k > 0 {
      ShrBounds(n / 2, k - 1);
      TimesTwice(Shr(n / 2, k - 1), Pow2(k - 1));
    }
  }

  lemma TimesTwice(q: nat, m: nat)
    ensures q * (2 * m) == 2 * (q * m)
  {
  }

  lemma {:induction false} MultiplesApart(q: nat, r: nat, m: nat)
    requires q < r
    ensures q * m + m <= r * m
    decreases r
  {
    assert r * m == (r - 1) * m + m;
    if q < r - 1 {
      MultiplesApart(q, r - 1, m);
    }
  }

  /** The numbers from `Low` up are the ones agreeing above the free bits. */
  lemma BlockOf(n: nat, k: nat, v: nat)
    ensures Shr(n, k) * Pow2(k) <= v < Shr(n, k) * Pow2(k) + Pow2(k) <==> Shr(v, k) == Shr(n, k)
  {
    hide Shr, Pow2;
    ShrBounds(v, k);
    if Shr(v, k) < Shr(n, k) {
      MultiplesApart(Shr(v, k), Shr(n, k), Pow2(k));
    } else if Shr(v, k) > Shr(n, k) {
      MultiplesApart(Shr(n, k), Shr(v, k), Pow2(k));
    }
  }

  lemma FreeOctet(v: Octet)
    ensures Shr(v, 8) == 0
  {
    assert Shr(v, 8) == Shr(v / 2 / 2, 6) == Shr(v / 2 / 2 / 2 / 2, 4) == Shr(v / 2 / 2 / 2 / 2 / 2 / 2, 2);
  }

  lemma AmongNumbers(v: nat, low: nat, count: nat)
    ensures IsAmong(Dec(v), low, count) <==> low <= v < low + count
  {
    hide Dec;
    if IsAmong(Dec(v), low, count) {
      var w: nat :| low <= w < low + count && Dec(v) == Dec(w);
      DecInjective(v, w);
    }
  }

  /** An octet's tree accepts a canonical number just when the fixed bits agree. */
  lemma OctetAccepts(octet: Octet, bits: nat, v: Octet, icase: bool)
    requires bits <= 8
    ensures Covers(OctetTree(octet, bits), Dec(v), icase) <==> Shr(v, 8 - bits) == Shr(octet, 8 - bits)
  {
    hide Dec, Matches, OctetTree, Shr, Pow2;
    OctetCovers(octet, bits, Dec(v), icase);
    if bits == 0 {
      FreeOctet(v);
      FreeOctet(octet);
    } else {
      BlockOf(octet, 8 - bits, v);
      AmongNumbers(v, Low(octet, bits), Pow2(8 - bits));
    }
  }

  /** What an octet's tree covers never holds a dot. */
  lemma OctetIsDigits(octet: Octet, bits: nat, icase: bool)
    requires bits <= 8
    ensures CoversOnlyDigits(OctetTree(octet, bits), icase)
  {
    hide Dec, Matches, OctetTree;
    forall s: string | Covers(OctetTree(octet, bits), s, icase) ensures AllDigits(s) {
      OctetCovers(octet, bits, s, icase);
      if bits > 0 {
        var v: nat :| s == Dec(v);
      }
    }
  }

  // ---- the whole address ----

  function Dotted(address: seq<Octet>, i: nat): string
    requires i < |address|
    decreases |address| - i
  {
    if i == |address| - 1 then Dec(address[i]) else Dec(address[i]) + "." + Dotted(address, i + 1)
  }

  lemma DotSplit(r: Re, a: string, b: string, icase: bool)
    requires AnchorFree(r)
    ensures Covers(Cat(DOT, r), "." + b, icase) <==> Covers(r, b, icase)
  {
    hide Matches;
    var s := "." + b;
    assert AnchorFree(DOT);
    CatCovers(DOT, r, s, icase);
    assert s[..1] == "." && s[1..] == b;
    ChrCovers('.', true, ".", icase);
    if k: nat :| SplitCovers(DOT, r, s, k, icase) {
      ChrCovers('.', true, s[..k], icase);
      assert k == 1;
    }
    if Covers(r, b, icase) {
      assert SplitCovers(DOT, r, s, 1, icase);
    }
  }

  ghost predicate CoversOnlyDigits(tree: Re, icase: bool) {
    forall s: string :: Covers(tree, s, icase) ==> AllDigits(s)
  }

  /** A tree of digits takes exactly the text before the first dot. */
  lemma OctetThenRest(tree: Re, rest: Re, a: string, b: string, icase: bool)
    requires AnchorFree(tree) && AnchorFree(rest) && AllDigits(a) && CoversOnlyDigits(tree, icase)
    ensures Covers(Cat(tree, Cat(DOT, rest)), a + "." + b, icase) <==> Covers(tree, a, icase) && Covers(rest, b, icase)
  {
    hide Matches;
    var s := a + "." + b;
    assert AnchorFree(Cat(DOT, rest));
    CatCovers(tree, Cat(DOT, rest), s, icase);
    assert s[..|a|] == a && s[|a|..] == "." + b;
    DotSplit(rest, a, b, icase);
    if Covers(tree, a, icase) && Covers(rest, b, icase) {
      assert SplitCovers(tree, Cat(DOT, rest), s, |a|, icase);
    }
    if k: nat :| SplitCovers(tree, Cat(DOT, rest), s, k, icase) {
      assert AllDigits(s[..k]);
      StartsWithDot(rest, s[k..], icase);
      DotAt(a, b, k);
    }
  }

  /** Only the first dot ends a run of digits that starts the text. */
  lemma DotAt(a: string, b: string, k: nat)
    requires AllDigits(a) && k < |a + "." + b|
    requires AllDigits((a + "." + b)[..k]) && (a + "." + b)[k] == '.'
    ensures k == |a|
  {
    var s := a + "." + b;
    assert s[|a|] == '.';
    assert forall j | 0 <= j < |a| :: s[j] == a[j];
    assert forall j | 0 <= j < k :: s[..k][j] == s[j];
  }

  lemma StartsWithDot(rest: Re, s: string, icase: bool)
    requires AnchorFree(rest) && Covers(Cat(DOT, rest), s, icase)
    ensures s != [] && s[0] == '.'
  {
    hide Matches;
    assert AnchorFree(DOT);
    CatCovers(DOT, rest, s, icase);
    var k: nat :| SplitCovers(DOT, rest, s, k, icase);
    ChrCovers('.', true, s[..k], icase);
  }

  /** The text of an address is accepted just when every octet agrees on its fixed bits. */
  lemma {:induction false} TextAccepts(block: seq<Octet>, prefix: nat, address: seq<Octet>, i: nat, icase: bool)
    requires |block| == |address| && i < |block|
    ensures Covers(CidrTree(block, prefix, i), Dotted(address, i), icase) <==> AgreeFrom(block, prefix, address, i)
    decreases |block| - i
  {
    hide Matches, OctetTree, Dec, FixedBits, Pow2, Shr, CoversOnlyDigits, Print, WellFormed, OctetText;
    OctetAccepts(block[i], FixedBits(prefix, i), address[i], icase);
    assert AgreeFrom(block, prefix, address, i) <==>
      OctetAgrees(block, prefix, address, i) && AgreeFrom(block, prefix, address, i + 1);
    if i < |block| - 1 {
      CidrPrints(block, prefix, i + 1);
      OctetPrints(block[i], FixedBits(prefix, i));
      OctetIsDigits(block[i], FixedBits(prefix, i), icase);
      OctetThenRest(OctetTree(block[i], FixedBits(prefix, i)), CidrTree(block, prefix, i + 1), Dec(address[i]),
        Dotted(address, i + 1), icase);
      TextAccepts(block, prefix, address, i + 1, icase);
    }
  }

  // ---- the arithmetic ----

  /** The address as one number, its first octet the most significant. */
  function Number(address: seq<Octet>): nat {
    if address == [] then 0 else 256 * Number(address[..|address| - 1]) + address[|address| - 1]
  }

  lemma {:induction false} ShrShr(n: nat, j: nat, k: nat)
    ensures Shr(Shr(n, j), k) == Shr(n, j + k)
    decreases j
  {
    if j > 0 {
      ShrShr(n / 2, j - 1, k);
    }
  }

  lemma ShrStep(n: nat, k: nat)
    ensures Shr(n, k) == if k == 0 then n else Shr(n / 2, k - 1)
  {
  }

  lemma DoubledHalf(p: nat, a: nat)
    ensures (2 * p + a) / 2 == p + a / 2
  {
  }

  lemma PowTimes(w: nat, x: nat)
    requires w > 0
    ensures Pow2(w) * x == 2 * (Pow2(w - 1) * x)
    ensures forall a | 0 <= a < Pow2(w) :: a / 2 < Pow2(w - 1)
  {
    var q := Pow2(w - 1);
    assert Pow2(w) == 2 * q;
    TimesTwice(q, x);
  }

  /** Shifting by less than the low part's width leaves the high part whole. */
  lemma {:induction false} ShrOfJoined(w: nat, k: nat, x: nat, a: nat)
    requires k <= w && a < Pow2(w)
    ensures Shr(Pow2(w) * x + a, k) == Pow2(w - k) * x + Shr(a, k)
    ensures Shr(a, k) < Pow2(w - k)
    decreases k
  {
    hide Pow2, Shr;
    ShrStep(Pow2(w) * x + a, k);
    ShrStep(a, k);
    if k > 0 {
      PowTimes(w, x);
      DoubledHalf(Pow2(w - 1) * x, a);
      ShrOfJoined(w - 1, k - 1, x, a / 2);
    }
  }

  lemma JoinedAgree(m: nat, x: nat, a: nat, y: nat, b: nat)
    requires a < m && b < m
    ensures m * x + a == m * y + b <==> x == y && a == b
  {
    if x < y {
      MultiplesApart(x, y, m);
    } else if y < x {
      MultiplesApart(y, x, m);
    }
  }

  lemma Pow2Of8()
    ensures Pow2(8) == 256 && Pow2(0) == 1
  {
    assert Pow2(4) == 16;
  }

  predicate OctetAgrees(block: seq<Octet>, prefix: nat, address: seq<Octet>, k: nat)
    requires k < |block| == |address|
  {
    Shr(address[k], 8 - FixedBits(prefix, k)) == Shr(block[k], 8 - FixedBits(prefix, k))
  }

  predicate AgreeFrom(block: seq<Octet>, prefix: nat, address: seq<Octet>, i: nat)
    requires |block| == |address|
  {
    forall k | i <= k < |block| :: OctetAgrees(block, prefix, address, k)
  }

  lemma AgreeButLast(block: seq<Octet>, prefix: nat, address: seq<Octet>)
    requires |block| == |address| > 0
    ensures var n := |block|;
      AgreeFrom(block, prefix, address, 0) <==>
      OctetAgrees(block, prefix, address, n - 1) && AgreeFrom(block[..n - 1], prefix, address[..n - 1], 0)
  {
    hide Shr, FixedBits;
    var n := |block|;
    var block', address' := block[..n - 1], address[..n - 1];
    forall k | 0 <= k < n - 1
      ensures OctetAgrees(block, prefix, address, k) <==> OctetAgrees(block', prefix, address', k)
    {
    }
    if OctetAgrees(block, prefix, address, n - 1) && AgreeFrom(block', prefix, address', 0) {
      forall k | 0 <= k < n ensures OctetAgrees(block, prefix, address, k) {
        assert k < n - 1 ==> OctetAgrees(block', prefix, address', k);
      }
    }
    if AgreeFrom(block, prefix, address, 0) {
      forall k | 0 <= k < n - 1 ensures OctetAgrees(block', prefix, address', k) {
        assert OctetAgrees(block, prefix, address, k);
      }
    }
  }

  /** With no free bit, the numbers agree just when the octets do. */
  lemma {:induction false} WholeOctets(block: seq<Octet>, prefix: nat, address: seq<Octet>)
    requires |block| == |address| && prefix >= 8 * |block|
    ensures Number(address) == Number(block) <==> AgreeFrom(block, prefix, address, 0)
  {
    var n := |block|;
    if n == 0 {
    } else {
      WholeOctets(block[..n - 1], prefix, address[..n - 1]);
      AgreeButLast(block, prefix, address);
      assert FixedBits(prefix, n - 1) == 8;
    }
  }

  lemma PartOfOctet(x: nat, a: Octet, y: nat, b: Octet, free: nat)
    requires free <= 8
    ensures Shr(256 * x + a, free) == Shr(256 * y + b, free) <==> x == y && Shr(a, free) == Shr(b, free)
  {
    hide Shr, Pow2;
    Pow2Of8();
    ShrOfJoined(8, free, x, a);
    ShrOfJoined(8, free, y, b);
    JoinedAgree(Pow2(8 - free), x, Shr(a, free), y, Shr(b, free));
  }

  lemma WholeOctet(x: nat, a: Octet, free: nat)
    requires free > 8
    ensures Shr(256 * x + a, free) == Shr(x, free - 8)
  {
    hide Shr, Pow2;
    Pow2Of8();
    FreeOctet(a);
    ShrOfJoined(8, 8, x, a);
    ShrShr(256 * x + a, 8, free - 8);
  }

  /** Dropping the free low bits of the whole number is dropping each octet's. */
  lemma {:induction false} BitsAgree(block: seq<Octet>, prefix: nat, address: seq<Octet>)
    requires |block| == |address| && prefix <= 8 * |block|
    ensures Shr(Number(address), 8 * |block| - prefix) == Shr(Number(block), 8 * |block| - prefix)
       <==> AgreeFrom(block, prefix, address, 0)
  {
    hide Shr;
    var n := |block|;
    if n == 0 {
    } else {
      var block', address' := block[..n - 1], address[..n - 1];
      var a, b := address[n - 1], block[n - 1];
      var free := 8 * n - prefix;
      AgreeButLast(block, prefix, address);
      if free <= 8 {
        assert FixedBits(prefix, n - 1) == 8 - free;
        PartOfOctet(Number(address'), a, Number(block'), b, free);
        WholeOctets(block', prefix, address');
      } else {
        assert FixedBits(prefix, n - 1) == 0;
        FreeOctet(a);
        FreeOctet(b);
        WholeOctet(Number(address'), a, free);
        WholeOctet(Number(block'), b, free);
        BitsAgree(block', prefix, address');
      }
    }
  }

  // ---- the theorem ----

  /**
   * Text and arithmetic agree: the anchored expression written for a block accepts the canonical
   * dotted form of an address just when the two 32-bit numbers agree on the prefix bits.
   */
  lemma TextMatchIsPrefixMatch(block: seq<Octet>, prefix: nat, address: seq<Octet>, icase: bool)
    requires |block| == |address| == 4 && prefix <= 32
    ensures var r := CidrTree(block, prefix, 0);
      && WellFormed(r) && Print(r) == CidrText(block, prefix, 0)
      && (Finds(Cat(Bol, Cat(r, Eol)), Dotted(address, 0), icase) <==>
          Shr(Number(address), 32 - prefix) == Shr(Number(block), 32 - prefix))
  {
    hide CidrTree, CidrText, Dotted, Number, Shr, Matches, WellFormed, Print, AgreeFrom;
    var r := CidrTree(block, prefix, 0);
    CidrPrints(block, prefix, 0);
    assert "" + Print(r) == Print(r);
    AnchoredFinds(r, Dotted(address, 0), icase);
    TextAccepts(block, prefix, address, 0, icase);
    BitsAgree(block, prefix, address);
  }

  /** A canonical dotted address names one address: no two read the same. */
  lemma {:induction false} DottedInjective(a: seq<Octet>, b: seq<Octet>, i: nat)
    requires |a| == |b| && i < |a| && Dotted(a, i) == Dotted(b, i)
    ensures forall k | i <= k < |a| :: a[k] == b[k]
    decreases |a| - i
  {
    hide Dec;
    if i == |a| - 1 {
      DecInjective(a[i], b[i]);
    } else {
      var s, t := Dec(a[i]), Dec(b[i]);
      var x, y := Dotted(a, i + 1), Dotted(b, i + 1);
      assert s + "." + x == t + "." + y;
      FirstDot(s, x, t, y);
      DecInjective(a[i], b[i]);
      DottedInjective(a, b, i + 1);
    }
  }

  lemma FirstDot(s: string, x: string, t: string, y: string)
    requires AllDigits(s) && AllDigits(t) && s + "." + x == t + "." + y
    ensures s == t && x == y
  {
    var u := s + "." + x;
    assert u[|t|] == (t + "." + y)[|t|] == '.';
    assert u[..|t|] == (t + "." + y)[..|t|] == t;
    DotAt(s, x, |t|);
    assert s == u[..|s|];
    assert x == u[|s| + 1..] == (t + "." + y)[|t| + 1..] == y;
  }
}
