/**
 * Domain and path patterns with wildcards, compiled to regexes
 * (src/core/lib/acl/partial-wildcard.ts 19-114).
 */
module Wildcards {
  import opened Regex
  import opened Search
  import opened Text

  /** The regex each of the three wildcards stands for, in names or in paths. */
  datatype Vocabulary = Vocabulary(across: string, within: string, single: string)

  const DOMAIN := Vocabulary(".+", "[^.]+", "[^.]")
  const PATH := Vocabulary(".*", "[^/]+", "[^/]")

  // ---- the text ----

  /** What a literal is escaped for. `*` and `?` are not among it: they are never literals. */
  const REGEX_META := ".+^$()[]{}|\\"

  function Escaped(c: char): string {
    if c in REGEX_META then ['\\', c] else [c]
  }

  function AtomText(atom: string, vocab: Vocabulary): string
    decreases |atom|
  {
    if atom == [] then ""
    else if atom[0] == '*' then
      if |atom| > 1 && atom[1] == '*' then vocab.across + AtomText(atom[2..], vocab)
      else vocab.within + AtomText(atom[1..], vocab)
    else (if atom[0] == '?' then vocab.single else Escaped(atom[0])) + AtomText(atom[1..], vocab)
  }

  method AtomToRegex(atom: string, vocab: Vocabulary) returns (out: string)
    ensures out == AtomText(atom, vocab)
  {
    hide Escaped;
    out := "";
    var i := 0;
    assert atom[0..] == atom;
    while i < |atom|
      invariant 0 <= i <= |atom|
      invariant out + AtomText(atom[i..], vocab) == AtomText(atom, vocab)
      decreases |atom| - i
    {
      AtomStep(atom, vocab, i, out);
      if atom[i] == '*' {
        if i + 1 < |atom| && atom[i + 1] == '*' {
          out := out + vocab.across;
          i := i + 1;
        } else {
          out := out + vocab.within;
        }
        i := i + 1;
        continue;
      }
      if atom[i] == '?' {
        out := out + vocab.single;
        i := i + 1;
        continue;
      }
      out := out + Escaped(atom[i]);
      i := i + 1;
    }
    assert atom[i..] == [] && AtomText([], vocab) == [];
  }

  function PieceAt(atom: string, vocab: Vocabulary, i: nat): (string, nat)
    requires i < |atom|
  {
    if atom[i] == '*' && i + 1 < |atom| && atom[i + 1] == '*' then (vocab.across, i + 2)
    else if atom[i] == '*' then (vocab.within, i + 1)
    else if atom[i] == '?' then (vocab.single, i + 1)
    else (Escaped(atom[i]), i + 1)
  }

  lemma AtomStep(atom: string, vocab: Vocabulary, i: nat, out: string)
    requires i < |atom|
    ensures var (piece, next) := PieceAt(atom, vocab, i);
      next <= |atom| && out + AtomText(atom[i..], vocab) == out + piece + AtomText(atom[next..], vocab)
  {
    assert atom[i..][0] == atom[i] && atom[i..][1..] == atom[i + 1..];
    if i + 1 < |atom| {
      assert atom[i..][1] == atom[i + 1] && atom[i..][2..] == atom[i + 2..];
    }
  }

  predicate IsHostLabel(part: string) {
    part != [] && forall k | 0 <= k < |part| :: IsAlnum(part[k]) || part[k] in "_*?-"
  }

  function MapAtoms(atoms: seq<string>, vocab: Vocabulary): seq<string> {
    if atoms == [] then [] else [AtomText(atoms[0], vocab)] + MapAtoms(atoms[1..], vocab)
  }

  predicate AreHostLabels(labels: seq<string>) {
    forall k | 0 <= k < |labels| :: IsHostLabel(labels[k])
  }

  /** A domain pattern as a regex, without anchors or port; an error where a label is no label. */
  function DomainToRegexPartial(domain: string): Option<string> {
    var labels := Split(domain, '.');
    if AreHostLabels(labels) then Some(Join(MapAtoms(labels, DOMAIN), "\\.")) else None
  }

  function PathToRegexPartial(path: string): string {
    if path == [] then "" else Join(MapAtoms(Split(path, '/'), PATH), "/")
  }

  // ---- wildcards one at a time ----

  datatype Glob = Lit(c: char) | Across | Within | Single

  function Globs(pattern: string): seq<Glob>
    decreases |pattern|
  {
    if pattern == [] then []
    else if pattern[0] == '*' then
      if |pattern| > 1 && pattern[1] == '*' then [Across] + Globs(pattern[2..]) else [Within] + Globs(pattern[1..])
    else [if pattern[0] == '?' then Single else Lit(pattern[0])] + Globs(pattern[1..])
  }

  function GlobText(g: Glob, vocab: Vocabulary): string {
    match g
    case Lit(c) => Escaped(c)
    case Across => vocab.across
    case Within => vocab.within
    case Single => vocab.single
  }

  function GlobsText(gs: seq<Glob>, vocab: Vocabulary): string {
    if gs == [] then "" else GlobText(gs[0], vocab) + GlobsText(gs[1..], vocab)
  }

  lemma {:induction false} TextOfGlobs(pattern: string, vocab: Vocabulary)
    ensures GlobsText(Globs(pattern), vocab) == AtomText(pattern, vocab)
    decreases |pattern|
  {
    if pattern != [] {
      var gs := Globs(pattern);
      if pattern[0] == '*' && |pattern| > 1 && pattern[1] == '*' {
        TextOfGlobs(pattern[2..], vocab);
        assert gs[1..] == Globs(pattern[2..]);
      } else {
        TextOfGlobs(pattern[1..], vocab);
        assert gs[1..] == Globs(pattern[1..]);
      }
    }
  }

  lemma FirstAtom(s: string, vocab: Vocabulary)
    requires s != []
    ensures var (piece, next) := PieceAt(s, vocab, 0); next <= |s| && AtomText(s, vocab) == piece + AtomText(s[next..], vocab)
  {
  }

  /** A separator is never part of a wildcard, so pieces compile on their own. */
  lemma {:induction false} AtomsApart(a: string, c: char, b: string, vocab: Vocabulary)
    requires c != '*' && c != '?'
    ensures AtomText(a + [c] + b, vocab) == AtomText(a, vocab) + Escaped(c) + AtomText(b, vocab)
    decreases |a|
  {
    hide Escaped;
    var s := a + [c] + b;
    FirstAtom(s, vocab);
    if a == [] {
      assert AtomText(a, vocab) == [];
      assert s[1..] == b;
      assert [] + Escaped(c) == Escaped(c);
    } else {
      FirstAtom(a, vocab);
      var (piece, next) := PieceAt(a, vocab, 0);
      assert s[0] == a[0] && s[1] == if |a| > 1 then a[1] else c;
      assert s[next..] == a[next..] + [c] + b;
      AtomsApart(a[next..], c, b, vocab);
      Regroup(piece, AtomText(a[next..], vocab), Escaped(c), AtomText(b, vocab));
    }
  }

  lemma Regroup(p: string, x: string, c: string, y: string)
    ensures p + (x + c + y) == (p + x) + c + y
  {
  }

  lemma {:induction false} JoinedAtoms(atoms: seq<string>, c: char, vocab: Vocabulary)
    requires atoms != [] && c != '*' && c != '?'
    ensures Join(MapAtoms(atoms, vocab), Escaped(c)) == AtomText(Join(atoms, [c]), vocab)
    decreases |atoms|
  {
    hide AtomText, Escaped;
    if |atoms| == 1 {
      assert MapAtoms(atoms, vocab) == [AtomText(atoms[0], vocab)] by { assert atoms[1..] == []; }
    } else {
      JoinedAtoms(atoms[1..], c, vocab);
      AtomsApart(atoms[0], c, Join(atoms[1..], [c]), vocab);
      var texts := MapAtoms(atoms, vocab);
      assert texts[1..] == MapAtoms(atoms[1..], vocab) && |texts| > 1;
    }
  }

  /** What the compilers write is the pattern's wildcards, written one after the other. */
  lemma DomainTextIs(domain: string)
    ensures DomainToRegexPartial(domain) ==
      if AreHostLabels(Split(domain, '.')) then Some(GlobsText(Globs(domain), DOMAIN)) else None
  {
    hide AtomText, Globs, GlobsText, MapAtoms;
    assert Escaped('.') == "\\.";
    JoinedAtoms(Split(domain, '.'), '.', DOMAIN);
    JoinOfSplit(domain, '.');
    TextOfGlobs(domain, DOMAIN);
  }

  lemma PathTextIs(path: string)
    ensures PathToRegexPartial(path) == GlobsText(Globs(path), PATH)
  {
    hide AtomText, MapAtoms;
    TextOfGlobs(path, PATH);
    if path != [] {
      hide Globs, GlobsText;
      assert Escaped('/') == "/";
      JoinedAtoms(Split(path, '/'), '/', PATH);
      JoinOfSplit(path, '/');
    }
  }

  // ---- the tree of a pattern ----

  datatype Subject = Names | Paths

  function VocabOf(kind: Subject): Vocabulary {
    if kind == Names then DOMAIN else PATH
  }

  function Separator(kind: Subject): char {
    if kind == Names then '.' else '/'
  }

  function NotSeparator(kind: Subject): Re {
    Set(true, [One(Separator(kind), false)])
  }

  function GlobTree(g: Glob, kind: Subject): Re {
    match g
    case Lit(c) => Chr(c, c in REGEX_META)
    case Across => Quant(Any, if kind == Names then Plus else Star, false)
    case Within => Quant(NotSeparator(kind), Plus, false)
    case Single => NotSeparator(kind)
  }

  function Tree(gs: seq<Glob>, kind: Subject): Re {
    if gs == [] then Empty else Cat(GlobTree(gs[0], kind), Tree(gs[1..], kind))
  }

  /** No wildcard is left among the literals. */
  predicate AreGlobs(gs: seq<Glob>) {
    forall k | 0 <= k < |gs| :: gs[k].Lit? ==> gs[k].c != '*' && gs[k].c != '?'
  }

  lemma {:induction false} GlobsAreGlobs(pattern: string)
    ensures AreGlobs(Globs(pattern))
    decreases |pattern|
  {
    if pattern != [] {
      if pattern[0] == '*' && |pattern| > 1 && pattern[1] == '*' {
        GlobsAreGlobs(pattern[2..]);
      } else {
        GlobsAreGlobs(pattern[1..]);
      }
    }
  }

  lemma LitShape(c: char)
    requires c != '*' && c != '?'
    ensures WellFormed(Chr(c, c in REGEX_META)) && Print(Chr(c, c in REGEX_META)) == Escaped(c)
  {
    assert c in META <==> c in REGEX_META || c == '*' || c == '?';
    assert c in REGEX_META ==> !IsAlnum(c);
  }

  lemma NotSeparatorShape(kind: Subject)
    ensures var r := NotSeparator(kind); WellFormed(r) && IsAtom(r) && Print(r) == VocabOf(kind).single
  {
    var items := NotSeparator(kind).items;
    assert items[1..] == [];
    assert PrintItems(items) == [Separator(kind)];
  }

  lemma QuantShape(body: Re, times: Times)
    requires WellFormed(body) && IsAtom(body)
    ensures WellFormed(Quant(body, times, false)) && Print(Quant(body, times, false)) == Print(body) + PrintTimes(times)
  {
  }

  lemma GlobShape(g: Glob, kind: Subject)
    requires g.Lit? ==> g.c != '*' && g.c != '?'
    ensures var r := GlobTree(g, kind);
      && WellFormed(r) && IsPortable(r) && AnchorFree(r) && !r.Alt?
      && Print(r) == GlobText(g, VocabOf(kind))
  {
    hide Escaped;
    match g
    case Lit(c) => LitShape(c);
    case Across =>
      assert WellFormed(Any) && Print(Any) == ".";
      QuantShape(Any, if kind == Names then Plus else Star);
    case Within =>
      NotSeparatorShape(kind);
      QuantShape(NotSeparator(kind), Plus);
    case Single => NotSeparatorShape(kind);
  }

  lemma {:induction false} TreeShape(gs: seq<Glob>, kind: Subject)
    requires AreGlobs(gs)
    ensures var r := Tree(gs, kind);
      && WellFormed(r) && IsPortable(r) && AnchorFree(r) && !r.Alt?
      && Print(r) == GlobsText(gs, VocabOf(kind))
  {
    hide GlobTree, GlobText, VocabOf;
    if gs == [] {
    } else {
      GlobShape(gs[0], kind);
      TreeShape(gs[1..], kind);
      CatText(GlobTree(gs[0], kind), Tree(gs[1..], kind));
    }
  }

  // ---- what a pattern accepts ----

  /** One wildcard takes the whole of `s`. */
  predicate Takes(g: Glob, kind: Subject, s: string, icase: bool) {
    match g
    case Lit(c) => |s| == 1 && SameChar(c, s[0], icase)
    case Across => OneLine(s) && (kind == Names ==> s != [])
    case Within => s != [] && Separator(kind) !in s
    case Single => |s| == 1 && s[0] != Separator(kind)
  }

  /** The pattern takes `s` piece by piece, each wildcard one piece. */
  ghost predicate Fits(gs: seq<Glob>, kind: Subject, s: string, icase: bool) {
    if gs == [] then s == []
    else exists k: nat :: k <= |s| && Takes(gs[0], kind, s[..k], icase) && Fits(gs[1..], kind, s[k..], icase)
  }

  lemma NotSeparatorAt(kind: Subject, s: string, i: nat, j: nat, icase: bool)
    requires i <= j <= |s|
    ensures Matches(NotSeparator(kind), s, i, j, icase) <==> j == i + 1 && s[i] != Separator(kind)
  {
    if j == i + 1 {
      assert InItem(NotSeparator(kind).items[0], s[i]) <==> s[i] == Separator(kind);
      assert Lower(s[i]) == Separator(kind) <==> s[i] == Separator(kind);
      assert Upper(s[i]) == Separator(kind) <==> s[i] == Separator(kind);
    }
  }

  lemma AnyAt(s: string, i: nat, j: nat, icase: bool)
    requires i <= j <= |s|
    ensures Matches(Any, s, i, j, icase) <==> j == i + 1 && s[i] != '\n'
  {
  }

  /** A tree that takes one character of a kind, repeated. */
  lemma {:induction false} RunOf(r: Re, not: char, n: nat, s: string, i: nat, icase: bool)
    requires i <= |s|
    requires forall a: nat, b: nat | a <= b <= |s| :: Matches(r, s, a, b, icase) <==> b == a + 1 && s[a] != not
    ensures Repeats(r, n, s, i, |s|, icase) <==> n == |s| - i && not !in s[i..]
  {
    hide Matches;
    if n > 0 {
      if Repeats(r, n, s, i, |s|, icase) {
        var k := RepeatsFirst(r, n, s, i, |s|, icase);
        RunOf(r, not, n - 1, s, k, icase);
        assert s[i..] == [s[i]] + s[k..];
      }
      if n == |s| - i && not !in s[i..] {
        assert s[i] in s[i..] && s[i..] == [s[i]] + s[i + 1..];
        RunOf(r, not, n - 1, s, i + 1, icase);
        RepeatsMore(r, n, s, i, i + 1, |s|, icase);
      }
    }
  }

  lemma RunCovers(r: Re, not: char, times: Times, s: string, icase: bool)
    requires times == Star || times == Plus
    requires forall a: nat, b: nat | a <= b <= |s| :: Matches(r, s, a, b, icase) <==> b == a + 1 && s[a] != not
    ensures Covers(Quant(r, times, false), s, icase) <==> not !in s && (times == Plus ==> s != [])
  {
    hide Matches, Repeats;
    QuantMatches(r, times, false, s, 0, |s|, icase);
    assert s[0..] == s;
    forall n: nat ensures Repeats(r, n, s, 0, |s|, icase) <==> n == |s| && not !in s {
      RunOf(r, not, n, s, 0, icase);
    }
    if not !in s && (times == Plus ==> s != []) {
      assert InTimes(times, |s|) && Repeats(r, |s|, s, 0, |s|, icase);
    }
  }

  lemma GlobCovers(g: Glob, kind: Subject, s: string, icase: bool)
    ensures Covers(GlobTree(g, kind), s, icase) <==> Takes(g, kind, s, icase)
  {
    hide Matches, NotSeparator;
    match g
    case Lit(c) => ChrCovers(c, c in REGEX_META, s, icase);
    case Across =>
      forall a: nat, b: nat | a <= b <= |s| ensures Matches(Any, s, a, b, icase) <==> b == a + 1 && s[a] != '\n' {
        AnyAt(s, a, b, icase);
      }
      RunCovers(Any, '\n', if kind == Names then Plus else Star, s, icase);
    case Within =>
      forall a: nat, b: nat | a <= b <= |s|
        ensures Matches(NotSeparator(kind), s, a, b, icase) <==> b == a + 1 && s[a] != Separator(kind)
      {
        NotSeparatorAt(kind, s, a, b, icase);
      }
      RunCovers(NotSeparator(kind), Separator(kind), Plus, s, icase);
    case Single => NotSeparatorAt(kind, s, 0, |s|, icase);
  }

  /** The compiled expression accepts exactly the names and paths the pattern describes. */
  lemma {:induction false} TreeFits(gs: seq<Glob>, kind: Subject, s: string, icase: bool)
    requires AreGlobs(gs)
    ensures Covers(Tree(gs, kind), s, icase) <==> Fits(gs, kind, s, icase)
  {
    hide GlobTree, Takes, AnchorFree, Print, WellFormed, GlobsText, VocabOf, GlobText;
    if gs == [] {
    } else {
      var head, rest := GlobTree(gs[0], kind), Tree(gs[1..], kind);
      GlobShape(gs[0], kind);
      TreeShape(gs[1..], kind);
      CatCovers(head, rest, s, icase);
      forall k: nat | k <= |s|
        ensures SplitCovers(head, rest, s, k, icase) <==>
          Takes(gs[0], kind, s[..k], icase) && Fits(gs[1..], kind, s[k..], icase)
      {
        GlobCovers(gs[0], kind, s[..k], icase);
        TreeFits(gs[1..], kind, s[k..], icase);
      }
      if k: nat :| SplitCovers(head, rest, s, k, icase) {
        assert k <= |s| && Takes(gs[0], kind, s[..k], icase) && Fits(gs[1..], kind, s[k..], icase);
      }
      if Fits(gs, kind, s, icase) {
        var k: nat :| k <= |s| && Takes(gs[0], kind, s[..k], icase) && Fits(gs[1..], kind, s[k..], icase);
        assert SplitCovers(head, rest, s, k, icase);
      }
    }
  }

  // ---- what a literal accepts ----

  function LitGlobs(t: string): seq<Glob> {
    seq(|t|, i requires 0 <= i < |t| => Lit(t[i]))
  }

  lemma {:induction false} GlobsOfLiteral(t: string, tail: string)
    requires '*' !in t && '?' !in t
    ensures Globs(t + tail) == LitGlobs(t) + Globs(tail)
  {
    if t == [] {
      assert t + tail == tail;
    } else {
      assert t[0] in t;
      assert (t + tail)[1..] == t[1..] + tail;
      GlobsOfLiteral(t[1..], tail);
      assert LitGlobs(t) == [Lit(t[0])] + LitGlobs(t[1..]);
    }
  }

  /** Literal wildcards, then whatever `gs` takes of the rest. */
  lemma {:induction false} FitsAfterLiteral(t: string, gs: seq<Glob>, kind: Subject, s: string, icase: bool)
    ensures Fits(LitGlobs(t) + gs, kind, s, icase) <==>
      |t| <= |s| && SameText(t, s[..|t|], icase) && Fits(gs, kind, s[|t|..], icase)
  {
    if t == [] {
      assert LitGlobs(t) + gs == gs && s[0..] == s;
    } else {
      var all := LitGlobs(t) + gs;
      assert all[0] == Lit(t[0]) && all[1..] == LitGlobs(t[1..]) + gs;
      hide Fits;
      FitsLit(t[0], all[1..], kind, s, icase);
      assert all == [Lit(t[0])] + all[1..];
      if s != [] {
        FitsAfterLiteral(t[1..], gs, kind, s[1..], icase);
        if |t| <= |s| {
          assert s[1..][|t[1..]|..] == s[|t|..];
          assert s[..|t|][1..] == s[1..][..|t[1..]|] && s[..|t|][0] == s[0];
          LiteralStep(t, s[..|t|], icase);
        }
      }
    }
  }

  lemma FitsLit(c: char, gs: seq<Glob>, kind: Subject, s: string, icase: bool)
    ensures Fits([Lit(c)] + gs, kind, s, icase) <==> s != [] && SameChar(c, s[0], icase) && Fits(gs, kind, s[1..], icase)
  {
    var all := [Lit(c)] + gs;
    assert all[0] == Lit(c) && all[1..] == gs;
    if Fits(all, kind, s, icase) {
      var k: nat :| k <= |s| && Takes(all[0], kind, s[..k], icase) && Fits(all[1..], kind, s[k..], icase);
      assert k == 1;
    }
    if s != [] && SameChar(c, s[0], icase) && Fits(gs, kind, s[1..], icase) {
      assert Takes(all[0], kind, s[..1], icase) && Fits(all[1..], kind, s[1..], icase);
    }
  }

  lemma LiteralFits(t: string, kind: Subject, s: string, icase: bool)
    requires '*' !in t && '?' !in t
    ensures Fits(Globs(t), kind, s, icase) <==> SameText(t, s, icase)
  {
    GlobsOfLiteral(t, []);
    assert t + [] == t && Globs([]) == [];
    hide Globs;
    FitsAfterLiteral(t, [], kind, s, icase);
    if |t| == |s| {
      assert s[..|t|] == s;
    }
  }

  // ---- a text is the text of one pattern only ----

  lemma FirstPiece(a: Glob, x: string, b: Glob, y: string, kind: Subject)
    requires GlobText(a, VocabOf(kind)) + x == GlobText(b, VocabOf(kind)) + y
    requires (a.Lit? ==> a.c != '*' && a.c != '?') && (b.Lit? ==> b.c != '*' && b.c != '?')
    requires (x != [] ==> x[0] != '+') && (y != [] ==> y[0] != '+')
    ensures a == b && x == y
  {
    var s, t := GlobText(a, VocabOf(kind)), GlobText(b, VocabOf(kind));
    var u := s + x;
    assert u == t + y;
    assert u[0] == s[0] == t[0];
    assert '[' in REGEX_META && '.' in REGEX_META && '\\' in REGEX_META;
    if a.Lit? && b.Lit? {
      if a.c in REGEX_META {
        assert u[1] == s[1] == t[1];
      }
      assert a == b;
    } else if !a.Lit? && !b.Lit? {
      PlusTells(x, if b.Within? then y else x, kind);
      PlusTells(y, if a.Within? then x else y, kind);
    }
    assert a == b;
    assert x == u[|s|..] == y;
  }

  lemma PlusTells(x: string, y: string, kind: Subject)
    requires x != [] ==> x[0] != '+'
    ensures VocabOf(kind).single + x != VocabOf(kind).within + y
  {
    var u, v := VocabOf(kind).single + x, VocabOf(kind).within + y;
    assert v[4] == '+';
    assert |u| > 4 ==> u[4] == x[0];
  }

  lemma PieceStarts(gs: seq<Glob>, kind: Subject)
    requires AreGlobs(gs)
    ensures var t := GlobsText(gs, VocabOf(kind)); (t == [] <==> gs == []) && (t != [] ==> t[0] != '+')
  {
    assert '+' in REGEX_META;
    if gs != [] {
      var p := GlobText(gs[0], VocabOf(kind));
      assert p != [] && p[0] != '+';
      assert GlobsText(gs, VocabOf(kind))[0] == p[0];
    }
  }

  /** Two patterns written as one text are one pattern, so rules with equal texts accept the same names. */
  lemma {:induction false} TextTellsPattern(a: seq<Glob>, b: seq<Glob>, kind: Subject)
    requires AreGlobs(a) && AreGlobs(b) && GlobsText(a, VocabOf(kind)) == GlobsText(b, VocabOf(kind))
    ensures a == b
    decreases |a|
  {
    hide GlobText, VocabOf;
    PieceStarts(a, kind);
    PieceStarts(b, kind);
    if a != [] {
      PieceStarts(a[1..], kind);
      PieceStarts(b[1..], kind);
      assert (a[0].Lit? ==> a[0].c != '*') && (b[0].Lit? ==> b[0].c != '*');
      FirstPiece(a[0], GlobsText(a[1..], VocabOf(kind)), b[0], GlobsText(b[1..], VocabOf(kind)), kind);
      TextTellsPattern(a[1..], b[1..], kind);
    }
  }
}
