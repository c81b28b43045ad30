/**
 * A file read through one cached window, and the searches that run over it. The fast search,
 * which only ever holds one window, is stated as a function on the file's bytes (`FindAny`) and
 * that function is proved to refine the naive search of module Search.
 */
module FileWindow {
  import opened Search

  const SCAN_CHUNK: nat := 65536

  /** An open file. A read may fail at any time, and so may a write, partway through its bytes. */
  class BundleFile {
    var content: Bytes

    constructor (content: Bytes)
      ensures this.content == content
    {
      this.content := content;
    }

    /** Up to n bytes from off, fewer only at the end of the file. */
    method ReadAt(n: nat, off: nat) returns (ok: bool, b: Bytes)
      ensures ok ==> b == if off <= |content| then content[off..Min(off + n, |content|)] else []
    {
      ok := *;
      b := if off <= |content| then content[off..Min(off + n, |content|)] else [];
    }

    /** Overwrites in place the n bytes it gets to; writing up to the end of the file never moves the end. */
    method WriteAt(b: Bytes, off: nat) returns (ok: bool, n: nat)
      requires off + |b| <= |content|
      modifies this
      ensures n <= |b| && (ok <==> n == |b|)
      ensures content == old(content)[..off] + b[..n] + old(content)[off + n..]
    {
      n :| 0 <= n <= |b|;
      ok := n == |b|;
      content := content[..off] + b[..n] + content[off + n..];
    }

    method Truncate(size: nat) returns (ok: bool)
      requires size <= |content|
      modifies this
      ensures content == if ok then old(content)[..size] else old(content)
    {
      ok := *;
      if ok {
        content := content[..size];
      }
    }

    /** The file is open for appending, so what is written always lands at its end. */
    method WriteString(b: Bytes) returns (ok: bool)
      modifies this
      ensures ok ==> content == old(content) + b
      ensures old(content) <= content <= old(content) + b
    {
      var n :| 0 <= n <= |b|;
      ok := n == |b|;
      assert b[..|b|] == b;
      content := content + b[..n];
    }
  }

  class Window {
    const f: BundleFile
    const size: nat
    var buf: Bytes
    var off: nat
    var cap: nat

    /** The cached bytes are the slice of the file they claim to be. */
    ghost predicate Valid()
      reads this, f
    {
      && size <= |f.content|
      && |buf| <= cap
      && OccursAt(f.content, buf, off)
    }

    /** The part of the file the searches see. */
    ghost function Text(): Bytes
      reads this, f
      requires Valid()
    {
      f.content[..size]
    }

    constructor (f: BundleFile, size: nat)
      requires size <= |f.content|
      ensures Valid() && this.f == f && this.size == size
    {
      this.f, this.size := f, size;
      buf, off, cap := [], 0, 0;
    }

    /** The n bytes from start, or up to where the file ends: from the window where it holds them, else read anew. */
    method At(start: nat, n: nat) returns (ok: bool, b: Bytes)
      requires Valid() && start <= size
      modifies this
      ensures Valid()
      ensures ok ==> |b| == Min(start + n, size) - start && OccursAt(f.content, b, start)
    {
      var end := Min(start + n, size);
      if start >= off && end <= off + |buf| {
        return true, buf[start - off..end - off];
      }
      if cap < 2 * n {
        cap := 2 * n;
      }
      var read;
      ok, read := f.ReadAt(cap, start);
      if !ok {
        buf := [];
        return false, [];
      }
      buf, off := read, start;
      b := read[..Min(|read|, end - start)];
    }

    method FindAnyInFile(needles: seq<Bytes>, from: nat) returns (ok: bool, hit: Hit)
      requires Valid() && NonEmpty(needles)
      modifies this
      ensures Valid()
      ensures ok ==> hit == FindAny(Text(), needles, from)
    {
      hide FindAny, EarliestIn, Longest;
      var longest := Longest(needles);
      ghost var text := Text();
      hit := Miss;
      var start := from;
      while start < size
        invariant Valid()
        invariant FindAny(text, needles, from) == FindAny(text, needles, start)
        decreases size - start
      {
        var buf;
        ok, buf := At(start, Max(SCAN_CHUNK + longest - 1, 0));
        if !ok {
          return;
        }
        assert buf == text[start..WindowEnd(text, needles, start)];
        hit := EarliestInBuffer(buf, needles);
        FindAnyStep(text, needles, start);
        if hit.Hit? {
          return true, Hit(start + hit.at, hit.which);
        }
        if |buf| < longest {
          return true, Miss;
        }
        start := start + |buf| - longest + 1;
      }
      FindAnyStep(text, needles, start);
      return true, Miss;
    }

    method FindInFile(needle: Bytes, from: nat) returns (ok: bool, at: int)
      requires Valid() && needle != []
      modifies this
      ensures Valid()
      ensures ok ==> at == IndexOf(Text(), needle, from)
    {
      var hit;
      ok, hit := FindAnyInFile([needle], from);
      if ok {
        FindOneIsIndexOf(Text(), needle, from);
      }
      at := if hit.Hit? then hit.at else -1;
    }
  }

  /** Where a needle was found, and which one of the list it is. */
  datatype Hit = Miss | Hit(at: nat, which: nat)

  function Longest(needles: seq<Bytes>): (r: nat)
    ensures forall i | 0 <= i < |needles| :: |needles[i]| <= r
  {
    if needles == [] then 0
    else Max(Longest(needles[..|needles| - 1]), |needles[|needles| - 1]|)
  }

  predicate NonEmpty(needles: seq<Bytes>) {
    forall i | 0 <= i < |needles| :: needles[i] != []
  }

  /** Needle i lies inside needle j, reaching neither end of it. */
  predicate IsWithin(needles: seq<Bytes>, i: nat, j: nat, k: nat)
    requires i < |needles| && j < |needles|
  {
    0 < k && k + |needles[i]| < |needles[j]| && OccursAt(needles[j], needles[i], k)
  }

  /** Some needle starts needle j without being all of it. */
  predicate IsStarted(needles: seq<Bytes>, j: nat)
    requires j < |needles|
  {
    exists m | 0 <= m < |needles| :: needles[m] < needles[j]
  }

  /** A needle that holds another one inside also starts with one. */
  ghost predicate StartsFirst(needles: seq<Bytes>) {
    forall i: nat, j: nat, k: nat | i < |needles| && j < |needles| && IsWithin(needles, i, j, k) :: IsStarted(needles, j)
  }

  /** No needle starts one listed before it. */
  predicate LongerLast(needles: seq<Bytes>) {
    forall i, j | 0 <= i < j < |needles| :: !(needles[j] < needles[i])
  }

  /** The earliest hit of the first k needles in one window, later needles looked for only before it. */
  function EarliestIn(buf: Bytes, needles: seq<Bytes>, k: nat): Hit
    requires k <= |needles| && NonEmpty(needles)
  {
    if k == 0 then Miss
    else
      var prior := EarliestIn(buf, needles, k - 1);
      var haystack := Before(buf, prior, needles[k - 1]);
      var at := IndexOf(haystack, needles[k - 1], 0);
      if at != -1 then Hit(at, k - 1) else prior
  }

  /** What is left to search once something was found: n can only start before it. */
  function Before(buf: Bytes, found: Hit, n: Bytes): Bytes
    requires n != []
  {
    if found.Hit? then buf[..Min(|buf|, found.at + |n| - 1)] else buf
  }

  lemma {:induction false} EarliestInIs(buf: Bytes, needles: seq<Bytes>, k: nat)
    requires k <= |needles| && NonEmpty(needles)
    ensures var r := EarliestIn(buf, needles, k);
      && (r.Hit? ==> r.which < k && OccursAt(buf, needles[r.which], r.at))
      && (forall i, p | 0 <= i < k && OccursAt(buf, needles[i], p) ::
            r.Hit? && r.at <= p && (r.at == p ==> r.which <= i))
  {
    if k > 0 {
      EarliestInIs(buf, needles, k - 1);
      var prior := EarliestIn(buf, needles, k - 1);
      var n := needles[k - 1];
      var haystack := Before(buf, prior, n);
      forall p: nat
        ensures OccursAt(haystack, n, p) <==> p + |n| <= |haystack| && OccursAt(buf, n, p)
      {
        if p + |n| <= |haystack| {
          assert forall j | 0 <= j < |haystack| :: haystack[j] == buf[j];
        }
      }
    }
  }

  /** One window's share of the search: once a needle is found, the rest are looked for only before it. */
  method EarliestInBuffer(buf: Bytes, needles: seq<Bytes>) returns (found: Hit)
    requires NonEmpty(needles)
    ensures found == EarliestIn(buf, needles, |needles|)
  {
    found := Miss;
    for i := 0 to |needles|
      invariant found == EarliestIn(buf, needles, i)
    {
      var at := IndexOf(Before(buf, found, needles[i]), needles[i], 0);
      if at != -1 {
        found := Hit(at, i);
      }
    }
  }

  function WindowEnd(s: Bytes, needles: seq<Bytes>, from: nat): nat {
    Min(from + Max(SCAN_CHUNK + Longest(needles) - 1, 0), |s|)
  }

  /** The search as the loop makes it: one window at a time, each starting longest - 1 bytes before the last one's end. */
  function FindAny(s: Bytes, needles: seq<Bytes>, from: nat): Hit
    requires NonEmpty(needles)
    decreases |s| - from
  {
    if from >= |s| then Miss
    else
      var longest := Longest(needles);
      var buf := s[from..WindowEnd(s, needles, from)];
      match EarliestIn(buf, needles, |needles|)
      case Hit(at, which) => Hit(from + at, which)
      case Miss =>
        if |buf| < longest then Miss else FindAny(s, needles, from + |buf| - longest + 1)
  }

  lemma FindAnyStep(s: Bytes, needles: seq<Bytes>, from: nat)
    requires NonEmpty(needles)
    ensures from >= |s| ==> FindAny(s, needles, from).Miss?
    ensures from < |s| ==> var end := WindowEnd(s, needles, from);
      FindAny(s, needles, from) == match EarliestIn(s[from..end], needles, |needles|)
        case Hit(at, which) => Hit(from + at, which)
        case Miss => if end - from < Longest(needles) then Miss else FindAny(s, needles, end - Longest(needles) + 1)
  {
    hide EarliestIn, Longest;
  }

  /** Every needle occurrence is one of the window's own when it fits in it. */
  lemma WindowSees(s: Bytes, needles: seq<Bytes>, from: nat, end: nat, i: nat, p: nat)
    requires NonEmpty(needles) && from <= end <= |s| && i < |needles|
    requires from <= p && p + |needles[i]| <= end && OccursAt(s, needles[i], p)
    ensures var r := EarliestIn(s[from..end], needles, |needles|);
      r.Hit? && from + r.at <= p && (from + r.at == p ==> r.which <= i)
  {
    hide EarliestIn;
    OccursInSlice(s, needles[i], from, end, p - from);
    EarliestInIs(s[from..end], needles, |needles|);
  }

  lemma WindowHit(s: Bytes, needles: seq<Bytes>, from: nat, end: nat)
    requires NonEmpty(needles) && from <= end <= |s|
    ensures var r := EarliestIn(s[from..end], needles, |needles|);
      r.Hit? ==> r.which < |needles| && from + r.at + |needles[r.which]| <= end && OccursAt(s, needles[r.which], from + r.at)
  {
    hide EarliestIn;
    var r := EarliestIn(s[from..end], needles, |needles|);
    EarliestInIs(s[from..end], needles, |needles|);
    if r.Hit? {
      OccursInSlice(s, needles[r.which], from, end, r.at);
    }
  }

  /** A needle that starts a needle occurs where that one does. */
  lemma StarterOccurs(s: Bytes, n: Bytes, m: Bytes, p: nat)
    requires OccursAt(s, n, p) && m <= n
    ensures OccursAt(s, m, p)
  {
    assert m == n[..|m|];
    assert s[p..p + |n|] == n;
    assert s[p..p + |m|] == s[p..p + |n|][..|m|];
  }

  /**
   * Nothing occurs before the window's own hit: what runs past the window's end would hold the hit
   * inside, and so start with a shorter needle, which does not.
   */
  lemma NothingBeforeHit(s: Bytes, needles: seq<Bytes>, from: nat, end: nat, i: nat, p: nat)
    requires NonEmpty(needles) && StartsFirst(needles) && from <= end <= |s| && i < |needles|
    requires from <= p && OccursAt(s, needles[i], p)
    ensures var r := EarliestIn(s[from..end], needles, |needles|); r.Hit? ==> from + r.at <= p
    decreases |needles[i]|
  {
    hide EarliestIn;
    var r := EarliestIn(s[from..end], needles, |needles|);
    WindowHit(s, needles, from, end);
    if p + |needles[i]| <= end {
      WindowSees(s, needles, from, end, i, p);
    } else if r.Hit? && p < from + r.at {
      OccursWithin(s, needles[i], p, needles[r.which], from + r.at);
      assert IsWithin(needles, r.which, i, from + r.at - p);
      var m :| 0 <= m < |needles| && needles[m] < needles[i];
      StarterOccurs(s, needles[i], needles[m], p);
      NothingBeforeHit(s, needles, from, end, m, p);
    }
  }

  /** Of the needle that was hit no occurrence comes before, and of those hit at one place the first listed counts. */
  lemma FirstOfItsOwn(s: Bytes, needles: seq<Bytes>, from: nat, end: nat, i: nat, p: nat)
    requires NonEmpty(needles) && from <= end <= |s| && i < |needles|
    requires from <= p && OccursAt(s, needles[i], p)
    ensures var r := EarliestIn(s[from..end], needles, |needles|);
      r.Hit? ==> (r.which == i ==> from + r.at <= p) && (LongerLast(needles) && from + r.at == p ==> r.which <= i)
  {
    hide EarliestIn;
    var r := EarliestIn(s[from..end], needles, |needles|);
    WindowHit(s, needles, from, end);
    if p + |needles[i]| <= end {
      WindowSees(s, needles, from, end, i, p);
    } else if r.Hit? && from + r.at == p {
      assert needles[r.which] == s[p..p + |needles[r.which]|] == needles[i][..|needles[r.which]|];
    }
  }

  lemma {:induction false} FindAnyHit(s: Bytes, needles: seq<Bytes>, from: nat)
    requires NonEmpty(needles)
    ensures var r := FindAny(s, needles, from);
      r.Hit? ==> from <= r.at && r.which < |needles| && OccursAt(s, needles[r.which], r.at)
    decreases |s| - from
  {
    hide EarliestIn, Longest;
    if from < |s| {
      var end := WindowEnd(s, needles, from);
      WindowHit(s, needles, from, end);
      match EarliestIn(s[from..end], needles, |needles|)
      case Hit(at, which) =>
        assert FindAny(s, needles, from) == Hit(from + at, which);
      case Miss =>
        if end - from >= Longest(needles) {
          FindAnyHit(s, needles, end - Longest(needles) + 1);
        }
    }
  }

  lemma {:induction false} FindAnyFirst(s: Bytes, needles: seq<Bytes>, from: nat, i: nat, p: nat)
    requires NonEmpty(needles) && i < |needles| && from <= p && OccursAt(s, needles[i], p)
    ensures var r := FindAny(s, needles, from);
      && r.Hit?
      && (StartsFirst(needles) || r.which == i ==> r.at <= p)
      && (LongerLast(needles) && r.at == p ==> r.which <= i)
    decreases |s| - from
  {
    hide EarliestIn, Longest, StartsFirst, LongerLast;
    var end := WindowEnd(s, needles, from);
    FirstOfItsOwn(s, needles, from, end, i, p);
    if StartsFirst(needles) {
      NothingBeforeHit(s, needles, from, end, i, p);
    }
    if p + |needles[i]| <= end {
      WindowSees(s, needles, from, end, i, p);
    } else if EarliestIn(s[from..end], needles, |needles|).Miss? {
      FindAnyFirst(s, needles, end - Longest(needles) + 1, i, p);
    }
  }

  /** What is found after an occurrence of a needle lies inside that occurrence. */
  lemma {:induction false} LaterIsWithin(s: Bytes, needles: seq<Bytes>, from: nat, i: nat, p: nat)
    requires NonEmpty(needles) && i < |needles| && from <= p && OccursAt(s, needles[i], p)
    ensures var r := FindAny(s, needles, from);
      r.Hit? && r.which < |needles| && (r.at <= p || IsWithin(needles, r.which, i, r.at - p))
    decreases |s| - from
  {
    hide EarliestIn, Longest, IsWithin;
    var end := WindowEnd(s, needles, from);
    WindowHit(s, needles, from, end);
    if p + |needles[i]| <= end {
      WindowSees(s, needles, from, end, i, p);
    } else {
      var r := EarliestIn(s[from..end], needles, |needles|);
      if r.Miss? {
        LaterIsWithin(s, needles, end - Longest(needles) + 1, i, p);
      } else if p < from + r.at {
        InsideIt(s, needles, r.which, from + r.at, i, p);
      }
    }
  }

  lemma InsideIt(s: Bytes, needles: seq<Bytes>, m: nat, at: nat, i: nat, p: nat)
    requires m < |needles| && i < |needles| && OccursAt(s, needles[m], at) && OccursAt(s, needles[i], p)
    requires p < at && at + |needles[m]| < p + |needles[i]|
    ensures IsWithin(needles, m, i, at - p)
  {
    OccursWithin(s, needles[i], p, needles[m], at);
  }

  /** Wherever a needle occurs, the search finds nothing later. */
  ghost predicate FindsEarliest(needles: seq<Bytes>)
    requires NonEmpty(needles)
  {
    forall s: Bytes, from: nat, i: nat, p: nat | i < |needles| && from <= p && OccursAt(s, needles[i], p) ::
      FindAny(s, needles, from).Hit? && FindAny(s, needles, from).at <= p
  }

  /**
   * The windowed search against the naive one: it misses exactly when no needle occurs at or after
   * from; a hit is a real occurrence, and the first one of its own needle; where a needle that
   * holds another inside also starts with one, it is the earliest of any; and of needles that
   * occur at the place found the first listed is named, where none starts one listed before it.
   */
  lemma FindAnyRefinesNaive(s: Bytes, needles: seq<Bytes>, from: nat)
    requires NonEmpty(needles)
    ensures var r := FindAny(s, needles, from);
      && (r.Miss? <==> forall i, p | 0 <= i < |needles| && from <= p :: !OccursAt(s, needles[i], p))
      && (r.Hit? ==> from <= r.at && r.which < |needles| && OccursAt(s, needles[r.which], r.at))
      && (r.Hit? ==> forall i, p | 0 <= i < |needles| && from <= p && OccursAt(s, needles[i], p) ::
            && (StartsFirst(needles) || r.which == i ==> r.at <= p)
            && (LongerLast(needles) && r.at == p ==> r.which <= i))
  {
    hide FindAny, StartsFirst, LongerLast;
    FindAnyHit(s, needles, from);
    forall i, p | 0 <= i < |needles| && from <= p && OccursAt(s, needles[i], p)
      ensures var r := FindAny(s, needles, from);
        && r.Hit?
        && (StartsFirst(needles) || r.which == i ==> r.at <= p)
        && (LongerLast(needles) && r.at == p ==> r.which <= i)
    {
      FindAnyFirst(s, needles, from, i, p);
    }
  }

  /** A file whose first window ends one byte short of needle j, with nothing of any needle before it. */
  function CutShort(needles: seq<Bytes>, j: nat, filler: byte): Bytes
    requires NonEmpty(needles) && j < |needles|
  {
    seq(SCAN_CHUNK + Longest(needles) - |needles[j]|, _ => filler) + needles[j]
  }

  /**
   * Where a needle holds another inside and none starts it, its occurrence can lose: it runs past
   * the end of the window, and the search names the one inside.
   */
  lemma EarliestCanLose(needles: seq<Bytes>, i: nat, j: nat, k: nat, filler: byte)
    requires NonEmpty(needles) && i < |needles| && j < |needles| && IsWithin(needles, i, j, k) && !IsStarted(needles, j)
    requires forall m | 0 <= m < |needles| :: filler !in needles[m]
    ensures var s := CutShort(needles, j, filler); var p := |s| - |needles[j]|;
      OccursAt(s, needles[j], p) && FindAny(s, needles, 0).Hit? && FindAny(s, needles, 0).at > p
  {
    hide EarliestIn, Longest, FindAny;
    var s := CutShort(needles, j, filler);
    var n := needles[j];
    var p: nat := |s| - |n|;
    assert s[p..p + |n|] == n;
    var end := WindowEnd(s, needles, 0);
    assert end == |s| - 1;
    OccursInSlice(s, needles[i], p, p + |n|, k);
    WindowSees(s, needles, 0, end, i, p + k);
    var r := EarliestIn(s[0..end], needles, |needles|);
    WindowHit(s, needles, 0, end);
    var m := needles[r.which];
    assert s[r.at] == m[0] && m[0] in m;
    FindAnyStep(s, needles, 0);
  }

  /** The search finds the earliest occurrence in every file exactly when each needle holding another also starts with one. */
  lemma EarliestExactly(needles: seq<Bytes>, filler: byte)
    requires NonEmpty(needles) && forall m | 0 <= m < |needles| :: filler !in needles[m]
    ensures FindsEarliest(needles) <==> StartsFirst(needles)
  {
    hide FindAny, IsStarted, IsWithin;
    if StartsFirst(needles) {
      forall s: Bytes, from: nat, i: nat, p: nat | i < |needles| && from <= p && OccursAt(s, needles[i], p)
        ensures FindAny(s, needles, from).Hit? && FindAny(s, needles, from).at <= p
      {
        FindAnyFirst(s, needles, from, i, p);
      }
    } else {
      var i: nat, j: nat, k: nat :| i < |needles| && j < |needles| && IsWithin(needles, i, j, k) && !IsStarted(needles, j);
      EarliestCanLose(needles, i, j, k, filler);
      var s := CutShort(needles, j, filler);
      assert OccursAt(s, needles[j], |s| - |needles[j]|);
    }
  }

  lemma FindOneIsIndexOf(s: Bytes, needle: Bytes, from: nat)
    requires needle != []
    ensures FindAny(s, [needle], from) == if IndexOf(s, needle, from) == -1 then Miss else Hit(IndexOf(s, needle, from), 0)
  {
    var needles := [needle];
    FindAnyRefinesNaive(s, needles, from);
    var r := FindAny(s, needles, from);
    assert needles[0] == needle;
    if r.Hit? {
      IndexOfIs(s, needle, from, r.at);
    }
  }
}
