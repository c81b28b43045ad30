/** Byte strings and the naive searches every faster search here is proved against. */
module Search {

  type byte = x: int | 0 <= x < 256

  type Bytes = seq<byte>

  datatype Option<+T> = None | Some(value: T)

  function Min(a: int, b: int): int { if a <= b then a else b }

  function Max(a: int, b: int): int { if a <= b then b else a }

  predicate OccursAt<T(==)>(s: seq<T>, n: seq<T>, i: int) {
    0 <= i <= |s| - |n| && forall k | 0 <= k < |n| :: s[i + k] == n[k]
  }

  predicate Contains<T(==)>(s: seq<T>, n: seq<T>) {
    IndexOf(s, n, 0) != -1
  }

  /** The first occurrence of n in s at or after from, or -1. */
  function IndexOf<T(==)>(s: seq<T>, n: seq<T>, from: nat): (r: int)
    ensures r != -1 ==> from <= r && OccursAt(s, n, r)
    ensures forall j | from <= j && (r == -1 || j < r) :: !OccursAt(s, n, j)
    decreases |s| - from
  {
    if from + |n| > |s| then -1
    else if OccursAt(s, n, from) then from
    else IndexOf(s, n, from + 1)
  }

  /** The last occurrence of n in s that starts before end, or -1. */
  function LastIndexOf<T(==)>(s: seq<T>, n: seq<T>, end: int): (r: int)
    requires end <= |s| - |n| + 1
    ensures r != -1 ==> r < end && OccursAt(s, n, r)
    ensures forall j | r < j < end :: !OccursAt(s, n, j)
    decreases end
  {
    if end <= 0 then -1
    else if OccursAt(s, n, end - 1) then end - 1
    else LastIndexOf(s, n, end - 1)
  }

  /** Whether b holds one of needles whole. */
  predicate HoldsAny(b: Bytes, needles: seq<Bytes>) {
    exists i | 0 <= i < |needles| :: Contains(b, needles[i])
  }

  function Ascii(s: string): Bytes {
    seq(|s|, i requires 0 <= i < |s| => s[i] as int % 256)
  }

  lemma IndexOfIs<T>(s: seq<T>, n: seq<T>, from: nat, at: nat)
    requires from <= at && OccursAt(s, n, at)
    requires forall j | from <= j < at :: !OccursAt(s, n, j)
    ensures IndexOf(s, n, from) == at
  {
  }

  lemma SliceOfSlice<T>(s: seq<T>, lo: nat, hi: nat, i: nat, j: nat)
    requires lo <= hi <= |s| && i <= j <= hi - lo
    ensures s[lo..hi][i..j] == s[lo + i..lo + j]
  {
    var a, b := s[lo..hi][i..j], s[lo + i..lo + j];
    assert forall k | 0 <= k < j - i :: a[k] == s[lo..hi][i + k] == s[lo + i + k] == b[k];
  }

  /** An occurrence is the needle itself as a piece of the text. */
  lemma OccursIsSlice<T>(s: seq<T>, n: seq<T>, i: nat)
    requires i + |n| <= |s|
    ensures OccursAt(s, n, i) <==> s[i..i + |n|] == n
  {
    if OccursAt(s, n, i) {
      assert forall k | 0 <= k < |n| :: s[i..i + |n|][k] == s[i + k] == n[k];
    } else {
      var k :| 0 <= k < |n| && s[i + k] != n[k];
      assert s[i..i + |n|][k] != n[k];
    }
  }

  /** An occurrence inside a piece of s is an occurrence in s, and back. */
  lemma OccursInSlice<T>(s: seq<T>, n: seq<T>, lo: nat, hi: nat, i: nat)
    requires lo <= hi <= |s|
    ensures OccursAt(s[lo..hi], n, i) <==> lo + i + |n| <= hi && OccursAt(s, n, lo + i)
  {
    if lo + i + |n| <= hi {
      assert forall k | 0 <= k < |n| :: s[lo..hi][i + k] == n[k] <==> s[lo + i + k] == n[k];
    }
  }

  /** Of two overlapping occurrences, one that covers the other holds it. */
  lemma OccursWithin<T>(s: seq<T>, outer: seq<T>, p: nat, inner: seq<T>, q: nat)
    requires OccursAt(s, outer, p) && OccursAt(s, inner, q)
    requires p <= q && q + |inner| <= p + |outer|
    ensures OccursAt(outer, inner, q - p)
  {
    forall k | 0 <= k < |inner|
      ensures outer[q - p + k] == inner[k]
    {
      assert s[p + (q - p + k)] == outer[q - p + k];
    }
  }

  /** A search in a longer text that meets no occurrence past the shorter one's end finds the same. */
  lemma IndexOfExtend<T>(u: seq<T>, v: seq<T>, n: seq<T>, from: nat)
    requires u <= v
    requires forall p | from <= p && p + |n| > |u| :: !OccursAt(v, n, p)
    ensures IndexOf(v, n, from) == IndexOf(u, n, from)
  {
    forall p: nat | p + |n| <= |u|
      ensures OccursAt(v, n, p) <==> OccursAt(u, n, p)
    {
      OccursInPrefix(u, v, n, p);
    }
  }

  lemma OccursInPrefix<T>(u: seq<T>, v: seq<T>, n: seq<T>, p: nat)
    requires u <= v && p + |n| <= |u|
    ensures OccursAt(v, n, p) <==> OccursAt(u, n, p)
  {
  }

  lemma IndexOfFound<T>(u: seq<T>, v: seq<T>, n: seq<T>, from: nat)
    requires u <= v && IndexOf(u, n, from) != -1
    ensures IndexOf(v, n, from) == IndexOf(u, n, from)
  {
    var at := IndexOf(u, n, from);
    forall p: nat | p <= at
      ensures OccursAt(v, n, p) <==> OccursAt(u, n, p)
    {
      if p + |n| <= |u| {
        OccursInPrefix(u, v, n, p);
      }
    }
    IndexOfIs(v, n, from, at);
  }

  lemma SliceOfConcat<T>(b: seq<T>, r: seq<T>, lo: nat, hi: nat)
    requires lo <= |b| <= hi <= |b| + |r|
    ensures (b + r)[lo..hi] == b[lo..] + r[..hi - |b|]
  {
  }

  lemma OccursParts<T>(s: seq<T>, n: seq<T>, m: seq<T>, q: nat)
    requires OccursAt(s, n + m, q)
    ensures OccursAt(s, n, q) && OccursAt(s, m, q + |n|)
  {
    assert forall k | 0 <= k < |n| :: (n + m)[k] == n[k];
    forall k | 0 <= k < |m|
      ensures s[q + |n| + k] == m[k]
    {
      assert s[q + (|n| + k)] == (n + m)[|n| + k];
    }
  }

  lemma HoldsItself(ders: seq<Bytes>, i: nat)
    requires i < |ders|
    ensures HoldsAny(ders[i], ders)
  {
    assert OccursAt(ders[i], ders[i], 0);
  }
}
