/** Stable sorting by a strict order, and the order of strings by their characters. */
module Sorting {

  function Insert<T>(less: (T, T) -> bool, x: T, xs: seq<T>): seq<T> {
    if xs == [] then [x]
    else if less(xs[0], x) then [xs[0]] + Insert(less, x, xs[1..])
    else [x] + xs
  }

  /** Equal elements keep their order. */
  function Sort<T>(less: (T, T) -> bool, xs: seq<T>): seq<T> {
    if xs == [] then [] else Insert(less, xs[0], Sort(less, xs[1..]))
  }

  lemma {:induction false} InsertPermutes<T>(less: (T, T) -> bool, x: T, xs: seq<T>)
    ensures multiset(Insert(less, x, xs)) == multiset{x} + multiset(xs)
    decreases |xs|
  {
    if xs != [] {
      assert xs == [xs[0]] + xs[1..];
      InsertPermutes(less, x, xs[1..]);
    }
  }

  lemma {:induction false} SortPermutes<T>(less: (T, T) -> bool, xs: seq<T>)
    ensures multiset(Sort(less, xs)) == multiset(xs)
    decreases |xs|
  {
    if xs != [] {
      assert xs == [xs[0]] + xs[1..];
      SortPermutes(less, xs[1..]);
      InsertPermutes(less, xs[0], Sort(less, xs[1..]));
    }
  }

  lemma SortMembers<T>(less: (T, T) -> bool, xs: seq<T>)
    ensures |Sort(less, xs)| == |xs| && forall x :: x in Sort(less, xs) <==> x in xs
  {
    SortPermutes(less, xs);
    assert |multiset(Sort(less, xs))| == |multiset(xs)|;
    assert forall x :: x in Sort(less, xs) <==> x in multiset(Sort(less, xs));
    assert forall x :: x in xs <==> x in multiset(xs);
  }

  /** Of three, an element not after the second, itself not after the third, is not after the third. */
  ghost predicate IsOrder<T(!new)>(less: (T, T) -> bool) {
    && (forall x, y :: less(x, y) ==> !less(y, x))
    && (forall x, y, z :: less(x, z) ==> less(x, y) || less(y, z))
  }

  predicate InOrder<T>(less: (T, T) -> bool, xs: seq<T>) {
    forall i, j | 0 <= i < j < |xs| :: !less(xs[j], xs[i])
  }

  lemma {:induction false} InsertInOrder<T(!new)>(less: (T, T) -> bool, x: T, xs: seq<T>)
    requires IsOrder(less) && InOrder(less, xs)
    ensures InOrder(less, Insert(less, x, xs))
    decreases |xs|
  {
    if xs != [] && less(xs[0], x) {
      InsertInOrder(less, x, xs[1..]);
      var rest := Insert(less, x, xs[1..]);
      InsertPermutes(less, x, xs[1..]);
      forall y | y in rest
        ensures !less(y, xs[0])
      {
        assert y in multiset(rest);
        assert y == x || y in multiset(xs[1..]);
      }
    }
  }

  lemma {:induction false} SortInOrder<T(!new)>(less: (T, T) -> bool, xs: seq<T>)
    requires IsOrder(less)
    ensures InOrder(less, Sort(less, xs))
    decreases |xs|
  {
    if xs != [] {
      SortInOrder(less, xs[1..]);
      InsertInOrder(less, xs[0], Sort(less, xs[1..]));
    }
  }

  predicate Before(s: string, t: string) {
    t != [] && (s == [] || s[0] < t[0] || (s[0] == t[0] && Before(s[1..], t[1..])))
  }

  lemma {:induction false} BeforeIsTotal(s: string, t: string)
    ensures Before(s, t) ==> !Before(t, s) && s != t
    ensures s != t ==> Before(s, t) || Before(t, s)
  {
    if s != [] && t != [] && s[0] == t[0] {
      BeforeIsTotal(s[1..], t[1..]);
      assert s == [s[0]] + s[1..] && t == [t[0]] + t[1..];
    }
  }

  lemma {:induction false} BeforeIsOrder(s: string, t: string, u: string)
    requires Before(s, u)
    ensures Before(s, t) || Before(t, u)
  {
    if s != [] && t != [] && u != [] && s[0] == t[0] == u[0] {
      BeforeIsOrder(s[1..], t[1..], u[1..]);
    }
  }

  /** The order of a dictionary: what ends first, or has the lesser character where the two first differ. */
  lemma {:induction false} BeforeIs(s: string, t: string)
    ensures Before(s, t) <==> s < t || exists k: nat :: k < |s| && k < |t| && s[..k] == t[..k] && s[k] < t[k]
  {
    if s != [] && t != [] && s[0] == t[0] {
      BeforeIs(s[1..], t[1..]);
      assert s < t <==> s[1..] < t[1..];
      if k: nat :| k < |s| && k < |t| && s[..k] == t[..k] && s[k] < t[k] {
        assert s[1..][..k - 1] == s[..k][1..] && t[1..][..k - 1] == t[..k][1..] && s[1..][k - 1] < t[1..][k - 1];
      }
      if k: nat :| k < |s[1..]| && k < |t[1..]| && s[1..][..k] == t[1..][..k] && s[1..][k] < t[1..][k] {
        assert s[..k + 1] == [s[0]] + s[1..][..k] && t[..k + 1] == [t[0]] + t[1..][..k] && s[k + 1] < t[k + 1];
      }
    } else if s != [] && t != [] {
      assert s[..0] == t[..0];
      FirstDiffers(s, t);
    }
  }

  lemma FirstDiffers(s: string, t: string)
    requires s != [] && t != [] && s[0] != t[0]
    ensures !(s < t) && forall k: nat | 0 < k < |s| && k < |t| :: s[..k] != t[..k]
  {
    forall k: nat | 0 < k < |s| && k < |t| ensures s[..k] != t[..k] {
      assert s[..k][0] == s[0] && t[..k][0] == t[0];
    }
  }

  /** A proper prefix comes first. */
  lemma {:induction false} PrefixBefore(s: string, t: string)
    requires s < t
    ensures Before(s, t)
  {
    if s != [] {
      PrefixBefore(s[1..], t[1..]);
    }
  }

  lemma TwiceIn<T>(s: seq<T>, j: nat, k: nat)
    requires j < k < |s| && s[j] == s[k]
    ensures multiset(s)[s[j]] >= 2
  {
    assert s == s[..j] + [s[j]] + s[j + 1..k] + [s[k]] + s[k + 1..];
  }

  lemma OnceIn<T>(all: seq<T>, a: nat)
    requires a < |all| && forall i, l | 0 <= i < l < |all| :: all[i] != all[l]
    ensures multiset(all)[all[a]] <= 1
  {
    assert all == all[..a] + [all[a]] + all[a + 1..];
    assert all[a] !in all[..a] && all[a] !in all[a + 1..];
  }

  /** Rearranging a list without repeats makes none. */
  lemma StaysDistinct<T>(all: seq<T>, s: seq<T>, a: nat, j: nat, k: nat)
    requires multiset(all) == multiset(s) && j < k < |s| && a < |all| && all[a] == s[j]
    requires forall i, l | 0 <= i < l < |all| :: all[i] != all[l]
    ensures s[j] != s[k]
  {
    OnceIn(all, a);
    if s[j] == s[k] {
      TwiceIn(s, j, k);
    }
  }

  lemma SortStaysDistinct<T>(less: (T, T) -> bool, xs: seq<T>)
    requires forall i, l | 0 <= i < l < |xs| :: xs[i] != xs[l]
    ensures forall j, k | 0 <= j < k < |Sort(less, xs)| :: Sort(less, xs)[j] != Sort(less, xs)[k]
  {
    hide Sort;
    SortPermutes(less, xs);
    var s := Sort(less, xs);
    forall j, k | 0 <= j < k < |s| ensures s[j] != s[k] {
      assert s[j] in multiset(s);
      assert s[j] in multiset(xs);
      var a :| 0 <= a < |xs| && xs[a] == s[j];
      StaysDistinct(xs, s, a, j, k);
    }
  }
}
