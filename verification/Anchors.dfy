/** The directories the injection makes to reach its files, and taking them back out. */
module Anchors {
  import opened Resolve
  import opened Sorting

  function Render(p: Path): string {
    if p == [] then "" else "/" + p[0] + Render(p[1..])
  }

  predicate Earlier(a: Path, b: Path) {
    Before(Render(a), Render(b))
  }

  function Compact(dirs: seq<Path>): seq<Path> {
    if |dirs| < 2 then dirs
    else if dirs[0] == dirs[1] then Compact(dirs[1..])
    else [dirs[0]] + Compact(dirs[1..])
  }

  function Reverse<T>(xs: seq<T>): seq<T> {
    if xs == [] then [] else Reverse(xs[1..]) + [xs[0]]
  }

  /** No directory twice, and lower ones ahead of those they lie in. */
  function RemovalOrder(dirs: seq<Path>): seq<Path> {
    Reverse(Compact(Sort(Earlier, dirs)))
  }

  /** No directory comes after one above it. */
  ghost predicate ChildrenFirst(order: seq<Path>) {
    forall i, j | 0 <= i < j < |order| :: !(order[i] <= order[j])
  }

  lemma {:induction false} RenderConcat(a: Path, b: Path)
    ensures Render(a + b) == Render(a) + Render(b)
    decreases |a|
  {
    if a == [] {
      assert a + b == b;
    } else {
      assert (a + b)[1..] == a[1..] + b;
      RenderConcat(a[1..], b);
    }
  }

  lemma ParentEarlier(a: Path, b: Path)
    requires a < b
    ensures Earlier(a, b)
  {
    var rest := b[|a|..];
    assert b == a + rest && Render(rest) != "";
    RenderConcat(a, rest);
    PrefixBefore(Render(a), Render(b));
  }

  lemma EarlierIsOrder()
    ensures IsOrder(Earlier)
  {
    forall x, y | Earlier(x, y)
      ensures !Earlier(y, x)
    {
      BeforeIsTotal(Render(x), Render(y));
    }
    forall x, y, z | Earlier(x, z)
      ensures Earlier(x, y) || Earlier(y, z)
    {
      BeforeIsOrder(Render(x), Render(y), Render(z));
    }
  }

  /** Directory names hold no slash, so a path reads back from its text. */
  ghost predicate SlashFree(p: Path) {
    forall i | 0 <= i < |p| :: '/' !in p[i]
  }

  lemma SlashAfter(n: string, r: string, m: string, q: string)
    requires n + r == m + q && |n| < |m| && (r == "" || r[0] == '/')
    ensures m[|n|] == '/'
  {
    assert (n + r)[|n|] == r[0] && (m + q)[|n|] == m[|n|];
  }

  lemma {:induction false} RenderInjective(a: Path, b: Path)
    requires SlashFree(a) && SlashFree(b) && Render(a) == Render(b)
    ensures a == b
    decreases |a|
  {
    if a != [] {
      var s, t := Render(a)[1..], Render(b)[1..];
      assert s == a[0] + Render(a[1..]) && t == b[0] + Render(b[1..]);
      if |a[0]| < |b[0]| {
        SlashAfter(a[0], Render(a[1..]), b[0], Render(b[1..]));
        assert false;
      } else if |b[0]| < |a[0]| {
        SlashAfter(b[0], Render(b[1..]), a[0], Render(a[1..]));
        assert false;
      }
      var k := |a[0]|;
      assert a[0] == s[..k] == t[..k] == b[0];
      assert Render(a[1..]) == s[k..] == t[k..] == Render(b[1..]);
      RenderInjective(a[1..], b[1..]);
      assert a == [a[0]] + a[1..] && b == [b[0]] + b[1..];
    }
  }

  lemma Distinct(a: Path, b: Path)
    requires SlashFree(a) && SlashFree(b) && a != b && !Earlier(b, a)
    ensures Earlier(a, b)
  {
    if Render(a) == Render(b) {
      RenderInjective(a, b);
    }
    BeforeIsTotal(Render(a), Render(b));
  }

  ghost predicate Strict(dirs: seq<Path>) {
    forall i, j | 0 <= i < j < |dirs| :: Earlier(dirs[i], dirs[j])
  }

  lemma {:induction false} CompactStrict(dirs: seq<Path>)
    requires InOrder(Earlier, dirs) && forall p | p in dirs :: SlashFree(p)
    ensures var c := Compact(dirs);
      Strict(c) && (forall p :: p in c <==> p in dirs) && (dirs != [] ==> c != [] && c[0] == dirs[0])
    decreases |dirs|
  {
    hide Earlier, SlashFree;
    if |dirs| >= 2 {
      var rest := Compact(dirs[1..]);
      CompactStrict(dirs[1..]);
      assert dirs == [dirs[0]] + dirs[1..];
      if dirs[0] != dirs[1] {
        Distinct(dirs[0], dirs[1]);
        EarlierIsOrder();
        forall j | 0 <= j < |rest|
          ensures Earlier(dirs[0], rest[j])
        {
          assert j > 0 ==> Earlier(rest[0], rest[j]);
        }
      }
    }
  }

  lemma {:induction false} ReverseAt<T>(xs: seq<T>, k: nat)
    requires k < |xs|
    ensures |Reverse(xs)| == |xs| && Reverse(xs)[k] == xs[|xs| - 1 - k]
    decreases |xs|
  {
    if |xs| > 1 {
      ReverseAt(xs[1..], if k < |xs| - 1 then k else 0);
    }
  }

  /** The order removal takes: every created directory once, and none before one below it. */
  lemma RemovalOrderIs(dirs: seq<Path>)
    requires forall p | p in dirs :: SlashFree(p)
    ensures var order := RemovalOrder(dirs);
      ChildrenFirst(order) && forall p :: p in order <==> p in dirs
  {
    hide Earlier, Compact, Reverse, Sort;
    EarlierIsOrder();
    SortInOrder(Earlier, dirs);
    SortMembers(Earlier, dirs);
    CompactStrict(Sort(Earlier, dirs));
    var c := Compact(Sort(Earlier, dirs));
    var order := Reverse(c);
    assert |order| == |c| by { ReverseLength(c); }
    forall i, j | 0 <= i < j < |order|
      ensures !(order[i] <= order[j])
    {
      ReverseAt(c, i);
      ReverseAt(c, j);
      assert Earlier(order[j], order[i]);
      assert !Earlier(order[i], order[j]);
      if order[i] <= order[j] && order[i] != order[j] {
        ParentEarlier(order[i], order[j]);
      }
    }
    forall p
      ensures p in order <==> p in c
    {
      if p in c {
        var k :| 0 <= k < |c| && c[k] == p;
        ReverseAt(c, |c| - 1 - k);
      }
      if p in order {
        var k :| 0 <= k < |order| && order[k] == p;
        ReverseAt(c, k);
      }
    }
  }

  lemma ReverseLength<T>(xs: seq<T>)
    ensures |Reverse(xs)| == |xs|
  {
    if xs != [] {
      ReverseAt(xs, 0);
    }
  }

  // ----- Making and taking back

  /** A directory that is not there, and those above it that are not, deepest first. */
  function Missing(fs: FileSystem, dir: Path): seq<Path> {
    if dir == [] || !fs.Lstat(dir).Absent? then [] else [dir] + Missing(fs, dir[..|dir| - 1])
  }

  /** A directory goes only when it is empty; anything else that stands at the path goes. */
  function Remove(fs: FileSystem, p: Path): FileSystem {
    if p !in fs.nodes || (fs.nodes[p].Dir? && exists q | q in fs.nodes :: p < q) then fs
    else fs.(nodes := fs.nodes - {p})
  }

  /** Removes what still lands where it was created, but for what is spared: adopted, or refused by the system. */
  function TakeBack(fs: FileSystem, root: Path, spared: set<Path>, dir: Path): FileSystem {
    var r := Resolution(fs, root, ContainerPathOf(root, dir));
    if dir in spared || !r.At? || r.path != dir then fs else Remove(fs, dir)
  }

  function TakeBackAll(fs: FileSystem, root: Path, spared: set<Path>, order: seq<Path>): FileSystem
    decreases |order|
  {
    if order == [] then fs else TakeBackAll(TakeBack(fs, root, spared, order[0]), root, spared, order[1..])
  }

  class Host {
    const root: Path
    var fs: FileSystem

    /**
     * Makes dir and what is missing above it; a failure partway leaves only upper ones made. The path
     * is one that was resolved, so no part of it is a link that looking at it would follow.
     */
    method MkdirAllTracking(dir: Path) returns (created: seq<Path>, ok: bool)
      requires fs.Plain(root, dir)
      modifies this
      ensures created == Missing(old(fs), dir) && fs.unreadable == old(fs).unreadable
      ensures forall p | p in created :: p !in old(fs).nodes && p <= dir
      ensures forall p :: p in fs.nodes && p !in old(fs).nodes ==> p in created && fs.nodes[p] == Dir
      ensures forall p | p in old(fs).nodes :: p in fs.nodes && fs.nodes[p] == old(fs).nodes[p]
      ensures ok ==> forall p | p in created :: p in fs.nodes
    {
      created := [];
      var d := dir;
      while d != [] && fs.Lstat(d).Absent?
        invariant unchanged(this) && d <= dir
        invariant Missing(fs, dir) == created + Missing(fs, d)
        invariant forall p | p in created :: p !in fs.nodes && p <= dir
        decreases |d|
      {
        created := created + [d];
        d := d[..|d| - 1];
      }
      var made := created;
      ok := *;
      if !ok {
        var n: nat :| n <= |created|;
        made := created[n..];
      }
      fs := fs.(nodes := fs.nodes + map p | p in made :: Dir);
    }

    /** Takes back the created directories, deepest first. The system can refuse to remove any of them. */
    method RemoveCreatedDirs(created: seq<Path>, adopted: set<Path>, refused: set<Path>)
      modifies this
      ensures fs == TakeBackAll(old(fs), root, adopted + refused, RemovalOrder(created))
    {
      hide FileSystem.Lstat;
      var order := RemovalOrder(created);
      ghost var spared := adopted + refused;
      for i := 0 to |order|
        invariant TakeBackAll(fs, root, spared, order[i..]) == TakeBackAll(old(fs), root, spared, order)
      {
        var dir := order[i];
        assert order[i..][0] == dir && order[i..][1..] == order[i + 1..];
        if dir in adopted {
          continue;
        }
        var r := ResolveInRoot(fs, root, ContainerPathOf(root, dir));
        if !r.At? || r.path != dir {
          continue;
        }
        if dir in refused {
          continue;
        }
        fs := Remove(fs, dir);
      }
    }
  }

  /** Nothing stands below what is not a directory. */
  ghost predicate IsTree(fs: FileSystem) {
    forall p, q | p in fs.nodes && q in fs.nodes && p < q :: fs.nodes[p].Dir?
  }

  /** Taking one plain path away makes no other path that stands plain. */
  lemma PlainBefore(fs: FileSystem, root: Path, d: Path, p: Path)
    requires IsTree(fs) && p in fs.nodes && p != d && fs.Plain(root, d)
    requires fs.(nodes := fs.nodes - {d}).Plain(root, p)
    ensures fs.Plain(root, p)
  {
    var next := fs.(nodes := fs.nodes - {d});
    forall k | |root| < k <= |p|
      ensures fs.PlainAt(p[..k])
    {
      assert next.PlainAt(p[..k]);
      if p[..k] == d {
        assert fs.PlainAt(d[..|d|]) && d[..|d|] == d;
      } else {
        assert p[..k] in fs.nodes ==> p[..k] in next.nodes;
        forall j | 0 <= j < k && p[..k][..j] in fs.nodes
          ensures fs.nodes[p[..k][..j]].Dir?
        {
          assert p[..k][..j] == p[..j] && p[..j] < p;
        }
      }
    }
  }

  /** What is left is untouched; what went was created, not spared, plain, and nothing of it stays behind below it. */
  lemma {:induction false} OnlyCreatedGo(fs: FileSystem, root: Path, spared: set<Path>, order: seq<Path>)
    requires IsTree(fs) && forall p | p in order :: root <= p
    ensures var left := TakeBackAll(fs, root, spared, order);
      && left.unreadable == fs.unreadable
      && (forall p | p in left.nodes :: p in fs.nodes && left.nodes[p] == fs.nodes[p])
      && (forall p | p in fs.nodes && p !in left.nodes ::
            p in order && p !in spared && fs.Plain(root, p)
            && (fs.nodes[p].Dir? ==> forall q | q in fs.nodes && p < q :: q !in left.nodes))
    decreases |order|
  {
    hide Resolution, ContainerPathOf, FileSystem.Plain;
    if order != [] {
      var d := order[0];
      var next := TakeBack(fs, root, spared, d);
      assert d in order && forall p | p in order[1..] :: p in order;
      ResolvesToItself(fs, root, d);
      OnlyCreatedGo(next, root, spared, order[1..]);
      forall p | p in next.nodes && p != d && next.Plain(root, p)
        ensures fs.Plain(root, p)
      {
        if next != fs {
          PlainBefore(fs, root, d, p);
        }
      }
    }
  }

  /** A directory tree of nothing but created directories, all still where they were made. */
  ghost predicate OwnTree(fs: FileSystem, root: Path, spared: set<Path>, order: seq<Path>, p: Path) {
    forall q | q in fs.nodes && p <= q :: q in order && q !in spared && fs.nodes[q].Dir? && root <= q && fs.Plain(root, q)
  }

  lemma NoneBelowFirst(order: seq<Path>, q: Path)
    requires ChildrenFirst(order) && q in order && q != order[0]
    ensures !(order[0] <= q)
  {
    var k :| 0 <= k < |order| && order[k] == q;
  }

  lemma PlainIsNoLink(fs: FileSystem, root: Path, p: Path)
    requires p in fs.nodes && fs.Plain(root, p) && root < p
    ensures !fs.nodes[p].Link?
  {
    assert fs.PlainAt(p[..|p|]) && p[..|p|] == p;
  }

  /** Going children first, a created directory that holds nothing but created ones is taken back with all of them. */
  lemma {:induction false} OwnTreeGoes(fs: FileSystem, root: Path, spared: set<Path>, order: seq<Path>, p: Path)
    requires ChildrenFirst(order) && OwnTree(fs, root, spared, order, p)
    ensures p !in TakeBackAll(fs, root, spared, order).nodes
    decreases |order|
  {
    hide Resolution, ContainerPathOf, FileSystem.Plain;
    if order != [] {
      var d := order[0];
      var next := TakeBack(fs, root, spared, d);
      if p <= d && d in fs.nodes {
        ResolvesToItself(fs, root, d);
        forall q | q in order && q != d
          ensures !(d <= q)
        {
          NoneBelowFirst(order, q);
        }
      }
      forall q | q in next.nodes && p <= q
        ensures q in order[1..] && next.Plain(root, q)
      {
        assert order == [d] + order[1..];
        PlainWithLess(fs, next, root, q);
      }
      OwnTreeGoes(next, root, spared, order[1..], p);
    }
  }

  lemma {:induction false} FileGoes(fs: FileSystem, root: Path, spared: set<Path>, order: seq<Path>, p: Path)
    requires IsTree(fs) && forall q | q in order :: root <= q
    requires p in order && p !in spared && fs.Plain(root, p) && (p in fs.nodes ==> fs.nodes[p].File?)
    ensures p !in TakeBackAll(fs, root, spared, order).nodes
    decreases |order|
  {
    hide Resolution, ContainerPathOf, FileSystem.Plain;
    var d := order[0];
    var next := TakeBack(fs, root, spared, d);
    assert order == [d] + order[1..] && d in order && forall q | q in order[1..] :: q in order;
    ResolvesToItself(fs, root, d);
    PlainWithLess(fs, next, root, p);
    if p in order[1..] {
      FileGoes(next, root, spared, order[1..], p);
    } else {
      OnlyCreatedGo(next, root, spared, order[1..]);
    }
  }

  /**
   * What is taken back need not be a directory: a file the step put where a created directory stood
   * goes too. Only directories go exactly when no created path ends up holding a file.
   */
  lemma {:induction false} OnlyDirectoriesGo(fs: FileSystem, root: Path, spared: set<Path>, order: seq<Path>)
    requires IsTree(fs) && forall p | p in order :: root < p
    ensures (forall p | p in fs.nodes && p !in TakeBackAll(fs, root, spared, order).nodes :: fs.nodes[p].Dir?)
      <==> forall p | p in order && p in fs.nodes && p !in spared && fs.Plain(root, p) :: !fs.nodes[p].File?
  {
    hide FileSystem.Plain, TakeBackAll;
    OnlyCreatedGo(fs, root, spared, order);
    forall p | p in order && p in fs.nodes && p !in spared && fs.Plain(root, p) && fs.nodes[p].File?
      ensures p !in TakeBackAll(fs, root, spared, order).nodes
    {
      FileGoes(fs, root, spared, order, p);
    }
    forall p | p in fs.nodes && fs.Plain(root, p) && root < p
      ensures !fs.nodes[p].Link?
    {
      PlainIsNoLink(fs, root, p);
    }
  }
}
