/**
 * Resolving a container path inside the rootfs, so that no link reaches outside it. A path is its
 * components; the filesystem is a map from absolute host paths to what stands there.
 */
module Resolve {

  type Name = string

  type Path = seq<Name>

  /** A link keeps its target as written: whether it starts at the root, and its components. */
  datatype Node = Dir | File | Link(absolute: bool, target: seq<Name>)

  datatype Lookup = Absent | Refused | Found(node: Node)

  const MAX_HOPS: nat := 32

  datatype FileSystem = FileSystem(nodes: map<Path, Node>, unreadable: set<Path>) {

    /** What looking at p itself says, every component above it being no link. */
    function Lstat(p: Path): Lookup {
      if p in unreadable || (exists k | 0 <= k < |p| :: p[..k] in nodes && !nodes[p[..k]].Dir?) then Refused
      else if p in nodes then Found(nodes[p])
      else Absent
    }

    /** A path below root that can be looked at, with no link in it and only directories above its last component. */
    ghost predicate Plain(root: Path, p: Path) {
      && root <= p
      && (forall k | |root| <= k < |p| :: Ordinary(p[k]))
      && (forall k | |root| < k <= |p| :: PlainAt(p[..k]))
    }

    predicate PlainAt(p: Path) {
      match Lstat(p)
      case Absent => true
      case Refused => false
      case Found(node) => !node.Link?
    }
  }

  predicate Ordinary(n: Name) {
    n != "" && n != "." && n != ".."
  }

  /** A path cleaned by its text alone: ".." takes back the name before it, and stops at the root. */
  function Clean(absolute: bool, parts: seq<Name>): seq<Name> {
    CleanOnto(absolute, [], parts)
  }

  function CleanOnto(absolute: bool, done: seq<Name>, parts: seq<Name>): seq<Name>
    decreases |parts|
  {
    if parts == [] then done
    else
      var n, rest := parts[0], parts[1..];
      if n == "" || n == "." then CleanOnto(absolute, done, rest)
      else if n != ".." then CleanOnto(absolute, done + [n], rest)
      else if done != [] && done[|done| - 1] != ".." then CleanOnto(absolute, done[..|done| - 1], rest)
      else CleanOnto(absolute, if absolute then done else done + [".."], rest)
  }

  function Join(current: Path, n: Name): Path {
    if n != ".." then current + [n]
    else if current == [] then []
    else current[..|current| - 1]
  }

  datatype Resolved = At(path: Path, hops: nat) | Unreadable | TooManyLinks

  /** Follows what remains from current. A path that climbs past the root stays there. */
  function Follow(fs: FileSystem, root: Path, current: Path, remaining: seq<Name>, hops: nat): Resolved
    requires hops <= MAX_HOPS
    decreases MAX_HOPS - hops, |remaining|
  {
    if remaining == [] then At(current, hops)
    else
      var n, rest := remaining[0], remaining[1..];
      if n == "" || n == "." then Follow(fs, root, current, rest, hops)
      else
        var next := Join(current, n);
        if !(root <= next) then Follow(fs, root, root, rest, hops)
        else
          match fs.Lstat(next)
          case Absent => Follow(fs, root, next, rest, hops)
          case Refused => Unreadable
          case Found(node) =>
            if !node.Link? then Follow(fs, root, next, rest, hops)
            else if hops == MAX_HOPS then TooManyLinks
            else
              Follow(fs, root, if node.absolute then root else current, Clean(node.absolute, node.target) + rest, hops + 1)
  }

  /** A container path, absolute whether or not it is written so. */
  function Resolution(fs: FileSystem, root: Path, path: seq<Name>): Resolved {
    Follow(fs, root, root, Clean(true, path), 0)
  }

  /** How the container itself names a path resolved inside its rootfs. */
  function ContainerPathOf(root: Path, resolved: Path): seq<Name> {
    if root <= resolved then resolved[|root|..] else []
  }

  method ResolveInRoot(fs: FileSystem, root: Path, path: seq<Name>) returns (r: Resolved)
    ensures r == Resolution(fs, root, path)
  {
    hide FileSystem.Lstat, Clean;
    var current, remaining, hops := root, Clean(true, path), 0;
    while remaining != []
      invariant hops <= MAX_HOPS
      invariant Resolution(fs, root, path) == Follow(fs, root, current, remaining, hops)
      decreases MAX_HOPS - hops, |remaining|
    {
      var n := remaining[0];
      remaining := remaining[1..];
      if n == "" || n == "." {
        continue;
      }
      var next := Join(current, n);
      if !(root <= next) {
        current := root;
        continue;
      }
      match fs.Lstat(next)
      case Refused =>
        return Unreadable;
      case Absent =>
        current := next;
      case Found(node) =>
        if !node.Link? {
          current := next;
          continue;
        }
        hops := hops + 1;
        if hops > MAX_HOPS {
          return TooManyLinks;
        }
        if node.absolute {
          current := root;
        }
        remaining := Clean(node.absolute, node.target) + remaining;
    }
    return At(current, hops);
  }

  // ----- Confinement

  lemma PlainUp(fs: FileSystem, root: Path, p: Path)
    requires fs.Plain(root, p) && |root| < |p|
    ensures fs.Plain(root, p[..|p| - 1])
  {
    hide FileSystem.PlainAt;
    var up := p[..|p| - 1];
    assert forall k | |root| < k <= |up| :: up[..k] == p[..k];
  }

  lemma PlainDown(fs: FileSystem, root: Path, p: Path, n: Name)
    requires fs.Plain(root, p) && Ordinary(n) && fs.PlainAt(p + [n])
    ensures fs.Plain(root, p + [n])
  {
    hide FileSystem.PlainAt;
    var down := p + [n];
    assert down[..|p| + 1] == down;
    assert forall k | |root| < k <= |p| :: down[..k] == p[..k];
  }

  /** Wherever the links lead, what is reached lies in the rootfs with no link below it, within the hop limit. */
  lemma {:induction false} FollowStaysInside(fs: FileSystem, root: Path, current: Path, remaining: seq<Name>, hops: nat)
    requires hops <= MAX_HOPS && fs.Plain(root, current)
    ensures var r := Follow(fs, root, current, remaining, hops);
      r.At? ==> fs.Plain(root, r.path) && hops <= r.hops <= MAX_HOPS
    decreases MAX_HOPS - hops, |remaining|
  {
    hide FileSystem.Plain, FileSystem.Lstat, Clean;
    if remaining != [] {
      var n, rest := remaining[0], remaining[1..];
      var next := Join(current, n);
      assert fs.Plain(root, root) by { RootIsPlain(fs, root); }
      if n == "" || n == "." {
        FollowStaysInside(fs, root, current, rest, hops);
      } else if !(root <= next) {
        FollowStaysInside(fs, root, root, rest, hops);
      } else if fs.PlainAt(next) {
        NextIsPlain(fs, root, current, n);
        FollowStaysInside(fs, root, next, rest, hops);
      } else if fs.Lstat(next).Found? && hops < MAX_HOPS {
        var link := fs.Lstat(next).node;
        FollowStaysInside(fs, root, if link.absolute then root else current, Clean(link.absolute, link.target) + rest, hops + 1);
      }
    }
  }

  lemma RootIsPlain(fs: FileSystem, root: Path)
    ensures fs.Plain(root, root)
  {
  }

  lemma NextIsPlain(fs: FileSystem, root: Path, current: Path, n: Name)
    requires fs.Plain(root, current) && n != "" && n != "." && root <= Join(current, n) && fs.PlainAt(Join(current, n))
    ensures fs.Plain(root, Join(current, n))
  {
    hide FileSystem.PlainAt;
    if n == ".." {
      if |root| < |current| {
        PlainUp(fs, root, current);
      }
    } else {
      PlainDown(fs, root, current, n);
    }
  }

  lemma ResolvedIsInside(fs: FileSystem, root: Path, path: seq<Name>)
    ensures var r := Resolution(fs, root, path);
      r.At? ==> fs.Plain(root, r.path) && r.hops <= MAX_HOPS
  {
    hide Clean;
    RootIsPlain(fs, root);
    FollowStaysInside(fs, root, root, Clean(true, path), 0);
  }

  // ----- Resolving again

  lemma {:induction false} CleanKeepsOrdinary(done: seq<Name>, parts: seq<Name>)
    requires forall i | 0 <= i < |parts| :: Ordinary(parts[i])
    ensures CleanOnto(true, done, parts) == done + parts
    decreases |parts|
  {
    if parts != [] {
      CleanKeepsOrdinary(done + [parts[0]], parts[1..]);
    }
  }

  /** Plain names are walked down whatever follows. */
  lemma {:induction false} FollowTo(fs: FileSystem, root: Path, p: Path, rest: seq<Name>, hops: nat, k: nat)
    requires hops <= MAX_HOPS && fs.Plain(root, p) && |root| <= k <= |p|
    ensures Follow(fs, root, p[..k], p[k..] + rest, hops) == Follow(fs, root, p, rest, hops)
    decreases |p| - k
  {
    hide FileSystem.Lstat;
    if k < |p| {
      var all := p[k..] + rest;
      assert all[0] == p[k] && all[1..] == p[k + 1..] + rest;
      assert p[..k] + [p[k]] == p[..k + 1] && root <= p[..k + 1];
      assert fs.PlainAt(p[..k + 1]) && Ordinary(p[k]);
      FollowTo(fs, root, p, rest, hops, k + 1);
    } else {
      assert p[..k] == p && p[k..] + rest == rest;
    }
  }

  /** A path resolves to itself exactly when it is plain: on an unchanged filesystem resolving again changes nothing. */
  lemma ResolvesToItself(fs: FileSystem, root: Path, p: Path)
    requires root <= p
    ensures Resolution(fs, root, ContainerPathOf(root, p)) == At(p, 0) <==> fs.Plain(root, p)
    ensures Resolution(fs, root, ContainerPathOf(root, p)).At? && Resolution(fs, root, ContainerPathOf(root, p)).path == p
      <==> fs.Plain(root, p)
  {
    hide FileSystem.PlainAt;
    ResolvedIsInside(fs, root, ContainerPathOf(root, p));
    if fs.Plain(root, p) {
      var rest := p[|root|..];
      forall i | 0 <= i < |rest|
        ensures Ordinary(rest[i])
      {
        var k := |root| + i + 1;
        assert rest[i] == p[k - 1] && fs.PlainAt(p[..k]);
      }
      CleanKeepsOrdinary([], rest);
      assert [] + rest == rest && p[..|root|] == root;
      FollowTo(fs, root, p, [], 0, |root|);
      assert rest + [] == rest;
    }
  }

  /** Taking anything away leaves a plain path plain. */
  lemma PlainWithLess(fs: FileSystem, less: FileSystem, root: Path, p: Path)
    requires fs.Plain(root, p) && less.nodes.Keys <= fs.nodes.Keys && less.unreadable == fs.unreadable
    requires forall q | q in less.nodes :: less.nodes[q] == fs.nodes[q]
    ensures less.Plain(root, p)
  {
    forall k | |root| < k <= |p|
      ensures less.PlainAt(p[..k])
    {
      assert fs.PlainAt(p[..k]);
    }
  }

  // ----- Cleaning

  /** No more to clean: names, and where nothing is above them, what climbs out first. */
  predicate IsClean(absolute: bool, parts: seq<Name>) {
    forall i | 0 <= i < |parts| :: Ordinary(parts[i]) || (!absolute && parts[i] == ".." && Climbs(parts[..i]))
  }

  predicate Climbs(parts: seq<Name>) {
    forall i | 0 <= i < |parts| :: parts[i] == ".."
  }

  lemma {:induction false} CleanAppend(absolute: bool, done: seq<Name>, a: seq<Name>, b: seq<Name>)
    ensures CleanOnto(absolute, done, a + b) == CleanOnto(absolute, CleanOnto(absolute, done, a), b)
    decreases |a|
  {
    if a == [] {
      assert a + b == b;
    } else {
      assert (a + b)[0] == a[0] && (a + b)[1..] == a[1..] + b;
      var n := a[0];
      if n == "" || n == "." {
        CleanAppend(absolute, done, a[1..], b);
      } else if n != ".." {
        CleanAppend(absolute, done + [n], a[1..], b);
      } else if done != [] && done[|done| - 1] != ".." {
        CleanAppend(absolute, done[..|done| - 1], a[1..], b);
      } else {
        CleanAppend(absolute, if absolute then done else done + [".."], a[1..], b);
      }
    }
  }

  /**
   * What cleaning does, piece by piece: it drops empty names and dots, takes a name away with the
   * ".." after it, and takes away a ".." at the root.
   */
  lemma CleanSteps(absolute: bool, a: seq<Name>, n: Name, b: seq<Name>)
    ensures Clean(absolute, a + [""] + b) == Clean(absolute, a + ["."] + b) == Clean(absolute, a + b)
    ensures Ordinary(n) ==> Clean(absolute, a + [n, ".."] + b) == Clean(absolute, a + b)
    ensures Clean(true, [".."] + b) == Clean(true, b)
  {
    var done := CleanOnto(absolute, [], a);
    CleanAppend(absolute, [], a, b);
    CleanAppend(absolute, [], a + [""], b);
    CleanAppend(absolute, [], a, [""]);
    CleanAppend(absolute, [], a + ["."], b);
    CleanAppend(absolute, [], a, ["."]);
    OneName(absolute, done);
    CleanAppend(true, [], [".."], b);
    OneName(true, []);
    if Ordinary(n) {
      CleanAppend(absolute, [], a + [n, ".."], b);
      CleanAppend(absolute, [], a, [n, ".."]);
      ThereAndBack(absolute, done, n);
    }
  }

  lemma OneName(absolute: bool, done: seq<Name>)
    ensures CleanOnto(absolute, done, [""]) == CleanOnto(absolute, done, ["."]) == done
    ensures CleanOnto(true, [], [".."]) == []
  {
    assert [""][1..] == [] && ["."][1..] == [] && [".."][1..] == [];
  }

  lemma ThereAndBack(absolute: bool, done: seq<Name>, n: Name)
    requires Ordinary(n)
    ensures CleanOnto(absolute, done, [n, ".."]) == done
  {
    var up := done + [n];
    assert [n, ".."][1..] == [".."] && [".."][1..] == [];
    assert up[|up| - 1] == n && up[..|up| - 1] == done;
    assert CleanOnto(absolute, up, [".."]) == CleanOnto(absolute, done, []);
  }

  /** What is clean stays. */
  lemma {:induction false} CleanStays(absolute: bool, done: seq<Name>, parts: seq<Name>)
    requires IsClean(absolute, done + parts)
    ensures CleanOnto(absolute, done, parts) == done + parts
    decreases |parts|
  {
    if parts == [] {
      assert done + parts == done;
    } else {
      var n := parts[0];
      assert (done + parts)[|done|] == n && (done + parts)[..|done|] == done;
      assert done + parts == (done + [n]) + parts[1..];
      if n == ".." && done != [] {
        assert done[|done| - 1] == "..";
      }
      CleanStays(absolute, done + [n], parts[1..]);
    }
  }

  /** And cleaning makes it so. */
  lemma {:induction false} CleanIsClean(absolute: bool, done: seq<Name>, parts: seq<Name>)
    requires IsClean(absolute, done)
    ensures IsClean(absolute, CleanOnto(absolute, done, parts))
    decreases |parts|
  {
    if parts != [] {
      var n, rest := parts[0], parts[1..];
      if n == "" || n == "." {
        CleanIsClean(absolute, done, rest);
      } else if n != ".." {
        CleanMore(absolute, done, n);
        CleanIsClean(absolute, done + [n], rest);
      } else if done != [] && done[|done| - 1] != ".." {
        CleanLess(absolute, done);
        CleanIsClean(absolute, done[..|done| - 1], rest);
      } else {
        if !absolute { ClimbMore(done); }
        CleanIsClean(absolute, if absolute then done else done + [".."], rest);
      }
    }
  }

  lemma CleanMore(absolute: bool, done: seq<Name>, n: Name)
    requires IsClean(absolute, done) && Ordinary(n)
    ensures IsClean(absolute, done + [n])
  {
    forall i | 0 <= i < |done| ensures (done + [n])[..i] == done[..i] && (done + [n])[i] == done[i] {
    }
  }

  lemma CleanLess(absolute: bool, done: seq<Name>)
    requires IsClean(absolute, done) && done != []
    ensures IsClean(absolute, done[..|done| - 1])
  {
    var less := done[..|done| - 1];
    forall i | 0 <= i < |less| ensures less[..i] == done[..i] && less[i] == done[i] {
    }
  }

  lemma ClimbMore(done: seq<Name>)
    requires IsClean(false, done) && (done == [] || done[|done| - 1] == "..")
    ensures IsClean(false, done + [".."])
  {
    if done != [] {
      assert Climbs(done[..|done| - 1]);
      assert forall i | 0 <= i < |done| - 1 :: done[i] == done[..|done| - 1][i];
    }
    var more := done + [".."];
    forall i | 0 <= i < |more| ensures more[i] == ".." && Climbs(more[..i]) {
    }
  }

  // ----- Where a path leads

  /** Where one has got to, what is left to walk, and how many links it took. */
  datatype Walk = Walk(at: Path, rest: seq<Name>, links: nat)

  /** One directory up, and no further than the root. */
  function Above(root: Path, p: Path): Path {
    if |p| <= |root| then root else p[..|p| - 1]
  }

  /**
   * One step of a walk: past a name that says nothing, up, down to what is no link, or at a link on
   * to its target, which starts at the root or where the link lies.
   */
  ghost predicate Step(fs: FileSystem, root: Path, a: Walk, b: Walk) {
    a.rest != [] &&
    var n, rest := a.rest[0], a.rest[1..];
    || ((n == "" || n == ".") && b == a.(rest := rest))
    || (n == ".." && b == Walk(Above(root, a.at), rest, a.links))
    || (Ordinary(n) && fs.PlainAt(a.at + [n]) && b == Walk(a.at + [n], rest, a.links))
    || (Ordinary(n) && exists target: seq<Name> ::
          || (fs.Lstat(a.at + [n]) == Found(Link(true, target)) && b == Walk(root, Clean(true, target) + rest, a.links + 1))
          || (fs.Lstat(a.at + [n]) == Found(Link(false, target)) && b == Walk(a.at, Clean(false, target) + rest, a.links + 1)))
  }

  /** A walk from one state to another. */
  ghost predicate IsWalk(fs: FileSystem, root: Path, walk: seq<Walk>, a: Walk, b: Walk) {
    && walk != [] && walk[0] == a && walk[|walk| - 1] == b
    && forall i | 0 <= i < |walk| - 1 :: Step(fs, root, walk[i], walk[i + 1])
  }

  ghost predicate Leads(fs: FileSystem, root: Path, a: Walk, b: Walk) {
    exists walk :: IsWalk(fs, root, walk, a, b)
  }

  /** What stops a walk: a name that cannot be looked at. */
  predicate IsRefused(fs: FileSystem, a: Walk) {
    a.rest != [] && Ordinary(a.rest[0]) && fs.Lstat(a.at + [a.rest[0]]).Refused?
  }

  function FollowOn(fs: FileSystem, root: Path, a: Walk): Resolved
    requires a.links <= MAX_HOPS
  {
    Follow(fs, root, a.at, a.rest, a.links)
  }

  lemma JoinIsAbove(root: Path, p: Path)
    requires root <= p
    ensures Above(root, p) == if root <= Join(p, "..") then Join(p, "..") else root
    ensures root <= Join(p, "..") <==> |root| < |p| || p == []
  {
    if |root| < |p| {
      assert p[..|p| - 1][..|root|] == root;
    }
  }

  lemma UpIsPlain(fs: FileSystem, root: Path, p: Path)
    requires fs.Plain(root, p) && fs.PlainAt(root)
    ensures fs.PlainAt(Above(root, p)) && fs.Plain(root, Above(root, p))
  {
    hide FileSystem.PlainAt;
    if |root| < |p| {
      PlainUp(fs, root, p);
      var up := p[..|p| - 1];
      if |up| > |root| {
        assert up[..|up|] == up;
      } else {
        assert up == root;
      }
    }
  }

  /** Following keeps to the steps: after one of them what is found is the same, and plain is what it stands at. */
  lemma StepFollows(fs: FileSystem, root: Path, a: Walk, b: Walk)
    requires fs.PlainAt(root) && fs.Plain(root, a.at) && a.links <= MAX_HOPS && Step(fs, root, a, b)
    ensures fs.Plain(root, b.at) && b.links <= a.links + 1
    ensures if b.links <= MAX_HOPS then FollowOn(fs, root, a) == FollowOn(fs, root, b) else FollowOn(fs, root, a) == TooManyLinks
  {
    hide FileSystem.Plain, FileSystem.Lstat, Clean;
    var n := a.rest[0];
    assert root <= a.at by { IsBelow(fs, root, a.at); }
    RootIsPlain(fs, root);
    if n == ".." {
      JoinIsAbove(root, a.at);
      UpIsPlain(fs, root, a.at);
    } else if Ordinary(n) {
      assert root <= a.at + [n] && Join(a.at, n) == a.at + [n];
      if fs.PlainAt(a.at + [n]) {
        PlainDown(fs, root, a.at, n);
      }
    }
  }

  lemma IsBelow(fs: FileSystem, root: Path, p: Path)
    requires fs.Plain(root, p)
    ensures root <= p
  {
  }

  /** What the next step is, where there is one. */
  lemma NextStep(fs: FileSystem, root: Path, a: Walk) returns (b: Walk)
    requires a.rest != [] && !IsRefused(fs, a)
    ensures Step(fs, root, a, b)
    ensures b.links > a.links || |b.rest| < |a.rest|
    ensures b.links >= a.links
  {
    hide Clean, FileSystem.Lstat;
    var n, rest := a.rest[0], a.rest[1..];
    if n == "" || n == "." {
      b := a.(rest := rest);
    } else if n == ".." {
      b := Walk(Above(root, a.at), rest, a.links);
    } else if fs.PlainAt(a.at + [n]) {
      b := Walk(a.at + [n], rest, a.links);
    } else {
      var node := fs.Lstat(a.at + [n]).node;
      b := Walk(if node.absolute then root else a.at, Clean(node.absolute, node.target) + rest, a.links + 1);
      assert node == Link(node.absolute, node.target);
    }
  }

  lemma WalkOn(fs: FileSystem, root: Path, a: Walk, b: Walk, c: Walk)
    requires Step(fs, root, a, b) && Leads(fs, root, b, c)
    ensures Leads(fs, root, a, c)
  {
    hide Step;
    var walk :| IsWalk(fs, root, walk, b, c);
    var longer := [a] + walk;
    forall i | 0 <= i < |longer| - 1 ensures Step(fs, root, longer[i], longer[i + 1]) {
      if i > 0 {
        assert longer[i] == walk[i - 1] && longer[i + 1] == walk[i];
      }
    }
    assert IsWalk(fs, root, longer, a, c);
  }

  lemma StandsStill(fs: FileSystem, root: Path, a: Walk)
    ensures Leads(fs, root, a, a)
  {
    assert IsWalk(fs, root, [a], a, a);
  }

  /** How a walk ends: where it has nothing left, where it is refused, or at one link too many. */
  ghost predicate EndsAs(fs: FileSystem, r: Resolved, b: Walk) {
    match r
    case At(p, links) => b == Walk(p, [], links) && links <= 32
    case Unreadable => b.links <= 32 && IsRefused(fs, b)
    case TooManyLinks => b.links == 33
  }

  lemma {:induction false} FollowWalks(fs: FileSystem, root: Path, a: Walk) returns (b: Walk)
    requires fs.PlainAt(root) && fs.Plain(root, a.at) && a.links <= MAX_HOPS
    ensures Leads(fs, root, a, b) && EndsAs(fs, FollowOn(fs, root, a), b)
    decreases MAX_HOPS - a.links, |a.rest|
  {
    hide Step, Leads, FileSystem.Lstat, FileSystem.Plain;
    StandsStill(fs, root, a);
    b := a;
    if a.rest != [] {
      if IsRefused(fs, a) {
        RefusedIsUnreadable(fs, root, a);
      } else {
        var next := NextStep(fs, root, a);
        StepFollows(fs, root, a, next);
        if next.links <= MAX_HOPS {
          b := FollowWalks(fs, root, next);
        } else {
          b := next;
          StandsStill(fs, root, next);
        }
        WalkOn(fs, root, a, next, b);
      }
    }
  }

  lemma RefusedIsUnreadable(fs: FileSystem, root: Path, a: Walk)
    requires fs.Plain(root, a.at) && a.links <= MAX_HOPS && IsRefused(fs, a)
    ensures FollowOn(fs, root, a) == Unreadable
  {
    hide FileSystem.Lstat;
    assert root <= a.at + [a.rest[0]];
  }

  lemma {:induction false} WalkFollows(fs: FileSystem, root: Path, walk: seq<Walk>, a: Walk, b: Walk, r: Resolved)
    requires fs.PlainAt(root) && fs.Plain(root, a.at) && a.links <= MAX_HOPS
    requires IsWalk(fs, root, walk, a, b) && EndsAs(fs, r, b)
    ensures FollowOn(fs, root, a) == r
    decreases |walk|
  {
    hide Step, FileSystem.Lstat, FileSystem.Plain;
    if |walk| == 1 {
      if r.Unreadable? {
        RefusedIsUnreadable(fs, root, a);
      }
    } else {
      var next := walk[1];
      StepFollows(fs, root, a, next);
      if next.links <= MAX_HOPS {
        assert IsWalk(fs, root, walk[1..], next, b);
        WalkFollows(fs, root, walk[1..], next, b, r);
      } else {
        LinksOnlyGrow(fs, root, walk[1..]);
        assert walk[1..][|walk| - 2] == b;
      }
    }
  }

  lemma {:induction false} LinksOnlyGrow(fs: FileSystem, root: Path, walk: seq<Walk>)
    requires walk != [] && forall i | 0 <= i < |walk| - 1 :: Step(fs, root, walk[i], walk[i + 1])
    ensures walk[|walk| - 1].links >= walk[0].links
    decreases |walk|
  {
    hide Clean, FileSystem.Lstat, FileSystem.PlainAt;
    if |walk| > 1 {
      assert Step(fs, root, walk[0], walk[1]);
      LinksOnlyGrow(fs, root, walk[1..]);
    }
  }

  /**
   * Resolving says where the path leads, for all trees and paths: to what a walk from the root has
   * come to when nothing is left of it, within the links allowed; or that the walk meets what cannot be
   * looked at, or takes one link too many.
   */
  lemma ResolutionIsWhereItLeads(fs: FileSystem, root: Path, path: seq<Name>, r: Resolved)
    requires fs.PlainAt(root)
    ensures Resolution(fs, root, path) == r
       <==> exists b :: Leads(fs, root, Walk(root, Clean(true, path), 0), b) && EndsAs(fs, r, b)
  {
    hide Clean, Leads, EndsAs, FileSystem.Lstat, FileSystem.PlainAt;
    RootIsPlain(fs, root);
    var a := Walk(root, Clean(true, path), 0);
    if Resolution(fs, root, path) == r {
      var b := FollowWalks(fs, root, a);
      assert Leads(fs, root, a, b) && EndsAs(fs, r, b);
    }
    if b :| Leads(fs, root, a, b) && EndsAs(fs, r, b) {
      WalkOfLead(fs, root, a, b, r);
    }
  }

  lemma WalkOfLead(fs: FileSystem, root: Path, a: Walk, b: Walk, r: Resolved)
    requires fs.PlainAt(root) && fs.Plain(root, a.at) && a.links <= MAX_HOPS && Leads(fs, root, a, b) && EndsAs(fs, r, b)
    ensures FollowOn(fs, root, a) == r
  {
    hide EndsAs, FileSystem.PlainAt, FileSystem.Plain, Follow;
    var walk :| IsWalk(fs, root, walk, a, b);
    WalkFollows(fs, root, walk, a, b, r);
  }

  /** A single link: to its target below the root where that is absolute, else below the directory it lies in. */
  lemma LinkLeads(fs: FileSystem, root: Path, dir: Path, n: Name, absolute: bool, target: seq<Name>)
    requires fs.PlainAt(root) && fs.Plain(root, dir) && Ordinary(n)
    requires fs.Lstat(dir + [n]) == Found(Link(absolute, target))
    requires (forall i | 0 <= i < |target| :: Ordinary(target[i])) && fs.Plain(root, (if absolute then root else dir) + target)
    ensures Resolution(fs, root, ContainerPathOf(root, dir + [n])) == At((if absolute then root else dir) + target, 1)
  {
    hide FileSystem.Lstat, FileSystem.PlainAt, Step;
    var path := ContainerPathOf(root, dir + [n]);
    assert path == dir[|root|..] + [n];
    forall i | 0 <= i < |path| ensures Ordinary(path[i]) {
      if i < |dir| - |root| {
        assert path[i] == dir[|root| + i];
      }
    }
    CleanKeepsOrdinary([], path);
    assert [] + path == path;
    CleanOrdinary(absolute, target);
    var a, b := Walk(dir, [n], 0), Walk(if absolute then root else dir, target, 1);
    FollowTo(fs, root, dir, [n], 0, |root|);
    assert dir[..|root|] == root;
    assert target + [] == target && [n][1..] == [];
    assert Step(fs, root, a, b) by { LinkStep(fs, root, dir, n, absolute, target); }
    StepFollows(fs, root, a, b);
    FollowTo(fs, root, b.at + target, [], 1, |b.at|);
    assert (b.at + target)[..|b.at|] == b.at && (b.at + target)[|b.at|..] == target;
  }

  lemma LinkStep(fs: FileSystem, root: Path, dir: Path, n: Name, absolute: bool, target: seq<Name>)
    requires Ordinary(n) && fs.Lstat(dir + [n]) == Found(Link(absolute, target)) && Clean(absolute, target) == target
    ensures Step(fs, root, Walk(dir, [n], 0), Walk(if absolute then root else dir, target, 1))
  {
    hide FileSystem.Lstat, Clean;
    var rest := [n][1..];
    assert rest == [] && Clean(absolute, target) + rest == target;
  }

  lemma CleanOrdinary(absolute: bool, target: seq<Name>)
    requires forall i | 0 <= i < |target| :: Ordinary(target[i])
    ensures Clean(absolute, target) == target
  {
    assert [] + target == target;
    CleanStays(absolute, [], target);
  }
}
