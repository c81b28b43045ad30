/**
 * Planning the binds that put the CA before a step: targets grouped by directory, nested directories
 * folded into the outermost, and a directory that cannot be bound left to the ones under it
 * (docker/inspect/buildcage-runc/mount.go 87-166, inject.go 337-361, 394-430, spec.go 142-183).
 */
module Binds {
  import opened Search
  import opened Sorting
  import opened Text

  type Path = seq<string>

  /** `withinDir` on host paths: the file system's root holds no directory but itself. */
  predicate WithinDir(path: Path, dir: Path) {
    path == dir || (dir != [] && dir <= path)
  }

  /** `pathWithin` on container paths, whose root holds all. */
  predicate PathWithin(path: Path, dir: Path) {
    dir <= path
  }

  predicate Nested(a: Path, b: Path) {
    PathWithin(a, b) || PathWithin(b, a)
  }

  type Groups = map<Path, seq<Path>>

  /** The targets of a group, as whole paths. */
  function FullPaths(dir: Path, names: seq<Path>): seq<Path> {
    seq(|names|, i requires 0 <= i < |names| => dir + names[i])
  }

  function TargetsOf(groups: Groups, dirs: seq<Path>): seq<Path> {
    if dirs == [] then []
    else
      var last := dirs[|dirs| - 1];
      TargetsOf(groups, dirs[..|dirs| - 1]) + if last in groups then FullPaths(last, groups[last]) else []
  }

  predicate NoRepeats(xs: seq<Path>) {
    forall i, j | 0 <= i < j < |xs| :: xs[i] != xs[j]
  }

  // ---- grouping by directory ----

  /** The directory whose mirror carries the target: the store's where the target is under it. */
  function GroupOf(target: Path, store: Option<Path>): (dir: Path)
    requires target != []
    ensures dir <= target
  {
    if store.Some? && WithinDir(target, store.value) then store.value else target[..|target| - 1]
  }

  /** The directory that carries a target: the store where the target is in it, else the target's own. */
  predicate Carries(dir: Path, target: Path, store: Option<Path>)
    requires target != []
  {
    if store.Some? && store.value != [] && store.value <= target then dir == store.value else dir == target[..|target| - 1]
  }

  /** The groups hold the targets of `done`, each in its own directory's, and nothing else. */
  ghost predicate GroupsHold(groups: Groups, done: set<Path>, store: Option<Path>)
    requires [] !in done
  {
    && (forall dir | dir in groups :: NoRepeats(groups[dir]) && groups[dir] != [])
    && (forall dir, name: Path | dir in groups && name in groups[dir] :: dir + name in done && Carries(dir, dir + name, store))
    && (forall target | target in done :: IsGrouped(groups, target, store))
  }

  predicate IsGrouped(groups: Groups, target: Path, store: Option<Path>)
    requires target != []
  {
    var dir := GroupOf(target, store);
    dir in groups && target[|dir|..] in groups[dir]
  }

  lemma GroupCarries(target: Path, store: Option<Path>)
    requires target != []
    ensures Carries(GroupOf(target, store), target, store) && GroupOf(target, store) <= target
  {
  }

  lemma GroupOne(groups: Groups, done: set<Path>, store: Option<Path>, target: Path)
    requires [] !in done && target != [] && target !in done && GroupsHold(groups, done, store)
    ensures var dir := GroupOf(target, store);
      |dir| <= |target| &&
      GroupsHold(groups[dir := (if dir in groups then groups[dir] else []) + [target[|dir|..]]], done + {target}, store)
  {
    GroupCarries(target, store);
    hide GroupOf, Carries;
    var dir := GroupOf(target, store);
    var name, names := target[|dir|..], if dir in groups then groups[dir] else [];
    var groups' := groups[dir := names + [name]];
    assert dir + name == target;
    assert name !in names;
    NoRepeatsJoin(names, [name]);
    forall d, n: Path | d in groups' && n in groups'[d] ensures d + n in done + {target} && Carries(d, d + n, store) {
      if d == dir && n !in names {
        assert n == name;
      } else {
        assert d in groups && n in groups[d];
      }
    }
    forall t | t in done + {target} ensures IsGrouped(groups', t, store) {
      if t != target {
        StaysGrouped(groups, dir, name, t, store);
      }
    }
    hide IsGrouped;
  }

  lemma StaysGrouped(groups: Groups, dir: Path, name: Path, t: Path, store: Option<Path>)
    requires t != [] && IsGrouped(groups, t, store)
    ensures IsGrouped(groups[dir := (if dir in groups then groups[dir] else []) + [name]], t, store)
  {
    hide GroupOf;
  }

  method GroupTargetsByBind(targets: set<Path>, store: Option<Path>) returns (groups: Groups)
    requires [] !in targets
    ensures GroupsHold(groups, targets, store)
  {
    groups := map[];
    var left := targets;
    assert GroupsHold(groups, {}, store);
    assert targets - left == {};
    while left != {}
      invariant left <= targets && GroupsHold(groups, targets - left, store)
      decreases left
    {
      var target :| target in left;
      GroupOne(groups, targets - left, store, target);
      assert targets - (left - {target}) == (targets - left) + {target};
      left := left - {target};
      var dir := GroupOf(target, store);
      groups := groups[dir := (if dir in groups then groups[dir] else []) + [target[|dir|..]]];
    }
    assert targets - left == targets;
  }

  // ---- folding nested groups ----

  /** Of the directories containing `dir`, the one highest up. */
  predicate IsOuter(dirs: set<Path>, dir: Path, outer: Path) {
    outer in dirs && WithinDir(dir, outer) && forall other | other in dirs && WithinDir(dir, other) :: |outer| <= |other|
  }

  lemma OuterIsOne(dirs: set<Path>, dir: Path, a: Path, b: Path)
    requires IsOuter(dirs, dir, a) && IsOuter(dirs, dir, b)
    ensures a == b
  {
    assert |a| == |b| && a <= dir && b <= dir;
    assert a == dir[..|a|] == b;
  }

  method Outermost(dirs: set<Path>, dir: Path) returns (outer: Path)
    requires dir in dirs
    ensures IsOuter(dirs, dir, outer)
  {
    outer := dir;
    var left := dirs;
    while left != {}
      invariant outer in dirs && WithinDir(dir, outer) && left <= dirs
      invariant forall other | other in dirs - left && WithinDir(dir, other) :: |outer| <= |other|
      decreases left
    {
      var other :| other in left;
      left := left - {other};
      if |other| < |outer| && WithinDir(dir, other) { outer := other; }
    }
  }

  /** Two directories no other contains are not nested. */
  lemma OutersAreApart(dirs: set<Path>, c: Path, d: Path, a: Path, b: Path)
    requires IsOuter(dirs, c, a) && IsOuter(dirs, d, b) && a != b
    ensures !WithinDir(a, b)
  {
    assert WithinDir(a, b) ==> WithinDir(c, b);
  }

  predicate TakenBy(parts: Groups, o: Path, dir: Path) {
    o in parts && dir in parts[o]
  }

  /** Each directory dealt with is a part of its outermost one, once. */
  ghost predicate Parted(groups: Groups, done: set<Path>, parts: Groups) {
    && done <= groups.Keys
    && (forall o | o in parts :: IsOuter(groups.Keys, o, o) && NoRepeats(parts[o]))
    && (forall o, dir :: TakenBy(parts, o, dir) <==> dir in done && IsOuter(groups.Keys, dir, o))
  }

  /** The targets of a merged group are those of its parts, one part after the other. */
  predicate SameTargets(groups: Groups, merged: Groups, parts: Groups, o: Path) {
    o in merged && o in parts && FullPaths(o, merged[o]) == TargetsOf(groups, parts[o])
  }

  /** What folding makes: each directory in one group, each group's targets those of its parts, in order. */
  ghost predicate Folds(groups: Groups, done: set<Path>, merged: Groups, parts: Groups) {
    && Parted(groups, done, parts) && merged.Keys == parts.Keys
    && (forall o | o in merged :: SameTargets(groups, merged, parts, o))
  }

  lemma OuterOfOuter(dirs: set<Path>, dir: Path, outer: Path)
    requires IsOuter(dirs, dir, outer)
    ensures IsOuter(dirs, outer, outer)
  {
    forall other | other in dirs && WithinDir(outer, other) ensures |outer| <= |other| {
      assert WithinDir(dir, other);
    }
  }

  function Folded(dir: Path, outer: Path, names: seq<Path>): seq<Path>
    requires WithinDir(dir, outer)
  {
    seq(|names|, i requires 0 <= i < |names| => dir[|outer|..] + names[i])
  }

  lemma FoldedPaths(dir: Path, outer: Path, before: seq<Path>, names: seq<Path>)
    requires WithinDir(dir, outer)
    ensures FullPaths(outer, before + Folded(dir, outer, names)) == FullPaths(outer, before) + FullPaths(dir, names)
  {
    var all := before + Folded(dir, outer, names);
    assert outer + dir[|outer|..] == dir;
    forall i | 0 <= i < |names| ensures outer + Folded(dir, outer, names)[i] == dir + names[i] {
      assert outer + (dir[|outer|..] + names[i]) == (outer + dir[|outer|..]) + names[i];
    }
  }

  lemma PartStep(groups: Groups, done: set<Path>, parts: Groups, dir: Path, outer: Path)
    requires Parted(groups, done, parts) && dir in groups && dir !in done && IsOuter(groups.Keys, dir, outer)
    ensures Parted(groups, done + {dir}, parts[outer := (if outer in parts then parts[outer] else []) + [dir]])
  {
    hide IsOuter;
    var was := if outer in parts then parts[outer] else [];
    var parts' := parts[outer := was + [dir]];
    OuterOfOuter(groups.Keys, dir, outer);
    assert forall d :: d in was <==> TakenBy(parts, outer, d);
    assert dir !in was;
    forall o, d ensures TakenBy(parts', o, d) <==> d in done + {dir} && IsOuter(groups.Keys, d, o) {
      assert TakenBy(parts, o, d) <==> d in done && IsOuter(groups.Keys, d, o);
      assert TakenBy(parts', o, d) <==> TakenBy(parts, o, d) || (o == outer && d == dir);
      if d == dir && IsOuter(groups.Keys, d, o) {
        OuterIsOne(groups.Keys, dir, o, outer);
      }
    }
  }

  lemma NoTargets(groups: Groups, dir: Path)
    ensures FullPaths(dir, []) == [] && TargetsOf(groups, []) == []
  {
  }

  lemma FoldStep(groups: Groups, done: set<Path>, merged: Groups, parts: Groups, dir: Path, outer: Path)
    requires Folds(groups, done, merged, parts) && dir in groups && dir !in done && IsOuter(groups.Keys, dir, outer)
    ensures WithinDir(dir, outer)
    ensures var names := (if outer in merged then merged[outer] else []) + Folded(dir, outer, groups[dir]);
      var taken := (if outer in parts then parts[outer] else []) + [dir];
      Folds(groups, done + {dir}, merged[outer := names], parts[outer := taken])
  {
    hide Parted, FullPaths, Folded;
    assert WithinDir(dir, outer);
    PartStep(groups, done, parts, dir, outer);
    var before := if outer in merged then merged[outer] else [];
    var was := if outer in parts then parts[outer] else [];
    var merged', parts' := merged[outer := before + Folded(dir, outer, groups[dir])], parts[outer := was + [dir]];
    FoldedPaths(dir, outer, before, groups[dir]);
    assert FullPaths(outer, before) == TargetsOf(groups, was) by {
      if outer in merged {
        assert SameTargets(groups, merged, parts, outer);
      } else {
        NoTargets(groups, outer);
      }
    }
    assert (was + [dir])[..|was|] == was;
    assert TargetsOf(groups, was + [dir]) == TargetsOf(groups, was) + FullPaths(dir, groups[dir]);
    forall o | o in merged' ensures SameTargets(groups, merged', parts', o) {
      if o != outer {
        assert SameTargets(groups, merged, parts, o);
      }
    }
  }

  lemma FoldNext(groups: Groups, left: set<Path>, merged: Groups, parts: Groups, dir: Path, outer: Path,
    names: seq<Path>, taken: seq<Path>)
    requires left <= groups.Keys && dir in left && IsOuter(groups.Keys, dir, outer) && WithinDir(dir, outer)
    requires Folds(groups, groups.Keys - left, merged, parts)
    requires names == (if outer in merged then merged[outer] else []) + Folded(dir, outer, groups[dir])
    requires taken == (if outer in parts then parts[outer] else []) + [dir]
    ensures Folds(groups, groups.Keys - (left - {dir}), merged[outer := names], parts[outer := taken])
  {
    hide Folds, IsOuter, Folded, WithinDir;
    FoldStep(groups, groups.Keys - left, merged, parts, dir, outer);
    assert groups.Keys - (left - {dir}) == (groups.Keys - left) + {dir};
  }

  lemma StartsFolding(groups: Groups)
    ensures Folds(groups, groups.Keys - groups.Keys, map[], map[])
  {
  }

  method MergeNestedGroups(groups: Groups) returns (merged: Groups, parts: Groups)
    ensures Folds(groups, groups.Keys, merged, parts)
  {
    hide Folds, Folded, WithinDir;
    merged, parts := map[], map[];
    var left := groups.Keys;
    StartsFolding(groups);
    while left != {}
      invariant left <= groups.Keys && Folds(groups, groups.Keys - left, merged, parts)
      decreases left
    {
      var dir :| dir in left;
      var outer := Outermost(groups.Keys, dir);
      assert WithinDir(dir, outer);
      var names := (if outer in merged then merged[outer] else []) + Folded(dir, outer, groups[dir]);
      var taken := (if outer in parts then parts[outer] else []) + [dir];
      FoldNext(groups, left, merged, parts, dir, outer, names, taken);
      left := left - {dir};
      merged, parts := merged[outer := names], parts[outer := taken];
    }
    assert groups.Keys - {} == groups.Keys;
  }

  /** The directories left to bind are pairwise apart, whatever order the groups were met in. */
  lemma MergedAreApart(groups: Groups, merged: Groups, parts: Groups, a: Path, b: Path)
    requires Folds(groups, groups.Keys, merged, parts) && a in merged && b in merged && a != b
    ensures !WithinDir(a, b)
  {
    hide WithinDir;
    OutersAreApart(groups.Keys, a, b, a, b);
  }

  /** Every directory is in one merged group, once, and the group's targets are those of its directories. */
  lemma TargetsAreConserved(groups: Groups, merged: Groups, parts: Groups, dir: Path) returns (o: Path)
    requires Folds(groups, groups.Keys, merged, parts) && dir in groups
    ensures TakenBy(parts, o, dir) && NoRepeats(parts[o]) && SameTargets(groups, merged, parts, o)
    ensures forall p | TakenBy(parts, p, dir) :: p == o
  {
    hide SameTargets, IsOuter;
    o := SomeOuter(groups.Keys, dir);
    assert TakenBy(parts, o, dir);
    forall p | TakenBy(parts, p, dir) ensures p == o {
      OuterIsOne(groups.Keys, dir, o, p);
    }
  }

  /** A shortest directory containing `dir` exists. */
  lemma {:induction false} SomeOuter(dirs: set<Path>, dir: Path) returns (o: Path)
    requires dir in dirs
    ensures IsOuter(dirs, dir, o)
  {
    o := ShortestFrom(dirs, dir, dir);
  }

  lemma {:induction false} ShortestFrom(dirs: set<Path>, dir: Path, from: Path) returns (o: Path)
    requires from in dirs && WithinDir(dir, from)
    ensures IsOuter(dirs, dir, o)
    decreases |from|
  {
    if other :| other in dirs && WithinDir(dir, other) && |other| < |from| {
      o := ShortestFrom(dirs, dir, other);
    } else {
      o := from;
    }
  }

  // ---- binding ----

  datatype Bind = Bind(dir: Path, names: seq<Path>)

  function TargetsOfBinds(binds: seq<Bind>): seq<Path> {
    if binds == [] then []
    else TargetsOfBinds(binds[..|binds| - 1]) + FullPaths(binds[|binds| - 1].dir, binds[|binds| - 1].names)
  }

  lemma {:induction false} BindsAppend(a: seq<Bind>, b: seq<Bind>)
    ensures TargetsOfBinds(a + b) == TargetsOfBinds(a) + TargetsOfBinds(b)
  {
    if b == [] {
      assert a + b == a;
    } else {
      assert (a + b)[..|a + b| - 1] == a + b[..|b| - 1];
      BindsAppend(a, b[..|b| - 1]);
    }
  }

  lemma {:induction false} TargetsAppend(groups: Groups, a: seq<Path>, b: seq<Path>)
    ensures TargetsOf(groups, a + b) == TargetsOf(groups, a) + TargetsOf(groups, b)
  {
    hide FullPaths;
    if b == [] {
      assert a + b == a;
    } else {
      assert (a + b)[..|a + b| - 1] == a + b[..|b| - 1];
      TargetsAppend(groups, a, b[..|b| - 1]);
    }
  }

  lemma {:induction false} TargetsAlike(a: Groups, b: Groups, dirs: seq<Path>)
    requires forall dir | dir in dirs :: dir in a && dir in b && a[dir] == b[dir]
    ensures TargetsOf(a, dirs) == TargetsOf(b, dirs)
  {
    if dirs != [] {
      assert dirs[|dirs| - 1] in dirs;
      TargetsAlike(a, b, dirs[..|dirs| - 1]);
    }
  }

  function PathText(path: Path): string {
    "/" + Join(path, "/")
  }

  /** The store first, so a nesting target never displaces it, then the others sorted. */
  function DirsInOrder(dirs: seq<Path>, store: Option<Path>): seq<Path> {
    var sorted := Sort((a: Path, b: Path) => Before(PathText(a), PathText(b)), Without(dirs, store));
    if store.Some? && store.value in dirs then [store.value] + sorted else sorted
  }

  function Without(dirs: seq<Path>, store: Option<Path>): seq<Path> {
    if dirs == [] then []
    else
      Without(dirs[..|dirs| - 1], store) +
        if store.Some? && dirs[|dirs| - 1] == store.value then [] else [dirs[|dirs| - 1]]
  }

  lemma {:induction false} WithoutIs(dirs: seq<Path>, store: Option<Path>)
    requires NoRepeats(dirs)
    ensures NoRepeats(Without(dirs, store))
    ensures forall d :: d in Without(dirs, store) <==> d in dirs && !(store.Some? && d == store.value)
  {
    if dirs != [] {
      var rest, last := dirs[..|dirs| - 1], dirs[|dirs| - 1];
      WithoutIs(rest, store);
      assert dirs == rest + [last];
      assert last !in rest;
      if !(store.Some? && last == store.value) {
        NoRepeatsJoin(Without(rest, store), [last]);
      }
    }
  }

  lemma OrderKeepsDirs(dirs: seq<Path>, store: Option<Path>)
    requires NoRepeats(dirs)
    ensures NoRepeats(DirsInOrder(dirs, store)) && forall d :: d in DirsInOrder(dirs, store) <==> d in dirs
    ensures store.Some? && store.value in dirs ==> DirsInOrder(dirs, store)[0] == store.value
  {
    hide Sort, Without;
    var less := (a: Path, b: Path) => Before(PathText(a), PathText(b));
    var rest := Without(dirs, store);
    WithoutIs(dirs, store);
    SortMembers(less, rest);
    SortStaysDistinct(less, rest);
    var order, sorted := DirsInOrder(dirs, store), Sort(less, rest);
    forall i, j | 0 <= i < j < |order| ensures order[i] != order[j] {
      if store.Some? && store.value in dirs {
        assert order[j] == sorted[j - 1];
        assert sorted[j - 1] in rest;
        assert i > 0 ==> order[i] == sorted[i - 1];
      }
    }
  }

  /** A mount sits at, above or below `dest`. */
  predicate NestsAny(dest: Path, mounts: seq<Path>) {
    exists k | 0 <= k < |mounts| :: Nested(dest, mounts[k])
  }

  /** The process spec's mounts, as container paths, and where the container's root is on the host. */
  class Spec {
    const rootfs: Path
    var mounts: seq<Path>

    constructor (rootfs: Path, mounts: seq<Path>)
      ensures this.rootfs == rootfs && this.mounts == mounts
    {
      this.rootfs, this.mounts := rootfs, mounts;
    }

    /** The path as the container sees it; what lies outside the container counts as its root. */
    function ContainerPath(hostDir: Path): Path {
      if rootfs <= hostDir then hostDir[|rootfs|..] else []
    }

    predicate MountConflicts(dest: Path)
      reads this
    {
      NestsAny(dest, mounts)
    }

    /**
     * Binds a mirror over one directory. The container's root is refused, and so is a directory a
     * mount sits at, above or below; making the mirror can fail for reasons of its own.
     */
    method PrepareBind(hostDir: Path, canPrepare: bool) returns (bound: bool)
      modifies this`mounts
      ensures bound <==> ContainerPath(hostDir) != [] && !old(MountConflicts(ContainerPath(hostDir))) && canPrepare
      ensures mounts == if bound then old(mounts) + [ContainerPath(hostDir)] else old(mounts)
    {
      var containerDir := ContainerPath(hostDir);
      if containerDir == [] { return false; }
      if MountConflicts(containerDir) { return false; }
      if !canPrepare { return false; }
      mounts := mounts + [containerDir];
      bound := true;
    }
  }

  /** No mount from `base` on is nested with one before it. */
  predicate ClearFrom(mounts: seq<Path>, base: nat) {
    forall i, j | 0 <= i < j < |mounts| && base <= j :: !Nested(mounts[i], mounts[j])
  }

  function Mounted(spec: Spec, binds: seq<Bind>): seq<Path> {
    seq(|binds|, i requires 0 <= i < |binds| => spec.ContainerPath(binds[i].dir))
  }

  /** Each directory was either taken into a bind, with its targets, or refused itself. */
  ghost predicate Accounts(groups: Groups, dirs: set<Path>, binds: seq<Bind>, placed: seq<Path>, refused: seq<Path>) {
    && (forall d :: d in dirs <==> d in placed || d in refused)
    && NoRepeats(placed) && NoRepeats(refused) && (forall d | d in placed :: d !in refused)
    && TargetsOfBinds(binds) == TargetsOf(groups, placed)
  }

  /** What a bind of `dir` is asked to carry: the targets of directories under it, its own among them. */
  ghost predicate IsOffer(groups: Groups, dir: Path, dirs: seq<Path>, names: seq<Path>) {
    && dir in dirs && (forall d | d in dirs :: d in groups && WithinDir(d, dir))
    && FullPaths(dir, names) == TargetsOf(groups, dirs)
  }

  ghost predicate CannotPrepare(groups: Groups, dir: Path, canPrepare: (Path, seq<Path>) -> bool) {
    exists dirs, names :: IsOffer(groups, dir, dirs, names) && !canPrepare(dir, names)
  }

  /**
   * The directory itself was refused: it is the container's root or outside it, a mount sits at, above
   * or below it, or a mirror with its targets could not be made.
   */
  ghost predicate WasRefused(spec: Spec, groups: Groups, dir: Path, mounts: seq<Path>,
    canPrepare: (Path, seq<Path>) -> bool)
  {
    var dest := spec.ContainerPath(dir);
    dest == [] || NestsAny(dest, mounts) || CannotPrepare(groups, dir, canPrepare)
  }

  /** Each directory bound is one of `dirs`, and inside the container. */
  predicate BoundAmong(spec: Spec, dirs: set<Path>, binds: seq<Bind>) {
    forall i | 0 <= i < |binds| :: binds[i].dir in dirs && spec.ContainerPath(binds[i].dir) != []
  }

  lemma BoundJoin(spec: Spec, a: set<Path>, binds: seq<Bind>, b: set<Path>, more: seq<Bind>)
    requires BoundAmong(spec, a, binds) && BoundAmong(spec, b, more)
    ensures BoundAmong(spec, a + b, binds + more)
  {
    hide Spec.ContainerPath;
  }

  /** Directories of the host whose container paths are nested are nested themselves. */
  lemma NestedOnHost(spec: Spec, a: Path, b: Path)
    requires spec.ContainerPath(a) != [] && spec.ContainerPath(b) != []
    requires Nested(spec.ContainerPath(a), spec.ContainerPath(b))
    ensures WithinDir(a, b) || WithinDir(b, a)
  {
    assert a == spec.rootfs + a[|spec.rootfs|..] && b == spec.rootfs + b[|spec.rootfs|..];
  }

  lemma NestedInContainer(spec: Spec, a: Path, b: Path)
    requires spec.ContainerPath(a) != [] && spec.ContainerPath(b) != [] && a <= b
    ensures Nested(spec.ContainerPath(a), spec.ContainerPath(b))
  {
    assert a == spec.rootfs + a[|spec.rootfs|..] && b == spec.rootfs + b[|spec.rootfs|..];
  }

  /** A refusal among fewer groups is one among more. */
  lemma RefusedInMore(spec: Spec, inner: Groups, groups: Groups, dir: Path, mounts: seq<Path>,
    canPrepare: (Path, seq<Path>) -> bool)
    requires (forall d | d in inner :: d in groups && inner[d] == groups[d])
    requires WasRefused(spec, inner, dir, mounts, canPrepare)
    ensures WasRefused(spec, groups, dir, mounts, canPrepare)
  {
    hide Spec.ContainerPath, FullPaths, TargetsOf, NestsAny, WithinDir;
    if CannotPrepare(inner, dir, canPrepare) {
      var dirs, names :| IsOffer(inner, dir, dirs, names) && !canPrepare(dir, names);
      TargetsAlike(inner, groups, dirs);
      assert IsOffer(groups, dir, dirs, names);
    }
  }

  /** Directories folded into different ones are not nested. */
  lemma PartsNotNested(groups: Groups, parts: Groups, a: Path, b: Path, c: Path, d: Path)
    requires Parted(groups, groups.Keys, parts) && TakenBy(parts, a, c) && TakenBy(parts, b, d) && a != b
    ensures !WithinDir(c, d)
  {
  }

  /** A mount that stands against `dir` is none of those made for the groups before it. */
  lemma RefusedFromStart(spec: Spec, groups: Groups, parts: Groups, order: seq<Path>, k: nat, binds: seq<Bind>,
    mounts: seq<Path>, dir: Path, canPrepare: (Path, seq<Path>) -> bool)
    requires Parted(groups, groups.Keys, parts) && NoRepeats(order) && k < |order|
    requires (forall i | 0 <= i < |order| :: order[i] in parts) && dir in parts[order[k]]
    requires BoundAmong(spec, PartsOf(parts, order, k), binds)
    requires WasRefused(spec, groups, dir, mounts + Mounted(spec, binds), canPrepare)
    ensures WasRefused(spec, groups, dir, mounts, canPrepare)
  {
    hide CannotPrepare, Spec.ContainerPath, Parted, Nested;
    var all, dest := mounts + Mounted(spec, binds), spec.ContainerPath(dir);
    if dest != [] && NestsAny(dest, all) {
      var m :| 0 <= m < |all| && Nested(dest, all[m]);
      if m >= |mounts| {
        var other := binds[m - |mounts|].dir;
        var i :| 0 <= i < k && other in parts[order[i]];
        NestedOnHost(spec, dir, other);
        PartsNotNested(groups, parts, order[k], order[i], dir, other);
        PartsNotNested(groups, parts, order[i], order[k], other, dir);
      } else {
        assert mounts[m] == all[m];
      }
    }
  }

  /** The directories of the first `k` merged groups. */
  ghost function PartsOf(parts: Groups, order: seq<Path>, k: nat): set<Path>
    requires k <= |order| && forall i | 0 <= i < |order| :: order[i] in parts
  {
    set i, d | 0 <= i < k && d in parts[order[i]] :: d
  }

  method SetToSeq(dirs: set<Path>) returns (xs: seq<Path>)
    ensures NoRepeats(xs) && forall d :: d in xs <==> d in dirs
  {
    xs := [];
    var left := dirs;
    while left != {}
      invariant left <= dirs && NoRepeats(xs)
      invariant forall d :: d in xs <==> d in dirs - left
      decreases left
    {
      var d :| d in left;
      left := left - {d};
      NoRepeatsJoin(xs, [d]);
      xs := xs + [d];
      assert forall e :: e in dirs - left <==> e in xs;
    }
  }

  /** The groups folded into a directory that was refused, without it. */
  method Inner(groups: Groups, taken: seq<Path>, dir: Path) returns (inner: Groups)
    requires forall d | d in taken :: d in groups
    ensures forall d :: d in inner <==> d in taken && d != dir
    ensures forall d | d in inner :: inner[d] == groups[d]
  {
    inner := map[];
    for k := 0 to |taken|
      invariant forall d :: d in inner <==> d in taken[..k] && d != dir
      invariant forall d | d in inner :: inner[d] == groups[d]
    {
      if taken[k] != dir {
        inner := inner[taken[k] := groups[taken[k]]];
      }
    }
    assert taken[..|taken|] == taken;
  }

  /** Two accounts of directories that do not overlap are one account. */
  lemma AccountsJoin(groups: Groups, a: set<Path>, binds: seq<Bind>, placed: seq<Path>, refused: seq<Path>,
    b: set<Path>, binds': seq<Bind>, placed': seq<Path>, refused': seq<Path>)
    requires Accounts(groups, a, binds, placed, refused) && Accounts(groups, b, binds', placed', refused') && a !! b
    ensures Accounts(groups, a + b, binds + binds', placed + placed', refused + refused')
  {
    hide FullPaths, TargetsOf, TargetsOfBinds;
    BindsAppend(binds, binds');
    TargetsAppend(groups, placed, placed');
    NoRepeatsJoin(placed, placed');
    NoRepeatsJoin(refused, refused');
  }

  lemma AccountOfBind(groups: Groups, bind: Bind, taken: seq<Path>)
    requires NoRepeats(taken) && FullPaths(bind.dir, bind.names) == TargetsOf(groups, taken)
    ensures Accounts(groups, (set d | d in taken), [bind], taken, [])
  {
    hide FullPaths, TargetsOf;
    assert [bind][..0] == [];
    assert TargetsOfBinds([bind]) == TargetsOfBinds([]) + FullPaths(bind.dir, bind.names);
  }

  lemma AccountOfRefusal(groups: Groups, dir: Path, inner: Groups, binds: seq<Bind>, placed: seq<Path>, refused: seq<Path>)
    requires dir !in inner && Accounts(inner, inner.Keys, binds, placed, refused)
    requires forall d | d in inner :: d in groups && inner[d] == groups[d]
    ensures Accounts(groups, inner.Keys + {dir}, binds, placed, [dir] + refused)
  {
    hide FullPaths, TargetsOf, TargetsOfBinds;
    TargetsAlike(inner, groups, placed);
    NoRepeatsJoin([dir], refused);
  }

  lemma NoRepeatsJoin(a: seq<Path>, b: seq<Path>)
    requires NoRepeats(a) && NoRepeats(b) && forall d | d in b :: d !in a
    ensures NoRepeats(a + b)
  {
    var s := a + b;
    forall i, j | 0 <= i < j < |s| ensures s[i] != s[j] {
      assert i >= |a| ==> s[i] == b[i - |a|];
      assert j >= |a| ==> s[j] == b[j - |a|] && s[j] in b;
      assert i < |a| ==> s[i] in a;
    }
  }

  lemma RefusedOuter(spec: Spec, groups: Groups, dir: Path, names: seq<Path>, taken: seq<Path>, mounts: seq<Path>,
    canPrepare: (Path, seq<Path>) -> bool)
    requires dir in taken && (forall d | d in taken :: d in groups && WithinDir(d, dir))
    requires FullPaths(dir, names) == TargetsOf(groups, taken)
    requires spec.ContainerPath(dir) == [] || NestsAny(spec.ContainerPath(dir), mounts) || !canPrepare(dir, names)
    ensures WasRefused(spec, groups, dir, mounts, canPrepare)
  {
    hide FullPaths, TargetsOf, NestsAny, WithinDir;
    assert IsOffer(groups, dir, taken, names);
  }

  /** One merged group: bound, or refused and the groups folded into it bound without it. */
  method BindGroup(spec: Spec, groups: Groups, hostDir: Path, names: seq<Path>, taken: seq<Path>,
    canPrepare: (Path, seq<Path>) -> bool, store: Option<Path>)
    returns (binds: seq<Bind>, ghost placed: seq<Path>, ghost refused: seq<Path>)
    requires hostDir in taken && NoRepeats(taken) && (forall d | d in taken :: d in groups && WithinDir(d, hostDir))
    requires FullPaths(hostDir, names) == TargetsOf(groups, taken)
    modifies spec`mounts
    ensures Accounts(groups, (set d | d in taken), binds, placed, refused)
    ensures BoundAmong(spec, (set d | d in taken), binds)
    ensures forall d | d in refused :: WasRefused(spec, groups, d, old(spec.mounts), canPrepare)
    ensures spec.mounts == old(spec.mounts) + Mounted(spec, binds)
    ensures ClearFrom(spec.mounts, |old(spec.mounts)|)
    decreases |groups|, 0
  {
    hide Accounts, FullPaths, TargetsOf, NoRepeats, NestsAny, WithinDir, WasRefused, ClearFrom, Spec.ContainerPath;
    ghost var before := spec.mounts;
    ClearOfItself(before);
    var bound := spec.PrepareBind(hostDir, canPrepare(hostDir, names));
    if bound {
      binds, placed, refused := [Bind(hostDir, names)], taken, [];
      AccountOfBind(groups, Bind(hostDir, names), taken);
      ClearMore(before, |before|, spec.ContainerPath(hostDir));
      assert Mounted(spec, binds) == [spec.ContainerPath(hostDir)];
    } else {
      var inner := Inner(groups, taken, hostDir);
      InnerIsSmaller(groups, inner, hostDir);
      ghost var rest;
      binds, placed, rest := BindTargets(spec, inner, canPrepare, store);
      refused := [hostDir] + rest;
      AccountOfRefusal(groups, hostDir, inner, binds, placed, rest);
      assert inner.Keys + {hostDir} == (set d | d in taken);
      assert spec.ContainerPath(hostDir) == [] || NestsAny(spec.ContainerPath(hostDir), before) || !canPrepare(hostDir, names);
      RefusedOuter(spec, groups, hostDir, names, taken, before, canPrepare);
      forall d | d in rest ensures WasRefused(spec, groups, d, before, canPrepare) {
        RefusedInMore(spec, inner, groups, d, before, canPrepare);
      }
    }
  }

  /**
   * Binds each group of targets, nested ones folded into the outermost; where the outermost cannot be
   * bound, its own targets go without and the groups folded into it are bound the same way.
   * `placed` and `refused` say which directories were taken into a bind and which were refused.
   */
  method BindTargets(spec: Spec, groups: Groups, canPrepare: (Path, seq<Path>) -> bool, store: Option<Path>)
    returns (binds: seq<Bind>, ghost placed: seq<Path>, ghost refused: seq<Path>)
    modifies spec`mounts
    ensures Accounts(groups, groups.Keys, binds, placed, refused)
    ensures BoundAmong(spec, groups.Keys, binds)
    ensures forall d | d in refused :: WasRefused(spec, groups, d, old(spec.mounts), canPrepare)
    ensures spec.mounts == old(spec.mounts) + Mounted(spec, binds)
    ensures ClearFrom(spec.mounts, |old(spec.mounts)|)
    decreases |groups|, 1
  {
    hide Accounts, FullPaths, TargetsOf, TargetsOfBinds, NoRepeats, DirsInOrder, ClearFrom, IsOuter, PartsOf, WithinDir,
      WasRefused, BoundAmong, Parted, Mounted;
    binds, placed, refused := [], [], [];
    var merged, parts := MergeNestedGroups(groups);
    var dirs := SetToSeq(merged.Keys);
    OrderKeepsDirs(dirs, store);
    var order := DirsInOrder(dirs, store);
    assert merged.Keys == parts.Keys;
    ghost var base := |spec.mounts|;
    MergedAll(groups, merged, parts, order);
    NothingYet(groups, parts, order, spec.mounts);
    MountedNone(spec, old(spec.mounts));
    for k := 0 to |order|
      invariant Accounts(groups, PartsOf(parts, order, k), binds, placed, refused)
      invariant BoundAmong(spec, PartsOf(parts, order, k), binds)
      invariant forall d | d in refused :: WasRefused(spec, groups, d, old(spec.mounts), canPrepare)
      invariant spec.mounts == old(spec.mounts) + Mounted(spec, binds)
      invariant ClearFrom(spec.mounts, base)
    {
      var hostDir := order[k];
      PartsStep(groups, merged, parts, order, k);
      ghost var before, held := spec.mounts, binds;
      var more: seq<Bind>;
      ghost var placed', refused';
      more, placed', refused' := BindGroup(spec, groups, hostDir, merged[hostDir], parts[hostDir], canPrepare, store);
      AccountsJoin(groups, PartsOf(parts, order, k), binds, placed, refused, (set d | d in parts[hostDir]), more, placed', refused');
      BoundJoin(spec, PartsOf(parts, order, k), binds, (set d | d in parts[hostDir]), more);
      forall d | d in refused' ensures WasRefused(spec, groups, d, old(spec.mounts), canPrepare) {
        RefusedAreParts(groups, parts[hostDir], more, placed', refused', d);
        RefusedFromStart(spec, groups, parts, order, k, binds, old(spec.mounts), d, canPrepare);
      }
      ClearJoin(before, spec.mounts, base);
      binds, placed, refused := binds + more, placed + placed', refused + refused';
      MountedJoin(spec, old(spec.mounts), held, more);
    }
  }

  lemma RefusedAreParts(groups: Groups, taken: seq<Path>, binds: seq<Bind>, placed: seq<Path>, refused: seq<Path>, d: Path)
    requires Accounts(groups, (set e | e in taken), binds, placed, refused) && d in refused
    ensures d in taken
  {
    hide TargetsOf, TargetsOfBinds, NoRepeats;
  }

  lemma MountedJoin(spec: Spec, mounts: seq<Path>, a: seq<Bind>, b: seq<Bind>)
    ensures mounts + Mounted(spec, a) + Mounted(spec, b) == mounts + Mounted(spec, a + b)
  {
  }

  lemma MountedNone(spec: Spec, mounts: seq<Path>)
    ensures mounts + Mounted(spec, []) == mounts && forall dirs :: BoundAmong(spec, dirs, [])
  {
  }

  lemma NothingYet(groups: Groups, parts: Groups, order: seq<Path>, mounts: seq<Path>)
    requires forall i | 0 <= i < |order| :: order[i] in parts
    ensures PartsOf(parts, order, 0) == {} && Accounts(groups, {}, [], [], []) && ClearFrom(mounts, |mounts|)
  {
  }

  lemma InnerIsSmaller(groups: Groups, inner: Groups, dir: Path)
    requires dir in groups && dir !in inner && forall d | d in inner :: d in groups
    ensures |inner| < |groups|
  {
    assert inner.Keys <= groups.Keys - {dir};
    SubsetIsSmaller(inner.Keys, groups.Keys - {dir});
    assert |groups.Keys| == |groups| && |inner.Keys| == |inner|;
  }

  lemma {:induction false} SubsetIsSmaller(a: set<Path>, b: set<Path>)
    requires a <= b
    ensures |a| <= |b|
  {
    if a != {} {
      var x :| x in a;
      SubsetIsSmaller(a - {x}, b - {x});
    }
  }

  lemma ClearOfItself(mounts: seq<Path>)
    ensures ClearFrom(mounts, |mounts|)
  {
  }

  lemma ClearMore(mounts: seq<Path>, base: nat, dest: Path)
    requires ClearFrom(mounts, base) && base <= |mounts| && !NestsAny(dest, mounts)
    ensures ClearFrom(mounts + [dest], base)
  {
    hide PathWithin;
    forall i | 0 <= i < |mounts| ensures !Nested(mounts[i], dest) {
      assert !Nested(dest, mounts[i]);
    }
  }

  lemma ClearJoin(before: seq<Path>, after: seq<Path>, base: nat)
    requires ClearFrom(before, base) && ClearFrom(after, |before|) && before <= after && base <= |before|
    ensures ClearFrom(after, base)
  {
    hide Nested;
    forall i, j | 0 <= i < j < |after| && base <= j ensures !Nested(after[i], after[j]) {
      if j < |before| {
        assert after[i] == before[i] && after[j] == before[j];
      }
    }
  }

  /** Everything the loop needs of the folded groups. */
  lemma MergedAll(groups: Groups, merged: Groups, parts: Groups, order: seq<Path>)
    requires Folds(groups, groups.Keys, merged, parts) && (forall d :: d in order <==> d in merged)
    ensures forall i | 0 <= i < |order| :: order[i] in parts
    ensures PartsOf(parts, order, |order|) == groups.Keys
  {
    hide SameTargets, IsOuter, NoRepeats;
    forall i | 0 <= i < |order| ensures order[i] in parts {
      assert order[i] in order;
    }
    forall d | d in groups ensures d in PartsOf(parts, order, |order|) {
      var o := SomeOuter(groups.Keys, d);
      assert TakenBy(parts, o, d);
      assert o in order;
      var i :| 0 <= i < |order| && order[i] == o;
    }
    forall d | d in PartsOf(parts, order, |order|) ensures d in groups {
      var i :| 0 <= i < |order| && d in parts[order[i]];
      assert TakenBy(parts, order[i], d);
    }
  }

  lemma PartsAreApart(groups: Groups, parts: Groups, a: Path, b: Path, d: Path)
    requires Parted(groups, groups.Keys, parts) && a in parts && b in parts && a != b && d in parts[a]
    ensures d !in parts[b]
  {
    hide IsOuter, NoRepeats;
    assert TakenBy(parts, a, d);
    if d in parts[b] {
      assert TakenBy(parts, b, d);
      OuterIsOne(groups.Keys, d, a, b);
    }
  }

  lemma PartIsOwn(groups: Groups, merged: Groups, parts: Groups, dir: Path)
    requires Folds(groups, groups.Keys, merged, parts) && dir in parts
    ensures dir in merged && dir in parts[dir] && NoRepeats(parts[dir]) && dir in groups
    ensures FullPaths(dir, merged[dir]) == TargetsOf(groups, parts[dir])
    ensures forall d | d in parts[dir] :: d in groups && WithinDir(d, dir)
  {
    hide FullPaths, TargetsOf, NoRepeats;
    assert IsOuter(groups.Keys, dir, dir);
    assert dir in groups;
    assert TakenBy(parts, dir, dir);
    assert SameTargets(groups, merged, parts, dir);
    forall d | d in parts[dir] ensures d in groups && WithinDir(d, dir) {
      assert TakenBy(parts, dir, d);
      OuterHolds(groups.Keys, d, dir);
    }
  }

  lemma OuterHolds(dirs: set<Path>, dir: Path, outer: Path)
    requires IsOuter(dirs, dir, outer)
    ensures WithinDir(dir, outer)
  {
  }

  lemma PartsGrow(parts: Groups, order: seq<Path>, k: nat)
    requires k < |order| && forall i | 0 <= i < |order| :: order[i] in parts
    ensures PartsOf(parts, order, k + 1) == PartsOf(parts, order, k) + (set d | d in parts[order[k]])
  {
  }

  lemma PartsStep(groups: Groups, merged: Groups, parts: Groups, order: seq<Path>, k: nat)
    requires Folds(groups, groups.Keys, merged, parts) && NoRepeats(order) && k < |order|
    requires forall i | 0 <= i < |order| :: order[i] in parts
    ensures var dir := order[k];
      && dir in merged && dir in parts[dir] && NoRepeats(parts[dir]) && dir in groups
      && FullPaths(dir, merged[dir]) == TargetsOf(groups, parts[dir])
    ensures forall d | d in parts[order[k]] :: d in groups && WithinDir(d, order[k]) && d !in PartsOf(parts, order, k)
    ensures PartsOf(parts, order, k + 1) == PartsOf(parts, order, k) + (set d | d in parts[order[k]])
  {
    hide FullPaths, TargetsOf, IsOuter, Parted, WithinDir;
    var dir := order[k];
    PartIsOwn(groups, merged, parts, dir);
    PartsGrow(parts, order, k);
    forall d, i | d in parts[dir] && 0 <= i < k ensures d !in parts[order[i]] {
      PartsAreApart(groups, parts, dir, order[i], d);
    }
  }

  // ---- what the account means ----

  lemma {:induction false} TargetsHold(groups: Groups, dirs: seq<Path>, dir: Path, name: Path)
    requires dir in dirs && dir in groups && name in groups[dir]
    ensures dir + name in TargetsOf(groups, dirs)
  {
    var n := |dirs| - 1;
    assert dirs == dirs[..n] + [dirs[n]];
    if dirs[n] == dir {
      var i :| 0 <= i < |groups[dir]| && groups[dir][i] == name;
      assert FullPaths(dir, groups[dir])[i] == dir + name;
    } else {
      TargetsHold(groups, dirs[..n], dir, name);
    }
  }

  lemma {:induction false} TargetsAreOf(groups: Groups, dirs: seq<Path>, target: Path) returns (dir: Path, name: Path)
    requires target in TargetsOf(groups, dirs)
    ensures dir in dirs && dir in groups && name in groups[dir] && target == dir + name
  {
    var n := |dirs| - 1;
    if target in TargetsOf(groups, dirs[..n]) {
      dir, name := TargetsAreOf(groups, dirs[..n], target);
    } else {
      dir := dirs[n];
      var i :| 0 <= i < |groups[dir]| && FullPaths(dir, groups[dir])[i] == target;
      name := groups[dir][i];
    }
  }

  /** A target goes without the CA only where its own directory was itself refused. */
  lemma OnlyRefusedGoWithout(spec: Spec, groups: Groups, canPrepare: (Path, seq<Path>) -> bool, mounts: seq<Path>,
    binds: seq<Bind>, placed: seq<Path>, refused: seq<Path>, dir: Path, name: Path)
    requires Accounts(groups, groups.Keys, binds, placed, refused) && dir in groups && name in groups[dir]
    requires forall d | d in refused :: WasRefused(spec, groups, d, mounts, canPrepare)
    requires dir + name !in TargetsOfBinds(binds)
    ensures WasRefused(spec, groups, dir, mounts, canPrepare)
  {
    hide TargetsOf, TargetsOfBinds, WasRefused;
    if dir in placed {
      TargetsHold(groups, placed, dir, name);
    }
  }

  lemma OneGroup(groups: Groups, targets: set<Path>, store: Option<Path>, a: Path, name: Path, b: Path, other: Path)
    requires [] !in targets && GroupsHold(groups, targets, store) && a + name == b + other
    requires a in groups && name in groups[a] && b in groups && other in groups[b]
    ensures a == b
  {
    hide GroupOf, NoRepeats;
    assert a + name in targets && Carries(a, a + name, store) && Carries(b, b + other, store);
  }

  /** Of targets grouped as they are, exactly those of the directories refused go without. */
  lemma RefusedGoWithout(groups: Groups, targets: set<Path>, store: Option<Path>, binds: seq<Bind>, placed: seq<Path>,
    refused: seq<Path>, dir: Path, name: Path)
    requires [] !in targets && GroupsHold(groups, targets, store)
    requires Accounts(groups, groups.Keys, binds, placed, refused) && dir in groups && name in groups[dir]
    ensures dir + name in TargetsOfBinds(binds) <==> dir !in refused
  {
    hide TargetsOf, TargetsOfBinds, GroupOf, NoRepeats;
    if dir in placed {
      TargetsHold(groups, placed, dir, name);
    } else if dir + name in TargetsOf(groups, placed) {
      var d, n := TargetsAreOf(groups, placed, dir + name);
      OneGroup(groups, targets, store, dir, name, d, n);
    }
  }

  /** No two directories bound are nested, nor is one with a mount the step came with. */
  lemma BoundAreApart(spec: Spec, mounts: seq<Path>, binds: seq<Bind>, i: nat, j: nat, m: nat)
    requires ClearFrom(mounts + Mounted(spec, binds), |mounts|) && i < j < |binds| && m < |mounts|
    ensures !Nested(spec.ContainerPath(binds[i].dir), spec.ContainerPath(binds[j].dir))
    ensures !Nested(mounts[m], spec.ContainerPath(binds[j].dir))
  {
    hide Nested;
    var all := mounts + Mounted(spec, binds);
    assert all[|mounts| + i] == spec.ContainerPath(binds[i].dir) && all[|mounts| + j] == spec.ContainerPath(binds[j].dir);
    assert all[m] == mounts[m];
    assert !Nested(all[|mounts| + i], all[|mounts| + j]) && !Nested(all[m], all[|mounts| + j]);
  }

  /** On the host too: what the mirrors are made of does not overlap. */
  lemma HostDirsAreApart(spec: Spec, mounts: seq<Path>, dirs: set<Path>, binds: seq<Bind>, i: nat, j: nat)
    requires ClearFrom(mounts + Mounted(spec, binds), |mounts|) && BoundAmong(spec, dirs, binds)
    requires i < |binds| && j < |binds| && i != j
    ensures !(binds[i].dir <= binds[j].dir)
  {
    hide Nested, Spec.ContainerPath;
    var all := mounts + Mounted(spec, binds);
    assert all[|mounts| + i] == spec.ContainerPath(binds[i].dir) && all[|mounts| + j] == spec.ContainerPath(binds[j].dir);
    if binds[i].dir <= binds[j].dir {
      NestedInContainer(spec, binds[i].dir, binds[j].dir);
      NestedBothWays(all[|mounts| + i], all[|mounts| + j]);
    }
  }

  lemma NestedBothWays(a: Path, b: Path)
    ensures Nested(a, b) <==> Nested(b, a)
  {
  }
}
