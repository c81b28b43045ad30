/**
 * Taking the certificate out of a file in whichever shape it is in there, out of every file of a
 * directory, and the links left pointing at what that removed.
 */
module Sweep {
  import opened Search
  import opened FileWindow
  import Bundle
  import Keystore
  import SignatureLists
  import opened Resolve
  import opened Anchors

  /** The codecs of other libraries: PEM, SHA-1, one bare X.509 certificate, and PKCS#12. */
  datatype Codecs = Codecs(
    pem: Bundle.PemDecoder,
    sha1: Keystore.Digest,
    isCertificate: Bytes -> bool,
    pkcs12With: (Bytes, seq<Bytes>) -> Option<Bytes>,
    pkcs12Without: (Bytes, seq<Bytes>) -> Option<Bytes>,
    pkcs12Holds: (Bytes, seq<Bytes>) -> bool)

  /** What removal takes out, and what detection looks for: those and traces removal cannot take out. */
  datatype Marks = Marks(ders: seq<Bytes>, needles: seq<Bytes>)

  predicate LooksLikePKCS12(content: Bytes) {
    |content| >= 2 && content[0] == 0x30 && content[1] >= 0x80
  }

  /** Whether a file carries a needle: raw, inside a PEM block, or inside a PKCS#12 that opens. */
  predicate FileHoldsCA(c: Codecs, content: Bytes, needles: seq<Bytes>)
    requires NonEmpty(needles)
  {
    || Bundle.Scan(c.pem, content, needles, 0)
    || (|content| <= Keystore.MAX_KEYSTORE_BYTES && LooksLikePKCS12(content) && c.pkcs12Holds(content, needles))
  }

  /** The rewritten file, where it is a binary store this can rewrite. */
  function RemoveFromBinaryStore(c: Codecs, content: Bytes, ders: seq<Bytes>): Option<Bytes> {
    if |content| < |Keystore.MAGIC| || |content| > Keystore.MAX_KEYSTORE_BYTES then None
    else if Keystore.MAGIC <= content then
      match Keystore.Without(c.sha1, content, ders)
      case Err(_) => None
      case Ok(rewritten) => Some(rewritten)
    else if c.isCertificate(content) && HoldsAny(content, ders) then Some([])
    else if LooksLikePKCS12(content) then c.pkcs12Without(content, ders)
    else
      match SignatureLists.Decode(content)
      case None => None
      case Some(lists) =>
        if SignatureLists.AnyTargeted(lists, ders) then Some(SignatureLists.EncodeAll(SignatureLists.Without(lists, ders)))
        else None
  }

  /** A file's content after the strip, and whether a copy is still in it. */
  function StripCA(c: Codecs, content: Bytes, marks: Marks): (Bytes, bool)
    requires NonEmpty(marks.needles)
  {
    if !FileHoldsCA(c, content, marks.needles) then (content, false)
    else
      var cut := Bundle.Removed(c.pem, content, marks.ders);
      if !FileHoldsCA(c, cut, marks.needles) then (cut, false)
      else
        match RemoveFromBinaryStore(c, cut, marks.ders)
        case None => (cut, true)
        case Some(rewritten) => (rewritten, FileHoldsCA(c, rewritten, marks.needles))
  }

  /** Where the CA is looked for: by the scan, and in what starts as a PKCS#12 of at most 16 MiB. */
  lemma HoldsJust(c: Codecs, content: Bytes, needles: seq<Bytes>)
    requires NonEmpty(needles)
    ensures FileHoldsCA(c, content, needles) <==>
      || Bundle.Scan(c.pem, content, needles, 0)
      || (2 <= |content| <= 16 * 1024 * 1024 && content[0] == 0x30 && content[1] >= 0x80 && c.pkcs12Holds(content, needles))
  {
    hide Bundle.Scan;
  }

  /** What is said to hold a copy still does, and what is not does not. */
  lemma StripTells(c: Codecs, content: Bytes, marks: Marks)
    requires NonEmpty(marks.needles)
    ensures StripCA(c, content, marks).1 == FileHoldsCA(c, StripCA(c, content, marks).0, marks.needles)
  {
    hide FileHoldsCA, Bundle.Removed, RemoveFromBinaryStore;
  }

  /**
   * What becomes of a file that carries the certificate and no text removal cuts, kind by kind: a
   * keystore keeps its other entries or, where it cannot be rewritten, all of it; a bare certificate goes;
   * a signature list keeps its other signatures; what is none of these is left.
   */
  lemma BinaryIsStripped(c: Codecs, content: Bytes, marks: Marks)
    requires NonEmpty(marks.needles) && FileHoldsCA(c, content, marks.needles) && 0 in content
    ensures var left := StripCA(c, content, marks).0; var isKeystore := Keystore.MAGIC <= content;
      && (|content| < 4 || |content| > Keystore.MAX_KEYSTORE_BYTES ==> left == content)
      && (|content| <= Keystore.MAX_KEYSTORE_BYTES && isKeystore ==>
            match Keystore.Without(c.sha1, content, marks.ders)
            case Ok(rewritten) => left == rewritten
            case Err(_) => left == content)
      && (4 <= |content| <= Keystore.MAX_KEYSTORE_BYTES && !isKeystore ==>
            if c.isCertificate(content) && HoldsAny(content, marks.ders) then left == []
            else if LooksLikePKCS12(content) then
              left == if c.pkcs12Without(content, marks.ders).Some? then c.pkcs12Without(content, marks.ders).value else content
            else match SignatureLists.Decode(content)
              case None => left == content
              case Some(lists) =>
                && (SignatureLists.AnyTargeted(lists, marks.ders) ==>
                      SignatureLists.Decode(left) == Some(SignatureLists.Without(lists, marks.ders)))
                && (!SignatureLists.AnyTargeted(lists, marks.ders) ==> left == content))
  {
    hide FileHoldsCA, Bundle.FindCerts, HoldsAny;
    assert Bundle.Removed(c.pem, content, marks.ders) == content;
    hide Bundle.Removed;
    match SignatureLists.Decode(content)
    case None =>
    case Some(lists) =>
      if SignatureLists.AnyTargeted(lists, marks.ders) {
        SignatureLists.RewrittenDecodes(content, marks.ders);
      }
  }

  // ----- The links

  /** A link where it lies, and where it leads, both resolved. */
  datatype LinkAt = LinkAt(at: Path, target: Path)

  ghost predicate Closed(links: set<LinkAt>, removed: set<Path>) {
    forall l | l in links && l.target in removed :: l.at in removed
  }

  /** The least set that holds what was removed and every link leading to one of its own. */
  ghost predicate LeastClosed(links: set<LinkAt>, start: set<Path>, removed: set<Path>) {
    && start <= removed && Closed(links, removed)
    && forall other | start <= other && Closed(links, other) :: removed <= other
  }

  /** Every set closed under the links that holds the start holds what was removed. */
  ghost predicate Forced(links: set<LinkAt>, start: set<Path>, removed: set<Path>) {
    forall other | start <= other && Closed(links, other) :: removed <= other
  }

  lemma ForcedMore(links: set<LinkAt>, start: set<Path>, removed: set<Path>, l: LinkAt)
    requires Forced(links, start, removed) && l in links && l.target in removed
    ensures Forced(links, start, removed + {l.at})
  {
    forall other | start <= other && Closed(links, other) ensures removed + {l.at} <= other {
      assert removed <= other;
    }
  }

  /** What the links dealt with account for. */
  predicate Followed(links: seq<LinkAt>, done: seq<bool>, start: set<Path>, removed: set<Path>, taken: set<Path>) {
    && |done| == |links| && removed == start + taken
    && (forall i | 0 <= i < |links| && done[i] :: links[i].at in taken && links[i].target in removed)
    && forall p | p in taken :: exists i | 0 <= i < |links| :: done[i] && links[i].at == p
  }

  lemma FollowMore(links: seq<LinkAt>, done: seq<bool>, start: set<Path>, removed: set<Path>, taken: set<Path>, i: nat)
    requires Followed(links, done, start, removed, taken) && i < |links| && links[i].target in removed
    ensures Followed(links, done[i := true], start, removed + {links[i].at}, taken + {links[i].at})
  {
    var done' := done[i := true];
    forall p | p in taken + {links[i].at} ensures exists j | 0 <= j < |links| :: done'[j] && links[j].at == p {
      if p == links[i].at {
        assert done'[i];
      } else {
        var j :| 0 <= j < |links| && done[j] && links[j].at == p;
        assert done'[j];
      }
    }
  }

  lemma FollowedAll(links: seq<LinkAt>, done: seq<bool>, start: set<Path>, removed: set<Path>, taken: set<Path>)
    requires Followed(links, done, start, removed, taken) && Forced((set l | l in links), start, removed)
    requires forall i | 0 <= i < |links| && !done[i] :: links[i].target !in removed
    ensures LeastClosed((set l | l in links), start, removed)
    ensures removed == start + taken && forall p | p in taken :: exists l | l in links :: l.at == p
  {
    forall l | l in links && l.target in removed ensures l.at in removed {
      var i :| 0 <= i < |links| && links[i] == l;
      assert done[i];
    }
    forall p | p in taken ensures exists l | l in links :: l.at == p {
      var i :| 0 <= i < |links| && done[i] && links[i].at == p;
      assert links[i] in links;
    }
  }

  /** Goes over the links until a pass removes none: one named after a hash points at one named after the file. */
  method FollowLinks(links: seq<LinkAt>, start: set<Path>) returns (removed: set<Path>, taken: set<Path>)
    ensures LeastClosed((set l | l in links), start, removed)
    ensures removed == start + taken && forall p | p in taken :: exists l | l in links :: l.at == p
  {
    hide Followed, Forced, LeastClosed, Closed;
    ghost var all := set l | l in links;
    removed, taken := start, {};
    var done := seq(|links|, _ => false);
    assert Followed(links, done, start, removed, taken) && Forced(all, start, removed) by {
      NothingFollowed(links, done, start);
    }
    ghost var left := Count(done);
    var changed := true;
    while changed
      invariant |done| == |links| && left == Count(done)
      invariant Followed(links, done, start, removed, taken) && Forced(all, start, removed)
      invariant !changed ==> forall i | 0 <= i < |links| && !done[i] :: links[i].target !in removed
      decreases left, changed
    {
      changed := false;
      ghost var before := left;
      for i := 0 to |links|
        invariant |done| == |links| && left == Count(done) && left <= before && (changed ==> left < before)
        invariant Followed(links, done, start, removed, taken) && Forced(all, start, removed)
        invariant !changed ==> forall j | 0 <= j < i && !done[j] :: links[j].target !in removed
      {
        if !done[i] && links[i].target in removed {
          CountLess(done, i);
          FollowMore(links, done, start, removed, taken, i);
          ForcedMore(all, start, removed, links[i]);
          removed, taken := removed + {links[i].at}, taken + {links[i].at};
          done := done[i := true];
          left := left - 1;
          changed := true;
        }
      }
    }
    FollowedAll(links, done, start, removed, taken);
  }

  lemma NothingFollowed(links: seq<LinkAt>, done: seq<bool>, start: set<Path>)
    requires |done| == |links| && forall i | 0 <= i < |done| :: !done[i]
    ensures Followed(links, done, start, start, {}) && Forced((set l | l in links), start, start)
  {
  }

  function Count(done: seq<bool>): nat {
    if done == [] then 0 else (if done[0] then 0 else 1) + Count(done[1..])
  }

  lemma {:induction false} CountLess(done: seq<bool>, i: nat)
    requires i < |done| && !done[i]
    ensures Count(done[i := true]) == Count(done) - 1
  {
    if i > 0 {
      CountLess(done[1..], i - 1);
      assert done[i := true][1..] == done[1..][i - 1 := true];
    }
  }

  // ----- The sweep of one directory

  /** A directory tree on which every path can be looked at. */
  ghost predicate Readable(fs: FileSystem) {
    IsTree(fs) && fs.unreadable == {} && forall p, i | p in fs.nodes && 0 <= i < |p| :: Ordinary(p[i])
  }

  lemma TreePathIsPlain(fs: FileSystem, root: Path, p: Path)
    requires Readable(fs) && p in fs.nodes && root <= p && !fs.nodes[p].Link?
    ensures fs.Plain(root, p)
  {
    forall k | |root| < k <= |p|
      ensures Ordinary(p[k - 1]) && fs.PlainAt(p[..k])
    {
      var q := p[..k];
      forall j | 0 <= j < k && q[..j] in fs.nodes
        ensures fs.nodes[q[..j]].Dir?
      {
        assert q[..j] < p;
      }
      assert q in fs.nodes && q != p ==> q < p;
    }
  }

  /** Where a link leads, as a container path. */
  function LinkTarget(fs: FileSystem, dir: Path, p: Path): seq<Name>
    requires p in fs.nodes && fs.nodes[p].Link? && dir < p
  {
    var link := fs.nodes[p];
    if link.absolute then link.target else p[|dir|..|p| - 1] + link.target
  }

  /** The links under dir that lead anywhere inside it. */
  function LinksOf(fs: FileSystem, dir: Path): set<LinkAt> {
    set p | p in fs.nodes && fs.nodes[p].Link? && dir < p && Resolution(fs, dir, LinkTarget(fs, dir, p)).At?
      :: LinkAt(p, Resolution(fs, dir, LinkTarget(fs, dir, p)).path)
  }

  /** The directory a link lies in resolves to itself. */
  lemma ParentResolves(fs: FileSystem, dir: Path, p: Path)
    requires Readable(fs) && p in fs.nodes && dir < p
    ensures var at := Resolution(fs, dir, p[|dir|..|p| - 1]); at.At? && at.path + [p[|p| - 1]] == p
  {
    hide FileSystem.Lstat;
    var up := p[..|p| - 1];
    assert fs.Plain(dir, up) by { AboveIsPlain(fs, dir, p); }
    ResolvesToItself(fs, dir, up);
    assert ContainerPathOf(dir, up) == p[|dir|..|p| - 1];
  }

  lemma AboveIsPlain(fs: FileSystem, dir: Path, p: Path)
    requires Readable(fs) && p in fs.nodes && dir < p
    ensures fs.Plain(dir, p[..|p| - 1])
  {
    var up := p[..|p| - 1];
    forall k | |dir| < k <= |up|
      ensures Ordinary(up[k - 1]) && fs.PlainAt(up[..k])
    {
      var q := up[..k];
      assert q < p;
      forall j | 0 <= j < k && q[..j] in fs.nodes
        ensures fs.nodes[q[..j]].Dir?
      {
        assert q[..j] < p;
      }
    }
  }

  /** A link names a path: from the swept directory where it is absolute, else from where it lies. */
  predicate Names(fs: FileSystem, dir: Path, p: Path, q: Path) {
    && dir < p && p in fs.nodes && fs.nodes[p].Link?
    && q == (if fs.nodes[p].absolute then dir else p[..|p| - 1]) + fs.nodes[p].target
  }

  /** A link that names a path no link is on the way to leads there. */
  lemma NamedIsWhereItLeads(fs: FileSystem, dir: Path, p: Path, q: Path)
    requires Names(fs, dir, p, q) && fs.Plain(dir, q)
    ensures LinkAt(p, q) in LinksOf(fs, dir)
  {
    hide Resolution, FileSystem.Plain;
    var link := fs.nodes[p];
    assert dir <= q && LinkTarget(fs, dir, p) == ContainerPathOf(dir, q) by {
      var from := if link.absolute then dir else p[..|p| - 1];
      assert dir <= from && q[|dir|..] == from[|dir|..] + link.target;
      assert p[|dir|..|p| - 1] == p[..|p| - 1][|dir|..];
    }
    ResolvesToItself(fs, dir, q);
  }

  /** A link left naming a file that went goes after it. */
  lemma LinkToRemovedGoes(fs: FileSystem, dir: Path, gone: set<Path>, removed: set<Path>, p: Path, q: Path)
    requires Readable(fs) && q in gone && q in fs.nodes && fs.nodes[q].File? && dir <= q && gone <= fs.nodes.Keys
    requires var left := fs.(nodes := fs.nodes - gone); Names(left, dir, p, q) && LeastClosed(LinksOf(left, dir), gone, removed)
    ensures p in removed
  {
    hide Readable, FileSystem.Plain, LinksOf;
    var left := fs.(nodes := fs.nodes - gone);
    TreePathIsPlain(fs, dir, q);
    PlainWithLess(fs, left, dir, q);
    NamedIsWhereItLeads(left, dir, p, q);
  }

  /** Every file under dir but those in todo has been swept. */
  ghost predicate SweptBut(c: Codecs, marks: Marks, dir: Path, todo: set<Path>, was: map<Path, Bytes>,
                           now: map<Path, Bytes>, removed: set<Path>, unstrippable: set<Path>)
    requires NonEmpty(marks.needles)
  {
    && removed == (set p | p in was && dir <= p && p !in todo && Tree.Emptied(c, was[p], marks))
    && unstrippable == (set p | p in was && dir <= p && p !in todo && StripCA(c, was[p], marks).1)
    && now == map p | p in was && p !in removed ::
         if dir <= p && p !in todo then StripCA(c, was[p], marks).0 else was[p]
  }

  /** What is left of the files, those removed apart. */
  function Cleaned(c: Codecs, marks: Marks, dir: Path, was: map<Path, Bytes>, removed: set<Path>): map<Path, Bytes>
    requires NonEmpty(marks.needles)
  {
    map p | p in was && p !in removed :: if dir <= p then StripCA(c, was[p], marks).0 else was[p]
  }

  lemma NothingSwept(c: Codecs, marks: Marks, dir: Path, was: map<Path, Bytes>)
    requires NonEmpty(marks.needles)
    ensures SweptBut(c, marks, dir, (set p | p in was && dir <= p), was, was, {}, {})
  {
    hide StripCA, Tree.Emptied;
  }

  lemma SweptOne(c: Codecs, marks: Marks, dir: Path, todo: set<Path>, was: map<Path, Bytes>,
                 now: map<Path, Bytes>, removed: set<Path>, unstrippable: set<Path>, p: Path, next: map<Path, Bytes>)
    requires NonEmpty(marks.needles) && SweptBut(c, marks, dir, todo, was, now, removed, unstrippable)
    requires p in todo && p in now && dir <= p
    requires next == if Tree.Emptied(c, now[p], marks) then now - {p} else now[p := StripCA(c, now[p], marks).0]
    ensures p in was && now[p] == was[p]
    ensures SweptBut(c, marks, dir, todo - {p}, was, next,
                     if Tree.Emptied(c, was[p], marks) then removed + {p} else removed,
                     if StripCA(c, was[p], marks).1 then unstrippable + {p} else unstrippable)
  {
    hide StripCA, Tree.Emptied;
  }

  lemma AllSwept(c: Codecs, marks: Marks, dir: Path, was: map<Path, Bytes>, now: map<Path, Bytes>,
                 removed: set<Path>, unstrippable: set<Path>)
    requires NonEmpty(marks.needles) && SweptBut(c, marks, dir, {}, was, now, removed, unstrippable)
    ensures removed == set p | p in was && dir <= p && Tree.Emptied(c, was[p], marks)
    ensures unstrippable == set p | p in was && dir <= p && StripCA(c, was[p], marks).1
    ensures now == map p | p in was && p !in removed :: if dir <= p then StripCA(c, was[p], marks).0 else was[p]
  {
    hide StripCA, Tree.Emptied;
  }

  /** Whether or not the sweep came to its end, a file that carried nothing is there as it was. */
  ghost predicate OnlyCarriersChange(c: Codecs, marks: Marks, dir: Path, was: map<Path, Bytes>, now: map<Path, Bytes>)
    requires NonEmpty(marks.needles)
  {
    && now.Keys <= was.Keys
    && forall p | p in was && !(dir <= p && FileHoldsCA(c, was[p], marks.needles)) :: p in now && now[p] == was[p]
  }

  lemma SweptFrame(c: Codecs, marks: Marks, dir: Path, todo: set<Path>, was: map<Path, Bytes>,
                   now: map<Path, Bytes>, removed: set<Path>, unstrippable: set<Path>)
    requires NonEmpty(marks.needles) && SweptBut(c, marks, dir, todo, was, now, removed, unstrippable)
    ensures OnlyCarriersChange(c, marks, dir, was, now)
  {
    hide FileHoldsCA, StripCA;
    forall p | p in was && !(dir <= p && FileHoldsCA(c, was[p], marks.needles)) ensures p in now && now[p] == was[p] {
      if dir <= p {
        NothingToStrip(c, was[p], marks);
      }
    }
  }

  lemma BrokenFrame(c: Codecs, marks: Marks, dir: Path, todo: set<Path>, was: map<Path, Bytes>,
                    now: map<Path, Bytes>, removed: set<Path>, unstrippable: set<Path>, p: Path, left: Bytes)
    requires NonEmpty(marks.needles) && SweptBut(c, marks, dir, todo, was, now, removed, unstrippable)
    requires p in todo && p in now && dir <= p && FileHoldsCA(c, now[p], marks.needles)
    ensures OnlyCarriersChange(c, marks, dir, was, now[p := left])
  {
    hide FileHoldsCA, StripCA;
    SweptFrame(c, marks, dir, todo, was, now, removed, unstrippable);
    assert now[p] == was[p];
  }

  /** The regular files and their bytes, in a tree that also holds directories and links. */
  class Tree {
    var fs: FileSystem
    var content: map<Path, Bytes>

    ghost predicate Valid()
      reads this
    {
      Readable(fs) && forall p :: p in content <==> p in fs.nodes && fs.nodes[p].File?
    }

    /** Whether the sweep leaves nothing of a file that carried the CA, so that the file goes. */
    static predicate Emptied(c: Codecs, content: Bytes, marks: Marks)
      requires NonEmpty(marks.needles)
    {
      FileHoldsCA(c, content, marks.needles) && StripCA(c, content, marks) == ([], false)
    }

    method Delete(p: Path)
      requires Valid() && p in content
      modifies this
      ensures Valid() && content == old(content) - {p} && fs == old(fs).(nodes := old(fs).nodes - {p})
    {
      hide Readable;
      ReadableWithout(fs, p);
      fs := fs.(nodes := fs.nodes - {p});
      content := content - {p};
    }

    method Overwrite(p: Path, left: Bytes)
      requires Valid() && p in content
      modifies this`content
      ensures Valid() && content == old(content)[p := left]
    {
      hide Readable;
      content := content[p := left];
    }

    /** Takes the certificate out of one file that carries it; one that empties goes. */
    method StripFile(c: Codecs, dir: Path, p: Path, marks: Marks) returns (gone: bool, holds: bool)
      requires Valid() && NonEmpty(marks.needles)
      requires p in content && dir <= p && FileHoldsCA(c, content[p], marks.needles)
      modifies this
      ensures Valid()
      ensures gone == Emptied(c, old(content)[p], marks) && holds == StripCA(c, old(content)[p], marks).1
      ensures content == if gone then old(content) - {p} else old(content)[p := StripCA(c, old(content)[p], marks).0]
      ensures fs == old(fs).(nodes := if gone then old(fs).nodes - {p} else old(fs).nodes)
    {
      hide FileHoldsCA, StripCA, Resolution, FileSystem.Plain, Readable;
      var r := ResolveInRoot(fs, dir, p[|dir|..]);
      TreePathIsPlain(fs, dir, p);
      ResolvesToItself(fs, dir, p);
      var target := r.path;
      var (left, found) := StripCA(c, content[target], marks);
      holds := found;
      gone := !holds && left == [];
      if gone {
        ReadableWithout(fs, target);
        fs := fs.(nodes := fs.nodes - {target});
        content := content - {target};
      } else {
        content := content[target := left];
      }
    }

    /**
     * Takes the certificate out of every file under dir that carries it. The order the files come
     * in does not matter. Where a file cannot be read or rewritten the sweep breaks off, that file
     * left in any state.
     */
    method SweepFiles(c: Codecs, dir: Path, marks: Marks) returns (ok: bool, removed: set<Path>, unstrippable: set<Path>)
      requires Valid() && NonEmpty(marks.needles)
      modifies this
      ensures Valid()
      ensures ok ==> removed == set p | p in old(content) && dir <= p && Emptied(c, old(content)[p], marks)
      ensures ok ==> unstrippable == set p | p in old(content) && dir <= p && StripCA(c, old(content)[p], marks).1
      ensures ok ==> content == Cleaned(c, marks, dir, old(content), removed)
      ensures fs == old(fs).(nodes := old(fs).nodes - removed) && removed <= old(content).Keys
      ensures OnlyCarriersChange(c, marks, dir, old(content), content)
    {
      hide FileHoldsCA, StripCA, Emptied, Valid, SweptBut, OnlyCarriersChange;
      ok, removed, unstrippable := true, {}, {};
      var todo := set p | p in content && dir <= p;
      NothingSwept(c, marks, dir, content);
      assert old(fs).nodes - {} == old(fs).nodes;
      while todo != {}
        invariant Valid() && todo <= content.Keys && forall p | p in todo :: dir <= p
        invariant SweptBut(c, marks, dir, todo, old(content), content, removed, unstrippable)
        invariant fs == old(fs).(nodes := old(fs).nodes - removed) && removed <= old(content).Keys
        decreases |todo|
      {
        var p :| p in todo;
        ghost var before := content;
        SweptFrame(c, marks, dir, todo, old(content), content, removed, unstrippable);
        var readable := *;
        if !readable {
          return false, removed, unstrippable;
        }
        var gone, holds := false, false;
        if FileHoldsCA(c, content[p], marks.needles) {
          var written := *;
          if !written {
            var left: Bytes := *;
            BrokenFrame(c, marks, dir, todo, old(content), content, removed, unstrippable, p, left);
            Overwrite(p, left);
            return false, removed, unstrippable;
          }
          gone, holds := StripFile(c, dir, p, marks);
        } else {
          NothingToStrip(c, content[p], marks);
          assert content == content[p := content[p]];
        }
        SweptOne(c, marks, dir, todo, old(content), before, removed, unstrippable, p, content);
        assert old(fs).nodes - removed - {p} == old(fs).nodes - (removed + {p});
        todo := todo - {p};
        removed := if gone then removed + {p} else removed;
        unstrippable := if holds then unstrippable + {p} else unstrippable;
      }
      SweptFrame(c, marks, dir, {}, old(content), content, removed, unstrippable);
      AllSwept(c, marks, dir, old(content), content, removed, unstrippable);
    }

    /** The files first, then the links left pointing at what that removed. */
    method SweepDir(c: Codecs, dir: Path, marks: Marks) returns (ok: bool, removed: set<Path>, unstrippable: set<Path>)
      requires Valid() && NonEmpty(marks.needles)
      modifies this
      ensures Valid()
      ensures ok ==> unstrippable == set p | p in old(content) && dir <= p && StripCA(c, old(content)[p], marks).1
      ensures ok ==> var gone := set p | p in old(content) && dir <= p && Emptied(c, old(content)[p], marks);
        LeastClosed(LinksOf(old(fs).(nodes := old(fs).nodes - gone), dir), gone, removed)
      ensures ok ==> IsSwept(c, marks, dir, old(content), content)
      ensures fs == old(fs).(nodes := old(fs).nodes - removed)
      ensures OnlyCarriersChange(c, marks, dir, old(content), content)
    {
      hide FileHoldsCA, StripCA, Emptied, Readable, LinksOf, OnlyCarriersChange;
      var gone;
      ok, gone, unstrippable := SweepFiles(c, dir, marks);
      if !ok {
        return false, gone, unstrippable;
      }
      removed := DropRemovedLinks(dir, gone);
      assert old(fs).nodes - gone - removed == old(fs).nodes - removed;
    }

    /** Takes out the links under dir left pointing at something removed, directly or through another such link. */
    method DropRemovedLinks(dir: Path, gone: set<Path>) returns (removed: set<Path>)
      requires Valid() && fs.nodes.Keys !! gone
      modifies this`fs
      ensures Valid()
      ensures LeastClosed(LinksOf(old(fs), dir), gone, removed)
      ensures fs == old(fs).(nodes := old(fs).nodes - removed)
    {
      if gone == {} {
        assert old(fs).nodes - {} == old(fs).nodes;
        return {};
      }
      var links: seq<LinkAt> := [];
      var todo := set p | p in fs.nodes && fs.nodes[p].Link? && dir < p;
      while todo != {}
        invariant todo <= fs.nodes.Keys && unchanged(this)
        invariant forall p | p in todo :: fs.nodes[p].Link? && dir < p
        invariant forall l :: l in links <==> l in LinksOf(fs, dir) && l.at !in todo
        decreases |todo|
      {
        var p :| p in todo;
        todo := todo - {p};
        ParentResolves(fs, dir, p);
        var at := ResolveInRoot(fs, dir, p[|dir|..|p| - 1]);
        var target := ResolveInRoot(fs, dir, LinkTarget(fs, dir, p));
        if target.At? {
          assert LinkAt(p, target.path) in LinksOf(fs, dir);
          links := links + [LinkAt(at.path + [p[|p| - 1]], target.path)];
        }
      }
      var taken;
      removed, taken := FollowLinks(links, gone);
      assert (set l | l in links) == LinksOf(fs, dir);
      fs := fs.(nodes := fs.nodes - taken);
      assert old(fs).nodes - taken == old(fs).nodes - removed;
    }
  }

  lemma ReadableWithout(fs: FileSystem, p: Path)
    requires Readable(fs)
    ensures Readable(fs.(nodes := fs.nodes - {p}))
  {
  }

  /** A file that carries nothing is left as it is. */
  lemma NothingToStrip(c: Codecs, content: Bytes, marks: Marks)
    requires NonEmpty(marks.needles) && !FileHoldsCA(c, content, marks.needles)
    ensures StripCA(c, content, marks) == (content, false) && !Tree.Emptied(c, content, marks)
  {
  }

  /** What a sweep under dir makes of the files' bytes. */
  ghost predicate IsSwept(c: Codecs, marks: Marks, dir: Path, was: map<Path, Bytes>, now: map<Path, Bytes>)
    requires NonEmpty(marks.needles)
  {
    && (forall p :: p in now <==> p in was && !(dir <= p && Tree.Emptied(c, was[p], marks)))
    && (forall p | p in now :: now[p] == if dir <= p then StripCA(c, was[p], marks).0 else was[p])
  }

  /** Only files that carried the certificate change or go: any other keeps its bytes. */
  lemma SweepFrame(c: Codecs, marks: Marks, dir: Path, was: map<Path, Bytes>, now: map<Path, Bytes>, p: Path)
    requires NonEmpty(marks.needles) && IsSwept(c, marks, dir, was, now) && p in was
    ensures !FileHoldsCA(c, was[p], marks.needles) ==> p in now && now[p] == was[p]
    ensures p !in now ==> dir <= p && StripCA(c, was[p], marks) == ([], false)
  {
    hide FileHoldsCA, StripCA;
    if !FileHoldsCA(c, was[p], marks.needles) {
      NothingToStrip(c, was[p], marks);
    }
  }
}
