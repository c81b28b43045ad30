/**
 * What a mirror looked like at some moment, and telling whether it still does
 * (docker/inspect/buildcage-runc/mount.go 195-287).
 */
module Manifests {
  import opened Search
  import opened Resolve

  datatype Meta = Meta(mode: nat, uid: nat, gid: nat, mtime: int)

  /** `node` is the type of the entry and a link's target, `sha256` the digest of a regular file. */
  datatype FileEntry = FileEntry(node: Node, meta: Meta, sha256: Option<Bytes>)

  type Manifest = map<Path, FileEntry>

  type Hash = Bytes -> Bytes

  /** Everything a step could have altered but the time of it. */
  predicate SameExceptMtime(a: FileEntry, b: FileEntry) {
    a.node == b.node && a.sha256 == b.sha256
    && a.meta.mode == b.meta.mode && a.meta.uid == b.meta.uid && a.meta.gid == b.meta.gid
  }

  predicate ManifestsEqual(a: Manifest, b: Manifest) {
    a.Keys == b.Keys && forall p | p in a :: SameExceptMtime(a[p], b[p])
  }

  function MetaAt(meta: map<Path, Meta>, p: Path): Meta {
    if p in meta then meta[p] else Meta(0, 0, 0, 0)
  }

  function EntryOf(hash: Hash, fs: FileSystem, content: map<Path, Bytes>, meta: map<Path, Meta>, p: Path): FileEntry
    requires p in fs.nodes
  {
    FileEntry(fs.nodes[p], MetaAt(meta, p), if p in content then Some(hash(content[p])) else None)
  }

  function Captured(hash: Hash, fs: FileSystem, content: map<Path, Bytes>, meta: map<Path, Meta>): Manifest {
    map p | p in fs.nodes && p != [] :: EntryOf(hash, fs, content, meta, p)
  }

  // ---- what a manifest tells ----

  predicate SameOwnerAndMode(a: Meta, b: Meta) {
    a.mode == b.mode && a.uid == b.uid && a.gid == b.gid
  }

  /** The bytes at a path are of the digest recorded, none where no bytes are. */
  predicate HasDigest(hash: Hash, content: map<Path, Bytes>, p: Path, sha256: Option<Bytes>) {
    if p in content then sha256 == Some(hash(content[p])) else sha256 == None
  }

  /** What stands at `p` is what the entry was recorded of. */
  predicate IsRecordOf(hash: Hash, e: FileEntry, fs: FileSystem, content: map<Path, Bytes>, meta: map<Path, Meta>, p: Path) {
    && p in fs.nodes && p != [] && fs.nodes[p] == e.node
    && SameOwnerAndMode(e.meta, MetaAt(meta, p)) && HasDigest(hash, content, p, e.sha256)
  }

  /** A tree is as it was recorded: at each path, and with none come or gone. */
  ghost predicate IsAsRecorded(hash: Hash, recorded: Manifest, fs: FileSystem, content: map<Path, Bytes>, meta: map<Path, Meta>) {
    && (forall p | p in recorded :: IsRecordOf(hash, recorded[p], fs, content, meta, p))
    && (forall p | p in fs.nodes && p != [] :: p in recorded)
  }

  /** One entry compares equal just when the path still is what it was recorded as. */
  lemma EntryTells(hash: Hash, e: FileEntry, fs: FileSystem, content: map<Path, Bytes>, meta: map<Path, Meta>, p: Path)
    ensures p in Captured(hash, fs, content, meta) && SameExceptMtime(Captured(hash, fs, content, meta)[p], e)
       <==> IsRecordOf(hash, e, fs, content, meta, p)
  {
  }

  /** And the whole manifest when the whole tree is. */
  lemma ManifestTells(hash: Hash, recorded: Manifest, fs: FileSystem, content: map<Path, Bytes>, meta: map<Path, Meta>)
    ensures ManifestsEqual(Captured(hash, fs, content, meta), recorded) <==> IsAsRecorded(hash, recorded, fs, content, meta)
  {
    hide IsRecordOf, SameExceptMtime, Captured;
    var current := Captured(hash, fs, content, meta);
    assert forall p :: p in current <==> p in fs.nodes && p != [] by { PathsCaptured(hash, fs, content, meta); }
    forall p | p in recorded
      ensures p in current && SameExceptMtime(current[p], recorded[p]) <==> IsRecordOf(hash, recorded[p], fs, content, meta, p)
    {
      EntryTells(hash, recorded[p], fs, content, meta, p);
    }
  }

  lemma PathsCaptured(hash: Hash, fs: FileSystem, content: map<Path, Bytes>, meta: map<Path, Meta>)
    ensures forall p :: p in Captured(hash, fs, content, meta) <==> p in fs.nodes && p != []
  {
  }

  /** The same entry of the same owner and mode; a file's bytes have one digest. */
  predicate LooksAlike(hash: Hash, fs: FileSystem, content: map<Path, Bytes>, meta: map<Path, Meta>,
    fs': FileSystem, content': map<Path, Bytes>, meta': map<Path, Meta>, p: Path)
  {
    && p in fs.nodes && p in fs'.nodes && fs.nodes[p] == fs'.nodes[p] && SameOwnerAndMode(MetaAt(meta, p), MetaAt(meta', p))
    && (p in content <==> p in content') && (p in content ==> hash(content[p]) == hash(content'[p]))
  }

  ghost predicate LookAlike(hash: Hash, fs: FileSystem, content: map<Path, Bytes>, meta: map<Path, Meta>,
    fs': FileSystem, content': map<Path, Bytes>, meta': map<Path, Meta>)
  {
    && (forall p :: p != [] ==> (p in fs.nodes <==> p in fs'.nodes))
    && (forall p | p in fs'.nodes && p != [] :: LooksAlike(hash, fs, content, meta, fs', content', meta', p))
  }

  /** Two states of a mirror have equal manifests just when they look alike. */
  lemma ManifestsTell(hash: Hash, fs: FileSystem, content: map<Path, Bytes>, meta: map<Path, Meta>,
    fs': FileSystem, content': map<Path, Bytes>, meta': map<Path, Meta>)
    ensures ManifestsEqual(Captured(hash, fs, content, meta), Captured(hash, fs', content', meta'))
       <==> LookAlike(hash, fs, content, meta, fs', content', meta')
  {
    hide ManifestsEqual, Captured, IsRecordOf;
    var other := Captured(hash, fs', content', meta');
    ManifestTells(hash, other, fs, content, meta);
    PathsCaptured(hash, fs', content', meta');
    forall p | p in fs'.nodes && p != []
      ensures IsRecordOf(hash, other[p], fs, content, meta, p) <==> LooksAlike(hash, fs, content, meta, fs', content', meta', p)
    {
      RecordTells(hash, fs, content, meta, fs', content', meta', p);
    }
    hide LooksAlike;
    if LookAlike(hash, fs, content, meta, fs', content', meta') {
      forall p | p in fs.nodes && p != [] ensures p in other {
        assert p in fs'.nodes;
      }
    }
  }

  lemma RecordTells(hash: Hash, fs: FileSystem, content: map<Path, Bytes>, meta: map<Path, Meta>,
    fs': FileSystem, content': map<Path, Bytes>, meta': map<Path, Meta>, p: Path)
    requires p in fs'.nodes && p != []
    ensures p in Captured(hash, fs', content', meta')
    ensures IsRecordOf(hash, Captured(hash, fs', content', meta')[p], fs, content, meta, p)
       <==> LooksAlike(hash, fs, content, meta, fs', content', meta', p)
  {
  }
}
