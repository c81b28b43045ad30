/**
 * From injection to the end of the step: the mirrors reconciled with the rootfs, the step's layer swept
 * and read back, and the directories the injection made taken away
 * (docker/inspect/buildcage-runc/mount.go 260-518, inject.go 190-232, layer.go 350-395, residue.go).
 *
 * The step itself is whatever happens to the mirrors and the layer in between: nothing is asked of
 * either but that it is a tree.
 */
module Lifecycle {
  import opened Search
  import opened FileWindow
  import opened Resolve
  import opened Anchors
  import opened Manifests
  import opened Sweep
  import Binds
  import Bundle
  import BundleRoundTrip
  import Keystore
  import KeystoreRoundTrip
  import NssSlot

  // ---- one bound directory ----

  /** How an undoing step ended: residue is a copy of the certificate that could not be taken out. */
  datatype Outcome = Done | Failed | Residue

  /** How preparing a mirror ended; a keystore left half-written makes the injection be abandoned. */
  datatype Prepared = Ready | Unprepared | HalfWritten

  const PKCS11: Path := ["pkcs11.txt"]

  /** A mirror put in place of what stood under a directory. */
  function GraftedNodes(nodes: map<Path, Node>, dir: Path, mirror: map<Path, Node>): map<Path, Node> {
    (map p | p in nodes && !(dir < p) :: nodes[p]) + Under(dir, map q | q in mirror && q != [] :: mirror[q])
  }

  function GraftedContent(content: map<Path, Bytes>, dir: Path, mirror: map<Path, Bytes>): map<Path, Bytes> {
    (map p | p in content && !(dir < p) :: content[p]) + Under(dir, map q | q in mirror && q != [] :: mirror[q])
  }

  /** A map's keys moved under a directory. */
  function Under<T>(dir: Path, m: map<Path, T>): (r: map<Path, T>)
    ensures forall p :: p in r <==> dir <= p && p[|dir|..] in m
    ensures forall p | p in r :: r[p] == m[p[|dir|..]]
  {
    var keys := set q | q in m :: dir + q;
    assert forall q | q in m :: dir + q in keys && (dir + q)[|dir|..] == q;
    assert forall p | dir <= p && p[|dir|..] in m :: dir + p[|dir|..] == p;
    map p | p in keys :: m[p[|dir|..]]
  }

  /** A directory holds what is owed to it. */
  predicate Keeps(content: map<Path, Bytes>, owed: map<Path, Bytes>) {
    forall p | p in owed :: Holds(content, p, owed[p])
  }

  /** The directory is still what its path leads to, and the mirror stands in its place. */
  ghost predicate IsWrittenBack(was: FileSystem, now: FileSystem, bytesWas: map<Path, Bytes>, bytesNow: map<Path, Bytes>,
    dir: Path, mirror: FileSystem, bytes: map<Path, Bytes>)
  {
    && Resolution(was, [], dir).At? && Resolution(was, [], dir).path == dir
    && dir in was.nodes && was.nodes[dir].Dir?
    && now == was.(nodes := GraftedNodes(was.nodes, dir, mirror.nodes))
    && bytesNow == GraftedContent(bytesWas, dir, bytes)
  }

  predicate Holds(content: map<Path, Bytes>, p: Path, bytes: Bytes) {
    p in content && content[p] == bytes
  }

  /** What a bundle becomes: nothing where the CA file holds no certificate. */
  function BundleWith(c: Codecs, ca: Bytes, b: Bytes): Option<Bytes> {
    if Bundle.CertificateDERs(c.pem, ca) == [] then None else Some(Bundle.Appended(b, ca))
  }

  /** What a keystore of either format becomes, where it takes every certificate of the CA file. */
  function KeystoreWith(c: Codecs, ca: Bytes, b: Bytes): Option<Bytes> {
    var ders := Bundle.CertificateDERs(c.pem, ca);
    if ders == [] || |b| < |Keystore.MAGIC| || |b| > Keystore.MAX_KEYSTORE_BYTES then None
    else if Keystore.MAGIC <= b then
      match Keystore.With(c.sha1, b, ders)
      case Err(_) => None
      case Ok(injected) => Some(injected)
    else if LooksLikePKCS12(b) then c.pkcs12With(b, ders)
    else None
  }

  function Insertion(c: Codecs, ca: Bytes, keystore: bool): Bytes -> Option<Bytes> {
    b => if keystore then KeystoreWith(c, ca, b) else BundleWith(c, ca, b)
  }

  /** A file the certificate can be put into. */
  predicate TakesIn(insert: Bytes -> Option<Bytes>, content: map<Path, Bytes>, p: Path) {
    p in content && insert(content[p]).Some?
  }

  /** The certificate put into each of the named files that takes it, and nothing else changed. */
  function Injected(insert: Bytes -> Option<Bytes>, names: seq<Path>, was: map<Path, Bytes>): map<Path, Bytes> {
    map p | p in was :: if p in names && TakesIn(insert, was, p) then insert(was[p]).value else was[p]
  }

  /** The bytes of the named files that take the certificate. */
  function Originals(insert: Bytes -> Option<Bytes>, names: seq<Path>, was: map<Path, Bytes>): map<Path, Bytes> {
    map p | p in was && p in names && TakesIn(insert, was, p) :: was[p]
  }

  /** A CA file with a certificate goes at the end of each named bundle, and nothing else changes. */
  lemma InjectedBundles(c: Codecs, ca: Bytes, names: seq<Path>, was: map<Path, Bytes>)
    requires Bundle.CertificateDERs(c.pem, ca) != []
    ensures var now := Injected(Insertion(c, ca, false), names, was);
      && now.Keys == was.Keys
      && (forall p | p in was :: now[p] == if p in names then Bundle.Appended(was[p], ca) else was[p])
    ensures Originals(Insertion(c, ca, false), names, was) == map p | p in was && p in names :: was[p]
  {
    hide Bundle.Appended, Bundle.CertificateDERs, KeystoreWith;
  }

  /**
   * A JKS keystore that opens, parses and is named comes to hold, after its own entries, a trusted one
   * for each certificate of the CA file; stripping it of them gives back what it was, where none of its
   * own held one.
   */
  lemma InjectedKeystore(c: Codecs, ca: Bytes, names: seq<Path>, was: map<Path, Bytes>, p: Path)
    requires Keystore.IsSha1(c.sha1) && p in was && p in names
    requires Keystore.MAGIC <= was[p] && |was[p]| <= Keystore.MAX_KEYSTORE_BYTES
    requires Keystore.Open(c.sha1, was[p]).Ok? && Keystore.Parse(Keystore.Open(c.sha1, was[p]).value).Ok?
    requires var ders := Bundle.CertificateDERs(c.pem, ca);
      0 < |ders| < Keystore.TWO_32 - Keystore.MAX_KEYSTORE_BYTES && forall j | 0 <= j < |ders| :: |ders[j]| < Keystore.TWO_32
    ensures var now := Injected(Insertion(c, ca, true), names, was); var ders := Bundle.CertificateDERs(c.pem, ca);
      var (version, entries) := Keystore.Parse(Keystore.Open(c.sha1, was[p]).value).value;
      && p in now && Keystore.Open(c.sha1, now[p]).Ok? && Keystore.Parse(Keystore.Open(c.sha1, now[p]).value).Ok?
      && var (version', entries') := Keystore.Parse(Keystore.Open(c.sha1, now[p]).value).value;
         && version' == version && entries <= entries' && KeystoreRoundTrip.TrustEach(entries'[|entries|..], ders)
         && (Keystore.Without(c.sha1, now[p], ders) == Keystore.Ok(was[p]) <==> forall e | e in entries :: !Keystore.Holds(e, ders))
  {
    hide Keystore.Open, Keystore.Parse, Keystore.Without, Keystore.Holds, Keystore.With, Bundle.CertificateDERs, BundleWith;
    var ders := Bundle.CertificateDERs(c.pem, ca);
    KeystoreRoundTrip.WithReads(c.sha1, was[p], ders);
    BodyStartsSo(c.sha1, was[p]);
    KeystoreRoundTrip.WithoutUndoesWith(c.sha1, was[p], ders);
    assert KeystoreWith(c, ca, was[p]) == Some(Keystore.With(c.sha1, was[p], ders).value);
    assert Insertion(c, ca, true)(was[p]) == KeystoreWith(c, ca, was[p]);
    assert TakesIn(Insertion(c, ca, true), was, p);
    assert Injected(Insertion(c, ca, true), names, was)[p] == Keystore.With(c.sha1, was[p], ders).value;
  }

  /** A PKCS#12 that takes the certificates is what its own library makes of it; what is neither kind is left. */
  lemma InjectedOtherwise(c: Codecs, ca: Bytes, names: seq<Path>, was: map<Path, Bytes>, p: Path)
    requires p in was && p in names && Bundle.CertificateDERs(c.pem, ca) != [] && !(Keystore.MAGIC <= was[p])
    ensures var now := Injected(Insertion(c, ca, true), names, was); var b := was[p];
      p in now && now[p] ==
        if 4 <= |b| <= 16 * 1024 * 1024 && b[0] == 0x30 && b[1] >= 0x80 && c.pkcs12With(b, Bundle.CertificateDERs(c.pem, ca)).Some?
        then c.pkcs12With(b, Bundle.CertificateDERs(c.pem, ca)).value else b
  {
    hide Bundle.CertificateDERs, BundleWith;
    assert Insertion(c, ca, true)(was[p]) == KeystoreWith(c, ca, was[p]);
  }

  lemma BodyStartsSo(sha1: Keystore.Digest, content: Bytes)
    requires Keystore.Open(sha1, content).Ok? && Keystore.MAGIC <= content
    ensures Keystore.Open(sha1, content).value[..4] == Keystore.MAGIC
  {
  }

  lemma InjectNone(insert: Bytes -> Option<Bytes>, was: map<Path, Bytes>)
    ensures Injected(insert, [], was) == was && Originals(insert, [], was) == map[]
  {
  }

  /** One file more. */
  function InjectedAt(insert: Bytes -> Option<Bytes>, p: Path, now: map<Path, Bytes>): map<Path, Bytes> {
    if TakesIn(insert, now, p) then now[p := insert(now[p]).value] else now
  }

  function RememberedAt(insert: Bytes -> Option<Bytes>, p: Path, now: map<Path, Bytes>, originals: map<Path, Bytes>): map<Path, Bytes> {
    if TakesIn(insert, now, p) then originals[p := now[p]] else originals
  }

  lemma InjectStep(insert: Bytes -> Option<Bytes>, names: seq<Path>, p: Path, was: map<Path, Bytes>)
    requires p !in names
    ensures Injected(insert, names + [p], was) == InjectedAt(insert, p, Injected(insert, names, was))
  {
    NotYetInjected(insert, names, p, was);
    hide TakesIn;
  }

  lemma RememberStep(insert: Bytes -> Option<Bytes>, names: seq<Path>, p: Path, was: map<Path, Bytes>)
    requires p !in names
    ensures Originals(insert, names + [p], was)
      == RememberedAt(insert, p, Injected(insert, names, was), Originals(insert, names, was))
  {
    NotYetInjected(insert, names, p, was);
    hide TakesIn, Injected;
  }

  lemma NotYetInjected(insert: Bytes -> Option<Bytes>, names: seq<Path>, p: Path, was: map<Path, Bytes>)
    requires p !in names
    ensures var now := Injected(insert, names, was);
      TakesIn(insert, now, p) == TakesIn(insert, was, p) && (p in was <==> p in now) && (p in was ==> now[p] == was[p])
  {
  }

  /** The slot's text is in the file. */
  predicate HoldsSlot(b: Bytes) {
    Contains(NssSlot.AsText(b), NssSlot.SLOT)
  }

  /** What taking the slot back makes of a list of modules; one the injection made goes when nothing else is in it. */
  function TakenBack(appended: string, hadTxt: bool, b: Bytes): Option<Bytes> {
    match NssSlot.Removed(NssSlot.AsText(b), appended)
    case TooLarge => Some(b)
    case NoSlot => Some(b)
    case Left(kept) => if !hadTxt && kept == "" then None else Some(NssSlot.AsBytes(kept))
  }

  /** A mirror whose list of modules has the slot taken back out. */
  function SlotRemoved(appended: string, hadTxt: bool, content: map<Path, Bytes>): map<Path, Bytes> {
    if appended == "" || PKCS11 !in content then content
    else
      match TakenBack(appended, hadTxt, content[PKCS11])
      case None => content - {PKCS11}
      case Some(kept) => content[PKCS11 := kept]
  }

  lemma TakenBackIs(appended: string, hadTxt: bool, b: Bytes)
    ensures var removed := NssSlot.Removed(NssSlot.AsText(b), appended);
      TakenBack(appended, hadTxt, b) ==
        if !removed.Left? then Some(b) else if !hadTxt && removed.content == "" then None else Some(NssSlot.AsBytes(removed.content))
    ensures |b| > NssSlot.MAX_PKCS11_TXT_BYTES <==> NssSlot.Removed(NssSlot.AsText(b), appended).TooLarge?
  {
  }

  /** A file without a slot comes through. */
  lemma SlotFrame(appended: string, hadTxt: bool, content: map<Path, Bytes>, p: Path)
    requires p in content && !HoldsSlot(content[p]) && NssSlot.IsAppended(appended)
    ensures Holds(SlotRemoved(appended, hadTxt, content), p, content[p])
  {
    NssSlot.NoSlotNoCut(NssSlot.AsText(content[p]), appended);
    hide NssSlot.Removed, NssSlot.SLOT;
  }

  /**
   * The slot given and taken back, with whatever the step appended after it: where it appended nothing
   * the mirror is what it was, without a list of modules where it had none.
   */
  lemma SlotComesBack(content: map<Path, Bytes>, t: Bytes)
    requires var c := if PKCS11 in content then NssSlot.AsText(content[PKCS11]) else "";
      !Contains(NssSlot.AsText(t), NssSlot.SLOT) && |c + NssSlot.Appended(c) + NssSlot.AsText(t)| <= NssSlot.MAX_PKCS11_TXT_BYTES
    ensures var c := if PKCS11 in content then NssSlot.AsText(content[PKCS11]) else ""; var appended := NssSlot.Appended(c);
      var injected := content[PKCS11 := NssSlot.AsBytes(c + appended + NssSlot.AsText(t))];
      SlotRemoved(appended, PKCS11 in content, injected) ==
        if t == [] then content else content[PKCS11 := NssSlot.AsBytes(c + NssSlot.Separator(c) + NssSlot.AsText(t))]
  {
    hide NssSlot.SLOT, NssSlot.Removed, NssSlot.Appended, NssSlot.Separator, Contains;
    var c := if PKCS11 in content then NssSlot.AsText(content[PKCS11]) else "";
    var text := c + NssSlot.Appended(c) + NssSlot.AsText(t);
    NssSlot.RemoveUndoesAppend(c, NssSlot.AsText(t));
    NssSlot.AppendedChars(c);
    if PKCS11 in content { NssSlot.BytesBack(content[PKCS11]); }
    NssSlot.BytesBack(t);
    assert NssSlot.IsByteText(text);
    NssSlot.TextBack(text);
    assert t != [] ==> c + NssSlot.Separator(c) + NssSlot.AsText(t) != "";
    assert NssSlot.AsText(t) == "" <==> t == [];
    assert c == "" && PKCS11 in content ==> content[PKCS11] == [];
    var injected, left := content[PKCS11 := NssSlot.AsBytes(text)], c + NssSlot.Separator(c) + NssSlot.AsText(t);
    assert PKCS11 !in content ==> injected - {PKCS11} == content;
    assert injected[PKCS11 := NssSlot.AsBytes(left)] == content[PKCS11 := NssSlot.AsBytes(left)];
    assert PKCS11 in content ==> injected[PKCS11 := content[PKCS11]] == content;
  }

  /** An entry, no link, that is what it was recorded as. */
  predicate IsAsBefore(hash: Hash, original: Manifest, fs: FileSystem, content: map<Path, Bytes>, meta: map<Path, Meta>, p: Path) {
    p in original && !original[p].node.Link? && IsRecordOf(hash, original[p], fs, content, meta, p)
  }

  /** Only a directory tree's regular files are recorded as such. */
  lemma RememberedAreFiles(hash: Hash, mirror: Tree, meta: map<Path, Meta>)
    requires mirror.Valid()
    ensures forall p | p in mirror.content && p in Captured(hash, mirror.fs, mirror.content, meta) ::
              Captured(hash, mirror.fs, mirror.content, meta)[p].node.File?
  {
  }

  /** The times of the entries that are as before, put back. */
  function TimesRestored(hash: Hash, original: Manifest, fs: FileSystem, content: map<Path, Bytes>, meta: map<Path, Meta>):
    map<Path, Meta>
  {
    map p | p in meta ::
      if IsAsBefore(hash, original, fs, content, meta, p) then meta[p].(mtime := original[p].meta.mtime) else meta[p]
  }

  /** What is as a regular file was recorded is one. */
  lemma RecordedIsFile(hash: Hash, e: FileEntry, fs: FileSystem, content: map<Path, Bytes>, meta: map<Path, Meta>, p: Path)
    requires forall q :: q in content <==> q in fs.nodes && fs.nodes[q].File?
    requires e.node.File? && IsRecordOf(hash, e, fs, content, meta, p)
    ensures p in content
  {
  }

  lemma SameNodes(hash: Hash, fs: FileSystem, a: map<Path, Bytes>, b: map<Path, Bytes>, meta: map<Path, Meta>)
    ensures Captured(hash, fs, a, meta).Keys == Captured(hash, fs, b, meta).Keys
    ensures forall p | p in Captured(hash, fs, a, meta) :: Captured(hash, fs, a, meta)[p].node == Captured(hash, fs, b, meta)[p].node
  {
  }

  /** An entry that is as it was recorded gets its time back, unless it is a link; nothing else of any entry changes. */
  lemma TimesAre(hash: Hash, original: Manifest, fs: FileSystem, content: map<Path, Bytes>, meta: map<Path, Meta>, p: Path)
    requires p in meta
    ensures var restored := TimesRestored(hash, original, fs, content, meta);
      && p in restored && SameOwnerAndMode(restored[p], meta[p])
      && restored[p].mtime ==
           if p in original && IsRecordOf(hash, original[p], fs, content, meta, p) && !fs.nodes[p].Link?
           then original[p].meta.mtime else meta[p].mtime
  {
  }

  lemma SameNode(a: Manifest, b: Manifest, p: Path)
    requires p in a && p in b && SameExceptMtime(a[p], b[p])
    ensures a[p].node == b[p].node
  {
  }

  class DirBind {
    const hostDir: Path
    const mirror: Tree
    var meta: map<Path, Meta>
    var original: Manifest
    var baseline: Manifest
    /** Each injected keystore's bytes before the injection. */
    var keystoreOriginals: map<Path, Bytes>
    /** What was appended to the mirror's list of modules, nothing where it got no slot. */
    var nssAppended: string
    var nssHadTxt: bool

    constructor (hostDir: Path, mirror: Tree, meta: map<Path, Meta>)
      requires mirror.Valid()
      ensures this.hostDir == hostDir && this.mirror == mirror && this.meta == meta && keystoreOriginals == map[]
      ensures nssAppended == ""
    {
      this.hostDir, this.mirror, this.meta := hostDir, mirror, meta;
      original, baseline, keystoreOriginals := map[], map[], map[];
      nssAppended, nssHadTxt := "", false;
    }

    /** What was remembered of a keystore was a regular file. */
    ghost predicate Valid()
      reads this, mirror
    {
      mirror.Valid() && NssSlot.IsAppended(nssAppended)
      && forall p | p in keystoreOriginals && p in baseline :: baseline[p].node.File?
    }

    function Current(hash: Hash): Manifest
      reads this, mirror
    {
      Captured(hash, mirror.fs, mirror.content, meta)
    }

    /** The keystore stands as the injection left it. */
    predicate IsUntouched(hash: Hash, p: Path)
      reads this, mirror
    {
      p in keystoreOriginals && p in baseline && IsRecordOf(hash, baseline[p], mirror.fs, mirror.content, meta, p)
    }

    /** The step left the mirror as the injection made it. */
    ghost predicate IsUnchanged(hash: Hash)
      reads this, mirror
    {
      IsAsRecorded(hash, baseline, mirror.fs, mirror.content, meta)
    }

    /** The mirror with every keystore the step left alone back as it was before the injection. */
    ghost function Restored(hash: Hash): map<Path, Bytes>
      reads this, mirror
    {
      map p | p in mirror.content :: if IsUntouched(hash, p) then keystoreOriginals[p] else mirror.content[p]
    }

    /** What the sweep of the mirror starts from. */
    ghost function ToSweep(hash: Hash): map<Path, Bytes>
      reads this, mirror
    {
      SlotRemoved(nssAppended, nssHadTxt, Restored(hash))
    }

    /** A remembered keystore that did not hold the certificate before. */
    predicate IsClean(c: Codecs, marks: Marks, p: Path)
      requires NonEmpty(marks.needles)
      reads this
    {
      p in keystoreOriginals && !HoldsSlot(keystoreOriginals[p]) && !FileHoldsCA(c, keystoreOriginals[p], marks.needles)
    }

    /**
     * What a write-back owes the step: the bytes, from before the injection, of each keystore that did
     * not hold the certificate then and that the step left as the injection made it. Nothing is owed
     * where nothing is written back.
     */
    ghost function Owed(c: Codecs, marks: Marks, hash: Hash): map<Path, Bytes>
      requires NonEmpty(marks.needles)
      reads this, mirror
    {
      map p | p in keystoreOriginals && IsUntouched(hash, p) && IsClean(c, marks, p)
              && !IsUnchanged(hash) :: keystoreOriginals[p]
    }

    /**
     * Puts the certificate into one file, where it takes it; a keystore's bytes from before are
     * remembered. One whose write did not start is left; a bundle that cannot be written, or a CA file
     * without a certificate, refuses the whole mirror.
     */
    method InjectInto(p: Path, keystore: bool, c: Codecs, ca: Bytes) returns (r: Prepared, took: bool)
      requires mirror.Valid()
      modifies this`keystoreOriginals, mirror`content
      ensures mirror.Valid()
      ensures took ==> r.Ready? && mirror.content == InjectedAt(Insertion(c, ca, keystore), p, old(mirror.content))
      ensures took && keystore ==>
        keystoreOriginals == RememberedAt(Insertion(c, ca, keystore), p, old(mirror.content), old(keystoreOriginals))
      ensures !keystore ==> keystoreOriginals == old(keystoreOriginals)
      ensures !took && r.Ready? ==> keystore && mirror.content == old(mirror.content)
      ensures !took ==> keystoreOriginals == old(keystoreOriginals)
      ensures (r.HalfWritten? ==> keystore) && (r.Unprepared? ==> !keystore)
      ensures !keystore && p in old(mirror.content) && Bundle.CertificateDERs(c.pem, ca) == [] ==> r.Unprepared?
    {
      hide Readable, KeystoreWith, Bundle.CertificateDERs, Bundle.Appended;
      r, took := Ready, true;
      if p in mirror.content {
        match Insertion(c, ca, keystore)(mirror.content[p]) {
          case None =>
            if !keystore { return Unprepared, false; }
          case Some(injected) =>
            var started, written := *, *;
            if keystore && !started { return Ready, false; }
            if !written {
              var left: Bytes := *;
              mirror.Overwrite(p, left);
              return if keystore then HalfWritten else Unprepared, false;
            }
            if keystore { keystoreOriginals := keystoreOriginals[p := mirror.content[p]]; }
            mirror.Overwrite(p, injected);
        }
      }
    }

    /**
     * Puts the certificate into each named file that takes it, and records the state before and after.
     * A keystore's bytes from before are remembered. `taken` are the names whose write went through:
     * all of them for bundles.
     */
    method Prepare(hash: Hash, names: seq<Path>, keystore: bool, c: Codecs, ca: Bytes)
      returns (r: Prepared, ghost taken: seq<Path>)
      requires Valid() && keystoreOriginals == map[]
      requires forall j, k | 0 <= j < k < |names| :: names[j] != names[k]
      modifies this, mirror
      ensures Valid() && mirror.fs == old(mirror.fs) && meta == old(meta) && nssAppended == old(nssAppended)
      ensures r.HalfWritten? ==> keystore
      ensures r.Ready? ==> original == old(Current(hash)) && baseline == Current(hash)
      ensures r.Ready? ==> mirror.content == Injected(Insertion(c, ca, keystore), taken, old(mirror.content))
      ensures r.Ready? ==> (forall p | p in taken :: p in names) && (!keystore ==> taken == names)
      ensures r.Ready? ==>
        keystoreOriginals == if keystore then Originals(Insertion(c, ca, keystore), taken, old(mirror.content)) else map[]
      ensures r.Ready? ==> forall p | p in keystoreOriginals :: Holds(old(mirror.content), p, keystoreOriginals[p])
    {
      hide Captured, Readable, Injected, InjectedAt, RememberedAt, Insertion;
      taken := [];
      var mirrored := *;
      if !mirrored { return Unprepared, taken; }
      original := Current(hash);
      ghost var was, insert := mirror.content, Insertion(c, ca, keystore);
      baseline := map[];
      InjectNone(insert, was);
      for k := 0 to |names|
        invariant mirror.Valid() && mirror.fs == old(mirror.fs) && NssSlot.IsAppended(nssAppended)
        invariant original == old(Current(hash)) && meta == old(meta) && baseline == map[] && nssAppended == old(nssAppended)
        invariant mirror.content == Injected(insert, taken, was)
        invariant keystoreOriginals == if keystore then Originals(insert, taken, was) else map[]
        invariant (forall p | p in taken :: p in names[..k]) && (!keystore ==> taken == names[..k])
      {
        var took;
        r, took := InjectInto(names[k], keystore, c, ca);
        if !r.Ready? { return; }
        if took {
          assert names[k] !in names[..k];
          InjectStep(insert, taken, names[k], was);
          RememberStep(insert, taken, names[k], was);
          taken := taken + [names[k]];
        }
      }
      assert names[..|names|] == names;
      var captured := *;
      if !captured { return Unprepared, taken; }
      baseline := Current(hash);
      RememberedAreFiles(hash, mirror, meta);
      assert forall p | p in keystoreOriginals :: p in was;
      r := Ready;
    }

    /**
     * Puts the certificate into one more keystore of a mirror just made. Where the state after it
     * cannot be recorded, the keystore counts as one the step changed.
     */
    method CoverKeystore(hash: Hash, p: Path, c: Codecs, ca: Bytes) returns (r: Prepared)
      requires Valid() && baseline == Current(hash)
      modifies this, mirror
      ensures Valid() && mirror.fs == old(mirror.fs) && meta == old(meta) && original == old(original)
      ensures nssAppended == old(nssAppended) && !r.Unprepared?
      ensures baseline == old(baseline) || (r.Ready? && baseline == Current(hash))
      ensures r.Ready? && mirror.content != old(mirror.content) ==>
        && mirror.content == InjectedAt(Insertion(c, ca, true), p, old(mirror.content))
        && keystoreOriginals == RememberedAt(Insertion(c, ca, true), p, old(mirror.content), old(keystoreOriginals))
    {
      hide Captured, Readable, Insertion;
      RememberedAreFiles(hash, mirror, meta);
      ghost var was := mirror.content;
      var took;
      r, took := InjectInto(p, true, c, ca);
      SameNodes(hash, mirror.fs, was, mirror.content, meta);
      if !r.Ready? || !took { return; }
      var captured := *;
      if captured {
        baseline := Current(hash);
        RememberedAreFiles(hash, mirror, meta);
      }
    }

    /** Puts back the bytes of every injected keystore the step left as the injection made it. */
    method RestoreUntouchedKeystores(hash: Hash, current: Manifest) returns (ok: bool)
      requires Valid() && current == Current(hash)
      modifies mirror
      ensures Valid() && mirror.fs == old(mirror.fs) && mirror.content.Keys == old(mirror.content).Keys
      ensures ok ==> mirror.content == old(Restored(hash))
    {
      hide Captured, SameExceptMtime, Readable, IsRecordOf;
      forall p | p in baseline
        ensures p in current && SameExceptMtime(current[p], baseline[p]) <==>
          IsRecordOf(hash, baseline[p], mirror.fs, mirror.content, meta, p)
      {
        EntryTells(hash, baseline[p], mirror.fs, mirror.content, meta, p);
      }
      var todo := keystoreOriginals.Keys;
      ghost var was := mirror.content;
      ghost var untouched := set p | p in keystoreOriginals && IsUntouched(hash, p);
      while todo != {}
        invariant todo <= keystoreOriginals.Keys && mirror.Valid()
        invariant mirror.fs == old(mirror.fs) && mirror.content.Keys == was.Keys
        invariant forall p | p in was :: mirror.content[p] == if p in untouched && p !in todo then keystoreOriginals[p] else was[p]
        decreases todo
      {
        var p :| p in todo;
        todo := todo - {p};
        if p in current && p in baseline && SameExceptMtime(current[p], baseline[p]) {
          assert p in untouched;
          var written := *;
          if !written { return false; }
          RecordedIsFile(hash, baseline[p], mirror.fs, was, meta, p);
          mirror.Overwrite(p, keystoreOriginals[p]);
        } else {
          assert p !in untouched;
        }
      }
      ok := true;
    }

    /**
     * Takes the NSS slot back out of the mirror's own list of modules. One that is no regular file any
     * more holds none.
     */
    method RemoveSlot() returns (ok: bool)
      requires Valid()
      modifies mirror
      ensures Valid()
      ensures ok ==> mirror.content == SlotRemoved(nssAppended, nssHadTxt, old(mirror.content))
      ensures nssAppended != "" && PKCS11 in old(mirror.content) && |old(mirror.content)[PKCS11]| > NssSlot.MAX_PKCS11_TXT_BYTES ==> !ok
    {
      hide Readable, NssSlot.Removed, NssSlot.SLOT, NssSlot.HalfWritten;
      if nssAppended == "" || PKCS11 !in mirror.content { return true; }
      var opens := *;
      var b := mirror.content[PKCS11];
      NssSlot.BytesBack(b);
      var txt := new NssSlot.Pkcs11Txt(true, NssSlot.AsText(b));
      ok := txt.RemoveSlot(nssAppended, !nssHadTxt, if opens then Bundle.Opened else Bundle.Unopened);
      if txt.present {
        mirror.Overwrite(PKCS11, NssSlot.AsBytes(txt.content));
      } else {
        mirror.Delete(PKCS11);
      }
      TakenBackIs(nssAppended, nssHadTxt, b);
    }

    /** An entry as it was before mirroring gets its time back. */
    method RestoreUnchangedMtimes(hash: Hash)
      requires Valid()
      modifies this`meta
      ensures Valid()
      ensures meta == TimesRestored(hash, original, mirror.fs, mirror.content, old(meta))
    {
      hide Captured, SameExceptMtime, IsRecordOf;
      var current := Current(hash);
      forall p | p in original
        ensures p in current && SameExceptMtime(current[p], original[p]) <==>
          IsRecordOf(hash, original[p], mirror.fs, mirror.content, meta, p)
        ensures p in current && SameExceptMtime(current[p], original[p]) ==> current[p].node == original[p].node
      {
        EntryTells(hash, original[p], mirror.fs, mirror.content, meta, p);
        if p in current && SameExceptMtime(current[p], original[p]) { SameNode(current, original, p); }
      }
      meta := map p | p in meta ::
        if p in original && p in current && !current[p].node.Link? && SameExceptMtime(current[p], original[p])
        then meta[p].(mtime := original[p].meta.mtime) else meta[p];
    }

    /** Puts the mirror in place of the directory it mirrors. */
    method WriteBack(layer: Tree)
      requires Valid() && layer.Valid() && hostDir in layer.fs.nodes && layer.fs.nodes[hostDir].Dir? && layer != mirror
      modifies layer
      ensures Valid() && layer.Valid()
      ensures layer.content == GraftedContent(old(layer.content), hostDir, mirror.content)
      ensures layer.fs == old(layer.fs).(nodes := GraftedNodes(old(layer.fs).nodes, hostDir, mirror.fs.nodes))
    {
      hide GraftedNodes, GraftedContent;
      GraftIsTree(layer.fs, hostDir, mirror.fs);
      GraftMatches(layer.fs.nodes, layer.content, hostDir, mirror.fs.nodes, mirror.content);
      layer.fs := layer.fs.(nodes := GraftedNodes(layer.fs.nodes, hostDir, mirror.fs.nodes));
      layer.content := GraftedContent(layer.content, hostDir, mirror.content);
    }

    /** As `WriteBack`, broken off. */
    method WritePart(layer: Tree, part: set<Path>)
      requires Valid() && layer.Valid() && hostDir in layer.fs.nodes && layer.fs.nodes[hostDir].Dir? && layer != mirror
      modifies layer
      ensures Valid() && layer.Valid()
      ensures SameOutside(old(layer.content), layer.content, hostDir)
    {
      hide GraftedNodes, GraftedContent;
      var nodes := map p | p in mirror.fs.nodes && p in part :: mirror.fs.nodes[p];
      var content := map p | p in mirror.content && p in part :: mirror.content[p];
      GraftIsTree(layer.fs, hostDir, mirror.fs.(nodes := nodes));
      GraftMatches(layer.fs.nodes, layer.content, hostDir, nodes, content);
      GraftIsInside(layer.content, hostDir, content);
      layer.fs := layer.fs.(nodes := GraftedNodes(layer.fs.nodes, hostDir, nodes));
      layer.content := GraftedContent(layer.content, hostDir, content);
    }

    /** What the step left of the mirror, with the certificate taken back out of it. */
    method StripMirror(c: Codecs, marks: Marks, hash: Hash) returns (ok: bool)
      requires Valid() && NonEmpty(marks.needles)
      modifies mirror, this`meta
      ensures Valid()
      ensures ok ==> IsSwept(c, marks, [], old(ToSweep(hash)), mirror.content)
      ensures ok ==> meta == TimesRestored(hash, original, mirror.fs, mirror.content, old(meta))
    {
      hide Captured, Readable, IsSwept, SlotRemoved, TimesRestored;
      ok := RestoreUntouchedKeystores(hash, Current(hash));
      if !ok { return; }
      ok := RemoveSlot();
      if !ok { return; }
      var removed, unstrippable;
      ok, removed, unstrippable := mirror.SweepDir(c, [], marks);
      if !ok { return; }
      RestoreUnchangedMtimes(hash);
    }

    /** What is owed: the bytes of each keystore left as injected that held neither slot nor certificate, where something else changed. */
    lemma OwedIs(c: Codecs, marks: Marks, hash: Hash, p: Path, bytes: Bytes)
      requires NonEmpty(marks.needles)
      ensures p in Owed(c, marks, hash) && Owed(c, marks, hash)[p] == bytes <==>
        && p in keystoreOriginals && keystoreOriginals[p] == bytes
        && p in baseline && IsRecordOf(hash, baseline[p], mirror.fs, mirror.content, meta, p)
        && !HoldsSlot(bytes) && !FileHoldsCA(c, bytes, marks.needles)
        && !IsAsRecorded(hash, baseline, mirror.fs, mirror.content, meta)
    {
      hide FileHoldsCA, HoldsSlot, IsAsRecorded, IsRecordOf;
    }

    /** What is owed is in the mirror when it is written back: it comes through the cut and the sweep. */
    lemma OwedIsLeft(c: Codecs, marks: Marks, hash: Hash)
      requires Valid() && NonEmpty(marks.needles)
      ensures forall now | IsSwept(c, marks, [], ToSweep(hash), now) :: Keeps(now, Owed(c, marks, hash))
    {
      hide FileHoldsCA, IsSwept, IsAsRecorded, SlotRemoved, HoldsSlot;
      forall now | IsSwept(c, marks, [], ToSweep(hash), now) ensures Keeps(now, Owed(c, marks, hash)) {
        forall p | p in Owed(c, marks, hash) ensures Holds(now, p, Owed(c, marks, hash)[p]) {
          assert p in mirror.content;
          assert Restored(hash)[p] == keystoreOriginals[p];
          SlotFrame(nssAppended, nssHadTxt, Restored(hash), p);
          SweepFrame(c, marks, [], ToSweep(hash), now, p);
        }
      }
    }

    /** A file whose bytes are not of the digest recorded is a change, and a keystore so changed keeps the step's bytes. */
    lemma ChangedBytesTell(hash: Hash, p: Path)
      requires p in mirror.content && p in baseline && baseline[p].sha256 != Some(hash(mirror.content[p]))
      ensures !IsUnchanged(hash) && Holds(Restored(hash), p, mirror.content[p])
    {
    }

    /**
     * Reconciles the mirror with the directory: nothing is done where the step left it as the
     * injection did. Otherwise the certificate is taken out of all of it, and it is written back.
     */
    method Finish(c: Codecs, marks: Marks, hash: Hash, layer: Tree) returns (r: Outcome)
      requires Valid() && layer.Valid() && layer != mirror && NonEmpty(marks.needles)
      modifies mirror, this`meta, layer
      ensures Valid() && layer.Valid()
      ensures old(IsUnchanged(hash)) ==>
        layer.fs == old(layer.fs) && layer.content == old(layer.content) && mirror.content == old(mirror.content)
      ensures r == Done && !old(IsUnchanged(hash)) ==>
        && IsSwept(c, marks, [], old(ToSweep(hash)), mirror.content)
        && IsWrittenBack(old(layer.fs), layer.fs, old(layer.content), layer.content, hostDir, mirror.fs, mirror.content)
      ensures r == Done ==> forall p | p in old(mirror.content) && p in baseline
          && baseline[p].sha256 != Some(hash(old(mirror.content)[p])) ::
          IsWrittenBack(old(layer.fs), layer.fs, old(layer.content), layer.content, hostDir, mirror.fs, mirror.content)
      ensures r == Done ==> forall p | p in old(Owed(c, marks, hash)) :: Holds(layer.content, hostDir + p, old(Owed(c, marks, hash))[p])
      ensures SameOutside(old(layer.content), layer.content, hostDir)
      ensures r != Residue
    {
      hide FileHoldsCA, ManifestsEqual, IsAsRecorded, Resolution, Tree.Valid;
      ManifestTells(hash, baseline, mirror.fs, mirror.content, meta);
      forall p | p in mirror.content && p in baseline && baseline[p].sha256 != Some(hash(mirror.content[p]))
        ensures !IsUnchanged(hash)
      {
        ChangedBytesTell(hash, p);
      }
      assert SameOutside(layer.content, layer.content, hostDir);
      var current := Current(hash);
      var captured := *;
      if !captured { return Failed; }
      if ManifestsEqual(current, baseline) { return Done; }
      assert forall p | p in Owed(c, marks, hash) :: p != [];
      ghost var owed := Owed(c, marks, hash);
      OwedIsLeft(c, marks, hash);
      var ok := StripMirror(c, marks, hash);
      if !ok { return Failed; }
      assert Keeps(mirror.content, owed);
      var committed := Commit(layer);
      r := if committed then Done else Failed;
    }

    /** Writes the mirror back, where the directory still is what its container path leads to. */
    method Commit(layer: Tree) returns (ok: bool)
      requires Valid() && layer.Valid() && layer != mirror
      modifies layer
      ensures Valid() && layer.Valid()
      ensures ok ==> IsWrittenBack(old(layer.fs), layer.fs, old(layer.content), layer.content, hostDir, mirror.fs, mirror.content)
      ensures ok ==> forall p | p in mirror.content && p != [] :: Holds(layer.content, hostDir + p, mirror.content[p])
      ensures !(Resolution(old(layer.fs), [], hostDir).At? && Resolution(old(layer.fs), [], hostDir).path == hostDir) ==>
                !ok && layer.fs == old(layer.fs) && layer.content == old(layer.content)
      ensures SameOutside(old(layer.content), layer.content, hostDir)
    {
      hide Resolution, Readable, GraftedContent, GraftedNodes;
      var resolved := ResolveInRoot(layer.fs, [], hostDir);
      if !resolved.At? || resolved.path != hostDir { return false; }
      if hostDir !in layer.fs.nodes || !layer.fs.nodes[hostDir].Dir? { return false; }
      var copied := *;
      if !copied {
        // Half-written: some part of the mirror stands in the directory's place.
        var part: set<Path> := *;
        WritePart(layer, part);
        return false;
      }
      GraftIsInside(layer.content, hostDir, mirror.content);
      ghost var was := layer.content;
      WriteBack(layer);
      forall p | p in mirror.content && p != [] ensures Holds(layer.content, hostDir + p, mirror.content[p]) {
        GraftedAt(was, hostDir, mirror.content, p);
      }
      ok := true;
    }
  }

  /** Nothing but what stands under the directory is touched. */
  ghost predicate SameOutside(was: map<Path, Bytes>, now: map<Path, Bytes>, dir: Path) {
    forall p | !(dir < p) :: (p in now <==> p in was) && (p in was ==> now[p] == was[p])
  }

  lemma GraftedAt(content: map<Path, Bytes>, dir: Path, bytes: map<Path, Bytes>, p: Path)
    requires p in bytes && p != []
    ensures Holds(GraftedContent(content, dir, bytes), dir + p, bytes[p])
  {
    assert (dir + p)[|dir|..] == p;
  }

  lemma GraftIsInside(content: map<Path, Bytes>, dir: Path, bytes: map<Path, Bytes>)
    ensures SameOutside(content, GraftedContent(content, dir, bytes), dir)
  {
  }

  /** Grafting keeps bytes where the regular files are. */
  lemma GraftMatches(nodes: map<Path, Node>, content: map<Path, Bytes>, dir: Path, mirror: map<Path, Node>, bytes: map<Path, Bytes>)
    requires forall p :: p in content <==> p in nodes && nodes[p].File?
    requires forall p :: p in bytes <==> p in mirror && mirror[p].File?
    ensures forall p :: p in GraftedContent(content, dir, bytes) <==>
              p in GraftedNodes(nodes, dir, mirror) && GraftedNodes(nodes, dir, mirror)[p].File?
  {
  }

  lemma GraftIsTree(fs: FileSystem, dir: Path, mirror: FileSystem)
    requires Readable(fs) && Readable(mirror) && dir in fs.nodes && fs.nodes[dir].Dir?
    ensures Readable(fs.(nodes := GraftedNodes(fs.nodes, dir, mirror.nodes)))
  {
    var nodes := GraftedNodes(fs.nodes, dir, mirror.nodes);
    forall p, q | p in nodes && q in nodes && p < q ensures nodes[p].Dir? {
      if dir < p {
        assert p[|dir|..] < q[|dir|..];
      } else if dir < q {
        assert p == q[..|p|] && dir == q[..|dir|];
        assert p <= dir;
      }
    }
    forall p, i | p in nodes && 0 <= i < |p| ensures Ordinary(p[i]) {
      if dir < p {
        if i < |dir| {
          assert p[i] == dir[i];
        } else {
          assert p[i] == p[|dir|..][i - |dir|];
        }
      }
    }
  }

  lemma AppendingAdds(was: Bytes, ca: Bytes, t: Bytes)
    ensures Bundle.Appended(was, ca) + t != Bundle.Terminated(was) + t
  {
    hide Bundle.Terminated, Bundle.TrimNewlines;
    assert |Bundle.Appended(was, ca)| > |Bundle.Terminated(was)|;
  }

  /** A file removal changes was found to carry the certificate. */
  lemma StripsTo(c: Codecs, marks: Marks, content: Bytes, left: Bytes)
    requires NonEmpty(marks.needles) && forall i | 0 <= i < |marks.ders| :: marks.ders[i] in marks.needles
    requires Bundle.Removed(c.pem, content, marks.ders) == left != content && !FileHoldsCA(c, left, marks.needles)
    ensures FileHoldsCA(c, content, marks.needles) && StripCA(c, content, marks) == (left, false)
  {
    hide Bundle.FindCerts, Bundle.Scan, RemoveFromBinaryStore, HoldsAny;
    if !Bundle.Scan(c.pem, content, marks.needles, 0) {
      Bundle.CleanHasNothingToCut(c.pem, content, marks.needles, marks.ders, 0);
    }
  }

  /**
   * A bundle the CA was injected into comes back from the sweep of its mirror with all it held and all
   * the step appended, its last line ended; one of which that leaves nothing goes.
   */
  lemma InjectedBundleComesBack(c: Codecs, marks: Marks, blocks: seq<BundleRoundTrip.Block>, names: seq<Path>,
    was: map<Path, Bytes>, t: Bytes, from: map<Path, Bytes>, now: map<Path, Bytes>, p: Path)
    requires NonEmpty(marks.needles) && IsSwept(c, marks, [], from, now)
    requires c.pem([]).None? && blocks != []
    requires forall i | 0 <= i < |blocks| :: blocks[i].Armoured(c.pem) && Bundle.HasSuffix(blocks[i].name, Bundle.CERTIFICATE)
    requires var ca := BundleRoundTrip.Concat(blocks);
      && marks.ders == Bundle.CertificateDERs(c.pem, ca) && (forall i | 0 <= i < |marks.ders| :: marks.ders[i] in marks.needles)
      && p in was && p in names && p in from && p in Injected(Insertion(c, ca, false), names, was)
      && from[p] == Injected(Insertion(c, ca, false), names, was)[p] + t && 0 !in from[p]
    requires var left := Bundle.Terminated(was[p]) + t;
      && Bundle.FindCerts(c.pem, Bundle.Terminated(was[p]), marks.ders, 0) == [] && Bundle.FindCerts(c.pem, t, marks.ders, 0) == []
      && !FileHoldsCA(c, left, marks.needles)
    ensures var left := Bundle.Terminated(was[p]) + t;
      if left == [] then p !in now else Holds(now, p, left)
  {
    hide BundleRoundTrip.Block.Text, BundleRoundTrip.Block.Armoured, BundleRoundTrip.Concat, Bundle.FindCerts, Bundle.HasSuffix,
      Bundle.CertificateDERs, Bundle.Scan, Bundle.Appended, RemoveFromBinaryStore, Injected, Insertion;
    hide Bundle.Removed, FileHoldsCA, StripCA;
    var left, ca := Bundle.Terminated(was[p]) + t, BundleRoundTrip.Concat(blocks);
    BundleRoundTrip.BlocksAreTheCA(c.pem, blocks);
    InjectedBundles(c, ca, names, was);
    BundleRoundTrip.AppendThenRemove(c.pem, was[p], blocks, t);
    assert Bundle.Removed(c.pem, from[p], marks.ders) == left;
    hide Bundle.Terminated;
    AppendingAdds(was[p], ca, t);
    StripsTo(c, marks, from[p], left);
  }

  // ---- the layer ----

  predicate IsSlotFile(p: Path) {
    p != [] && p[|p| - 1] == "pkcs11.txt"
  }

  /** What cutting a copy of the list of modules leaves of it, and whether it still counts as residue. */
  datatype CopyCut = CopyGone | CopyLeft(content: Bytes, residue: bool)

  function CutCopy(appended: string, b: Bytes): CopyCut {
    if |b| > NssSlot.MAX_PKCS11_TXT_BYTES then CopyLeft(b, true)
    else
      var kept := NssSlot.StrippedCopy(NssSlot.AsText(b), appended);
      if kept == "" && b != [] then CopyGone else CopyLeft(NssSlot.AsBytes(kept), Contains(kept, NssSlot.CONFIG_DIR))
  }

  /** A copy that empties goes; one too large, or that still names the slot's directory, is reported. */
  lemma CutCopyIs(appended: string, b: Bytes)
    ensures |b| > NssSlot.MAX_PKCS11_TXT_BYTES ==> CutCopy(appended, b) == CopyLeft(b, true)
    ensures |b| <= NssSlot.MAX_PKCS11_TXT_BYTES ==> var kept := NssSlot.StrippedCopy(NssSlot.AsText(b), appended);
      && (CutCopy(appended, b).CopyGone? <==> kept == "" && b != [])
      && (CutCopy(appended, b).CopyLeft? ==>
            && NssSlot.AsText(CutCopy(appended, b).content) == kept
            && (CutCopy(appended, b).residue <==> Contains(NssSlot.AsText(CutCopy(appended, b).content), NssSlot.CONFIG_DIR)))
  {
    hide NssSlot.StrippedCopy, NssSlot.SLOT, NssSlot.CONFIG_DIR, Contains;
    NssSlot.StrippedCopyIs(b, appended);
  }

  /** The slot's text is not in the file, nor what would still name its directory. */
  predicate IsSlotFree(b: Bytes) {
    !HoldsSlot(b) && !Contains(NssSlot.AsText(b), NssSlot.CONFIG_DIR)
  }

  /** A copy that is not reported is free of the slot. */
  lemma CutIsFree(appended: string, b: Bytes)
    requires CutCopy(appended, b).CopyLeft? && !CutCopy(appended, b).residue
    ensures IsSlotFree(CutCopy(appended, b).content)
  {
    hide NssSlot.StrippedCopy, NssSlot.SLOT, NssSlot.CONFIG_DIR, Contains;
    NssSlot.StrippedCopyIs(b, appended);
  }

  /** A file without a slot is not changed, whatever it is called. */
  lemma CutFrame(appended: string, b: Bytes)
    requires !HoldsSlot(b) && NssSlot.IsAppended(appended)
    ensures CutCopy(appended, b).CopyLeft? && CutCopy(appended, b).content == b
  {
    hide NssSlot.StrippedCopy, NssSlot.SLOT, NssSlot.CONFIG_DIR, Contains;
    NssSlot.NoSlotNoCut(NssSlot.AsText(b), appended);
    NssSlot.BytesBack(b);
  }

  /** A link named as a list of modules leads to the file. */
  predicate IsLinkedFrom(fs: FileSystem, l: Path, p: Path) {
    l in fs.nodes && IsSlotFile(l) && fs.nodes[l].Link? && Resolution(fs, [], l).At? && Resolution(fs, [], l).path == p
  }

  /** The files cut: those named as a list of modules, and those a link so named leads to. */
  function SlotTargets(fs: FileSystem, content: map<Path, Bytes>): set<Path> {
    set p | p in content && (IsSlotFile(p) || exists l | l in fs.nodes :: IsLinkedFrom(fs, l, p))
  }

  /** Reads every regular file of the layer back. */
  method VerifyLayer(c: Codecs, layer: Tree, needles: seq<Bytes>) returns (all: set<Path>)
    requires NonEmpty(needles)
    ensures all == set p | p in layer.content && FileHoldsCA(c, layer.content[p], needles)
  {
    hide FileHoldsCA;
    all := {};
    var todo := layer.content.Keys;
    while todo != {}
      invariant todo <= layer.content.Keys
      invariant all == set p | p in layer.content && p !in todo && FileHoldsCA(c, layer.content[p], needles)
      decreases todo
    {
      var p :| p in todo;
      todo := todo - {p};
      if FileHoldsCA(c, layer.content[p], needles) { all := all + {p}; }
    }
  }

  /** What cutting the slot out of some files leaves of a layer. */
  function SlotsCut(appended: string, targets: set<Path>, content: map<Path, Bytes>): map<Path, Bytes> {
    map p | p in content && !(p in targets && CutCopy(appended, content[p]).CopyGone?) ::
      if p in targets then CutCopy(appended, content[p]).content else content[p]
  }

  /** Those of them that still count as residue. */
  function SlotResidue(appended: string, targets: set<Path>, content: map<Path, Bytes>): set<Path> {
    set p | p in targets && p in content && IsResidue(CutCopy(appended, content[p]))
  }

  /** One more file cut. */
  function AfterCut(appended: string, now: map<Path, Bytes>, p: Path): map<Path, Bytes>
    requires p in now
  {
    match CutCopy(appended, now[p])
    case CopyGone => now - {p}
    case CopyLeft(content, _) => now[p := content]
  }

  predicate IsResidue(cut: CopyCut) { cut.CopyLeft? && cut.residue }

  lemma CutNone(appended: string, was: map<Path, Bytes>)
    ensures SlotsCut(appended, {}, was) == was && SlotResidue(appended, {}, was) == {}
  {
  }

  lemma CutStep(appended: string, done: set<Path>, was: map<Path, Bytes>, p: Path)
    requires p in was && p !in done
    ensures var now, residue := SlotsCut(appended, done, was), SlotResidue(appended, done, was);
      && p in now && now[p] == was[p]
      && SlotsCut(appended, done + {p}, was) == AfterCut(appended, now, p)
      && SlotResidue(appended, done + {p}, was) == if IsResidue(CutCopy(appended, was[p])) then residue + {p} else residue
  {
    hide CutCopy;
  }

  /** As `SlotTargets`, nodes in `todo` not looked at yet. */
  predicate IsFoundBut(fs: FileSystem, content: map<Path, Bytes>, todo: set<Path>, p: Path) {
    p in content && ((IsSlotFile(p) && p !in todo) || exists l | l in fs.nodes :: l !in todo && IsLinkedFrom(fs, l, p))
  }

  /** Where links and files named as lists of modules lead. */
  method FindSlotTargets(layer: Tree) returns (targets: set<Path>)
    requires layer.Valid()
    ensures targets == SlotTargets(layer.fs, layer.content)
  {
    hide Readable, Resolution;
    targets := {};
    var todo := layer.fs.nodes.Keys;
    while todo != {}
      invariant todo <= layer.fs.nodes.Keys
      invariant forall p :: p in targets <==> IsFoundBut(layer.fs, layer.content, todo, p)
      decreases todo
    {
      var l :| l in todo;
      todo := todo - {l};
      if IsSlotFile(l) {
        if l in layer.content {
          targets := targets + {l};
        } else if layer.fs.nodes[l].Link? {
          var at := ResolveInRoot(layer.fs, [], l);
          if at.At? && at.path in layer.content {
            assert IsLinkedFrom(layer.fs, l, at.path);
            targets := targets + {at.path};
          }
        }
      }
    }
  }

  /** One file's turn. */
  method CutOne(layer: Tree, p: Path, appended: string) returns (ok: bool, residue: bool)
    requires layer.Valid() && p in layer.content
    modifies layer
    ensures layer.Valid()
    ensures ok ==> layer.content == AfterCut(appended, old(layer.content), p)
    ensures ok ==> residue == IsResidue(CutCopy(appended, old(layer.content)[p]))
    ensures layer.content.Keys <= old(layer.content).Keys
  {
    hide Readable, NssSlot.StrippedCopy, NssSlot.SLOT, NssSlot.CONFIG_DIR, NssSlot.HalfWritten;
    var b := layer.content[p];
    NssSlot.BytesBack(b);
    var txt := new NssSlot.Pkcs11Txt(true, NssSlot.AsText(b));
    ok, residue := txt.StripCopy(appended);
    if txt.present {
      layer.Overwrite(p, NssSlot.AsBytes(txt.content));
    } else {
      layer.Delete(p);
    }
  }

  /** Cuts the slot out of every copy of the list of modules in the layer, those links so named lead to included. */
  method StripSlotCopies(layer: Tree, appended: string) returns (ok: bool, residue: set<Path>)
    requires layer.Valid()
    modifies layer
    ensures layer.Valid() && layer.content.Keys <= old(layer.content).Keys
    ensures ok ==> layer.content == SlotsCut(appended, SlotTargets(old(layer.fs), old(layer.content)), old(layer.content))
    ensures ok ==> residue == SlotResidue(appended, SlotTargets(old(layer.fs), old(layer.content)), old(layer.content))
  {
    hide Readable, SlotsCut, SlotResidue, SlotTargets, CutCopy;
    ok, residue := true, {};
    var todo := FindSlotTargets(layer);
    ghost var targets, was := todo, layer.content;
    TargetsAreThere(layer.fs, was);
    CutNone(appended, was);
    assert targets - todo == {};
    while todo != {}
      invariant layer.Valid() && todo <= targets <= was.Keys && layer.content.Keys <= was.Keys
      invariant layer.content == SlotsCut(appended, targets - todo, was)
      invariant residue == SlotResidue(appended, targets - todo, was)
      decreases todo
    {
      var p :| p in todo;
      CutStep(appended, targets - todo, was, p);
      assert targets - (todo - {p}) == (targets - todo) + {p};
      var left;
      ok, left := CutOne(layer, p, appended);
      if !ok { return; }
      if left { residue := residue + {p}; }
      todo := todo - {p};
    }
    assert targets - {} == targets;
  }

  lemma TargetsAreThere(fs: FileSystem, content: map<Path, Bytes>)
    ensures SlotTargets(fs, content) <= content.Keys
  {
  }

  /** A layer no regular file of which holds the certificate. */
  ghost predicate IsClear(c: Codecs, content: map<Path, Bytes>, needles: seq<Bytes>)
    requires NonEmpty(needles)
  {
    forall p | p in content :: !FileHoldsCA(c, content[p], needles)
  }

  /** No file named as a list of modules names the slot or its directory any more. */
  predicate NoSlotNamed(content: map<Path, Bytes>) {
    forall p | p in content && p != [] && p[|p| - 1] == "pkcs11.txt" :: IsSlotFree(content[p])
  }

  lemma NoneIsNamed(appended: string, fs: FileSystem, content: map<Path, Bytes>)
    requires SlotResidue(appended, SlotTargets(fs, content), content) == {}
    ensures NoSlotNamed(SlotsCut(appended, SlotTargets(fs, content), content))
    ensures forall p | p in SlotsCut(appended, SlotTargets(fs, content), content) && p in SlotTargets(fs, content) ::
      IsSlotFree(SlotsCut(appended, SlotTargets(fs, content), content)[p])
  {
    hide CutCopy, IsSlotFree, IsLinkedFrom;
    var targets := SlotTargets(fs, content);
    forall p | p in SlotsCut(appended, targets, content) && p in targets
      ensures IsSlotFree(SlotsCut(appended, targets, content)[p])
    {
      assert p !in SlotResidue(appended, targets, content);
      CutIsFree(appended, content[p]);
    }
  }

  /** Nothing in the layer is in a shape the strip cannot take the certificate out of. */
  ghost predicate AllStrippable(c: Codecs, content: map<Path, Bytes>, marks: Marks)
    requires NonEmpty(marks.needles)
  {
    forall p | p in content :: !StripCA(c, content[p], marks).1
  }

  /** What carried no certificate and no slot comes through the sweep and the cut. */
  lemma StripKeeps(c: Codecs, marks: Marks, appended: string, targets: set<Path>, was: map<Path, Bytes>, swept: map<Path, Bytes>)
    requires NonEmpty(marks.needles) && IsSwept(c, marks, [], was, swept) && NssSlot.IsAppended(appended)
    ensures forall p | p in was && !FileHoldsCA(c, was[p], marks.needles) && !HoldsSlot(was[p]) ::
              Holds(SlotsCut(appended, targets, swept), p, was[p])
  {
    hide FileHoldsCA, IsSwept, HoldsSlot, CutCopy;
    forall p | p in was && !FileHoldsCA(c, was[p], marks.needles) && !HoldsSlot(was[p])
      ensures Holds(SlotsCut(appended, targets, swept), p, was[p])
    {
      SweepFrame(c, marks, [], was, swept, p);
      CutFrame(appended, was[p]);
    }
  }

  /** The findings are empty just when there is nothing to find. */
  lemma NothingFound(c: Codecs, marks: Marks, was: map<Path, Bytes>, now: map<Path, Bytes>,
    unstrippable: set<Path>, all: set<Path>)
    requires NonEmpty(marks.needles)
    requires unstrippable == set p | p in was && [] <= p && StripCA(c, was[p], marks).1
    requires all == set p | p in now && FileHoldsCA(c, now[p], marks.needles)
    ensures unstrippable == {} <==> AllStrippable(c, was, marks)
    ensures all == {} <==> IsClear(c, now, marks.needles)
  {
    hide FileHoldsCA, StripCA;
    if unstrippable == {} {
      forall p | p in was ensures !StripCA(c, was[p], marks).1 { assert p !in unstrippable; }
    }
    if all == {} {
      forall p | p in now ensures !FileHoldsCA(c, now[p], marks.needles) { assert p !in all; }
    }
  }

  /**
   * Takes the certificate out of the step's layer, then reads the layer back. Only a layer that was all
   * strippable, holds no certificate any more and has no slot left counts as done.
   */
  method StripLayer(c: Codecs, marks: Marks, appended: string, layer: Tree, found: bool)
    returns (r: Outcome, ghost swept: map<Path, Bytes>, ghost targets: set<Path>)
    requires layer.Valid() && NonEmpty(marks.needles)
    modifies layer
    ensures layer.Valid() && (!found ==> r == Failed)
    ensures r != Failed ==> IsSwept(c, marks, [], old(layer.content), swept) && layer.content == SlotsCut(appended, targets, swept)
    ensures r != Failed ==> forall p | p in swept && IsSlotFile(p) :: p in targets
    ensures r != Failed ==> (r == Done <==>
      (AllStrippable(c, old(layer.content), marks) && SlotResidue(appended, targets, swept) == {} && IsClear(c, layer.content, marks.needles)))
    ensures r == Done ==> NoSlotNamed(layer.content) && forall p | p in targets && p in layer.content :: IsSlotFree(layer.content[p])
  {
    hide FileHoldsCA, StripCA, Tree.Emptied, Readable, IsSwept, SlotsCut, SlotResidue, AllStrippable, IsClear, IsSlotFree,
      IsLinkedFrom, OnlyCarriersChange, NoSlotNamed;
    swept, targets := layer.content, {};
    if !found { return Failed, swept, targets; }
    var ok, removed, unstrippable := layer.SweepDir(c, [], marks);
    if !ok { return Failed, swept, targets; }
    swept, targets := layer.content, SlotTargets(layer.fs, layer.content);
    ghost var fs := layer.fs;
    var slots;
    ok, slots := StripSlotCopies(layer, appended);
    if !ok { return Failed, swept, targets; }
    var all := VerifyLayer(c, layer, marks.needles);
    var read := *;
    if !read { return Failed, swept, targets; }
    var left := all - unstrippable;
    r := if unstrippable == {} && left == {} && slots == {} then Done else Residue;
    assert unstrippable == {} ==> left == all;
    NothingFound(c, marks, old(layer.content), layer.content, unstrippable, all);
    if slots == {} {
      NoneIsNamed(appended, fs, swept);
    }
  }

  /** Residue is a warning where it is not to fail the build. Anything else always fails it. */
  function TolerateResidue(r: Outcome, failOnResidue: bool): Outcome {
    if r == Residue && !failOnResidue then Done else r
  }

  // ---- the injection ----

  /** Bound directories do not nest (see `Binds`). */
  predicate AreApart(a: Path, b: Path) {
    !(a <= b) && !(b <= a)
  }

  /** The directories the plan binds are such ones. */
  lemma PlannedAreApart(spec: Binds.Spec, mounts: seq<Path>, dirs: set<Path>, binds: seq<Binds.Bind>, i: nat, j: nat)
    requires Binds.ClearFrom(mounts + Binds.Mounted(spec, binds), |mounts|) && Binds.BoundAmong(spec, dirs, binds)
    requires i < |binds| && j < |binds| && i != j
    ensures AreApart(binds[i].dir, binds[j].dir)
  {
    hide Binds.ClearFrom, Binds.BoundAmong;
    Binds.HostDirsAreApart(spec, mounts, dirs, binds, i, j);
    Binds.HostDirsAreApart(spec, mounts, dirs, binds, j, i);
  }

  lemma PrefixesCompare(a: Path, b: Path, c: Path)
    requires a <= c && b <= c
    ensures a <= b || b <= a
  {
    assert a == c[..|a|] && b == c[..|b|];
  }

  /** What a directory is owed stands in the layer. */
  predicate Pays(content: map<Path, Bytes>, dir: Path, owed: map<Path, Bytes>) {
    forall p | p in owed :: Holds(content, dir + p, owed[p])
  }

  /** Writing one directory back leaves what stands in another. */
  lemma StillPays(before: map<Path, Bytes>, after: map<Path, Bytes>, a: Path, b: Path, owed: map<Path, Bytes>)
    requires AreApart(b, a) && SameOutside(before, after, a) && Pays(before, b, owed)
    ensures Pays(after, b, owed)
  {
    forall p | p in owed ensures Holds(after, b + p, owed[p]) {
      assert Holds(before, b + p, owed[p]);
      if a < b + p {
        PrefixesCompare(a, b, b + p);
      }
    }
  }

  /** What each of some mirrors is owed. */
  ghost function OwedBy(binds: seq<DirBind>, c: Codecs, marks: Marks, hash: Hash): seq<map<Path, Bytes>>
    requires NonEmpty(marks.needles)
    reads binds, set b | b in binds :: b.mirror
  {
    seq(|binds|, k requires 0 <= k < |binds| reads binds, set b | b in binds :: b.mirror => binds[k].Owed(c, marks, hash))
  }

  class Injection {
    const layer: Tree
    var binds: seq<DirBind>
    const created: seq<Path>
    /** Created directories that stay: adopted by a package, or refused by the system. */
    const spared: set<Path>
    const layerFound: bool
    /** What was appended to the list of modules, nothing where no slot was. */
    const nssAppended: string

    constructor (layer: Tree, binds: seq<DirBind>, created: seq<Path>, spared: set<Path>, layerFound: bool, nssAppended: string)
      ensures this.layer == layer && this.binds == binds && this.created == created && this.spared == spared
      ensures this.layerFound == layerFound && this.nssAppended == nssAppended
    {
      this.layer, this.binds, this.created, this.spared, this.layerFound := layer, binds, created, spared, layerFound;
      this.nssAppended := nssAppended;
    }

    /** Each bind has a mirror of its own, which is not the layer. */
    ghost predicate Valid()
      reads this, layer, binds, set b | b in binds :: b.mirror
    {
      && layer.Valid() && NssSlot.IsAppended(nssAppended)
      && (forall k | 0 <= k < |binds| :: binds[k].Valid() && binds[k].mirror != layer)
      && (forall j, k | 0 <= j < k < |binds| :: binds[j] != binds[k] && binds[j].mirror != binds[k].mirror)
      && (forall j, k | 0 <= j < k < |binds| :: AreApart(binds[j].hostDir, binds[k].hostDir))
      && (forall p | p in created :: SlashFree(p))
    }

    /** Takes back the directories the injection made. */
    method RemoveCreated()
      requires layer.Valid() && forall p | p in created :: SlashFree(p)
      modifies layer
      ensures layer.Valid()
      ensures layer.fs == TakeBackAll(old(layer.fs), [], spared, RemovalOrder(created))
      ensures forall p | p in layer.content :: Holds(old(layer.content), p, layer.content[p])
      ensures forall p | p in old(layer.content) && p !in created :: Holds(layer.content, p, old(layer.content)[p])
    {
      hide TakeBackAll, RemovalOrder;
      var order := RemovalOrder(created);
      RemovalOrderIs(created);
      OnlyCreatedGo(layer.fs, [], spared, order);
      layer.fs := TakeBackAll(layer.fs, [], spared, order);
      layer.content := map p | p in layer.content && p in layer.fs.nodes :: layer.content[p];
    }

    /** Everything owed to the first `n` mirrors stands in the layer. */
    ghost predicate IsPaid(owed: seq<map<Path, Bytes>>, n: nat)
      requires n <= |owed| == |binds|
      reads this, layer
    {
      forall j | 0 <= j < n :: Pays(layer.content, binds[j].hostDir, owed[j])
    }

    /** One bound directory's turn: what was paid stays paid. */
    method FinishOne(k: nat, b: DirBind, c: Codecs, marks: Marks, hash: Hash, ghost owed: seq<map<Path, Bytes>>, first: Outcome)
      returns (next: Outcome)
      requires Valid() && NonEmpty(marks.needles) && k < |binds| == |owed| && b == binds[k] && first != Residue
      requires forall j | k <= j < |binds| :: owed[j] == binds[j].Owed(c, marks, hash)
      requires first == Done ==> IsPaid(owed, k)
      modifies layer, b`meta, b.mirror
      ensures Valid() && next != Residue
      ensures forall j | k < j < |binds| :: owed[j] == binds[j].Owed(c, marks, hash)
      ensures next == Done ==> IsPaid(owed, k + 1)
    {
      hide FileHoldsCA, DirBind.Owed, DirBind.Valid, Tree.Valid, SameOutside, AreApart, Holds, IsAsRecorded, Valid;
      ghost var before := layer.content;
      EachOnItsOwn(k);
      var ended := b.Finish(c, marks, hash, layer);
      next := if first == Done then ended else first;
      if next == Done {
        forall j | 0 <= j < k ensures Pays(layer.content, binds[j].hostDir, owed[j]) {
          StillPays(before, layer.content, binds[k].hostDir, binds[j].hostDir, owed[j]);
        }
      }
      OthersStay(k);
    }

    lemma EachOnItsOwn(k: nat)
      requires Valid() && k < |binds|
      ensures layer.Valid() && binds[k].Valid() && binds[k].mirror != layer
      ensures forall j | 0 <= j < |binds| && j != k ::
        && binds[j] != binds[k] && binds[j].mirror != binds[k].mirror && binds[j].mirror != layer
        && AreApart(binds[j].hostDir, binds[k].hostDir)
    {
      hide DirBind.Valid, Tree.Valid;
    }

    /** What is not touched stays valid. */
    twostate lemma OthersStay(k: nat)
      requires old(Valid()) && unchanged(this) && k < |binds|
      requires layer.Valid() && binds[k].Valid()
      requires forall j | 0 <= j < |binds| && j != k :: unchanged(binds[j]) && unchanged(binds[j].mirror)
      ensures Valid()
    {
      hide DirBind.Valid, Tree.Valid, AreApart;
    }

    /** Reconciles each bound directory in turn. The first failure is remembered. */
    method FinishBinds(c: Codecs, marks: Marks, hash: Hash, ghost owed: seq<map<Path, Bytes>>)
      returns (first: Outcome)
      requires Valid() && NonEmpty(marks.needles) && |owed| == |binds|
      requires forall k | 0 <= k < |binds| :: owed[k] == binds[k].Owed(c, marks, hash)
      modifies layer, binds, set b | b in binds :: b.mirror
      ensures Valid() && first != Residue && binds == old(binds)
      ensures first == Done ==> IsPaid(owed, |binds|)
    {
      hide FileHoldsCA, DirBind.Owed, Valid, IsPaid, SameOutside, AreApart, Holds;
      first := Done;
      assert IsPaid(owed, 0) by { NothingOwed(owed); }
      for k := 0 to |binds|
        invariant Valid() && binds == old(binds) && first != Residue
        invariant forall j | k <= j < |binds| :: owed[j] == binds[j].Owed(c, marks, hash)
        invariant first == Done ==> IsPaid(owed, k)
      {
        first := FinishOne(k, binds[k], c, marks, hash, owed, first);
      }
    }

    lemma NothingOwed(owed: seq<map<Path, Bytes>>)
      requires |owed| == |binds|
      ensures IsPaid(owed, 0)
    {
    }

    /**
     * The end of an injection, whatever the step did. With residue made to fail, an end without error
     * leaves no regular file in the layer that holds the certificate; and every keystore owed its bytes
     * from before the injection has them, through the write-back, the sweep of the layer and the taking
     * away of directories.
     */
    method Finish(c: Codecs, marks: Marks, hash: Hash, failOnResidue: bool)
      returns (r: Outcome, ghost swept: FileSystem)
      requires Valid() && NonEmpty(marks.needles)
      modifies layer, binds, set b | b in binds :: b.mirror
      ensures layer.Valid() && binds == old(binds)
      ensures layer.fs == TakeBackAll(swept, [], spared, RemovalOrder(created))
      ensures !failOnResidue ==> r != Residue
      ensures failOnResidue && r == Done ==> IsClear(c, layer.content, marks.needles) && NoSlotNamed(layer.content)
      ensures r == Done ==> forall k, p | 0 <= k < |binds| && p in old(binds[k].Owed(c, marks, hash))
          && binds[k].hostDir + p !in created ::
          Holds(layer.content, binds[k].hostDir + p, old(binds[k].Owed(c, marks, hash))[p])
    {
      hide FileHoldsCA, TakeBackAll, RemovalOrder, DirBind.Owed, Tree.Valid;
      ghost var owed := OwedBy(binds, c, marks, hash);
      OwedIsClean(c, marks, hash);
      var first := FinishBinds(c, marks, hash, owed);
      ghost var before := layer.content;
      var stripped, cleaned, targets := StripLayer(c, marks, nssAppended, layer, layerFound);
      if stripped != Failed {
        StripKeeps(c, marks, nssAppended, targets, before, cleaned);
      }
      swept := layer.fs;
      RemoveCreated();
      r := if first != Done then first else TolerateResidue(stripped, failOnResidue);
    }

    lemma OwedIsClean(c: Codecs, marks: Marks, hash: Hash)
      requires NonEmpty(marks.needles)
      ensures forall k, p | 0 <= k < |binds| && p in binds[k].Owed(c, marks, hash) ::
                !FileHoldsCA(c, binds[k].Owed(c, marks, hash)[p], marks.needles) && !HoldsSlot(binds[k].Owed(c, marks, hash)[p])
    {
      hide FileHoldsCA;
    }

    /** A step that will not run: its mirrors are dropped unwritten, and only what the injection itself put there goes. */
    method Abandon(c: Codecs, marks: Marks, hash: Hash, failOnResidue: bool)
      returns (r: Outcome, ghost swept: FileSystem)
      requires Valid() && NonEmpty(marks.needles)
      modifies this`binds, layer
      ensures layer.Valid() && binds == []
      ensures layer.fs == TakeBackAll(swept, [], spared, RemovalOrder(created))
      ensures !failOnResidue ==> r != Residue
      ensures failOnResidue && r == Done ==> IsClear(c, layer.content, marks.needles) && NoSlotNamed(layer.content)
    {
      hide FileHoldsCA, TakeBackAll, RemovalOrder;
      binds := [];
      r, swept := Finish(c, marks, hash, failOnResidue);
    }
  }
}
