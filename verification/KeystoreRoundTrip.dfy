/** Adding the CA to a keystore and taking it back out undo each other, byte for byte. */
module KeystoreRoundTrip {
  import opened Search
  import opened Keystore

  /** The entries a keystore gains, as the parser reads them back. */
  function AddedEntries(version: nat, ders: seq<Bytes>, i: nat, at: nat): seq<Entry>
    requires i <= |ders|
    decreases |ders| - i
  {
    if i == |ders| then []
    else
      var end := at + |TrustedEntry(version, Alias(i), ders[i])|;
      [Entry(at, end, true, [ders[i]])] + AddedEntries(version, ders, i + 1, end)
  }

  lemma {:induction false} ReadsAdded(body: Bytes, at: nat, version: nat, ders: seq<Bytes>, i: nat)
    requires i <= |ders| < TWO_32 && OccursAt(body, Added(version, ders, i), at)
    requires forall j | 0 <= j < |ders| :: |ders[j]| < TWO_32
    ensures ReadEntries(body, at, version, |ders| - i)
      == Ok((AddedEntries(version, ders, i, at), at + |Added(version, ders, i)|))
    decreases |ders| - i
  {
    hide ReadEntry, TrustedEntry, Alias, OccursAt;
    if i < |ders| {
      var entry := TrustedEntry(version, Alias(i), ders[i]);
      OccursParts(body, entry, Added(version, ders, i + 1), at);
      AliasLength(i);
      ReadsTrusted(body, at, version, Alias(i), ders[i]);
      ReadsAdded(body, at + |entry|, version, ders, i + 1);
    }
  }

  // ----- What is kept

  predicate Inside(content: Bytes, entries: seq<Entry>) {
    forall i | 0 <= i < |entries| :: entries[i].start <= entries[i].end <= |content|
  }

  /** Two outcomes of filtering, one after the other. */
  function Joined(a: Result<Kept>, b: Result<Kept>): Result<Kept> {
    match (a, b)
    case (Err(e), _) => Err(e)
    case (_, Err(e)) => Err(e)
    case (Ok(x), Ok(y)) => Ok(Kept(x.bytes + y.bytes, x.kept + y.kept, x.removed + y.removed))
  }

  /** What filtering makes of one entry. */
  function KeepOne(content: Bytes, entry: Entry, ders: seq<Bytes>): Result<Kept>
    requires entry.start <= entry.end <= |content|
  {
    if !Holds(entry, ders) then Ok(Kept(content[entry.start..entry.end], 1, 0))
    else if entry.trusted then Ok(Kept([], 0, 1))
    else Err(InPrivateChain)
  }

  lemma KeepStep(content: Bytes, entries: seq<Entry>, ders: seq<Bytes>)
    requires Inside(content, entries) && entries != []
    ensures Inside(content, entries[1..])
    ensures Keep(content, entries, ders) == Joined(KeepOne(content, entries[0], ders), Keep(content, entries[1..], ders))
  {
    hide Holds;
    var rest := Keep(content, entries[1..], ders);
    if rest.Ok? {
      assert [] + rest.value.bytes == rest.value.bytes;
    }
  }

  lemma JoinedAgain(a: Result<Kept>, b: Result<Kept>, c: Result<Kept>)
    ensures Joined(Joined(a, b), c) == Joined(a, Joined(b, c))
  {
    if a.Ok? && b.Ok? && c.Ok? {
      var x, y, z := a.value.bytes, b.value.bytes, c.value.bytes;
      assert (x + y) + z == x + (y + z);
    }
  }

  lemma {:induction false} KeepConcat(content: Bytes, a: seq<Entry>, b: seq<Entry>, ders: seq<Bytes>)
    requires Inside(content, a) && Inside(content, b)
    ensures Inside(content, a + b)
    ensures Keep(content, a + b, ders) == Joined(Keep(content, a, ders), Keep(content, b, ders))
    decreases |a|
  {
    if a == [] {
      assert a + b == b;
      assert forall y: Bytes :: [] + y == y;
    } else {
      hide Keep, Joined, KeepOne;
      assert (a + b)[1..] == a[1..] + b;
      KeepStep(content, a, ders);
      KeepStep(content, a + b, ders);
      KeepConcat(content, a[1..], b, ders);
      JoinedAgain(KeepOne(content, a[0], ders), Keep(content, a[1..], ders), Keep(content, b, ders));
    }
  }

  /** Entries that hold none of the certificates are kept, all of them. */
  lemma {:induction false} KeepAll(body: Bytes, content: Bytes, at: nat, version: nat, count: nat, ders: seq<Bytes>)
    requires var r := ReadEntries(body, at, version, count);
      r.Ok? && at <= |body| && Same(body, content, at, r.value.1) && forall e | e in r.value.0 :: !Holds(e, ders)
    ensures var (entries, end) := ReadEntries(body, at, version, count).value;
      && at <= end && Inside(content, entries)
      && Keep(content, entries, ders) == Ok(Kept(content[at..end], count, 0))
    decreases count
  {
    hide ReadEntry, Holds;
    if count > 0 {
      var entry := ReadEntry(body, at, version).value;
      var (rest, end) := ReadEntries(body, entry.end, version, count - 1).value;
      KeepAll(body, content, entry.end, version, count - 1, ders);
      assert ([entry] + rest)[1..] == rest;
      assert content[at..end] == content[at..entry.end] + content[entry.end..end];
    }
  }

  lemma KeepDrops(content: Bytes, entry: Entry, rest: seq<Entry>, ders: seq<Bytes>)
    requires Inside(content, [entry] + rest) && entry.trusted && Holds(entry, ders)
    ensures Inside(content, rest)
    ensures Keep(content, [entry] + rest, ders) == match Keep(content, rest, ders)
      case Err(e) => Err(e)
      case Ok(kept) => Ok(kept.(removed := kept.removed + 1))
  {
    hide Holds;
    assert ([entry] + rest)[1..] == rest;
    assert forall i | 0 <= i < |rest| :: rest[i] == ([entry] + rest)[i + 1];
  }

  /** Every certificate added is removed again. */
  lemma {:induction false} KeepNoneAdded(content: Bytes, version: nat, ders: seq<Bytes>, i: nat, at: nat)
    requires i <= |ders| && at + |Added(version, ders, i)| <= |content|
    ensures var entries := AddedEntries(version, ders, i, at);
      Inside(content, entries) && Keep(content, entries, ders) == Ok(Kept([], 0, |ders| - i))
    decreases |ders| - i
  {
    hide TrustedEntry, Alias, Keep, Holds;
    if i < |ders| {
      var end := at + |TrustedEntry(version, Alias(i), ders[i])|;
      var entry, rest := Entry(at, end, true, [ders[i]]), AddedEntries(version, ders, i + 1, end);
      KeepNoneAdded(content, version, ders, i + 1, end);
      HoldsOwn(entry, ders, i);
      assert Inside(content, [entry] + rest);
      KeepDrops(content, entry, rest, ders);
    } else {
      assert Keep(content, [], ders) == Ok(Kept([], 0, 0)) by { KeepNothing(content, ders); }
    }
  }

  lemma KeepNothing(content: Bytes, ders: seq<Bytes>)
    ensures Keep(content, [], ders) == Ok(Kept([], 0, 0))
  {
  }

  lemma HoldsOwn(entry: Entry, ders: seq<Bytes>, i: nat)
    requires i < |ders| && entry.certs == [ders[i]]
    ensures Holds(entry, ders)
  {
    HoldsItself(ders, i);
    assert entry.certs[0] == ders[i];
  }

  /** Where an entry holds one of the certificates, less is kept than there was. */
  lemma {:induction false} KeepLess(body: Bytes, content: Bytes, at: nat, version: nat, count: nat, ders: seq<Bytes>)
    requires var r := ReadEntries(body, at, version, count);
      r.Ok? && at <= |body| && r.value.1 <= |content|
    ensures var (entries, end) := ReadEntries(body, at, version, count).value;
      && Inside(content, entries)
      && var r := Keep(content, entries, ders);
         r.Ok? ==>
           && |r.value.bytes| <= end - at
           && ((exists e | e in entries :: Holds(e, ders)) ==> |r.value.bytes| < end - at)
    decreases count
  {
    hide ReadEntry, Holds;
    if count > 0 {
      var entry := ReadEntry(body, at, version).value;
      var (rest, end) := ReadEntries(body, entry.end, version, count - 1).value;
      EntriesEnd(body, entry.end, version, count - 1);
      KeepLess(body, content, entry.end, version, count - 1, ders);
      assert ([entry] + rest)[1..] == rest;
      assert forall e | e in [entry] + rest :: e == entry || e in rest;
    }
  }

  // ----- The round trip

  /** The keystore as it is injected: its own body recounted, then the added entries. */
  ghost predicate Injected(body: Bytes, version: nat, ders: seq<Bytes>, out: Bytes) {
    && |body| >= HEADER_SIZE
    && out == WithCount(body + Added(version, ders, 0), Be32(body, 8) + |ders|)
  }

  lemma InjectedParts(body: Bytes, version: nat, ders: seq<Bytes>, out: Bytes)
    requires Injected(body, version, ders, out) && Be32(body, 8) + |ders| < TWO_32
    ensures |out| == |body| + |Added(version, ders, 0)|
    ensures Be32(out, 4) == Be32(body, 4) && Be32(out, 8) == Be32(body, 8) + |ders|
    ensures Same(body, out, HEADER_SIZE, |body|) && OccursAt(out, Added(version, ders, 0), |body|)
  {
    hide Added, Put32;
    var count := Be32(body, 8) + |ders|;
    assert OccursAt(out, Put32(count), 8);
    Put32Reads(count, out, 8);
    assert forall k | 0 <= k < 8 :: out[k] == body[k];
  }

  lemma ParseInjected(body: Bytes, ders: seq<Bytes>, out: Bytes)
    requires |body| >= HEADER_SIZE && Parse(body).Ok?
    requires Injected(body, Parse(body).value.0, ders, out) && Be32(body, 8) + |ders| < TWO_32
    requires forall j | 0 <= j < |ders| :: |ders[j]| < TWO_32
    ensures var (version, entries) := Parse(body).value;
      Parse(out) == Ok((version, entries + AddedEntries(version, ders, 0, |body|)))
  {
    hide ReadEntries, Added, Be32, OccursAt, Same, WithCount;
    var (version, entries) := Parse(body).value;
    var count := Be32(body, 8);
    InjectedParts(body, version, ders, out);
    ReadEntriesLocal(body, out, HEADER_SIZE, version, count);
    ReadEntriesOn(out, HEADER_SIZE, version, count, |ders|);
    ReadsAdded(out, |body|, version, ders, 0);
  }

  lemma OpenSealed(sha1: Digest, body: Bytes)
    requires IsSha1(sha1) && |body| >= HEADER_SIZE
    ensures Open(sha1, Sealed(sha1, body)) == Ok(body) && |Sealed(sha1, body)| == |body| + DIGEST_SIZE
  {
    assert |Seal(sha1, body)| == DIGEST_SIZE;
    var content := Sealed(sha1, body);
    assert content[..|content| - DIGEST_SIZE] == body && content[|body|..] == Seal(sha1, body);
  }

  lemma OpenedSealed(sha1: Digest, content: Bytes)
    requires Open(sha1, content).Ok?
    ensures content == Sealed(sha1, Open(sha1, content).value)
  {
  }

  lemma HeaderWritesBack(body: Bytes)
    requires |body| >= HEADER_SIZE && body[..4] == MAGIC
    ensures MAGIC + Put32(Be32(body, 4)) + Put32(Be32(body, 8)) + body[HEADER_SIZE..] == body
  {
    Be32Puts(body, 4);
    Be32Puts(body, 8);
  }

  /** A trusted entry for each certificate, in order. */
  predicate TrustEach(entries: seq<Entry>, ders: seq<Bytes>) {
    |entries| == |ders| && forall j | 0 <= j < |ders| :: entries[j].trusted && entries[j].certs == [ders[j]]
  }

  lemma {:induction false} AddedAre(version: nat, ders: seq<Bytes>, i: nat, at: nat)
    requires i <= |ders|
    ensures var entries := AddedEntries(version, ders, i, at);
      |entries| == |ders| - i && forall j | 0 <= j < |entries| :: entries[j].trusted && entries[j].certs == [ders[i + j]]
    decreases |ders| - i
  {
    hide TrustedEntry, Alias;
    if i < |ders| {
      var end := at + |TrustedEntry(version, Alias(i), ders[i])|;
      var entries, rest := AddedEntries(version, ders, i, at), AddedEntries(version, ders, i + 1, end);
      AddedAre(version, ders, i + 1, end);
      hide AddedEntries;
      forall j | 0 <= j < |entries| ensures entries[j].trusted && entries[j].certs == [ders[i + j]] {
        assert j > 0 ==> entries[j] == rest[j - 1];
      }
    }
  }

  /** An injected keystore opens and parses to its own entries and, after them, a trusted one for each certificate. */
  lemma WithReads(sha1: Digest, content: Bytes, ders: seq<Bytes>)
    requires IsSha1(sha1) && Open(sha1, content).Ok? && Parse(Open(sha1, content).value).Ok?
    requires |content| <= MAX_KEYSTORE_BYTES && |ders| < TWO_32 - MAX_KEYSTORE_BYTES
    requires forall j | 0 <= j < |ders| :: |ders[j]| < TWO_32
    ensures With(sha1, content, ders).Ok? && Open(sha1, With(sha1, content, ders).value).Ok?
    ensures var (version, entries) := Parse(Open(sha1, content).value).value;
      var r := Parse(Open(sha1, With(sha1, content, ders).value).value);
      r.Ok? && r.value.0 == version && entries <= r.value.1 && TrustEach(r.value.1[|entries|..], ders)
  {
    hide Open, Parse, ReadEntries, Added, AddedEntries, Put32, Be32, OccursAt, Seal, TrustedEntry;
    var body := Open(sha1, content).value;
    var (version, entries) := Parse(body).value;
    CountFits(body);
    OpenedSealed(sha1, content);
    OpenSealed(sha1, body);
    var out := WithCount(body + Added(version, ders, 0), Be32(body, 8) + |ders|);
    OpenSealed(sha1, out);
    ParseInjected(body, ders, out);
    AddedAre(version, ders, 0, |body|);
    var added := AddedEntries(version, ders, 0, |body|);
    assert (entries + added)[|entries|..] == added;
  }

  /**
   * Stripping what was injected gives back the keystore, its digest and count included, exactly
   * when no entry held one of the certificates to begin with: one that did goes too, or stops the
   * rewrite when it is a private key's.
   */
  lemma WithoutUndoesWith(sha1: Digest, content: Bytes, ders: seq<Bytes>)
    requires IsSha1(sha1) && Open(sha1, content).Ok?
    requires var body := Open(sha1, content).value;
      Parse(body).Ok? && body[..4] == MAGIC && |content| <= MAX_KEYSTORE_BYTES
    requires 0 < |ders| < TWO_32 - MAX_KEYSTORE_BYTES && forall j | 0 <= j < |ders| :: |ders[j]| < TWO_32
    ensures With(sha1, content, ders).Ok?
    ensures Without(sha1, With(sha1, content, ders).value, ders) == Ok(content)
      <==> forall e | e in Parse(Open(sha1, content).value).value.1 :: !Holds(e, ders)
  {
    hide Open, Parse, ReadEntries, Added, AddedEntries, Keep, Holds, Put32, Be32, OccursAt, Seal, TrustedEntry;
    var body := Open(sha1, content).value;
    var (version, entries) := Parse(body).value;
    CountFits(body);
    OpenedSealed(sha1, content);
    OpenSealed(sha1, body);
    var out := WithCount(body + Added(version, ders, 0), Be32(body, 8) + |ders|);
    var added := AddedEntries(version, ders, 0, |body|);
    assert |out| >= HEADER_SIZE;
    OpenSealed(sha1, out);
    ParseInjected(body, ders, out);
    InjectedParts(body, version, ders, out);
    KeepNoneAdded(out, version, ders, 0, |body|);
    KeptOfParsed(body, out, ders);
    KeepConcat(out, entries, added, ders);
    HeaderWritesBack(body);
    assert body[HEADER_SIZE..] + [] == body[HEADER_SIZE..];
    var kept := Keep(out, entries + added, ders);
    if kept.Ok? {
      var left := MAGIC + Put32(version) + Put32(kept.value.kept) + kept.value.bytes;
      OpenSealed(sha1, left);
      assert Without(sha1, Sealed(sha1, out), ders) == Ok(Sealed(sha1, left));
    }
  }

  /** A keystore small enough to be read has a count that leaves room for more. */
  lemma CountFits(body: Bytes)
    requires |body| >= HEADER_SIZE && Parse(body).Ok?
    ensures Be32(body, 8) < |body|
  {
    hide ReadEntries;
    EntriesEnd(body, HEADER_SIZE, Be32(body, 4), Be32(body, 8));
  }

  /** Of a keystore's own entries, everything past the header is kept exactly when none holds a certificate. */
  lemma KeptOfParsed(body: Bytes, out: Bytes, ders: seq<Bytes>)
    requires |body| >= HEADER_SIZE && Parse(body).Ok? && Same(body, out, HEADER_SIZE, |body|)
    ensures var entries := Parse(body).value.1; var clean := forall e | e in entries :: !Holds(e, ders);
      && Be32(body, 4) == Parse(body).value.0
      && Inside(out, entries)
      && (clean ==> Keep(out, entries, ders) == Ok(Kept(body[HEADER_SIZE..], Be32(body, 8), 0)))
      && (!clean && Keep(out, entries, ders).Ok? ==> |Keep(out, entries, ders).value.bytes| < |body| - HEADER_SIZE)
  {
    hide ReadEntries, Keep, Holds, Be32;
    var (version, entries) := Parse(body).value;
    KeepLess(body, out, HEADER_SIZE, version, Be32(body, 8), ders);
    if forall e | e in entries :: !Holds(e, ders) {
      KeepAll(body, out, HEADER_SIZE, version, Be32(body, 8), ders);
      assert out[HEADER_SIZE..|body|] == body[HEADER_SIZE..];
    }
  }

  // ----- What stripping leaves, whatever the keystore holds

  /** The entries that hold none of the certificates. */
  function Rest(entries: seq<Entry>, ders: seq<Bytes>): seq<Entry> {
    if entries == [] then [] else (if Holds(entries[0], ders) then [] else [entries[0]]) + Rest(entries[1..], ders)
  }

  /** Entry for entry the same bytes, certificates and kind. */
  ghost predicate AreAlike(body: Bytes, entries: seq<Entry>, other: Bytes, entries': seq<Entry>) {
    && |entries'| == |entries| && Inside(body, entries) && Inside(other, entries')
    && (forall i | 0 <= i < |entries| :: entries'[i].trusted == entries[i].trusted && entries'[i].certs == entries[i].certs)
    && (forall i | 0 <= i < |entries| ::
          other[entries'[i].start..entries'[i].end] == body[entries[i].start..entries[i].end])
  }

  lemma AlikeMore(body: Bytes, entry: Entry, entries: seq<Entry>, other: Bytes, entry': Entry, entries': seq<Entry>)
    requires AreAlike(body, entries, other, entries') && entry.start <= entry.end <= |body| && entry'.start <= entry'.end <= |other|
    requires entry'.trusted == entry.trusted && entry'.certs == entry.certs
    requires other[entry'.start..entry'.end] == body[entry.start..entry.end]
    ensures AreAlike(body, [entry] + entries, other, [entry'] + entries')
  {
  }

  /** What is kept reads as the entries that hold none. */
  lemma {:induction false} KeptReads(body: Bytes, at: nat, version: nat, count: nat, ders: seq<Bytes>, out: Bytes, to: nat)
    requires at <= |body| && ReadEntries(body, at, version, count).Ok?
    requires var entries := ReadEntries(body, at, version, count).value.0;
      Inside(body, entries) && Keep(body, entries, ders).Ok? && OccursAt(out, Keep(body, entries, ders).value.bytes, to)
    ensures var entries := ReadEntries(body, at, version, count).value.0; var kept := Keep(body, entries, ders).value;
      && kept.kept == |Rest(entries, ders)|
      && var r := ReadEntries(out, to, version, kept.kept);
         r.Ok? && r.value.1 == to + |kept.bytes| && AreAlike(body, Rest(entries, ders), out, r.value.0)
    decreases count
  {
    hide ReadEntry, Holds, AreAlike, OccursAt;
    if count > 0 {
      var entry := ReadEntry(body, at, version).value;
      var (rest, end) := ReadEntries(body, entry.end, version, count - 1).value;
      var entries := [entry] + rest;
      assert entries[1..] == rest;
      assert Inside(body, rest) by { assert forall i | 0 <= i < |rest| :: rest[i] == entries[i + 1]; }
      if Holds(entry, ders) {
        KeptReads(body, entry.end, version, count - 1, ders, out, to);
        assert [] + Rest(rest, ders) == Rest(rest, ders);
      } else {
        var kept := Keep(body, rest, ders).value;
        var slice := body[entry.start..entry.end];
        OccursParts(out, slice, kept.bytes, to);
        SliceStands(body, entry.start, entry.end, out, to);
        ReadEntryMoved(body, out, at, version, to);
        KeptReads(body, entry.end, version, count - 1, ders, out, to + |slice|);
        var there := ReadEntry(out, to, version).value;
        AlikeMore(body, entry, Rest(rest, ders), out, there, ReadEntries(out, there.end, version, kept.kept).value.0);
      }
    } else {
      NothingAlike(body, out);
    }
  }

  lemma NothingAlike(body: Bytes, out: Bytes)
    ensures AreAlike(body, [], out, [])
  {
  }

  lemma SliceStands(body: Bytes, lo: nat, hi: nat, out: Bytes, to: nat)
    requires lo <= hi <= |body| && OccursAt(out, body[lo..hi], to)
    ensures Moved(body, out, lo, hi, to) && out[to..to + hi - lo] == body[lo..hi]
  {
    OccursIsSlice(out, body[lo..hi], to);
    forall k | lo <= k < hi ensures out[k - lo + to] == body[k] {
      assert out[to + (k - lo)] == body[lo..hi][k - lo];
    }
  }

  /** Filtering stops just at a private key's chain. */
  lemma {:induction false} KeepsUnlessPrivate(content: Bytes, entries: seq<Entry>, ders: seq<Bytes>)
    requires Inside(content, entries)
    ensures var r := Keep(content, entries, ders); var private := exists e | e in entries :: Holds(e, ders) && !e.trusted;
      && (r.Err? <==> private) && (r.Err? ==> r.error == InPrivateChain)
      && (r.Ok? ==> (r.value.removed == 0 <==> forall e | e in entries :: !Holds(e, ders)))
  {
    hide Holds;
    if entries != [] {
      assert entries == [entries[0]] + entries[1..];
      KeepsUnlessPrivate(content, entries[1..], ders);
    }
  }

  /**
   * Stripping any keystore that opens and parses: refused where a private key's chain holds one of
   * the certificates, or nothing does; else what is written opens, and parses to the entries that hold
   * none, in order and byte for byte.
   */
  lemma WithoutLeavesTheRest(sha1: Digest, content: Bytes, ders: seq<Bytes>)
    requires IsSha1(sha1) && Open(sha1, content).Ok? && Parse(Open(sha1, content).value).Ok?
    ensures var body := Open(sha1, content).value; var (version, entries) := Parse(body).value; var r := Without(sha1, content, ders);
      && (r == Err(InPrivateChain) <==> exists e | e in entries :: Holds(e, ders) && !e.trusted)
      && (r == Err(OutsideAnyEntry) <==> forall e | e in entries :: !Holds(e, ders))
      && (r.Err? ==> r.error == InPrivateChain || r.error == OutsideAnyEntry)
      && (r.Ok? ==>
            && Open(sha1, r.value).Ok?
            && var left := Open(sha1, r.value).value;
               && Parse(left).Ok? && Parse(left).value.0 == version && AreAlike(body, Rest(entries, ders), left, Parse(left).value.1))
  {
    hide ReadEntries, Keep, Rest, AreAlike, Be32, Put32, Open, Holds;
    var body := Open(sha1, content).value;
    var (version, entries) := Parse(body).value;
    EntriesInside(body, HEADER_SIZE, version, Be32(body, 8));
    KeepsUnlessPrivate(body, entries, ders);
    if Without(sha1, content, ders).Ok? {
      var kept := Keep(body, entries, ders).value;
      var left := MAGIC + Put32(version) + Put32(kept.kept) + kept.bytes;
      OpenSealed(sha1, left);
      assert OccursAt(left, kept.bytes, HEADER_SIZE);
      KeptReads(body, HEADER_SIZE, version, Be32(body, 8), ders, left, HEADER_SIZE);
      RestIsFewer(entries, ders);
      EntriesEnd(body, HEADER_SIZE, version, Be32(body, 8));
      assert OccursAt(left, Put32(version), 4) && OccursAt(left, Put32(kept.kept), 8);
      Put32Reads(version, left, 4);
      Put32Reads(kept.kept, left, 8);
    }
  }

  lemma {:induction false} RestIsFewer(entries: seq<Entry>, ders: seq<Bytes>)
    ensures |Rest(entries, ders)| <= |entries|
    ensures forall e | e in Rest(entries, ders) :: e in entries && !Holds(e, ders)
  {
    hide Holds;
    if entries != [] {
      RestIsFewer(entries[1..], ders);
    }
  }
}
