/** The keystore code as it runs: a reader that carries its first overrun, and the loops over it. */
module KeystoreFile {
  import opened Search
  import opened Keystore
  import opened KeystoreRoundTrip

  /** Walks the body once. After an overrun every read returns nothing and moves nothing. */
  class Reader {
    const body: Bytes
    var at: nat
    var failed: bool

    ghost predicate Valid()
      reads this
    {
      at <= |body|
    }

    constructor (body: Bytes, at: nat)
      requires at <= |body|
      ensures Valid() && this.body == body && this.at == at && !failed
    {
      this.body, this.at, failed := body, at, false;
    }

    method Advance(n: nat) returns (b: Bytes)
      requires Valid()
      modifies this
      ensures Valid() && failed == (old(failed) || n > |body| - old(at))
      ensures at == if failed then old(at) else old(at) + n
      ensures b == if failed then [] else body[old(at)..at]
    {
      if failed || n > |body| - at {
        failed := true;
        return [];
      }
      b := body[at..at + n];
      at := at + n;
    }

    method Uint32() returns (n: nat)
      requires Valid()
      modifies this
      ensures Valid() && failed == (old(failed) || old(at) + 4 > |body|)
      ensures at == if failed then old(at) else old(at) + 4
      ensures n == if failed then 0 else Be32(body, old(at))
    {
      hide Be32;
      var b := Advance(4);
      if failed {
        return 0;
      }
      Be32OfSlice(body, at - 4);
      n := Be32(b, 0);
    }

    /** Steps over a string without reading it. */
    method Utf()
      requires Valid()
      modifies this
      ensures Valid() && old(at) <= at && (old(failed) ==> failed && at == old(at))
      ensures !old(failed) ==> match SkipUtf(body, old(at))
        case None => failed
        case Some(end) => !failed && at == end
    {
      var b := Advance(2);
      if failed {
        return;
      }
      assert Be16(b, 0) == Be16(body, at - 2);
      var _ := Advance(Be16(b, 0));
    }

    method Certificate(version: nat) returns (der: Bytes)
      requires Valid()
      modifies this
      ensures Valid() && old(at) <= at && (old(failed) ==> failed && at == old(at))
      ensures !old(failed) ==> match SkipCert(body, old(at), version)
        case None => failed
        case Some((start, end)) => !failed && at == end && der == body[start..end]
    {
      hide SkipUtf, Be32;
      if version > 1 {
        Utf();
      }
      var len := Uint32();
      der := Advance(len);
    }
  }

  lemma Be32OfSlice(body: Bytes, at: nat)
    requires at + 4 <= |body|
    ensures Be32(body[at..at + 4], 0) == Be32(body, at)
  {
  }

  /** A private key's chain, counted down: the file's own count can be anything. */
  method ReadChainOf(r: Reader, version: nat) returns (certs: seq<Bytes>, ghost steps: nat)
    requires r.Valid()
    modifies r
    ensures r.Valid() && old(r.at) <= r.at && (old(r.failed) ==> r.failed)
    ensures 4 * steps <= r.at - old(r.at) + if r.failed then 4 else 0
    ensures !old(r.failed) ==>
      if old(r.at) + 4 > |r.body| then r.failed
      else match ReadChain(r.body, old(r.at) + 4, version, Be32(r.body, old(r.at)))
        case None => r.failed
        case Some((all, end)) => !r.failed && r.at == end && certs == all
  {
    hide SkipCert, Be32;
    certs, steps := [], 0;
    var chain := r.Uint32();
    if r.failed {
      return;
    }
    ghost var all := ReadChain(r.body, r.at, version, chain);
    assert forall x: seq<Bytes> :: [] + x == x;
    while chain > 0 && !r.failed
      invariant r.Valid() && old(r.at) + 4 <= r.at && 4 * steps <= r.at - old(r.at) + if r.failed then 4 else 0
      invariant r.failed ==> all.None?
      invariant !r.failed ==> all == match ReadChain(r.body, r.at, version, chain)
        case None => None
        case Some((rest, end)) => Some((certs + rest, end))
      decreases |r.body| - r.at + if r.failed then 0 else 1
    {
      steps := steps + 1;
      var der := r.Certificate(version);
      assert forall x: seq<Bytes> :: certs + ([der] + x) == (certs + [der]) + x;
      certs := certs + [der];
      chain := chain - 1;
    }
    assert certs + [] == certs;
  }

  /**
   * Walks the entries. However many the file claims, and however long the chains, the loops run at
   * most once per byte of the body.
   */
  method ParseKeystore(body: Bytes) returns (result: Result<(nat, seq<Entry>)>, ghost steps: nat)
    requires |body| >= HEADER_SIZE
    ensures result == Parse(body)
    ensures steps <= |body|
  {
    hide SkipUtf, SkipCert, ReadChain, Be32, ReadEntry;
    steps := 0;
    var r := new Reader(body, 4);
    var version := r.Uint32();
    var count := r.Uint32();
    if version != 1 && version != 2 {
      return Err(BadVersion), steps;
    }
    var entries := [];
    ghost var all := ReadEntries(body, HEADER_SIZE, version, count);
    assert forall x: seq<Entry> :: [] + x == x;
    var left := count;
    while left > 0
      invariant r.Valid() && !r.failed && r.body == body && HEADER_SIZE <= r.at && 4 * steps <= r.at - HEADER_SIZE
      invariant all == match ReadEntries(body, r.at, version, left)
        case Err(e) => Err(e)
        case Ok((rest, end)) => Ok((entries + rest, end))
      decreases |body| - r.at
    {
      var entry, more := ParseEntry(r, version);
      steps := steps + 1 + more;
      if entry.Err? {
        return Err(entry.error), steps;
      }
      assert forall x: seq<Entry> :: entries + ([entry.value] + x) == (entries + [entry.value]) + x;
      entries := entries + [entry.value];
      left := left - 1;
    }
    if r.at != |body| {
      return Err(TrailingBytes), steps;
    }
    assert entries + [] == entries;
    return Ok((version, entries)), steps;
  }

  method ParseEntry(r: Reader, version: nat) returns (result: Result<Entry>, ghost steps: nat)
    requires r.Valid() && !r.failed
    modifies r
    ensures r.Valid() && result == ReadEntry(r.body, old(r.at), version)
    ensures result.Ok? ==> !r.failed && r.at == result.value.end && 4 * (steps + 1) <= r.at - old(r.at)
    ensures result.Err? ==> 4 * steps <= |r.body| - old(r.at) + 4
  {
    hide SkipUtf, SkipCert, ReadChain, Be32;
    steps := 0;
    var start := r.at;
    var tag := r.Uint32();
    r.Utf();
    var _ := r.Advance(8);
    if r.failed {
      return Err(EndsInside), steps;
    }
    var trusted, certs := false, [];
    if tag == 2 {
      trusted := true;
      var der := r.Certificate(version);
      certs := [der];
    } else if tag == 1 {
      var key := r.Uint32();
      var _ := r.Advance(key);
      certs, steps := ReadChainOf(r, version);
    } else {
      return Err(BadTag), steps;
    }
    if r.failed {
      return Err(EndsInside), steps;
    }
    return Ok(Entry(start, r.at, trusted, certs)), steps;
  }

  method KeystoreWith(sha1: Digest, content: Bytes, ders: seq<Bytes>) returns (result: Result<Bytes>)
    ensures result == With(sha1, content, ders)
  {
    hide Parse, TrustedEntry, Seal, Alias, Put32, Be32;
    var open := Open(sha1, content);
    if open.Err? {
      return Err(open.error);
    }
    var body := open.value;
    var parsed, steps := ParseKeystore(body);
    if parsed.Err? {
      return Err(parsed.error);
    }
    var version := parsed.value.0;
    var out := body;
    for i := 0 to |ders|
      invariant out + Added(version, ders, i) == body + Added(version, ders, 0)
    {
      out := out + TrustedEntry(version, Alias(i), ders[i]);
    }
    assert out + [] == out;
    out := WithCount(out, Be32(out, 8) + |ders|);
    assert Be32(body, 8) == Be32(body + Added(version, ders, 0), 8) by { CountStays(body, Added(version, ders, 0)); }
    return Ok(out + Seal(sha1, out));
  }

  lemma CountStays(body: Bytes, more: Bytes)
    requires |body| >= HEADER_SIZE
    ensures Be32(body + more, 8) == Be32(body, 8)
  {
  }

  method KeystoreWithout(sha1: Digest, content: Bytes, ders: seq<Bytes>) returns (result: Result<Bytes>)
    ensures result == Without(sha1, content, ders)
  {
    hide Parse, Seal, Put32, Be32, Holds;
    var open := Open(sha1, content);
    if open.Err? {
      return Err(open.error);
    }
    var body := open.value;
    var parsed, steps := ParseKeystore(body);
    if parsed.Err? {
      return Err(parsed.error);
    }
    var (version, entries) := parsed.value;
    ParsedInside(body);
    var out := [];
    var kept, removed := 0, 0;
    assert entries[0..] == entries;
    assert forall x: Bytes :: [] + x == x;
    for i := 0 to |entries|
      invariant Keep(body, entries, ders) == match Keep(body, entries[i..], ders)
        case Err(e) => Err(e)
        case Ok(rest) => Ok(Kept(out + rest.bytes, kept + rest.kept, removed + rest.removed))
    {
      var entry := entries[i];
      assert entries[i..][0] == entry && entries[i..][1..] == entries[i + 1..];
      if !Holds(entry, ders) {
        assert forall x: Bytes :: out + (body[entry.start..entry.end] + x) == (out + body[entry.start..entry.end]) + x;
        out := out + body[entry.start..entry.end];
        kept := kept + 1;
      } else if !entry.trusted {
        return Err(InPrivateChain);
      } else {
        removed := removed + 1;
      }
    }
    assert entries[|entries|..] == [];
    assert out + [] == out;
    if removed == 0 {
      return Err(OutsideAnyEntry);
    }
    out := MAGIC + Put32(version) + Put32(kept) + out;
    return Ok(out + Seal(sha1, out));
  }

  lemma ParsedInside(body: Bytes)
    requires |body| >= HEADER_SIZE && Parse(body).Ok?
    ensures Inside(body, Parse(body).value.1)
  {
    hide ReadEntries;
    EntriesInside(body, HEADER_SIZE, Be32(body, 4), Be32(body, 8));
    assert Parse(body).value.1 == ReadEntries(body, HEADER_SIZE, Be32(body, 4), Be32(body, 8)).value.0;
  }
}
