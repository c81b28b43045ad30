/**
 * JKS keystores: the parser, adding trusted entries for the CA, taking them back out, and the seal.
 * SHA-1 is a parameter; all that is used of it is the length of what it returns.
 */
module Keystore {
  import opened Search
  import opened Decimal

  datatype Error = TooShort | NotSealed | BadVersion | EndsInside | BadTag | TrailingBytes | InPrivateChain | OutsideAnyEntry

  datatype Result<+T> = Ok(value: T) | Err(error: Error)

  type Digest = Bytes -> Bytes

  ghost predicate IsSha1(sha1: Digest) {
    forall b :: |sha1(b)| == DIGEST_SIZE
  }

  const DIGEST_SIZE: nat := 20
  /** The largest keystore that is read in. */
  const MAX_KEYSTORE_BYTES: nat := 0x100_0000
  const TWO_32: nat := 0x1_0000_0000
  const MAGIC: Bytes := [0xfe, 0xed, 0xfe, 0xed]
  /** The magic, the version and the count. */
  const HEADER_SIZE: nat := 12
  /** "changeit", each character a UTF-16BE code unit. */
  const PASSWORD: Bytes := [0, 99, 0, 104, 0, 97, 0, 110, 0, 103, 0, 101, 0, 105, 0, 116]
  /** "Mighty Aphrodite" */
  const SALT: Bytes := [77, 105, 103, 104, 116, 121, 32, 65, 112, 104, 114, 111, 100, 105, 116, 101]
  /** "X.509" */
  const X509: Bytes := [88, 46, 53, 48, 57]
  /** "buildcage-proxy-ca" */
  const ALIAS: Bytes := [98, 117, 105, 108, 100, 99, 97, 103, 101, 45, 112, 114, 111, 120, 121, 45, 99, 97]
  const CREATION_TIME: nat := 1700000000000

  // ----- Big-endian numbers

  function Byte(n: nat): byte { n % 256 }

  function Be16(s: Bytes, at: nat): nat
    requires at + 2 <= |s|
  {
    256 * (s[at] as int) + s[at + 1]
  }

  function Be32(s: Bytes, at: nat): (n: nat)
    requires at + 4 <= |s|
    ensures n < TWO_32
  {
    16777216 * (s[at] as int) + 65536 * (s[at + 1] as int) + 256 * (s[at + 2] as int) + s[at + 3]
  }

  /** Truncating, as an unsigned 16-bit conversion is. */
  function Put16(n: nat): Bytes { [Byte(n / 256), Byte(n)] }

  /** Truncating, as an unsigned 32-bit conversion is. */
  function Put32(n: nat): (b: Bytes)
    ensures |b| == 4
  {
    [Byte(n / 16777216), Byte(n / 65536), Byte(n / 256), Byte(n)]
  }

  function Put64(n: nat): Bytes { Put32(n / TWO_32) + Put32(n) }

  lemma ByteByByte(n: nat)
    requires n < TWO_32
    ensures n == 16777216 * (Byte(n / 16777216) as int) + 65536 * (Byte(n / 65536) as int) + 256 * (Byte(n / 256) as int) + Byte(n)
  {
    var q1, q2, q3 := n / 256, n / 65536, n / 16777216;
    assert q2 == q1 / 256 && q3 == q2 / 256 && q3 < 256;
  }

  lemma Put32Reads(n: nat, s: Bytes, at: nat)
    requires n < TWO_32 && OccursAt(s, Put32(n), at)
    ensures Be32(s, at) == n
  {
    var b := Put32(n);
    ByteByByte(n);
    assert s[at + 0] == b[0] && s[at + 1] == b[1] && s[at + 2] == b[2] && s[at + 3] == b[3];
  }

  lemma Put16Reads(n: nat, s: Bytes, at: nat)
    requires n < 0x1_0000 && OccursAt(s, Put16(n), at)
    ensures Be16(s, at) == n
  {
    var b := Put16(n);
    assert s[at + 0] == b[0] && s[at + 1] == b[1];
  }

  /** A field written back is the bytes it was read from. */
  lemma Be32Puts(s: Bytes, at: nat)
    requires at + 4 <= |s|
    ensures Put32(Be32(s, at)) == s[at..at + 4]
  {
    var a: int, b: int, c: int := s[at], s[at + 1], s[at + 2];
    var n := Be32(s, at);
    assert n / 256 == 65536 * a + 256 * b + c;
    assert n / 65536 == 256 * a + b;
    assert n / 16777216 == a;
  }

  // ----- The format

  /** Past a two-byte length and the bytes it counts. */
  function SkipUtf(body: Bytes, at: nat): (r: Option<nat>)
    ensures r.Some? ==> at + 2 <= r.value <= |body|
  {
    if at + 2 > |body| || at + 2 + Be16(body, at) > |body| then None
    else Some(at + 2 + Be16(body, at))
  }

  /** Past a certificate, with where its DER starts; from version 2 on its type comes first. */
  function SkipCert(body: Bytes, at: nat, version: nat): (r: Option<(nat, nat)>)
    ensures r.Some? ==> at + 4 <= r.value.0 <= r.value.1 <= |body|
  {
    match if version > 1 then SkipUtf(body, at) else Some(at)
    case None => None
    case Some(len) =>
      if len + 4 > |body| || len + 4 + Be32(body, len) > |body| then None
      else Some((len + 4, len + 4 + Be32(body, len)))
  }

  /** The chain of `count` certificates at `at`, and where it ends. */
  function ReadChain(body: Bytes, at: nat, version: nat, count: nat): (r: Option<(seq<Bytes>, nat)>)
    ensures r.Some? ==> at <= r.value.1 && (count > 0 ==> r.value.1 <= |body|)
    decreases count
  {
    if count == 0 then Some(([], at))
    else
      match SkipCert(body, at, version)
      case None => None
      case Some((start, end)) =>
        match ReadChain(body, end, version, count - 1)
        case None => None
        case Some((certs, last)) => Some(([body[start..end]] + certs, last))
  }

  /** One entry's extent in the keystore, and the certificates it carries. */
  datatype Entry = Entry(start: nat, end: nat, trusted: bool, certs: seq<Bytes>)

  /** Past the tag, the alias and the creation time. */
  function EntryHead(body: Bytes, at: nat): (r: Option<nat>)
    ensures r.Some? ==> at + 14 <= r.value <= |body|
  {
    if at + 4 > |body| then None
    else
      match SkipUtf(body, at + 4)
      case None => None
      case Some(time) => if time + 8 > |body| then None else Some(time + 8)
  }

  function ReadEntry(body: Bytes, at: nat, version: nat): (r: Result<Entry>)
    ensures r.Ok? ==> r.value.start == at && at + 14 <= r.value.end <= |body|
  {
    match EntryHead(body, at)
    case None => Err(EndsInside)
    case Some(data) =>
      var tag := Be32(body, at);
      if tag == 2 then
        match SkipCert(body, data, version)
        case None => Err(EndsInside)
        case Some((start, end)) => Ok(Entry(at, end, true, [body[start..end]]))
      else if tag == 1 then
        if data + 4 > |body| then Err(EndsInside)
        else
          var chain := data + 4 + Be32(body, data);
          if chain + 4 > |body| then Err(EndsInside)
          else
            match ReadChain(body, chain + 4, version, Be32(body, chain))
            case None => Err(EndsInside)
            case Some((certs, end)) => Ok(Entry(at, end, false, certs))
      else Err(BadTag)
  }

  function ReadEntries(body: Bytes, at: nat, version: nat, count: nat): Result<(seq<Entry>, nat)>
    decreases count
  {
    if count == 0 then Ok(([], at))
    else
      match ReadEntry(body, at, version)
      case Err(e) => Err(e)
      case Ok(entry) =>
        match ReadEntries(body, entry.end, version, count - 1)
        case Err(e) => Err(e)
        case Ok((entries, end)) => Ok(([entry] + entries, end))
  }

  function Parse(body: Bytes): Result<(nat, seq<Entry>)>
    requires |body| >= HEADER_SIZE
  {
    var version := Be32(body, 4);
    if version != 1 && version != 2 then Err(BadVersion)
    else
      match ReadEntries(body, HEADER_SIZE, version, Be32(body, 8))
      case Err(e) => Err(e)
      case Ok((entries, end)) => if end != |body| then Err(TrailingBytes) else Ok((version, entries))
  }

  // ----- An entry is read from its own bytes alone, wherever they stand

  ghost predicate Same(body: Bytes, other: Bytes, lo: nat, hi: nat) {
    hi <= |body| && hi <= |other| && forall k | lo <= k < hi :: body[k] == other[k]
  }

  /** The bytes from lo to hi stand in `other` too, from `to` on. */
  ghost predicate Moved(body: Bytes, other: Bytes, lo: nat, hi: nat, to: nat) {
    lo <= hi <= |body| && to + hi - lo <= |other| && forall k | lo <= k < hi :: other[k - lo + to] == body[k]
  }

  lemma SkipUtfMoved(body: Bytes, other: Bytes, at: nat, to: nat)
    requires var r := SkipUtf(body, at); r.Some? && Moved(body, other, at, r.value, to)
    ensures SkipUtf(other, to) == Some(SkipUtf(body, at).value - at + to)
  {
    assert other[to] == body[at] && other[to + 1] == body[at + 1];
  }

  lemma Be32Moved(body: Bytes, other: Bytes, lo: nat, hi: nat, to: nat, at: nat)
    requires Moved(body, other, lo, hi, to) && lo <= at && at + 4 <= hi
    ensures Be32(other, at - lo + to) == Be32(body, at)
  {
    var there := at - lo + to;
    assert other[there] == body[at] && other[there + 1] == body[at + 1] && other[there + 2] == body[at + 2]
        && other[there + 3] == body[at + 3];
  }

  lemma PartMoved(body: Bytes, other: Bytes, lo: nat, hi: nat, to: nat, a: nat, b: nat)
    requires Moved(body, other, lo, hi, to) && lo <= a <= b <= hi
    ensures Moved(body, other, a, b, a - lo + to) && other[a - lo + to..b - lo + to] == body[a..b]
  {
    forall k | a <= k < b ensures other[k - a + (a - lo + to)] == body[k] {
      assert other[k - lo + to] == body[k];
    }
    assert forall k | 0 <= k < b - a :: other[a - lo + to..b - lo + to][k] == body[a..b][k];
  }

  lemma SkipCertMoved(body: Bytes, other: Bytes, at: nat, version: nat, to: nat)
    requires var r := SkipCert(body, at, version); r.Some? && Moved(body, other, at, r.value.1, to)
    ensures var (start, end) := SkipCert(body, at, version).value;
      && SkipCert(other, to, version) == Some((start - at + to, end - at + to))
      && other[start - at + to..end - at + to] == body[start..end]
  {
    hide SkipUtf, Be32, Moved;
    var (start, end) := SkipCert(body, at, version).value;
    if version > 1 {
      PartMoved(body, other, at, end, to, at, start - 4);
      SkipUtfMoved(body, other, at, to);
    }
    Be32Moved(body, other, at, end, to, start - 4);
    PartMoved(body, other, at, end, to, start, end);
    assert end - at + to <= |other| by { MovedFits(body, other, at, end, to); }
  }

  lemma MovedFits(body: Bytes, other: Bytes, lo: nat, hi: nat, to: nat)
    requires Moved(body, other, lo, hi, to)
    ensures lo <= hi <= |body| && to + hi - lo <= |other|
  {
  }

  lemma {:induction false} ReadChainMoved(body: Bytes, other: Bytes, at: nat, version: nat, count: nat, to: nat)
    requires var r := ReadChain(body, at, version, count); r.Some? && Moved(body, other, at, r.value.1, to)
    ensures var (certs, end) := ReadChain(body, at, version, count).value;
      ReadChain(other, to, version, count) == Some((certs, end - at + to))
    decreases count
  {
    hide SkipCert, Moved;
    if count > 0 {
      var (start, end) := SkipCert(body, at, version).value;
      var last := ReadChain(body, at, version, count).value.1;
      PartMoved(body, other, at, last, to, at, end);
      SkipCertMoved(body, other, at, version, to);
      PartMoved(body, other, at, last, to, end, last);
      ReadChainMoved(body, other, end, version, count - 1, end - at + to);
    }
  }

  lemma ReadEntryMoved(body: Bytes, other: Bytes, at: nat, version: nat, to: nat)
    requires var r := ReadEntry(body, at, version); r.Ok? && Moved(body, other, at, r.value.end, to)
    ensures var entry := ReadEntry(body, at, version).value;
      ReadEntry(other, to, version) == Ok(entry.(start := to, end := entry.end - at + to))
  {
    hide SkipCert, ReadChain, SkipUtf, Be32, Moved;
    var entry := ReadEntry(body, at, version).value;
    var data := EntryHead(body, at).value;
    MovedFits(body, other, at, entry.end, to);
    PartMoved(body, other, at, entry.end, to, at + 4, data - 8);
    SkipUtfMoved(body, other, at + 4, to + 4);
    Be32Moved(body, other, at, entry.end, to, at);
    if entry.trusted {
      PartMoved(body, other, at, entry.end, to, data, entry.end);
      SkipCertMoved(body, other, data, version, data - at + to);
    } else {
      Be32Moved(body, other, at, entry.end, to, data);
      var chain := data + 4 + Be32(body, data);
      ChainIsInside(body, chain, version, entry.end);
      Be32Moved(body, other, at, entry.end, to, chain);
      PartMoved(body, other, at, entry.end, to, chain + 4, entry.end);
      ReadChainMoved(body, other, chain + 4, version, Be32(body, chain), chain + 4 - at + to);
    }
  }

  lemma ChainIsInside(body: Bytes, chain: nat, version: nat, end: nat)
    requires chain + 4 <= |body|
    requires var r := ReadChain(body, chain + 4, version, Be32(body, chain)); r.Some? && r.value.1 == end
    ensures chain + 4 <= end
  {
    hide SkipCert;
  }

  lemma ReadEntryLocal(body: Bytes, other: Bytes, at: nat, version: nat)
    requires var r := ReadEntry(body, at, version); r.Ok? && Same(body, other, at, r.value.end)
    ensures ReadEntry(other, at, version) == ReadEntry(body, at, version)
  {
    hide ReadEntry;
    var end := ReadEntry(body, at, version).value.end;
    assert Moved(body, other, at, end, at);
    ReadEntryMoved(body, other, at, version, at);
  }

  lemma {:induction false} ReadEntriesLocal(body: Bytes, other: Bytes, at: nat, version: nat, count: nat)
    requires var r := ReadEntries(body, at, version, count); r.Ok? && Same(body, other, at, r.value.1)
    ensures ReadEntries(other, at, version, count) == ReadEntries(body, at, version, count)
    decreases count
  {
    hide ReadEntry;
    if count > 0 {
      var entry := ReadEntry(body, at, version).value;
      EntriesEnd(body, entry.end, version, count - 1);
      ReadEntryLocal(body, other, at, version);
      ReadEntriesLocal(body, other, entry.end, version, count - 1);
    }
  }

  lemma {:induction false} EntriesEnd(body: Bytes, at: nat, version: nat, count: nat)
    ensures var r := ReadEntries(body, at, version, count);
      r.Ok? ==> at + 14 * count <= r.value.1 && (at <= |body| ==> r.value.1 <= |body|) && |r.value.0| == count
    decreases count
  {
    hide ReadEntry;
    if count > 0 && ReadEntry(body, at, version).Ok? {
      EntriesEnd(body, ReadEntry(body, at, version).value.end, version, count - 1);
    }
  }

  /** Reading on from where the first n entries end. */
  lemma {:induction false} ReadEntriesOn(body: Bytes, at: nat, version: nat, n: nat, m: nat)
    requires ReadEntries(body, at, version, n).Ok?
    ensures var (entries, end) := ReadEntries(body, at, version, n).value;
      ReadEntries(body, at, version, n + m) == match ReadEntries(body, end, version, m)
        case Err(e) => Err(e)
        case Ok((more, last)) => Ok((entries + more, last))
    decreases n
  {
    hide ReadEntry;
    if n > 0 {
      var entry := ReadEntry(body, at, version).value;
      ReadEntriesOn(body, entry.end, version, n - 1, m);
      var (rest, end) := ReadEntries(body, entry.end, version, n - 1).value;
      match ReadEntries(body, end, version, m)
      case Err(_) =>
      case Ok((more, _)) => assert [entry] + (rest + more) == ([entry] + rest) + more;
    } else {
      match ReadEntries(body, at, version, m)
      case Err(_) =>
      case Ok((more, _)) => assert [] + more == more;
    }
  }

  // ----- Adding and removing

  /** A new entry as it stands in the file: tag, name, a time, and the certificate as that version has it. */
  function TrustedEntry(version: nat, alias: Bytes, der: Bytes): Bytes {
    Put32(2) + (JavaUtf(alias) + (Put64(CREATION_TIME) + CertField(version, der)))
  }

  function JavaUtf(s: Bytes): Bytes { Put16(|s|) + s }

  lemma SkipsJavaUtf(body: Bytes, s: Bytes, at: nat)
    requires OccursAt(body, JavaUtf(s), at) && |s| < 0x1_0000
    ensures SkipUtf(body, at) == Some(at + |JavaUtf(s)|)
  {
    OccursParts(body, Put16(|s|), s, at);
    Put16Reads(|s|, body, at);
  }

  lemma JavaUtfIs(s: Bytes)
    ensures |JavaUtf(s)| == 2 + |s| && JavaUtf(s)[2..] == s
  {
  }

  function CertField(version: nat, der: Bytes): Bytes {
    (if version > 1 then JavaUtf(X509) else []) + (Put32(|der|) + der)
  }

  lemma ReadsCert(body: Bytes, at: nat, version: nat, der: Bytes)
    requires OccursAt(body, CertField(version, der), at) && |der| < TWO_32
    ensures var end := at + |CertField(version, der)|; SkipCert(body, at, version) == Some((end - |der|, end)) && body[end - |der|..end] == der
  {
    hide SkipUtf, JavaUtf, Be32;
    var kind := if version > 1 then JavaUtf(X509) else [];
    OccursParts(body, kind, Put32(|der|) + der, at);
    if version > 1 {
      SkipsJavaUtf(body, X509, at);
    }
    var len := at + |kind|;
    OccursParts(body, Put32(|der|), der, len);
    Put32Reads(|der|, body, len);
    OccursIsSlice(body, der, len + 4);
  }

  lemma ReadsTrusted(body: Bytes, at: nat, version: nat, alias: Bytes, der: Bytes)
    requires OccursAt(body, TrustedEntry(version, alias, der), at)
    requires |alias| < 0x1_0000 && |der| < TWO_32
    ensures ReadEntry(body, at, version) == Ok(Entry(at, at + |TrustedEntry(version, alias, der)|, true, [der]))
    ensures SkipUtf(body, at + 4) == Some(at + 6 + |alias|) && body[at + 6..at + 6 + |alias|] == alias
  {
    hide SkipUtf, SkipCert, JavaUtf, Be32, CertField;
    assert |JavaUtf(alias)| == 2 + |alias| && JavaUtf(alias)[2..] == alias by { JavaUtfIs(alias); }
    var cert := CertField(version, der);
    var tail := Put64(CREATION_TIME) + cert;
    OccursParts(body, Put32(2), JavaUtf(alias) + tail, at);
    Put32Reads(2, body, at);
    OccursParts(body, JavaUtf(alias), tail, at + 4);
    SkipsJavaUtf(body, alias, at + 4);
    OccursIsSlice(body, JavaUtf(alias), at + 4);
    assert body[at + 6..at + 6 + |alias|] == body[at + 4..at + 4 + |JavaUtf(alias)|][2..];
    var time := at + 4 + |JavaUtf(alias)|;
    OccursParts(body, Put64(CREATION_TIME), cert, time);
    ReadsCert(body, time + 8, version, der);
  }

  /** All but the first alias get a suffix: a keystore keeps one entry per alias. */
  function Alias(i: nat): Bytes {
    if i == 0 then ALIAS else ALIAS + Ascii("-" + Dec(i))
  }

  /** A keystore keeps one entry per alias, so each certificate has its own. */
  lemma AliasesApart(i: nat, j: nat)
    requires i != j
    ensures Alias(i) != Alias(j)
  {
    hide Dec, ALIAS;
    if i > 0 && j > 0 {
      var a, b := Ascii("-" + Dec(i)), Ascii("-" + Dec(j));
      if Alias(i) == Alias(j) {
        assert a == Alias(i)[|ALIAS|..] == Alias(j)[|ALIAS|..] == b;
        SameAscii("-" + Dec(i), "-" + Dec(j));
        assert ("-" + Dec(i))[1..] == Dec(i) && ("-" + Dec(j))[1..] == Dec(j);
        DecInjective(i, j);
      }
    } else {
      assert |Ascii("-" + Dec(if i > 0 then i else j))| > 0;
    }
  }

  lemma SameAscii(s: string, t: string)
    requires Ascii(s) == Ascii(t) && forall k | 0 <= k < |s| :: s[k] as int < 256
    requires forall k | 0 <= k < |t| :: t[k] as int < 256
    ensures s == t
  {
    forall k | 0 <= k < |s| ensures s[k] == t[k] {
      assert Ascii(s)[k] == Ascii(t)[k];
    }
  }

  lemma AliasLength(i: nat)
    requires i < TWO_32
    ensures |Alias(i)| <= 29
  {
    assert Pow10(5) == 100000;
    assert Pow10(10) == 10000000000;
    DecLength(i, 10);
  }

  /** The entries for the certificates from the i-th on. */
  function Added(version: nat, ders: seq<Bytes>, i: nat): Bytes
    requires i <= |ders|
    decreases |ders| - i
  {
    if i == |ders| then [] else TrustedEntry(version, Alias(i), ders[i]) + Added(version, ders, i + 1)
  }

  /** What seals a keystore. */
  function Seal(sha1: Digest, body: Bytes): Bytes {
    sha1(PASSWORD + SALT + body)
  }

  function Sealed(sha1: Digest, body: Bytes): Bytes {
    body + Seal(sha1, body)
  }

  /** A keystore's body, when its seal is the system password's. */
  function Open(sha1: Digest, content: Bytes): (r: Result<Bytes>)
    ensures r.Ok? ==> HEADER_SIZE <= |r.value|
  {
    if |content| < HEADER_SIZE + DIGEST_SIZE then Err(TooShort)
    else
      var body := content[..|content| - DIGEST_SIZE];
      if content[|content| - DIGEST_SIZE..] != Seal(sha1, body) then Err(NotSealed) else Ok(body)
  }

  /** Text in UTF-16, the high byte first, of characters below 256. */
  function Utf16(s: string): Bytes {
    seq(2 * |s|, i requires 0 <= i < 2 * |s| => if i % 2 == 0 then 0 else s[i / 2] as int % 256)
  }

  lemma PasswordText()
    ensures PASSWORD == Utf16("changeit")
  {
    assert |Utf16("changeit")| == 16;
  }

  lemma SaltText()
    ensures SALT == Ascii("Mighty Aphrodite")
  {
  }

  /** The texts an added entry is written with. */
  lemma AddedTexts(i: nat)
    ensures X509 == Ascii("X.509") && Alias(i) == Ascii("buildcage-proxy-ca" + if i == 0 then "" else "-" + Dec(i))
  {
    hide Dec;
    var name, suffix := "buildcage-proxy-ca", if i == 0 then "" else "-" + Dec(i);
    assert ALIAS == Ascii(name);
    assert Ascii(name + suffix) == Ascii(name) + Ascii(suffix);
  }

  /** A keystore opens just where it ends in the digest of the system password, the fixed phrase and the body. */
  lemma OpensJust(sha1: Digest, content: Bytes, body: Bytes)
    requires IsSha1(sha1)
    ensures Open(sha1, content) == Ok(body) <==>
      |body| >= HEADER_SIZE && content == body + sha1(Utf16("changeit") + Ascii("Mighty Aphrodite") + body)
  {
    PasswordText();
    SaltText();
    hide PASSWORD, SALT;
    var digest := sha1(Utf16("changeit") + Ascii("Mighty Aphrodite") + body);
    assert |digest| == DIGEST_SIZE;
    if content == body + digest {
      assert content[..|content| - DIGEST_SIZE] == body && content[|content| - DIGEST_SIZE..] == digest;
    }
    if Open(sha1, content) == Ok(body) {
      assert content == content[..|content| - DIGEST_SIZE] + content[|content| - DIGEST_SIZE..];
    }
  }

  function WithCount(body: Bytes, count: nat): Bytes
    requires |body| >= HEADER_SIZE
  {
    body[..8] + Put32(count) + body[12..]
  }

  /** The keystore with a trusted entry for each certificate at its end, recounted and resealed. */
  function With(sha1: Digest, content: Bytes, ders: seq<Bytes>): Result<Bytes> {
    match Open(sha1, content)
    case Err(e) => Err(e)
    case Ok(body) =>
      match Parse(body)
      case Err(e) => Err(e)
      case Ok((version, _)) =>
        Ok(Sealed(sha1, WithCount(body + Added(version, ders, 0), Be32(body, 8) + |ders|)))
  }

  predicate Holds(entry: Entry, ders: seq<Bytes>) {
    exists i | 0 <= i < |entry.certs| :: HoldsAny(entry.certs[i], ders)
  }

  datatype Kept = Kept(bytes: Bytes, kept: nat, removed: nat)

  /** The entries that stay, byte for byte, and how many stay and go. */
  function Keep(content: Bytes, entries: seq<Entry>, ders: seq<Bytes>): Result<Kept>
    requires forall i | 0 <= i < |entries| :: entries[i].start <= entries[i].end <= |content|
  {
    if entries == [] then Ok(Kept([], 0, 0))
    else
      var entry := entries[0];
      if Holds(entry, ders) && !entry.trusted then Err(InPrivateChain)
      else
        match Keep(content, entries[1..], ders)
        case Err(e) => Err(e)
        case Ok(rest) =>
          if Holds(entry, ders) then Ok(rest.(removed := rest.removed + 1))
          else Ok(Kept(content[entry.start..entry.end] + rest.bytes, rest.kept + 1, rest.removed))
  }

  /** The keystore without the entries holding a certificate, recounted and resealed. */
  function Without(sha1: Digest, content: Bytes, ders: seq<Bytes>): Result<Bytes> {
    match Open(sha1, content)
    case Err(e) => Err(e)
    case Ok(body) =>
      match Parse(body)
      case Err(e) => Err(e)
      case Ok((version, entries)) =>
        EntriesInside(body, HEADER_SIZE, version, Be32(body, 8));
        match Keep(body, entries, ders)
        case Err(e) => Err(e)
        case Ok(kept) =>
          if kept.removed == 0 then Err(OutsideAnyEntry)
          else Ok(Sealed(sha1, MAGIC + Put32(version) + Put32(kept.kept) + kept.bytes))
  }

  lemma {:induction false} EntriesInside(body: Bytes, at: nat, version: nat, count: nat)
    ensures var r := ReadEntries(body, at, version, count);
      r.Ok? ==> forall i | 0 <= i < |r.value.0| :: r.value.0[i].start <= r.value.0[i].end <= |body|
    decreases count
  {
    hide ReadEntry;
    if count > 0 && ReadEntry(body, at, version).Ok? {
      EntriesInside(body, ReadEntry(body, at, version).value.end, version, count - 1);
    }
  }
}
