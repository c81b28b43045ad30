/**
 * EFI signature databases (UEFI specification 2.10, section 32.4.1): the filter over the raw bytes,
 * and the lists those bytes are.
 */
module SignatureLists {
  import opened Search

  /** EFI_CERT_X509_GUID in its stored byte order. */
  const X509_GUID: Bytes := [0xa1, 0x59, 0xc0, 0xa5, 0xe4, 0x94, 0xa7, 0x4a, 0x87, 0xb5, 0xab, 0x15, 0x5c, 0x2b, 0xf0, 0x72]
  const GUID_SIZE: nat := 16
  /** The type, then the list's, the header's and each signature's size. */
  const LIST_HEADER_SIZE: nat := 28
  const OWNER_SIZE: nat := 16
  const TWO_32: nat := 0x1_0000_0000

  function Le32(s: Bytes, at: nat): (n: nat)
    requires at + 4 <= |s|
    ensures n < TWO_32
  {
    (s[at] as int) + 256 * (s[at + 1] as int) + 65536 * (s[at + 2] as int) + 16777216 * (s[at + 3] as int)
  }

  function PutLe32(n: nat): (b: Bytes)
    ensures |b| == 4
  {
    [n % 256, n / 256 % 256, n / 65536 % 256, n / 16777216 % 256]
  }

  lemma PutLe32Reads(n: nat, s: Bytes, at: nat)
    requires n < TWO_32 && OccursAt(s, PutLe32(n), at)
    ensures Le32(s, at) == n
  {
    var b := PutLe32(n);
    var q1, q2, q3 := n / 256, n / 65536, n / 16777216;
    assert q2 == q1 / 256 && q3 == q2 / 256 && q3 < 256;
    assert s[at + 0] == b[0] && s[at + 1] == b[1] && s[at + 2] == b[2] && s[at + 3] == b[3];
  }

  lemma Le32Puts(s: Bytes, at: nat)
    requires at + 4 <= |s|
    ensures PutLe32(Le32(s, at)) == s[at..at + 4]
  {
    var b: int, c: int, d: int := s[at + 1], s[at + 2], s[at + 3];
    var n := Le32(s, at);
    assert n / 256 == b + 256 * c + 65536 * d;
    assert n / 65536 == c + 256 * d;
    assert n / 16777216 == d;
  }

  // ----- The lists

  datatype SignatureList = SignatureList(kind: Bytes, header: Bytes, signatureSize: nat, signatures: seq<Bytes>) {
    predicate Valid() {
      && |kind| == GUID_SIZE && OWNER_SIZE <= signatureSize < TWO_32
      && (forall i | 0 <= i < |signatures| :: |signatures[i]| == signatureSize)
      && LIST_HEADER_SIZE + |header| + |Join(signatures)| < TWO_32
    }

    function Encode(): Bytes {
      kind + PutLe32(LIST_HEADER_SIZE + |header| + |Join(signatures)|) + PutLe32(|header|) + PutLe32(signatureSize)
      + header + Join(signatures)
    }
  }

  function Join(parts: seq<Bytes>): Bytes {
    if parts == [] then [] else parts[0] + Join(parts[1..])
  }

  function EncodeAll(lists: seq<SignatureList>): Bytes {
    if lists == [] then [] else lists[0].Encode() + EncodeAll(lists[1..])
  }

  /** A run of whole signatures of one size. */
  function Split(data: Bytes, size: nat): seq<Bytes>
    requires size > 0
    decreases |data|
  {
    if |data| < size then [] else [data[..size]] + Split(data[size..], size)
  }

  /** Whether a list of the size its own field claims starts rest, its signatures tiling it exactly. */
  predicate Accepts(rest: Bytes) {
    && LIST_HEADER_SIZE <= |rest|
    && var listSize, headerSize, signatureSize := Le32(rest, 16), Le32(rest, 20), Le32(rest, 24);
       && listSize <= |rest| && LIST_HEADER_SIZE + headerSize <= listSize && OWNER_SIZE <= signatureSize
       && (listSize - (LIST_HEADER_SIZE + headerSize)) % signatureSize == 0
  }

  function DecodeOne(rest: Bytes): SignatureList
    requires Accepts(rest)
  {
    var start := LIST_HEADER_SIZE + Le32(rest, 20);
    SignatureList(rest[..GUID_SIZE], rest[LIST_HEADER_SIZE..start], Le32(rest, 24),
                  Split(rest[start..Le32(rest, 16)], Le32(rest, 24)))
  }

  /** The lists a file tiles into, or None when it does not to its last byte. */
  function Decode(rest: Bytes): Option<seq<SignatureList>>
    decreases |rest|
  {
    if rest == [] then Some([])
    else if !Accepts(rest) then None
    else
      match Decode(rest[Le32(rest, 16)..])
      case None => None
      case Some(lists) => Some([DecodeOne(rest)] + lists)
  }

  // ----- The filter, on lists

  predicate Targeted(list: SignatureList, signature: Bytes, ders: seq<Bytes>) {
    list.kind == X509_GUID && |signature| >= OWNER_SIZE && signature[OWNER_SIZE..] in ders
  }

  /** A list's signatures without the targeted ones, in order. */
  function KeptOf(list: SignatureList, signatures: seq<Bytes>, ders: seq<Bytes>): (kept: seq<Bytes>)
    ensures |kept| <= |signatures|
    ensures forall i | 0 <= i < |kept| :: kept[i] in signatures && !Targeted(list, kept[i], ders)
    ensures |kept| == |signatures| ==> kept == signatures
  {
    if signatures == [] then []
    else
      var rest := KeptOf(list, signatures[1..], ders);
      if Targeted(list, signatures[0], ders) then rest else [signatures[0]] + rest
  }

  /** The lists without the targeted signatures and without the lists that leaves empty. */
  function Without(lists: seq<SignatureList>, ders: seq<Bytes>): seq<SignatureList> {
    if lists == [] then [] else WithoutOne(lists[0], ders) + Without(lists[1..], ders)
  }

  function WithoutOne(list: SignatureList, ders: seq<Bytes>): seq<SignatureList> {
    var kept := KeptOf(list, list.signatures, ders);
    if |kept| == |list.signatures| then [list]
    else if kept == [] then []
    else [list.(signatures := kept)]
  }

  /** Whether any list holds a targeted signature. */
  predicate AnyTargeted(lists: seq<SignatureList>, ders: seq<Bytes>) {
    exists i | 0 <= i < |lists| :: HasTarget(lists[i], ders)
  }

  predicate HasTarget(list: SignatureList, ders: seq<Bytes>) {
    TargetIn(list, list.signatures, ders)
  }

  predicate TargetIn(list: SignatureList, signatures: seq<Bytes>, ders: seq<Bytes>) {
    exists i | 0 <= i < |signatures| :: Targeted(list, signatures[i], ders)
  }

  predicate AllValid(lists: seq<SignatureList>) {
    forall i | 0 <= i < |lists| :: lists[i].Valid()
  }

  // ----- Splitting and joining

  lemma DropModulo(n: nat, size: nat)
    requires 0 < size <= n
    ensures (n - size) % size == n % size
  {
    var q, r := n / size, n % size;
    assert n - size == size * (q - 1) + r;
    QuotientIs(n - size, size, q - 1, r);
  }

  lemma QuotientIs(n: int, size: nat, q: int, r: nat)
    requires 0 < size && n == size * q + r && r < size
    ensures n % size == r
  {
    var q', r' := n / size, n % size;
    assert size * (q - q') == r' - r;
    assert q - q' >= 1 ==> size * (q - q') >= size;
    assert q - q' <= -1 ==> size * (q - q') + size <= 0;
  }

  lemma {:induction false} JoinSplit(data: Bytes, size: nat)
    requires size > 0 && |data| % size == 0
    ensures Join(Split(data, size)) == data
    ensures forall i | 0 <= i < |Split(data, size)| :: |Split(data, size)[i]| == size
    decreases |data|
  {
    if |data| < size {
      QuotientIs(|data|, size, 0, |data|);
    } else {
      DropModulo(|data|, size);
      assert |data[size..]| == |data| - size;
      JoinSplit(data[size..], size);
      assert ([data[..size]] + Split(data[size..], size))[1..] == Split(data[size..], size);
    }
  }

  lemma {:induction false} SplitJoin(parts: seq<Bytes>, size: nat)
    requires size > 0 && forall i | 0 <= i < |parts| :: |parts[i]| == size
    ensures Split(Join(parts), size) == parts && |Join(parts)| % size == 0
    decreases |parts|
  {
    if parts != [] {
      SplitJoin(parts[1..], size);
      assert Join(parts)[..size] == parts[0] && Join(parts)[size..] == Join(parts[1..]);
      DropModulo(|Join(parts)|, size);
    }
  }

  // ----- The parser and the printer agree

  lemma EncodeParts(list: SignatureList, more: Bytes)
    requires list.Valid()
    ensures var s := list.Encode() + more; var size := LIST_HEADER_SIZE + |list.header| + |Join(list.signatures)|;
      && |list.Encode()| == size && |s| >= LIST_HEADER_SIZE
      && Le32(s, 16) == size && Le32(s, 20) == |list.header| && Le32(s, 24) == list.signatureSize
      && s[..GUID_SIZE] == list.kind
      && s[LIST_HEADER_SIZE..LIST_HEADER_SIZE + |list.header|] == list.header
      && s[LIST_HEADER_SIZE + |list.header|..size] == Join(list.signatures)
  {
    hide PutLe32, Le32, Join;
    var s, size := list.Encode() + more, LIST_HEADER_SIZE + |list.header| + |Join(list.signatures)|;
    assert OccursAt(s, PutLe32(size), 16) && OccursAt(s, PutLe32(|list.header|), 20) && OccursAt(s, PutLe32(list.signatureSize), 24);
    PutLe32Reads(size, s, 16);
    PutLe32Reads(|list.header|, s, 20);
    PutLe32Reads(list.signatureSize, s, 24);
  }

  lemma DecodesEncoded(list: SignatureList, more: Bytes)
    requires list.Valid()
    ensures var s := list.Encode() + more;
      s != [] && Accepts(s) && DecodeOne(s) == list && Le32(s, 16) == |list.Encode()|
  {
    hide PutLe32, Le32, Join, SignatureList.Encode, Split;
    EncodeParts(list, more);
    SplitJoin(list.signatures, list.signatureSize);
  }

  /** Printing valid lists and parsing them back gives the same lists, so every size field in the text is right. */
  lemma {:induction false} DecodeEncode(lists: seq<SignatureList>)
    requires AllValid(lists)
    ensures Decode(EncodeAll(lists)) == Some(lists)
    decreases |lists|
  {
    hide SignatureList.Encode, SignatureList.Valid, Decode;
    if lists != [] {
      assert lists[0].Valid();
      DecodeEncode(lists[1..]);
      DecodesFirst(lists[0], EncodeAll(lists[1..]));
      assert [lists[0]] + lists[1..] == lists;
    } else {
      NothingDecodes();
    }
  }

  lemma NothingDecodes()
    ensures Decode([]) == Some([])
  {
  }

  /** One list more in front. */
  lemma DecodesFirst(list: SignatureList, rest: Bytes)
    requires list.Valid() && Decode(rest).Some?
    ensures Decode(list.Encode() + rest) == Some([list] + Decode(rest).value)
  {
    hide SignatureList.Encode, SignatureList.Valid, DecodeOne, Accepts, Le32;
    DecodesEncoded(list, rest);
    assert (list.Encode() + rest)[|list.Encode()|..] == rest;
  }

  lemma EncodesDecoded(rest: Bytes)
    requires Accepts(rest)
    ensures DecodeOne(rest).Valid() && DecodeOne(rest).Encode() == rest[..Le32(rest, 16)]
  {
    hide PutLe32, Le32, Join, Split;
    var listSize, start, size := Le32(rest, 16), LIST_HEADER_SIZE + Le32(rest, 20), Le32(rest, 24);
    JoinSplit(rest[start..listSize], size);
    Le32Puts(rest, 16);
    Le32Puts(rest, 20);
    Le32Puts(rest, 24);
    assert rest[..listSize] == rest[..16] + rest[16..20] + rest[20..24] + rest[24..28] + rest[28..start] + rest[start..listSize];
  }

  /** What is accepted is exactly what its lists print as. */
  lemma {:induction false} EncodeDecode(content: Bytes)
    requires Decode(content).Some?
    ensures AllValid(Decode(content).value) && EncodeAll(Decode(content).value) == content
    decreases |content|
  {
    hide DecodeOne, SignatureList.Encode, SignatureList.Valid;
    if content != [] {
      var size := Le32(content, 16);
      EncodesDecoded(content);
      EncodeDecode(content[size..]);
      assert content == content[..size] + content[size..];
    }
  }

  // ----- The filter

  lemma {:induction false} KeptIffTargeted(list: SignatureList, signatures: seq<Bytes>, ders: seq<Bytes>)
    ensures |KeptOf(list, signatures, ders)| < |signatures| <==> TargetIn(list, signatures, ders)
  {
    hide Targeted;
    if signatures != [] {
      KeptIffTargeted(list, signatures[1..], ders);
      assert forall i | 0 < i < |signatures| :: signatures[i] == signatures[1..][i - 1];
    }
  }

  /** Exactly the signatures that are not targeted stay. */
  lemma {:induction false} KeptExactly(list: SignatureList, signatures: seq<Bytes>, ders: seq<Bytes>, signature: Bytes)
    ensures signature in KeptOf(list, signatures, ders) <==>
      signature in signatures && !(list.kind == X509_GUID && |signature| >= 16 && signature[16..] in ders)
  {
    assert Targeted(list, signature, ders) <==> list.kind == X509_GUID && |signature| >= 16 && signature[16..] in ders;
    hide Targeted;
    if signatures != [] {
      KeptExactly(list, signatures[1..], ders, signature);
      assert signatures == [signatures[0]] + signatures[1..];
    }
  }

  lemma {:induction false} KeptShorter(list: SignatureList, signatures: seq<Bytes>, ders: seq<Bytes>)
    ensures |Join(KeptOf(list, signatures, ders))| <= |Join(signatures)|
  {
    hide Targeted;
    if signatures != [] {
      KeptShorter(list, signatures[1..], ders);
      var kept := KeptOf(list, signatures[1..], ders);
      assert ([signatures[0]] + kept)[1..] == kept;
    }
  }

  /** One list's filter keeps it well formed and leaves nothing for a second pass. */
  lemma WithoutOneClean(list: SignatureList, ders: seq<Bytes>)
    requires list.Valid()
    ensures AllValid(WithoutOne(list, ders)) && !AnyTargeted(WithoutOne(list, ders), ders)
  {
    hide KeptOf, Targeted, Join;
    KeptIffTargeted(list, list.signatures, ders);
    KeptShorter(list, list.signatures, ders);
    var kept := KeptOf(list, list.signatures, ders);
    TargetIsByKind(list, kept, ders);
    assert forall i | 0 <= i < |kept| :: |kept[i]| == list.signatureSize;
  }

  lemma TargetIsByKind(list: SignatureList, kept: seq<Bytes>, ders: seq<Bytes>)
    ensures forall s :: Targeted(list.(signatures := kept), s, ders) == Targeted(list, s, ders)
  {
  }

  lemma {:induction false} CleanIsKept(list: SignatureList, ders: seq<Bytes>)
    requires !HasTarget(list, ders)
    ensures WithoutOne(list, ders) == [list]
  {
    hide KeptOf, Targeted;
    KeptIffTargeted(list, list.signatures, ders);
  }

  lemma NoLists(ders: seq<Bytes>)
    ensures Without([], ders) == [] && EncodeAll([]) == [] && !AnyTargeted([], ders)
  {
  }

  lemma {:induction false} CleanIsAllKept(lists: seq<SignatureList>, ders: seq<Bytes>)
    requires !AnyTargeted(lists, ders)
    ensures Without(lists, ders) == lists
    decreases |lists|
  {
    hide WithoutOne, HasTarget;
    if lists != [] {
      assert !HasTarget(lists[0], ders);
      CleanIsKept(lists[0], ders);
      CleanIsAllKept(lists[1..], ders);
    }
  }

  lemma {:induction false} WithoutValidAndClean(lists: seq<SignatureList>, ders: seq<Bytes>)
    requires AllValid(lists)
    ensures AllValid(Without(lists, ders)) && !AnyTargeted(Without(lists, ders), ders)
    decreases |lists|
  {
    hide WithoutOne, SignatureList.Valid, HasTarget;
    if lists != [] {
      WithoutValidAndClean(lists[1..], ders);
      WithoutOneClean(lists[0], ders);
      var first, rest := WithoutOne(lists[0], ders), Without(lists[1..], ders);
      assert forall i | 0 <= i < |first + rest| :: (first + rest)[i] == if i < |first| then first[i] else rest[i - |first|];
    }
  }

  /** A second pass finds nothing to remove and changes nothing. */
  lemma WithoutClean(lists: seq<SignatureList>, ders: seq<Bytes>)
    requires AllValid(lists)
    ensures var out := Without(lists, ders);
      AllValid(out) && !AnyTargeted(out, ders) && Without(out, ders) == out
  {
    hide Without, AnyTargeted, AllValid;
    WithoutValidAndClean(lists, ders);
    CleanIsAllKept(Without(lists, ders), ders);
  }

  lemma {:induction false} WithoutMore(lists: seq<SignatureList>, list: SignatureList, ders: seq<Bytes>)
    ensures Without(lists + [list], ders) == Without(lists, ders) + WithoutOne(list, ders)
    ensures AnyTargeted(lists + [list], ders) <==> AnyTargeted(lists, ders) || HasTarget(list, ders)
    decreases |lists|
  {
    hide WithoutOne, HasTarget;
    var all := lists + [list];
    assert all[|lists|] == list && forall i | 0 <= i < |lists| :: all[i] == lists[i];
    if lists != [] {
      assert all[1..] == lists[1..] + [list];
      WithoutMore(lists[1..], list, ders);
    }
  }

  lemma {:induction false} EncodeMore(a: seq<SignatureList>, b: seq<SignatureList>)
    ensures EncodeAll(a + b) == EncodeAll(a) + EncodeAll(b)
    decreases |a|
  {
    hide SignatureList.Encode;
    if a == [] {
      assert a + b == b;
    } else {
      assert (a + b)[1..] == a[1..] + b;
      EncodeMore(a[1..], b);
    }
  }

  // ----- The filter, on bytes

  lemma SplitStep(data: Bytes, size: nat)
    requires size > 0 && |data| % size == 0
    ensures data == [] ==> Split(data, size) == []
    ensures data != [] ==> size <= |data| && Split(data, size) == [data[..size]] + Split(data[size..], size) && (|data| - size) % size == 0
  {
    if |data| < size {
      QuotientIs(|data|, size, 0, |data|);
    } else {
      DropModulo(|data|, size);
    }
  }

  lemma KeptStep(list: SignatureList, signatures: seq<Bytes>, ders: seq<Bytes>)
    requires signatures != []
    ensures Join(KeptOf(list, signatures, ders))
      == (if Targeted(list, signatures[0], ders) then [] else signatures[0]) + Join(KeptOf(list, signatures[1..], ders))
  {
    hide Targeted;
    var rest := KeptOf(list, signatures[1..], ders);
    assert ([signatures[0]] + rest)[1..] == rest && [] + Join(rest) == Join(rest);
  }

  lemma TargetStep(list: SignatureList, signatures: seq<Bytes>, ders: seq<Bytes>)
    requires signatures != []
    ensures TargetIn(list, signatures, ders) <==> Targeted(list, signatures[0], ders) || TargetIn(list, signatures[1..], ders)
  {
    hide Targeted;
    assert forall i | 0 < i < |signatures| :: signatures[i] == signatures[1..][i - 1];
  }

  /** Goes over one list's signatures; `text` is the list's bytes. */
  method FilterList(text: Bytes, ders: seq<Bytes>) returns (kept: Bytes, cut: bool)
    requires Accepts(text) && Le32(text, 16) == |text|
    ensures var list := DecodeOne(text);
      && cut == HasTarget(list, ders)
      && kept == text[..LIST_HEADER_SIZE + Le32(text, 20)] + Join(KeptOf(list, list.signatures, ders))
  {
    hide Le32, Join, KeptOf, Split, TargetIn;
    var start, size := LIST_HEADER_SIZE + Le32(text, 20), Le32(text, 24);
    var x509 := text[..GUID_SIZE] == X509_GUID;
    ghost var list := DecodeOne(text);
    kept, cut := text[..start], false;
    var at := start;
    ghost var left := list.signatures;
    assert text[at..] == text[start..|text|];
    while at < |text|
      invariant start <= at <= |text| && left == Split(text[at..], size) && (|text| - at) % size == 0
      invariant kept + Join(KeptOf(list, left, ders)) == text[..start] + Join(KeptOf(list, list.signatures, ders))
      invariant HasTarget(list, ders) == (cut || TargetIn(list, left, ders))
      decreases |text| - at
    {
      SplitStep(text[at..], size);
      var signature := text[at..at + size];
      assert signature == left[0] && text[at..][size..] == text[at + size..] && left[1..] == Split(text[at + size..], size);
      KeptStep(list, left, ders);
      TargetStep(list, left, ders);
      if x509 && signature[OWNER_SIZE..] in ders {
        cut := true;
      } else {
        assert forall x: Bytes :: kept + (signature + x) == (kept + signature) + x;
        kept := kept + signature;
      }
      at := at + size;
      left := left[1..];
    }
    SplitStep([], size);
    assert text[at..] == [];
    KeptNone(list, ders);
    assert kept + [] == kept;
  }

  lemma KeptNone(list: SignatureList, ders: seq<Bytes>)
    ensures Join(KeptOf(list, [], ders)) == [] && !TargetIn(list, [], ders)
  {
  }

  /** A list reads the same cut out of the file. */
  lemma SameList(rest: Bytes)
    requires Accepts(rest)
    ensures var text := rest[..Le32(rest, 16)];
      Accepts(text) && Le32(text, 16) == |text| && Le32(text, 20) == Le32(rest, 20) && DecodeOne(text) == DecodeOne(rest)
  {
    hide Split;
    var size := Le32(rest, 16);
    var text := rest[..size];
    assert forall k | 0 <= k < size :: text[k] == rest[k];
    assert Le32(text, 16) == Le32(rest, 16) && Le32(text, 20) == Le32(rest, 20) && Le32(text, 24) == Le32(rest, 24);
    var start := LIST_HEADER_SIZE + Le32(rest, 20);
    assert text[..GUID_SIZE] == rest[..GUID_SIZE] && text[LIST_HEADER_SIZE..start] == rest[LIST_HEADER_SIZE..start];
    assert text[start..size] == rest[start..size];
  }

  lemma CutLeaves(list: SignatureList, ders: seq<Bytes>)
    requires list.Valid() && HasTarget(list, ders)
    ensures var kept := KeptOf(list, list.signatures, ders);
      WithoutOne(list, ders) == if Join(kept) == [] then [] else [list.(signatures := kept)]
  {
    hide KeptOf, Targeted;
    var kept := KeptOf(list, list.signatures, ders);
    KeptIffTargeted(list, list.signatures, ders);
    if kept != [] {
      assert kept[0] in list.signatures;
    }
  }

  /** The list's bytes with what is kept of its signatures and the size patched are the kept list's own. */
  lemma PatchedIsEncoded(rest: Bytes, signatures: seq<Bytes>, kept: Bytes)
    requires Accepts(rest) && kept == rest[..LIST_HEADER_SIZE + Le32(rest, 20)] + Join(signatures)
    ensures DecodeOne(rest).(signatures := signatures).Encode() == kept[..GUID_SIZE] + PutLe32(|kept|) + kept[GUID_SIZE + 4..]
  {
    hide Le32, PutLe32, Join, Split;
    Le32Puts(rest, 20);
    Le32Puts(rest, 24);
    var start := LIST_HEADER_SIZE + Le32(rest, 20);
    assert kept[GUID_SIZE + 4..] == rest[20..24] + rest[24..28] + rest[28..start] + Join(signatures);
    assert kept[..GUID_SIZE] == rest[..GUID_SIZE];
  }

  /**
   * Drops every X.509 signature whose data is a target and every list that leaves empty. Content
   * that does not parse as lists to its last byte is never rewritten.
   */
  method SignatureListsWithout(content: Bytes, ders: seq<Bytes>) returns (out: Bytes, removed: bool)
    ensures removed <==> Decode(content).Some? && AnyTargeted(Decode(content).value, ders)
    ensures removed ==> out == EncodeAll(Without(Decode(content).value, ders))
    ensures !removed && Decode(content).Some? ==> out == content
  {
    hide Le32, DecodeOne, Without, WithoutOne, HasTarget, AnyTargeted, EncodeAll, SignatureList.Encode;
    out, removed := [], false;
    var rest := content;
    ghost var done: seq<SignatureList> := [];
    NoLists(ders);
    assert forall x: seq<SignatureList> :: [] + x == x;
    while rest != []
      invariant Decode(content) == match Decode(rest) case None => None case Some(lists) => Some(done + lists)
      invariant out == EncodeAll(Without(done, ders)) && removed == AnyTargeted(done, ders)
      decreases |rest|
    {
      if !Accepts(rest) {
        return [], false;
      }
      var size := Le32(rest, 16);
      ghost var list := DecodeOne(rest);
      assert forall x: seq<SignatureList> :: done + ([list] + x) == (done + [list]) + x;
      var text, cut;
      text, cut := OneListWithout(rest, ders);
      WithoutMore(done, list, ders);
      EncodeMore(Without(done, ders), WithoutOne(list, ders));
      out := out + text;
      removed := removed || cut;
      rest := rest[size..];
      done := done + [list];
    }
    assert done + [] == done;
    if !removed {
      EncodeDecode(content);
      CleanIsAllKept(done, ders);
    }
  }

  /** What one list contributes: itself when nothing is cut, else what is kept with its size patched, or nothing. */
  method OneListWithout(rest: Bytes, ders: seq<Bytes>) returns (text: Bytes, cut: bool)
    requires Accepts(rest)
    ensures var list := DecodeOne(rest);
      cut == HasTarget(list, ders) && text == EncodeAll(WithoutOne(list, ders))
  {
    hide Le32, Join, KeptOf, Split, HasTarget, PutLe32;
    var size := Le32(rest, 16);
    var start := LIST_HEADER_SIZE + Le32(rest, 20);
    text := rest[..size];
    SameList(rest);
    var kept;
    kept, cut := FilterList(text, ders);
    ghost var list := DecodeOne(rest);
    EncodesDecoded(rest);
    if !cut {
      CleanIsKept(list, ders);
      assert EncodeAll([list]) == list.Encode() + EncodeAll([]);
      return;
    }
    CutLeaves(list, ders);
    if |kept| == start {
      return [], true;
    }
    text := kept[..GUID_SIZE] + PutLe32(|kept|) + kept[GUID_SIZE + 4..];
    ghost var left := list.(signatures := KeptOf(list, list.signatures, ders));
    assert EncodeAll([left]) == left.Encode() + EncodeAll([]);
    PatchedIsEncoded(rest, KeptOf(list, list.signatures, ders), kept);
  }

  /**
   * What the rewritten file holds: the lists the original held, minus exactly the targeted
   * signatures and the lists that emptied, every size right, and nothing for a second pass.
   */
  lemma RewrittenDecodes(content: Bytes, ders: seq<Bytes>)
    requires Decode(content).Some?
    ensures var lists := Decode(content).value; var out := EncodeAll(Without(lists, ders));
      && Decode(out) == Some(Without(lists, ders))
      && !AnyTargeted(Decode(out).value, ders)
      && (!AnyTargeted(lists, ders) ==> out == content)
  {
    hide Decode, EncodeAll, Without, AnyTargeted, AllValid;
    EncodeDecode(content);
    var lists := Decode(content).value;
    WithoutClean(lists, ders);
    DecodeEncode(Without(lists, ders));
    if !AnyTargeted(lists, ders) {
      CleanIsAllKept(lists, ders);
    }
  }
}
