/**
 * PEM bundles: adding the CA's blocks to one and cutting every copy back out of it in place.
 * What base64 and the PEM grammar decode to is a parameter, `PemDecoder`; where a block starts
 * and ends in a file is settled here, as the source settles it.
 */
module Bundle {
  import opened Search
  import opened FileWindow

  /** The first block of a text, and what follows it. */
  datatype Decoded = Decoded(name: Bytes, body: Bytes, rest: Bytes)

  type PemDecoder = Bytes -> Option<Decoded>

  /** The bytes from `start` up to `end`. */
  datatype Span = Span(start: nat, end: nat)

  const NEWLINE: byte := 10
  const RETURN: byte := 13
  const DASH: byte := 45
  const DASHES: Bytes := [45, 45, 45, 45, 45]
  /** "-----BEGIN " */
  const BEGIN: Bytes := [45, 45, 45, 45, 45, 66, 69, 71, 73, 78, 32]
  /** "\n-----END " */
  const END_LINE: Bytes := [10, 45, 45, 45, 45, 45, 69, 78, 68, 32]
  /** "CERTIFICATE" */
  const CERTIFICATE: Bytes := [67, 69, 82, 84, 73, 70, 73, 67, 65, 84, 69]
  const MAX_CERTIFICATE_BYTES: nat := 65536

  function Closing(name: Bytes): Bytes { END_LINE + name + DASHES }

  predicate HasSuffix(s: Bytes, suffix: Bytes) {
    |suffix| <= |s| && s[|s| - |suffix|..] == suffix
  }

  // ----- In-place gap closing

  /** The cuts come in order, apart from each other, inside the file. */
  predicate InOrder(cuts: seq<Span>, from: nat, size: nat) {
    if cuts == [] then from <= size
    else from <= cuts[0].start <= cuts[0].end && InOrder(cuts[1..], cuts[0].end, size)
  }

  lemma InOrderBound(cuts: seq<Span>, from: nat, size: nat)
    requires InOrder(cuts, from, size)
    ensures from <= size
  {
    if cuts != [] {
      InOrderBound(cuts[1..], cuts[0].end, size);
    }
  }

  /** What the cuts leave of s from `from` on. */
  function Kept(s: Bytes, cuts: seq<Span>, from: nat): Bytes
    requires InOrder(cuts, from, |s|)
  {
    if cuts == [] then s[from..]
    else
      InOrderBound(cuts[1..], cuts[0].end, |s|);
      s[from..cuts[0].start] + Kept(s, cuts[1..], cuts[0].end)
  }

  lemma KeptStep(s: Bytes, cuts: seq<Span>, i: nat, from: nat)
    requires i < |cuts| && InOrder(cuts[i..], from, |s|)
    ensures from <= cuts[i].start <= cuts[i].end <= |s| && InOrder(cuts[i + 1..], cuts[i].end, |s|)
    ensures Kept(s, cuts[i..], from) == s[from..cuts[i].start] + Kept(s, cuts[i + 1..], cuts[i].end)
  {
    assert cuts[i..][1..] == cuts[i + 1..];
    InOrderBound(cuts[i + 1..], cuts[i].end, |s|);
  }

  lemma KeptRest(s: Bytes, from: nat)
    requires from <= |s|
    ensures Kept(s, [], from) == s[from..]
  {
  }

  /** was, with the `moved` bytes from `from` copied down to dst and nothing else touched. */
  ghost predicate Shifted(now: Bytes, was: Bytes, from: nat, dst: nat, moved: nat) {
    && dst <= from && from + moved <= |was| == |now|
    && (forall k | 0 <= k < |was| && !(dst <= k < dst + moved) :: now[k] == was[k])
    && (forall k | dst <= k < dst + moved :: now[k] == was[k - dst + from])
  }

  lemma Unshifted(s: Bytes, from: nat, dst: nat, moved: nat)
    requires dst <= from && from + moved <= |s| && (moved == 0 || dst == from)
    ensures Shifted(s, s, from, dst, moved)
  {
  }

  /** One chunk: it is read where nothing was written yet, and lands right behind the last one. */
  lemma ShiftedStep(now: Bytes, before: Bytes, was: Bytes, from: nat, to: nat, dst: nat, moved: nat, n: nat)
    requires Shifted(before, was, from, dst, moved) && dst < from && from + moved + n <= to <= |was| == |before|
    requires now == before[..dst + moved] + before[from + moved..from + moved + n] + before[dst + moved + n..]
    ensures Shifted(now, was, from, dst, moved + n) && |now| == |was|
  {
    forall k | 0 <= k < |was|
      ensures dst <= k < dst + moved + n ==> now[k] == was[k - dst + from]
      ensures !(dst <= k < dst + moved + n) ==> now[k] == was[k]
    {
      if dst + moved <= k < dst + moved + n {
        assert now[k] == before[from + moved..from + moved + n][k - dst - moved] == before[k - dst + from];
      } else if dst + moved + n <= k {
        assert now[k] == before[dst + moved + n..][k - dst - moved - n] == before[k];
      } else {
        assert now[k] == before[..dst + moved][k] == before[k];
      }
    }
  }

  /**
   * Copies the bytes from..to down to dst, a chunk at a time through a buffer. The destination
   * trails the source, so what is read is still the file's own text. A run that fails may have
   * written part of one chunk more than it counts.
   */
  method ShiftDown(f: BundleFile, chunk: nat, from: nat, to: nat, dst: nat) returns (ok: bool, moved: nat, ghost part: nat)
    requires chunk > 0 && dst <= from <= to <= |f.content|
    modifies f
    ensures moved + part <= to - from && (ok ==> moved == to - from)
    ensures Shifted(f.content, old(f.content), from, dst, moved + part) && |f.content| == |old(f.content)|
  {
    hide Shifted;
    ok, moved, part := true, 0, 0;
    Unshifted(f.content, from, dst, if dst == from then to - from else 0);
    if dst == from {
      moved := to - from;
      return;
    }
    while moved < to - from
      invariant moved <= to - from && part == 0 && |f.content| == |old(f.content)|
      invariant Shifted(f.content, old(f.content), from, dst, moved)
    {
      var window;
      ok, window := f.ReadAt(Min(chunk, to - from - moved), from + moved);
      if !ok {
        return;
      }
      ghost var before := f.content;
      var n;
      ok, n := f.WriteAt(window, dst + moved);
      assert window[..n] == before[from + moved..from + moved + n];
      ShiftedStep(f.content, before, old(f.content), from, to, dst, moved, n);
      if !ok {
        part := n;
        return;
      }
      moved := moved + n;
    }
    ok := true;
  }

  /** A whole run brought down to dst continues what was kept before it; what lies past the run is untouched. */
  lemma ShiftedRun(now: Bytes, before: Bytes, was: Bytes, src: nat, to: nat, dst: nat)
    requires src <= to && Shifted(now, before, src, dst, to - src) && |was| == |now|
    requires forall k | src <= k < |was| :: before[k] == was[k]
    ensures now[..dst + to - src] == before[..dst] + was[src..to]
    ensures forall k | to <= k < |was| :: now[k] == was[k]
  {
    forall k | dst <= k < dst + to - src
      ensures now[k] == was[src..to][k - dst]
    {
      assert now[k] == before[k - dst + src];
    }
  }

  /** Closes every gap the cuts leave, front to back, and returns how long what is left is. */
  method CloseGaps(f: BundleFile, cuts: seq<Span>) returns (ok: bool, kept: nat)
    requires InOrder(cuts, 0, |f.content|)
    modifies f
    ensures |f.content| == |old(f.content)|
    ensures ok ==> kept <= |f.content| && f.content[..kept] == Kept(old(f.content), cuts, 0)
  {
    hide Shifted, InOrder, Kept;
    ghost var was := f.content;
    var size := |f.content|;
    var dst: nat, src: nat := 0, 0;
    for i := 0 to |cuts|
      invariant |f.content| == size && dst <= src <= size
      invariant InOrder(cuts[i..], src, size)
      invariant f.content[..dst] + Kept(was, cuts[i..], src) == Kept(was, cuts, 0)
      invariant forall k | src <= k < size :: f.content[k] == was[k]
    {
      var cut := cuts[i];
      KeptStep(was, cuts, i, src);
      ghost var before := f.content;
      var moved;
      ghost var part;
      ok, moved, part := ShiftDown(f, SCAN_CHUNK, src, cut.start, dst);
      if !ok {
        return false, 0;
      }
      ShiftedRun(f.content, before, was, src, cut.start, dst);
      dst := dst + moved;
      src := cut.end;
    }
    KeptRest(was, src);
    assert cuts[|cuts|..] == [];
    ghost var before := f.content;
    var moved;
    ghost var part;
    ok, moved, part := ShiftDown(f, SCAN_CHUNK, src, size, dst);
    if ok {
      ShiftedRun(f.content, before, was, src, size, dst);
      assert was[src..size] == was[src..];
      assert f.content[..dst + moved] == Kept(was, cuts, 0);
    }
    return ok, dst + moved;
  }

  // ----- Finding the blocks

  /** Where the block a buffer opens with ends, or None when there is nothing there to cut. */
  function Extent(buf: Bytes): Option<nat> {
    var next := NextBegin(buf);
    var newline := IndexOf(buf[..next], [NEWLINE], 0);
    if newline < |BEGIN| then None
    else
      match NameIn(buf[|BEGIN|..newline])
      case None => None
      case Some(name) =>
        var closing := Closing(name);
        var at := IndexOf(buf[..Min(|buf|, next + |closing| - 1)], closing, 0);
        if at == -1 then None else Some(PastBreak(buf, at + |closing|))
  }

  /** The next opening line after the buffer's own: a closing line past it belongs to another block. */
  function NextBegin(buf: Bytes): (r: nat)
    ensures r <= |buf|
  {
    var at := IndexOf(buf, BEGIN, |BEGIN|);
    if at == -1 then |buf| else at
  }

  /** The name in what follows BEGIN on an opening line. */
  function NameIn(line: Bytes): Option<Bytes> {
    var text := if line != [] && line[|line| - 1] == RETURN then line[..|line| - 1] else line;
    if HasSuffix(text, DASHES) && |text| > |DASHES| then Some(text[..|text| - |DASHES|]) else None
  }

  /** Past the line break at `at`, either half of which may be missing. */
  function PastBreak(buf: Bytes, at: nat): (r: nat)
    requires at <= |buf|
    ensures at <= r <= |buf|
  {
    var cr := if at < |buf| && buf[at] == RETURN then at + 1 else at;
    if cr < |buf| && buf[cr] == NEWLINE then cr + 1 else cr
  }

  lemma ExtentBounds(buf: Bytes)
    ensures Extent(buf).Some? ==> 0 < Extent(buf).value <= |buf|
  {
  }

  /** The block that opens at begin: what it decodes to and where it ends. */
  function ReadBlock(pem: PemDecoder, s: Bytes, begin: nat): (r: Option<(Bytes, nat)>)
    requires begin <= |s|
    ensures r.Some? ==> begin < r.value.1 <= |s|
  {
    var buf := s[begin..Min(begin + MAX_CERTIFICATE_BYTES, |s|)];
    ExtentBounds(buf);
    match Extent(buf)
    case None => None
    case Some(end) =>
      match pem(buf[..end])
      case None => None
      case Some(block) => Some((block.body, begin + end))
  }

  /** The range of each armoured copy of the certificates at or after off, in order. */
  function FindCerts(pem: PemDecoder, s: Bytes, ders: seq<Bytes>, off: nat): seq<Span>
    decreases |s| - off
  {
    var begin := IndexOf(s, BEGIN, off);
    if begin == -1 then []
    else
      match ReadBlock(pem, s, begin)
      case None => FindCerts(pem, s, ders, begin + |BEGIN|)
      case Some((body, end)) =>
        var rest := FindCerts(pem, s, ders, end);
        if HoldsAny(body, ders) then [Span(begin, end)] + rest else rest
  }

  /** A block that can be read opens at `begin` and ends at `end`. */
  predicate IsBlock(pem: PemDecoder, s: Bytes, begin: nat, end: nat) {
    OccursAt(s, BEGIN, begin) && ReadBlock(pem, s, begin).Some? && ReadBlock(pem, s, begin).value.1 == end
  }

  /** A block that holds a certificate. */
  predicate IsCopy(pem: PemDecoder, s: Bytes, ders: seq<Bytes>, cut: Span) {
    IsBlock(pem, s, cut.start, cut.end) && HoldsAny(ReadBlock(pem, s, cut.start).value.0, ders)
  }

  /** No two opening lines overlap. */
  lemma BeginsApart(s: Bytes, p: nat, q: nat)
    requires OccursAt(s, BEGIN, p) && OccursAt(s, BEGIN, q) && p < q
    ensures p + |BEGIN| <= q
  {
    assert s[p + 10] == BEGIN[10];
    assert forall k | q <= k < q + |BEGIN| :: s[k] == BEGIN[k - q];
    assert forall k | 0 <= k < 10 :: BEGIN[k] != BEGIN[10];
  }

  /** Every cut is a readable block that holds a certificate. */
  lemma {:induction false} OnlyCopiesAreCut(pem: PemDecoder, s: Bytes, ders: seq<Bytes>, off: nat)
    ensures forall c | c in FindCerts(pem, s, ders, off) :: off <= c.start && IsCopy(pem, s, ders, c)
    decreases |s| - off
  {
    hide ReadBlock, HoldsAny, IndexOf;
    var begin := IndexOf(s, BEGIN, off);
    if begin != -1 {
      match ReadBlock(pem, s, begin)
      case None => OnlyCopiesAreCut(pem, s, ders, begin + |BEGIN|);
      case Some((_, end)) => OnlyCopiesAreCut(pem, s, ders, end);
    }
  }

  /** And every such block is cut, but for one that opens inside a block read before it. */
  lemma {:induction false} EveryCopyIsCut(pem: PemDecoder, s: Bytes, ders: seq<Bytes>, off: nat, copy: Span)
    requires off <= copy.start && IsCopy(pem, s, ders, copy)
    ensures copy in FindCerts(pem, s, ders, off) ||
      exists begin: nat, end: nat :: off <= begin < copy.start < end && IsBlock(pem, s, begin, end)
    decreases |s| - off
  {
    hide ReadBlock, HoldsAny, IndexOf;
    var begin := IndexOf(s, BEGIN, off);
    if begin < copy.start {
      match ReadBlock(pem, s, begin)
      case None =>
        BeginsApart(s, begin, copy.start);
        EveryCopyIsCut(pem, s, ders, begin + |BEGIN|, copy);
      case Some((_, end)) =>
        if copy.start < end {
          assert IsBlock(pem, s, begin, end);
        } else {
          EveryCopyIsCut(pem, s, ders, end, copy);
        }
    }
  }

  /** The cuts found are always ones that CloseGaps can take. */
  lemma {:induction false} FoundInOrder(pem: PemDecoder, s: Bytes, ders: seq<Bytes>, off: nat)
    requires off <= |s|
    ensures InOrder(FindCerts(pem, s, ders, off), off, |s|)
    decreases |s| - off
  {
    hide ReadBlock, HoldsAny, IndexOf;
    var begin := IndexOf(s, BEGIN, off);
    if begin != -1 {
      match ReadBlock(pem, s, begin)
      case None =>
        FoundInOrder(pem, s, ders, begin + |BEGIN|);
        InOrderFrom(FindCerts(pem, s, ders, begin + |BEGIN|), begin + |BEGIN|, off, |s|);
      case Some((body, end)) =>
        FoundInOrder(pem, s, ders, end);
        var rest := FindCerts(pem, s, ders, end);
        assert ([Span(begin, end)] + rest)[1..] == rest;
        InOrderFrom(rest, end, off, |s|);
    }
  }

  lemma InOrderFrom(cuts: seq<Span>, from: nat, lower: nat, size: nat)
    requires lower <= from && InOrder(cuts, from, size)
    ensures InOrder(cuts, lower, size)
  {
  }

  /** What removal leaves: binaries, told by a NUL, are never cut. */
  function Removed(pem: PemDecoder, s: Bytes, ders: seq<Bytes>): Bytes {
    FoundInOrder(pem, s, ders, 0);
    var cuts := FindCerts(pem, s, ders, 0);
    if cuts == [] || 0 in s then s else Kept(s, cuts, 0)
  }

  method ReadPEMBlock(w: Window, pem: PemDecoder, begin: nat) returns (ok: bool, block: Option<(Bytes, nat)>)
    requires w.Valid() && begin <= w.size
    modifies w
    ensures w.Valid()
    ensures ok ==> block == ReadBlock(pem, w.Text(), begin)
  {
    hide Extent;
    block := None;
    var buf;
    ok, buf := w.At(begin, MAX_CERTIFICATE_BYTES);
    if !ok {
      return;
    }
    assert buf == w.Text()[begin..Min(begin + MAX_CERTIFICATE_BYTES, w.size)];
    ExtentBounds(buf);
    match Extent(buf)
    case None =>
    case Some(end) =>
      match pem(buf[..end])
      case None =>
      case Some(read) =>
        block := Some((read.body, begin + end));
  }

  method FindCertificates(w: Window, pem: PemDecoder, ders: seq<Bytes>) returns (ok: bool, cuts: seq<Span>)
    requires w.Valid()
    modifies w
    ensures w.Valid()
    ensures ok ==> cuts == FindCerts(pem, w.Text(), ders, 0)
  {
    hide ReadBlock, HoldsAny, IndexOf;
    ghost var text := w.Text();
    ok, cuts := true, [];
    var off := 0;
    while off < w.size
      invariant w.Valid() && ok
      invariant FindCerts(pem, text, ders, 0) == cuts + FindCerts(pem, text, ders, off)
      decreases w.size - off
    {
      var begin;
      ok, begin := w.FindInFile(BEGIN, off);
      if !ok || begin == -1 {
        return;
      }
      var block;
      ok, block := ReadPEMBlock(w, pem, begin);
      if !ok {
        return;
      }
      match block
      case None =>
        off := begin + |BEGIN|;
      case Some((body, end)) =>
        off := end;
        if HoldsAny(body, ders) {
          cuts := cuts + [Span(begin, end)];
        }
    }
  }

  /** What opening a path without following a link gives. */
  datatype Opening = Opened | Missing | NotRegular | Unopened

  /**
   * Deletes every copy of the certificates in place. A path with nothing at it is nothing to do;
   * what a failed run leaves is not promised.
   */
  method RemoveCA(opening: Opening, f: BundleFile, pem: PemDecoder, ders: seq<Bytes>) returns (ok: bool)
    modifies f
    ensures ok && opening.Opened? ==> f.content == Removed(pem, old(f.content), ders)
    ensures !opening.Opened? ==> f.content == old(f.content) && ok == (ders == [] || opening.Missing?)
  {
    hide FindCerts, Kept;
    if ders == [] {
      NothingToFind(pem, f.content, 0);
      return true;
    }
    if !opening.Opened? {
      return opening.Missing?;
    }
    var size := |f.content|;
    var w := new Window(f, size);
    assert w.Text() == f.content;
    var cuts;
    ok, cuts := FindCertificates(w, pem, ders);
    if !ok || cuts == [] {
      return;
    }
    var nul;
    ok, nul := w.FindInFile([0], 0);
    ByteIn(f.content, 0);
    if !ok || nul != -1 {
      return;
    }
    FoundInOrder(pem, f.content, ders, 0);
    var kept;
    ok, kept := CloseGaps(f, cuts);
    if ok {
      ok := f.Truncate(kept);
    }
  }

  lemma ByteIn(s: Bytes, b: byte)
    ensures IndexOf(s, [b], 0) != -1 <==> b in s
  {
    hide IndexOf;
    var at := IndexOf(s, [b], 0);
    assert at != -1 ==> s[at + 0] == [b][0];
    if b in s {
      var k :| 0 <= k < |s| && s[k] == b;
      assert OccursAt(s, [b], k);
    }
  }

  lemma {:induction false} NothingToFind(pem: PemDecoder, s: Bytes, off: nat)
    ensures FindCerts(pem, s, [], off) == []
    decreases |s| - off
  {
    hide ReadBlock, IndexOf;
    var begin := IndexOf(s, BEGIN, off);
    if begin != -1 {
      match ReadBlock(pem, s, begin)
      case None => NothingToFind(pem, s, begin + |BEGIN|);
      case Some((_, end)) => NothingToFind(pem, s, end);
    }
  }

  // ----- Adding the CA

  function TrimNewlines(s: Bytes): Bytes {
    if s != [] && s[|s| - 1] == NEWLINE then TrimNewlines(s[..|s| - 1]) else s
  }

  /** The bundle with its last line ended: the one thing removal does not take back. */
  function Terminated(b: Bytes): Bytes {
    if b == [] || b[|b| - 1] == NEWLINE then b else b + [NEWLINE]
  }

  function Appended(b: Bytes, ca: Bytes): Bytes {
    Terminated(b) + TrimNewlines(ca) + [NEWLINE]
  }

  /** The body of every certificate in armoured. A decoder always uses up what it decodes. */
  function CertificateDERs(pem: PemDecoder, armoured: Bytes): seq<Bytes>
    decreases |armoured|
  {
    match pem(armoured)
    case None => []
    case Some(block) =>
      var ders := if |block.rest| < |armoured| then CertificateDERs(pem, block.rest) else [];
      if HasSuffix(block.name, CERTIFICATE) then [block.body] + ders else ders
  }

  datatype AppendResult = Added | NotACertificate | NotAFile | Failed

  /**
   * Ends the file's last line where it is not ended and adds the certificate. A missing file is
   * created empty by opening it. A run that fails has added some first part of that.
   */
  method AppendCA(opening: Opening, f: BundleFile, pem: PemDecoder, ca: Bytes) returns (r: AppendResult)
    requires opening.Missing? ==> f.content == []
    modifies f
    ensures r.NotACertificate? <==> CertificateDERs(pem, ca) == []
    ensures r.NotAFile? <==> CertificateDERs(pem, ca) != [] && opening.NotRegular?
    ensures opening.Unopened? ==> r.NotACertificate? || r.Failed?
    ensures r.Added? ==> f.content == Appended(old(f.content), ca)
    ensures r.NotACertificate? || r.NotAFile? || opening.Unopened? ==> f.content == old(f.content)
    ensures r.Failed? ==> old(f.content) <= f.content <= Appended(old(f.content), ca)
  {
    hide CertificateDERs, TrimNewlines;
    if CertificateDERs(pem, ca) == [] {
      return NotACertificate;
    }
    match opening {
      case NotRegular => return NotAFile;
      case Unopened => return Failed;
      case _ =>
    }
    var size := |f.content|;
    var ok;
    if size > 0 {
      var last;
      ok, last := f.ReadAt(1, size - 1);
      if !ok {
        return Failed;
      }
      if last[0] != NEWLINE {
        ok := f.WriteString([NEWLINE]);
        if !ok {
          return Failed;
        }
      }
    }
    ok := f.WriteString(TrimNewlines(ca) + [NEWLINE]);
    assert ok ==> f.content == Appended(old(f.content), ca);
    return if ok then Added else Failed;
  }

  // ----- Looking for the CA

  /** The scan's verdict on s from off on: a needle in the raw bytes, or inside a block it can read. */
  function Scan(pem: PemDecoder, s: Bytes, needles: seq<Bytes>, off: nat): bool
    requires NonEmpty(needles)
    decreases |s| - off
  {
    FindAnyHit(s, [BEGIN] + needles, off);
    match FindAny(s, [BEGIN] + needles, off)
    case Miss => false
    case Hit(at, which) =>
      if which > 0 then true
      else
        match ReadBlock(pem, s, at)
        case None => Scan(pem, s, needles, at + |BEGIN|)
        case Some((body, end)) => HoldsAny(body, needles) || Scan(pem, s, needles, end)
  }

  method ScanForCA(w: Window, pem: PemDecoder, needles: seq<Bytes>) returns (ok: bool, found: bool)
    requires w.Valid() && NonEmpty(needles)
    modifies w
    ensures w.Valid()
    ensures ok ==> found == Scan(pem, w.Text(), needles, 0)
  {
    hide FindAny, ReadBlock, HoldsAny;
    ghost var text := w.Text();
    var search := [BEGIN] + needles;
    ok, found := true, false;
    var off := 0;
    while off < w.size
      invariant w.Valid() && ok && !found
      invariant Scan(pem, text, needles, 0) == Scan(pem, text, needles, off)
      decreases w.size - off
    {
      var hit;
      ok, hit := w.FindAnyInFile(search, off);
      FindAnyHit(text, search, off);
      if !ok || hit.Miss? {
        return;
      }
      if hit.which > 0 {
        return true, true;
      }
      var block;
      ok, block := ReadPEMBlock(w, pem, hit.at);
      if !ok {
        return;
      }
      match block
      case None =>
        off := hit.at + |BEGIN|;
      case Some((body, end)) =>
        if HoldsAny(body, needles) {
          return true, true;
        }
        off := end;
    }
    FindAnyStep(text, search, off);
  }

  /**
   * The list that is searched for can name the wrong one first: where a certificate runs past the
   * end of the window, its subject inside it is found instead. Either way the file is found to
   * hold the CA.
   */
  lemma SubjectCanWin(der: Bytes, subject: Bytes, more: seq<Bytes>, k: nat, filler: byte)
    requires OccursAt(der, subject, k) && 0 < k && k + |subject| < |der| && subject != []
    requires !(subject <= der) && !(BEGIN <= der) && filler !in BEGIN && filler !in der
    requires forall m | 0 <= m < |more| :: more[m] != [] && !(more[m] < der) && filler !in more[m]
    ensures var needles := [BEGIN, der, subject] + more; var s := CutShort(needles, 1, filler); var p := |s| - |der|;
      OccursAt(s, der, p) && FindAny(s, needles, 0).Hit? && FindAny(s, needles, 0).at > p
  {
    var needles := [BEGIN, der, subject] + more;
    assert IsWithin(needles, 2, 1, k);
    forall b | b in subject ensures b in der {
      var i :| 0 <= i < |subject| && subject[i] == b;
      assert der[k + i] == b;
    }
    forall m | 0 <= m < |needles| ensures needles[m] != [] && !(needles[m] < der) && filler !in needles[m] {
      assert m >= 3 ==> needles[m] == more[m - 3];
    }
    EarliestCanLose(needles, 2, 1, k, filler);
  }

  /** What there is to find: a needle as it is, or a block that holds one. */
  ghost predicate IsThere(pem: PemDecoder, s: Bytes, needles: seq<Bytes>, from: nat) {
    || (exists i, p: nat | 0 <= i < |needles| :: from <= p && OccursAt(s, needles[i], p))
    || (exists begin: nat, end: nat :: from <= begin && IsBlock(pem, s, begin, end) && HoldsAny(ReadBlock(pem, s, begin).value.0, needles))
  }

  /** Only what is there is found. */
  lemma {:induction false} OnlyThereIsFound(pem: PemDecoder, s: Bytes, needles: seq<Bytes>, off: nat)
    requires NonEmpty(needles) && Scan(pem, s, needles, off)
    ensures IsThere(pem, s, needles, off)
    decreases |s| - off
  {
    hide FindAny, ReadBlock, HoldsAny;
    var search := [BEGIN] + needles;
    FindAnyHit(s, search, off);
    var hit := FindAny(s, search, off);
    if hit.which > 0 {
      assert search[hit.which] == needles[hit.which - 1];
    } else {
      match ReadBlock(pem, s, hit.at)
      case None => OnlyThereIsFound(pem, s, needles, hit.at + |BEGIN|);
      case Some((body, end)) =>
        assert IsBlock(pem, s, hit.at, end);
        if !HoldsAny(body, needles) {
          OnlyThereIsFound(pem, s, needles, end);
        }
    }
  }

  /** Where the scan does not look for a start: inside a block read before, or an opening line. */
  ghost predicate IsSkipped(pem: PemDecoder, s: Bytes, from: nat, p: nat) {
    || (exists begin: nat, end: nat :: from <= begin <= p < end && IsBlock(pem, s, begin, end))
    || (exists begin: nat :: from <= begin <= p < begin + |BEGIN| && OccursAt(s, BEGIN, begin))
  }

  lemma SkippedFrom(pem: PemDecoder, s: Bytes, from: nat, later: nat, p: nat)
    requires from <= later && IsSkipped(pem, s, later, p)
    ensures IsSkipped(pem, s, from, p)
  {
    hide IsBlock;
    if begin: nat, end: nat :| later <= begin <= p < end && IsBlock(pem, s, begin, end) {
      assert from <= begin;
    } else {
      var begin: nat :| later <= begin <= p < begin + |BEGIN| && OccursAt(s, BEGIN, begin);
      assert from <= begin;
    }
  }

  /** A needle in the raw bytes is found, but for one that starts where nothing is looked for. */
  lemma {:induction false} RawNeedleIsFound(pem: PemDecoder, s: Bytes, needles: seq<Bytes>, off: nat, i: nat, p: nat)
    requires NonEmpty(needles) && i < |needles| && off <= p && OccursAt(s, needles[i], p)
    requires forall m | 0 <= m < |needles| :: !Contains(needles[m], BEGIN)
    ensures Scan(pem, s, needles, off) || IsSkipped(pem, s, off, p)
    decreases |s| - off
  {
    hide FindAny, ReadBlock, HoldsAny, IsSkipped;
    var search := [BEGIN] + needles;
    FindAnyHit(s, search, off);
    assert search[i + 1] == needles[i];
    LaterIsWithin(s, search, off, i + 1, p);
    var hit := FindAny(s, search, off);
    if hit.which == 0 {
      if hit.at <= p {
        match ReadBlock(pem, s, hit.at)
        case None =>
          if p < hit.at + |BEGIN| {
            SkippedThere(pem, s, off, hit.at, None, p);
          } else {
            RawNeedleIsFound(pem, s, needles, hit.at + |BEGIN|, i, p);
            if IsSkipped(pem, s, hit.at + |BEGIN|, p) { SkippedFrom(pem, s, off, hit.at + |BEGIN|, p); }
          }
        case Some((body, end)) =>
          if p < end {
            SkippedThere(pem, s, off, hit.at, Some(end), p);
          } else {
            RawNeedleIsFound(pem, s, needles, end, i, p);
            if IsSkipped(pem, s, end, p) { SkippedFrom(pem, s, off, end, p); }
          }
      } else {
        NoneWithin(needles, i, search, hit.at - p);
      }
    }
  }

  lemma NoneWithin(needles: seq<Bytes>, i: nat, search: seq<Bytes>, k: nat)
    requires i < |needles| && search == [BEGIN] + needles && !Contains(needles[i], BEGIN)
    ensures !IsWithin(search, 0, i + 1, k)
  {
  }

  lemma SkippedThere(pem: PemDecoder, s: Bytes, from: nat, begin: nat, end: Option<nat>, p: nat)
    requires from <= begin <= p && OccursAt(s, BEGIN, begin)
    requires match end case Some(e) => p < e && IsBlock(pem, s, begin, e) case None => p < begin + |BEGIN|
    ensures IsSkipped(pem, s, from, p)
  {
    hide IsBlock;
    match end
    case Some(e) => assert from <= begin <= p < e && IsBlock(pem, s, begin, e);
    case None => assert from <= begin <= p < begin + |BEGIN| && OccursAt(s, BEGIN, begin);
  }

  /** And every block that holds one, but for one that opens inside a block read before it. */
  lemma {:induction false} HoldingBlockIsFound(pem: PemDecoder, s: Bytes, needles: seq<Bytes>, off: nat, copy: Span)
    requires NonEmpty(needles) && off <= copy.start && IsCopy(pem, s, needles, copy)
    ensures Scan(pem, s, needles, off) ||
      exists begin: nat, end: nat :: off <= begin < copy.start < end && IsBlock(pem, s, begin, end)
    decreases |s| - off
  {
    hide FindAny, ReadBlock, HoldsAny;
    var search := [BEGIN] + needles;
    assert search[0] == BEGIN;
    FindAnyHit(s, search, off);
    FindAnyFirst(s, search, off, 0, copy.start);
    var hit := FindAny(s, search, off);
    if hit.which == 0 && hit.at < copy.start {
      match ReadBlock(pem, s, hit.at)
      case None =>
        BeginsApart(s, hit.at, copy.start);
        HoldingBlockIsFound(pem, s, needles, hit.at + |BEGIN|, copy);
      case Some((_, end)) =>
        assert IsBlock(pem, s, hit.at, end);
        if copy.start >= end {
          HoldingBlockIsFound(pem, s, needles, end, copy);
        }
    }
  }

  /** What the scan calls clean holds nothing that removal would cut. */
  lemma {:induction false} CleanHasNothingToCut(pem: PemDecoder, s: Bytes, needles: seq<Bytes>, ders: seq<Bytes>, off: nat)
    requires NonEmpty(needles)
    requires forall i | 0 <= i < |ders| :: ders[i] in needles
    requires !Scan(pem, s, needles, off)
    ensures FindCerts(pem, s, ders, off) == []
    decreases |s| - off
  {
    hide FindAny, ReadBlock, IndexOf;
    var search := [BEGIN] + needles;
    assert search[0] == BEGIN;
    FindAnyHit(s, search, off);
    var begin := IndexOf(s, BEGIN, off);
    if begin != -1 {
      FindAnyFirst(s, search, off, 0, begin);
      var hit := FindAny(s, search, off);
      assert hit.which == 0;
      IndexOfIs(s, BEGIN, off, hit.at);
      assert hit == Hit(begin, 0);
      match ReadBlock(pem, s, begin)
      case None => CleanHasNothingToCut(pem, s, needles, ders, begin + |BEGIN|);
      case Some((_, end)) => CleanHasNothingToCut(pem, s, needles, ders, end);
    }
  }
}
