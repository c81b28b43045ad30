/**
 * When a second removal changes nothing. Closing a gap puts what stood before it next to what stood
 * after it; that makes a new block just where an opening line before the gap was left unread and can
 * still go on.
 */
module BundleStable {
  import opened Search
  import opened FileWindow
  import opened Bundle
  import opened BundleRoundTrip

  // ----- What a block's extent is read from

  /** The first line, the name on it, and where the first closing line of that name starts. */
  ghost predicate Frame(u: Bytes, name: Bytes, newline: nat, at: nat) {
    && |BEGIN| <= newline < NextBegin(u) && u[newline] == NEWLINE && (forall j | 0 <= j < newline :: u[j] != NEWLINE)
    && NameIn(u[|BEGIN|..newline]) == Some(name)
    && OccursAt(u, Closing(name), at) && at < NextBegin(u) && forall j | 0 <= j < at :: !OccursAt(u, Closing(name), j)
  }

  lemma FrameOf(u: Bytes) returns (name: Bytes, newline: nat, at: nat)
    requires Extent(u).Some?
    ensures Frame(u, name, newline, at) && Extent(u) == Some(PastBreak(u, at + |Closing(name)|))
  {
    hide IndexOf, NextBegin, NameIn, PastBreak;
    var next := NextBegin(u);
    newline := IndexOf(u[..next], [NEWLINE], 0);
    name := NameIn(u[|BEGIN|..newline]).value;
    var c := Closing(name);
    var window := u[..Min(|u|, next + |c| - 1)];
    at := IndexOf(window, c, 0);
    assert u[..next][newline] == [NEWLINE][0];
    forall j | 0 <= j < newline ensures u[j] != NEWLINE {
      assert !OccursAt(u[..next], [NEWLINE], j);
      assert u[..next][j] == u[j];
    }
    OccursInPrefix(window, u, c, at);
    forall j | 0 <= j < at ensures !OccursAt(u, c, j) {
      OccursInPrefix(window, u, c, j);
    }
  }

  lemma NotThere(s: Bytes, j: nat)
    requires j < |s| && s[j] != NEWLINE
    ensures !OccursAt(s, [NEWLINE], j)
  {
    assert s[j + 0] != [NEWLINE][0];
  }

  lemma ExtentOfFrame(u: Bytes, name: Bytes, newline: nat, at: nat)
    requires Frame(u, name, newline, at)
    ensures Extent(u) == Some(PastBreak(u, at + |Closing(name)|))
  {
    hide IndexOf, NextBegin, NameIn, PastBreak;
    var next, c := NextBegin(u), Closing(name);
    var window := u[..Min(|u|, next + |c| - 1)];
    forall j | 0 <= j < newline ensures !OccursAt(u[..next], [NEWLINE], j) {
      NotThere(u[..next], j);
    }
    IndexOfIs(u[..next], [NEWLINE], 0, newline);
    OccursInPrefix(window, u, c, at);
    forall j | 0 <= j < at ensures !OccursAt(window, c, j) {
      OccursInPrefix(window, u, c, j);
    }
    IndexOfIs(window, c, 0, at);
  }

  /** The name stands on the first line, which is the first thing with a line break. */
  lemma NameOnLine(u: Bytes, name: Bytes, newline: nat, at: nat)
    requires Frame(u, name, newline, at)
    ensures name != [] && NEWLINE !in name && newline <= at && |BEGIN| + |name| + |DASHES| <= newline
    ensures OccursAt(u, name + DASHES, |BEGIN|)
  {
    hide NextBegin, IndexOf;
    var line := u[|BEGIN|..newline];
    var text := if line != [] && line[|line| - 1] == RETURN then line[..|line| - 1] else line;
    assert text[|name|..] == DASHES && text[..|name|] == name;
    assert text == name + DASHES;
    forall k | 0 <= k < |name + DASHES| ensures u[|BEGIN| + k] == (name + DASHES)[k] {
      assert text[k] == line[k] == u[|BEGIN| + k];
    }
    forall k | 0 <= k < |name| ensures name[k] != NEWLINE {
      assert u[|BEGIN| + k] == (name + DASHES)[k];
    }
    assert u[at + 0] == Closing(name)[0] == NEWLINE;
  }

  /** Nothing past the closing line matters to where the block is. */
  lemma FrameStays(u: Bytes, w: Bytes, name: Bytes, newline: nat, at: nat)
    requires Frame(u, name, newline, at)
    requires at + |Closing(name)| <= |w| && u[..at + |Closing(name)|] == w[..at + |Closing(name)|]
    ensures Frame(w, name, newline, at)
  {
    hide NameIn, IndexOf;
    NameOnLine(u, name, newline, at);
    var c := Closing(name);
    var m := at + |c|;
    forall q | |BEGIN| <= q <= at ensures !OccursAt(w, BEGIN, q) {
      if OccursAt(w, BEGIN, q) {
        OccursInPrefix(w[..m], w, BEGIN, q);
        OccursInPrefix(u[..m], u, BEGIN, q);
      }
    }
    assert NextBegin(w) > at;
    forall j | 0 <= j < m ensures u[j] == w[j] {
      assert u[..m][j] == w[..m][j];
    }
    assert u[|BEGIN|..newline] == w[|BEGIN|..newline];
    forall j | 0 <= j <= at ensures OccursAt(w, c, j) <==> OccursAt(u, c, j) {
      OccursInPrefix(w[..m], w, c, j);
      OccursInPrefix(u[..m], u, c, j);
    }
  }

  lemma ClosingEnds(name: Bytes)
    ensures |Closing(name)| >= 15 && forall k | |Closing(name)| - 5 <= k < |Closing(name)| :: Closing(name)[k] == DASH
    ensures NEWLINE !in name ==> forall k | 0 < k < |Closing(name)| :: Closing(name)[k] != NEWLINE
  {
  }

  lemma ClosingThere(u: Bytes, name: Bytes, newline: nat, at: nat)
    requires Frame(u, name, newline, at)
    ensures OccursAt(u, Closing(name), at)
  {
  }

  lemma BreakStays(x: Bytes, y: Bytes, m: nat)
    requires EndsLine(x) && m < |x|
    ensures PastBreak(x + y, m) == PastBreak(x, m)
  {
  }

  /** A block that is complete in a text of whole lines is the same whatever comes after. */
  lemma ExtentStays(x: Bytes, y: Bytes)
    requires EndsLine(x) && Extent(x).Some?
    ensures Extent(x + y) == Extent(x)
  {
    hide Extent, NextBegin, Frame, PastBreak, Closing;
    var name, newline, at := FrameOf(x);
    assert OccursAt(x, Closing(name), at) by { ClosingThere(x, name, newline, at); }
    var m := at + |Closing(name)|;
    ClosingEnds(name);
    SameByte(x, Closing(name), at, m - 1);
    assert x[..m] == (x + y)[..m];
    FrameStays(x, x + y, name, newline, at);
    ExtentOfFrame(x + y, name, newline, at);
    BreakStays(x, y, m);
  }

  /** A block that ends at its closing dashes ends there before anything but a line break. */
  lemma ExtentAtDashes(u: Bytes, z: Bytes)
    requires Extent(u) == Some(|u|) && u[|u| - 1] == DASH && (z == [] || !IsBreak(z[0]))
    ensures Extent(u + z) == Some(|u|)
  {
    hide Extent, NextBegin;
    var name, newline, at := FrameOf(u);
    var m := at + |Closing(name)|;
    EndOfWhole(u, m);
    assert u[..m] == (u + z)[..m];
    FrameStays(u, u + z, name, newline, at);
    ExtentOfFrame(u + z, name, newline, at);
  }

  lemma ExtentCut(w: Bytes)
    requires Extent(w).Some?
    ensures Extent(w).value <= |w| && Extent(w[..Extent(w).value]) == Extent(w)
  {
    hide Extent, NextBegin;
    var name, newline, at := FrameOf(w);
    var m := at + |Closing(name)|;
    var k := Extent(w).value;
    assert w[..m] == w[..k][..m];
    FrameStays(w, w[..k], name, newline, at);
    ExtentOfFrame(w[..k], name, newline, at);
  }

  /** What is no block, with another opening line after it, stays none. */
  lemma NoneStays(x: Bytes, y: Bytes)
    requires EndsLine(x) && Extent(x).None? && NextBegin(x) < |x|
    ensures Extent(x + y).None?
  {
    hide Extent, IndexOf;
    var w := x + y;
    IndexOfFound(x, w, BEGIN, |BEGIN|);
    if Extent(w).Some? {
      var name, newline, at := FrameOf(w);
      var c := Closing(name);
      NameOnLine(w, name, newline, at);
      ClosingEnds(name);
      if at + |c| <= |x| {
        assert w[..at + |c|] == x[..at + |c|];
        FrameStays(w, x, name, newline, at);
        ExtentOfFrame(x, name, newline, at);
      } else {
        LastBreak(x, y, c, at);
      }
      assert false;
    }
  }

  lemma LastBreak(x: Bytes, y: Bytes, c: Bytes, at: nat)
    requires EndsLine(x) && at < |x| && OccursAt(x + y, c, at) && at + |c| > |x|
    ensures c[|x| - 1 - at] == NEWLINE
  {
    OccursAcross(x, y, c, at, |x| - 1 - at);
  }

  lemma SameByte(s: Bytes, n: Bytes, p: nat, i: nat)
    requires OccursAt(s, n, p) && p <= i < p + |n|
    ensures i < |s| && s[i] == n[i - p]
  {
    assert s[p + (i - p)] == n[i - p];
  }

  /** A closing line's beginning is no place for an opening line. */
  lemma NotAmongDashes(s: Bytes, at: nat, q: nat)
    requires OccursAt(s, END_LINE, at) && OccursAt(s, BEGIN, q) && at < q
    ensures q >= at + |END_LINE|
  {
    var i := if q <= at + 6 then at + 6 else q;
    if q < at + |END_LINE| {
      SameByte(s, END_LINE, at, i);
      SameByte(s, BEGIN, q, i);
    }
  }

  /** Nor is its end, but for the dashes. */
  lemma NotPastName(s: Bytes, c: Bytes, at: nat, end: nat, q: nat)
    requires OccursAt(s, c, at) && OccursAt(s, BEGIN, q) && |c| >= 15 && at + |END_LINE| <= q
    requires forall k | |c| - 5 <= k < |c| :: c[k] == DASH
    requires at + |c| < q + |BEGIN| && at + |c| <= end <= at + |c| + 2 && q < end <= |s|
    requires at + |c| < end ==> IsBreak(s[at + |c|]) && IsBreak(s[end - 1])
    ensures at + |c| == end && q >= end - 5
  {
    var m := at + |c|;
    BeginHasNoBreak();
    if m < end {
      SameByte(s, BEGIN, q, if q <= m then m else q);
    } else if q < m - 5 {
      SameByte(s, c, at, q + 5);
      SameByte(s, BEGIN, q, q + 5);
    }
  }

  /** In a block and up to its closing dashes no other opening line starts. */
  lemma NoBeginWithin(u: Bytes, z: Bytes, q: nat)
    requires Extent(u) == Some(|u|) && |BEGIN| <= q < |u| && OccursAt(u + z, BEGIN, q)
    ensures u[|u| - 1] == DASH && q >= |u| - 5
  {
    hide Extent, NameIn, IndexOf;
    var name, newline, at := FrameOf(u);
    var c := Closing(name);
    NameOnLine(u, name, newline, at);
    ClosingEnds(name);
    assert c == END_LINE + (name + DASHES);
    OccursParts(u, END_LINE, name + DASHES, at);
    OccursInPrefix(u, u + z, END_LINE, at);
    OccursInPrefix(u, u + z, c, at);
    NotYet(u, z, at, q);
    NotAmongDashes(u + z, at, q);
    if q + |BEGIN| <= at + |c| {
      OccursInPrefix(u, u + z, BEGIN, q);
      InName(u, name + DASHES, at, q);
    } else {
      EndOfWhole(u, at + |c|);
      NotPastName(u + z, c, at, |u|, q);
      SameByte(u, c, at, at + |c| - 1);
    }
  }

  lemma NotYet(u: Bytes, z: Bytes, at: nat, q: nat)
    requires at < NextBegin(u) && at + |BEGIN| <= |u| && |BEGIN| <= q && OccursAt(u + z, BEGIN, q)
    ensures at < q
  {
    hide IndexOf;
    if q <= at {
      OccursInPrefix(u, u + z, BEGIN, q);
    }
  }

  predicate IsBreak(c: byte) { c == NEWLINE || c == RETURN }

  lemma BeginHasNoBreak()
    ensures NEWLINE !in BEGIN && RETURN !in BEGIN
  {
  }

  lemma EndOfWhole(u: Bytes, m: nat)
    requires m <= |u| && PastBreak(u, m) == |u|
    ensures m < |u| ==> IsBreak(u[m]) && IsBreak(u[|u| - 1])
    ensures |u| <= m + 2
  {
  }

  /** An opening line inside the closing line's name would stand on the first line too. */
  lemma InName(u: Bytes, tail: Bytes, at: nat, q: nat)
    requires OccursAt(u, tail, |BEGIN|) && OccursAt(u, END_LINE + tail, at) && OccursAt(u, BEGIN, q)
    requires at + |END_LINE| <= q && q + |BEGIN| <= at + |END_LINE| + |tail|
    ensures OccursAt(u, BEGIN, |BEGIN| + (q - at - |END_LINE|))
  {
    var i := q - (at + |END_LINE|);
    forall k | 0 <= k < |BEGIN| ensures u[|BEGIN| + i + k] == BEGIN[k] {
      assert u[q + k] == BEGIN[k] && u[at + (|END_LINE| + i + k)] == (END_LINE + tail)[|END_LINE| + i + k] == tail[i + k];
      assert u[|BEGIN| + (i + k)] == tail[i + k];
    }
  }

  // ----- What is read stays read

  lemma ReadBlockStays(pem: PemDecoder, b: Bytes, t: Bytes, begin: nat)
    requires EndsLine(b) && OccursAt(b, BEGIN, begin)
    requires ReadBlock(pem, b, begin).Some? || exists q :: begin < q && OccursAt(b, BEGIN, q)
    ensures ReadBlock(pem, b + t, begin) == ReadBlock(pem, b, begin)
  {
    hide Extent, NextBegin;
    var end, end' := Min(begin + MAX_CERTIFICATE_BYTES, |b|), Min(begin + MAX_CERTIFICATE_BYTES, |b + t|);
    var x, w := b[begin..end], (b + t)[begin..end'];
    if end < |b| {
      assert w == x;
    } else {
      var y := t[..end' - |b|];
      SliceOfConcat(b, t, begin, end');
      assert x == b[begin..] && w == x + y;
      if Extent(x).Some? {
        ExtentStays(x, y);
        ExtentBounds(x);
        assert w[..Extent(x).value] == x[..Extent(x).value];
      } else {
        LaterBegin(b, begin);
        NoneStays(x, y);
      }
    }
  }

  lemma LaterBegin(b: Bytes, begin: nat)
    requires OccursAt(b, BEGIN, begin) && exists q :: begin < q && OccursAt(b, BEGIN, q)
    ensures NextBegin(b[begin..]) < |b[begin..]|
  {
    hide IndexOf;
    var q :| begin < q && OccursAt(b, BEGIN, q);
    BeginsApart(b, begin, q);
    assert b[begin..|b|] == b[begin..];
    OccursInSlice(b, BEGIN, begin, |b|, q - begin);
  }

  /** The scan comes to the opening line at `p`, which it tries to read. */
  predicate Meets(pem: PemDecoder, s: Bytes, off: nat, p: nat)
    decreases |s| - off
  {
    var begin := IndexOf(s, BEGIN, off);
    begin != -1 && (begin == p ||
      match ReadBlock(pem, s, begin)
      case None => Meets(pem, s, begin + |BEGIN|, p)
      case Some((_, end)) => Meets(pem, s, end, p))
  }

  lemma {:induction false} MetIsThere(pem: PemDecoder, s: Bytes, off: nat, p: nat)
    requires Meets(pem, s, off, p)
    ensures OccursAt(s, BEGIN, p) && off <= p
    decreases |s| - off
  {
    hide ReadBlock, IndexOf;
    var begin := IndexOf(s, BEGIN, off);
    if begin != p {
      match ReadBlock(pem, s, begin)
      case None => MetIsThere(pem, s, begin + |BEGIN|, p);
      case Some((_, end)) => MetIsThere(pem, s, end, p);
    }
  }

  /**
   * `x` opens a block that `y` completes, and not without harm: the block is a copy of the CA, or
   * its closing dashes are its last bytes, so that they can be another opening line's as well.
   */
  predicate Completes(pem: PemDecoder, x: Bytes, y: Bytes, ders: seq<Bytes>) {
    var u := x + y;
    && 0 !in y && 0 < |u| <= MAX_CERTIFICATE_BYTES && Extent(u) == Some(|u|) && pem(u).Some?
    && (HoldsAny(pem(u).value.body, ders) || u[|u| - 1] == DASH)
  }

  predicate IsUnread(pem: PemDecoder, b: Bytes, p: nat) {
    p <= |b| && Meets(pem, b, 0, p) && ReadBlock(pem, b, p).None?
  }

  /** An opening line the scan of `b` leaves unread can still become a block. */
  ghost predicate GoesOn(pem: PemDecoder, b: Bytes, ders: seq<Bytes>) {
    exists p: nat, y: Bytes :: IsUnread(pem, b, p) && Completes(pem, b[p..], y, ders)
  }

  // ----- Where nothing goes on, joining clean texts makes no copy

  /** A block in the joined text that was none before ends in what was joined. */
  lemma NewBlock(pem: PemDecoder, b: Bytes, t: Bytes, begin: nat) returns (n: nat, u: Bytes)
    requires begin <= |b| && EndsLine(b) && OccursAt(b, BEGIN, begin)
    requires ReadBlock(pem, b, begin).None? && ReadBlock(pem, b + t, begin).Some?
    ensures 0 < n <= |t| && u == b[begin..] + t[..n] && |u| <= MAX_CERTIFICATE_BYTES
    ensures Extent(u) == Some(|u|) && pem(u).Some?
    ensures ReadBlock(pem, b + t, begin) == Some((pem(u).value.body, |b| + n))
  {
    hide Extent;
    var stop, stop' := Min(begin + MAX_CERTIFICATE_BYTES, |b|), Min(begin + MAX_CERTIFICATE_BYTES, |b + t|);
    var x, w := b[begin..stop], (b + t)[begin..stop'];
    assert stop < |b| ==> w == x;
    if stop == |b| {
      var y := t[..stop' - |b|];
      SliceOfConcat(b, t, begin, stop');
      assert x == b[begin..] && w == x + y;
      var k := Extent(w).value;
      ExtentCut(w);
      if k <= |x| {
        assert w[..k] == x[..k];
        NewExtent(x, y);
      }
      n, u := k - |x|, w[..k];
      assert k > |x| ==> w[..k] == x + y[..k - |x|];
    }
  }

  lemma NewExtent(x: Bytes, y: Bytes)
    requires EndsLine(x) && Extent(x + y).Some? && Extent(x + y).value <= |x|
    ensures Extent(x) == Extent(x + y)
  {
    hide Extent, NextBegin;
    var w := x + y;
    var name, newline, at := FrameOf(w);
    assert w[..at + |Closing(name)|] == x[..at + |Closing(name)|];
    FrameStays(w, x, name, newline, at);
    ExtentOfFrame(x, name, newline, at);
    ExtentStays(x, y);
  }

  lemma SameFromHere(pem: PemDecoder, s: Bytes, ders: seq<Bytes>, from: nat, to: nat)
    requires from <= to && forall q | from <= q < to :: !OccursAt(s, BEGIN, q)
    ensures FindCerts(pem, s, ders, from) == FindCerts(pem, s, ders, to)
  {
    hide ReadBlock, HoldsAny, IndexOf;
    SkipTo(s, BEGIN, from, to);
  }

  /** Past a block that ends in a line break the scan goes on as it would have. */
  lemma CleanPast(pem: PemDecoder, x: Bytes, t: Bytes, n: nat, ders: seq<Bytes>)
    requires n <= |t| && |BEGIN| <= |x| && FindCerts(pem, t, ders, 0) == []
    requires var u := x + t[..n]; Extent(u) == Some(|u|) && u[|u| - 1] != DASH
    ensures FindCerts(pem, t, ders, n) == []
  {
    hide Extent, IndexOf;
    var u := x + t[..n];
    forall q | 0 <= q < n ensures !OccursAt(t, BEGIN, q) {
      if OccursAt(t, BEGIN, q) {
        assert t == t[..n] + t[n..];
        assert u + t[n..] == x + t;
        OccursLater(x, t, BEGIN, q);
        NoBeginWithin(u, t[n..], |x| + q);
      }
    }
    SameFromHere(pem, t, ders, 0, n);
  }

  lemma OccursLater(x: Bytes, t: Bytes, n: Bytes, q: nat)
    requires q + |n| <= |t|
    ensures OccursAt(x + t, n, |x| + q) <==> OccursAt(t, n, q)
  {
    OccursInSlice(x + t, n, |x|, |x + t|, q);
    assert (x + t)[|x|..|x + t|] == t;
  }

  lemma {:induction false} JoinIsClean(pem: PemDecoder, b: Bytes, t: Bytes, ders: seq<Bytes>, off: nat)
    requires EndsLine(b) && off <= |b| && 0 !in t
    requires FindCerts(pem, b, ders, off) == [] && FindCerts(pem, t, ders, 0) == []
    requires forall p: nat, y: Bytes | p <= |b| && Meets(pem, b, off, p) && ReadBlock(pem, b, p).None? ::
      !Completes(pem, b[p..], y, ders)
    ensures FindCerts(pem, b + t, ders, off) == []
    decreases |b| - off
  {
    hide ReadBlock, HoldsAny, IndexOf, Completes;
    var begin := IndexOf(b, BEGIN, off);
    if begin == -1 {
      forall q | off <= q < |b| ensures !OccursAt(b + t, BEGIN, q) {
        if OccursAt(b + t, BEGIN, q) {
          BeginStays(b, t, q);
          OccursInPrefix(b, b + t, BEGIN, q);
        }
      }
      SameFromHere(pem, b + t, ders, off, |b|);
      FindAfter(pem, b, t, ders, 0);
    } else {
      IndexOfFound(b, b + t, BEGIN, off);
      match ReadBlock(pem, b, begin)
      case Some((_, end)) =>
        ReadBlockStays(pem, b, t, begin);
        JoinIsClean(pem, b, t, ders, end);
      case None =>
        if ReadBlock(pem, b + t, begin).None? {
          JoinIsClean(pem, b, t, ders, begin + |BEGIN|);
        } else {
          JoinOverNew(pem, b, t, ders, begin);
        }
    }
  }

  /** A block that is new in the joined text is none of the CA's and hides nothing. */
  lemma JoinOverNew(pem: PemDecoder, b: Bytes, t: Bytes, ders: seq<Bytes>, begin: nat)
    requires begin <= |b| && EndsLine(b) && 0 !in t && OccursAt(b, BEGIN, begin) && FindCerts(pem, t, ders, 0) == []
    requires ReadBlock(pem, b, begin).None? && ReadBlock(pem, b + t, begin).Some?
    requires forall y: Bytes :: !Completes(pem, b[begin..], y, ders)
    ensures var (body, end) := ReadBlock(pem, b + t, begin).value;
      !HoldsAny(body, ders) && FindCerts(pem, b + t, ders, end) == []
  {
    hide ReadBlock, HoldsAny, IndexOf, Extent;
    var n, u := NewBlock(pem, b, t, begin);
    assert !Completes(pem, b[begin..], t[..n], ders);
    CleanPast(pem, b[begin..], t, n, ders);
    FindAfter(pem, b, t, ders, n);
  }

  // ----- Where something goes on, some clean tail makes a copy

  lemma {:induction false} MetInMore(pem: PemDecoder, b: Bytes, t: Bytes, ders: seq<Bytes>, off: nat, p: nat)
    requires EndsLine(b) && Meets(pem, b, off, p)
    ensures forall c | c in FindCerts(pem, b + t, ders, p) :: c in FindCerts(pem, b + t, ders, off)
    decreases |b| - off
  {
    hide ReadBlock, HoldsAny, IndexOf;
    var begin := IndexOf(b, BEGIN, off);
    IndexOfFound(b, b + t, BEGIN, off);
    if begin == p {
      SameFromHere(pem, b + t, ders, off, p);
    } else {
      var next := match ReadBlock(pem, b, begin) case None => begin + |BEGIN| case Some((_, end)) => end;
      MetIsThere(pem, b, next, p);
      ReadBlockStays(pem, b, t, begin);
      MetInMore(pem, b, t, ders, next, p);
    }
  }

  /** A block at its own place in a longer text. */
  lemma WholeReads(pem: PemDecoder, p: Bytes, u: Bytes, z: Bytes)
    requires 0 < |u| <= MAX_CERTIFICATE_BYTES && Extent(u) == Some(|u|) && pem(u).Some?
    requires z == [] || (u[|u| - 1] == DASH && !IsBreak(z[0]))
    ensures ReadBlock(pem, p + (u + z), |p|) == Some((pem(u).value.body, |p| + |u|))
  {
    hide Extent;
    var w := (u + z)[..Min(MAX_CERTIFICATE_BYTES, |u + z|)];
    var z' := z[..|w| - |u|];
    assert w == u + z' && (u + z)[0..Min(0 + MAX_CERTIFICATE_BYTES, |u + z|)] == w;
    if z' != [] {
      ExtentAtDashes(u, z');
    } else {
      assert w == u;
    }
    assert w[..|u|] == u;
    ReadBlockAfter(pem, p, u + z, 0);
  }

  /** Up to its last five dashes a block opens no other. */
  lemma NoBeginUpToDashes(v: Bytes, z: Bytes, q: nat)
    requires var u := v + DASHES; Extent(u) == Some(|u|)
    requires |BEGIN| <= |v| && OccursAt(v, BEGIN, 0) && 5 <= q < |v|
    ensures !OccursAt(v + (DASHES + z), BEGIN, q)
  {
    hide Extent;
    var w := v + (DASHES + z);
    assert w == (v + DASHES) + z;
    if OccursAt(w, BEGIN, q) {
      if q < |BEGIN| {
        OccursInPrefix(v, w, BEGIN, 0);
        SameByte(w, BEGIN, 0, q);
        SameByte(w, BEGIN, q, q);
      } else {
        NoBeginWithin(v + DASHES, z, q);
      }
    }
  }

  lemma NoBeginIn(u: Bytes, x: Bytes, y: Bytes, q: nat)
    requires Extent(u) == Some(|u|) && u == x + y && |BEGIN| <= |x|
    ensures !OccursAt(y, BEGIN, q)
  {
    hide Extent;
    if OccursAt(y, BEGIN, q) {
      OccursLater(x, y, BEGIN, q);
      assert u + [] == u;
      NoBeginWithin(u, [], |x| + q);
    }
  }

  /** A copy completed: what completes it is clean by itself. */
  lemma CopyComesBack(pem: PemDecoder, b: Bytes, y: Bytes, ders: seq<Bytes>, p: nat)
    requires EndsLine(b) && IsUnread(pem, b, p) && Completes(pem, b[p..], y, ders)
    requires HoldsAny(pem(b[p..] + y).value.body, ders)
    ensures FindCerts(pem, y, ders, 0) == [] && FindCerts(pem, b + y, ders, 0) != []
  {
    hide Extent, ReadBlock, IndexOf, HoldsAny;
    MetIsThere(pem, b, 0, p);
    var x := b[p..];
    var u := x + y;
    forall q: nat | q < |y| ensures !OccursAt(y, BEGIN, q) {
      NoBeginIn(u, x, y, q);
    }
    NothingThere(pem, y, ders);
    assert b + y == b[..p] + (u + []);
    WholeReads(pem, b[..p], u, []);
    OccursInPrefix(b, b + y, BEGIN, p);
    CopyIsCut(pem, b + y, ders, p);
    MetInMore(pem, b, y, ders, 0, p);
    assert FindCerts(pem, b + y, ders, p)[0] in FindCerts(pem, b + y, ders, 0);
  }

  lemma NothingThere(pem: PemDecoder, s: Bytes, ders: seq<Bytes>)
    requires forall q: nat | q < |s| :: !OccursAt(s, BEGIN, q)
    ensures FindCerts(pem, s, ders, 0) == []
  {
    hide ReadBlock, HoldsAny;
  }

  lemma CopyIsCut(pem: PemDecoder, s: Bytes, ders: seq<Bytes>, p: nat)
    requires OccursAt(s, BEGIN, p) && ReadBlock(pem, s, p).Some? && HoldsAny(ReadBlock(pem, s, p).value.0, ders)
    ensures FindCerts(pem, s, ders, p) != []
  {
    hide ReadBlock, HoldsAny, IndexOf;
    IndexOfIs(s, BEGIN, p, p);
  }

  lemma OtherIsPassed(pem: PemDecoder, s: Bytes, ders: seq<Bytes>, p: nat)
    requires OccursAt(s, BEGIN, p) && ReadBlock(pem, s, p).Some? && !HoldsAny(ReadBlock(pem, s, p).value.0, ders)
    ensures FindCerts(pem, s, ders, p) == FindCerts(pem, s, ders, ReadBlock(pem, s, p).value.1)
  {
    hide ReadBlock, HoldsAny, IndexOf;
    IndexOfIs(s, BEGIN, p, p);
  }

  lemma EndsInDashes(u: Bytes)
    requires Extent(u) == Some(|u|) && 0 < |u| && u[|u| - 1] == DASH
    ensures |u| >= 16 && u == u[..|u| - 5] + DASHES && forall k | |u| - 5 <= k < |u| :: u[k] == DASH
  {
    hide Extent, NextBegin;
    var name, newline, at := FrameOf(u);
    var c := Closing(name);
    NameOnLine(u, name, newline, at);
    ClosingEnds(name);
    EndOfWhole(u, at + |c|);
    forall k | |u| - 5 <= k < |u| ensures u[k] == DASH {
      SameByte(u, c, at, k);
    }
  }

  /** A block without its opening dashes opens nothing. */
  lemma RestOpensNothing(pem: PemDecoder, blk: Block, ders: seq<Bytes>)
    requires blk.Armoured(pem)
    ensures var a := blk.Text(); |a| > 5 && a == DASHES + a[5..] && a[5] == 66 && FindCerts(pem, a[5..], ders, 0) == []
  {
    hide Block.Text, IndexOf;
    var a := blk.Text();
    BlockOpens(blk);
    StartsWithDashes(a);
    assert a[..5] == DASHES;
    forall q: nat | q < |a[5..]| ensures !OccursAt(a[5..], BEGIN, q) {
      if OccursAt(a[5..], BEGIN, q) {
        OccursLater(a[..5], a[5..], BEGIN, q);
        assert a + [] == a;
        NoBeginInside(blk, pem, [], 5 + q);
      }
    }
    NothingThere(pem, a[5..], ders);
  }

  /** What comes before the block in a text that ends like it opens nothing either. */
  lemma NothingBeforeBlock(pem: PemDecoder, x: Bytes, y: Bytes, v: Bytes, a: Bytes, ders: seq<Bytes>)
    requires var u := v + DASHES; Extent(u) == Some(|u|)
    requires v == x + y && |BEGIN| <= |x| && OccursAt(v, BEGIN, 0)
    ensures FindCerts(pem, y + (v + a), ders, 0) == FindCerts(pem, y + (v + a), ders, |y|)
  {
    hide Extent, FindCerts;
    StartsWithDashes(v);
    var t := y + (v + a);
    assert x + t == v + (DASHES + (v[5..] + a));
    forall q | 0 <= q < |y| ensures !OccursAt(t, BEGIN, q) {
      if OccursAt(t, BEGIN, q) {
        OccursLater(x, t, BEGIN, q);
        NoBeginUpToDashes(v, v[5..] + a, |x| + q);
      }
    }
    SameFromHere(pem, t, ders, 0, |y|);
  }

  /**
   * A block that ends at its dashes, `u` or `v + DASHES`, followed by a copy that shares them: the
   * copy is not seen.
   */
  lemma HidesCopy(pem: PemDecoder, x: Bytes, y: Bytes, v: Bytes, blk: Block, ders: seq<Bytes>)
    requires var u := v + DASHES;
      |u| <= MAX_CERTIFICATE_BYTES && Extent(u) == Some(|u|) && pem(u).Some? && !HoldsAny(pem(u).value.body, ders)
    requires v == x + y && |BEGIN| <= |x| && OccursAt(v, BEGIN, 0) && blk.Armoured(pem)
    ensures FindCerts(pem, y + (v + blk.Text()), ders, 0) == []
  {
    hide Extent, ReadBlock, FindCerts, HoldsAny, Block.Text, Block.Armoured;
    RestOpensNothing(pem, blk, ders);
    var u, a := v + DASHES, blk.Text();
    var rest := a[5..];
    var t := y + (v + a);
    assert v + a == u + rest;
    NothingBeforeBlock(pem, x, y, v, a, ders);
    WholeReads(pem, y, u, rest);
    OpensAt(y, v, a);
    OtherIsPassed(pem, t, ders, |y|);
    assert t == (y + u) + rest;
    FindAfter(pem, y + u, rest, ders, 0);
  }

  lemma StartsWithDashes(v: Bytes)
    requires |BEGIN| <= |v| && OccursAt(v, BEGIN, 0)
    ensures v == DASHES + v[5..] && v[5] == 66
  {
    forall k | 0 <= k < |BEGIN| ensures v[k] == BEGIN[k] {
      SameByte(v, BEGIN, 0, k);
    }
    assert v[..5] == DASHES;
  }

  lemma OpensAt(p: Bytes, v: Bytes, z: Bytes)
    requires OccursAt(v, BEGIN, 0)
    ensures OccursAt(p + (v + z), BEGIN, |p|)
  {
    OccursInPrefix(v, v + z, BEGIN, 0);
    OccursLater(p, v + z, BEGIN, 0);
  }

  /** Between a block's own dashes and a copy that shares them nothing opens. */
  lemma NothingBetween(pem: PemDecoder, p: Bytes, v: Bytes, a: Bytes, ders: seq<Bytes>)
    requires var u := v + DASHES; Extent(u) == Some(|u|)
    requires |BEGIN| <= |v| && OccursAt(v, BEGIN, 0) && 5 <= |a| && a == DASHES + a[5..]
    ensures FindCerts(pem, p + (v + a), ders, |p| + 5) == FindCerts(pem, p + (v + a), ders, |p| + |v|)
  {
    hide Extent, FindCerts;
    var s := p + (v + a);
    forall i | |p| + 5 <= i < |p| + |v| ensures !OccursAt(s, BEGIN, i) {
      if OccursAt(s, BEGIN, i) {
        OccursLater(p, v + a, BEGIN, i - |p|);
        NoBeginUpToDashes(v, a[5..], i - |p|);
      }
    }
    SameFromHere(pem, s, ders, |p| + 5, |p| + |v|);
  }

  lemma CopyAtEnd(pem: PemDecoder, p: Bytes, blk: Block, ders: seq<Bytes>)
    requires blk.Armoured(pem) && HoldsAny(blk.body, ders)
    ensures FindCerts(pem, p + blk.Text(), ders, |p|) != []
  {
    hide ReadBlock, IndexOf, HoldsAny, Block.Text, Block.Armoured;
    assert p + blk.Text() == p + (blk.Text() + []);
    BeginsOwnBlock(p, blk, []);
    ReadOwnBlock(pem, p, blk, []);
    CopyIsCut(pem, p + blk.Text(), ders, |p|);
  }

  /** With the same block before it the copy is seen: the first one takes the dashes of the second. */
  lemma ShowsCopy(pem: PemDecoder, p: Bytes, v: Bytes, blk: Block, ders: seq<Bytes>)
    requires var u := v + DASHES;
      |u| <= MAX_CERTIFICATE_BYTES && Extent(u) == Some(|u|) && pem(u).Some? && !HoldsAny(pem(u).value.body, ders)
    requires |BEGIN| <= |v| && OccursAt(v, BEGIN, 0) && blk.Armoured(pem) && HoldsAny(blk.body, ders)
    ensures FindCerts(pem, p + (v + (v + blk.Text())), ders, |p|) != []
  {
    hide Extent, ReadBlock, IndexOf, HoldsAny, Block.Text, Block.Armoured, FindCerts, OccursAt;
    RestOpensNothing(pem, blk, ders);
    StartsWithDashes(v);
    var u, a := v + DASHES, blk.Text();
    var s := p + (v + (v + a));
    FirstTakesDashes(v, a);
    WholeReads(pem, p, u, v[5..] + a);
    OpensAt(p, v, v + a);
    OtherIsPassed(pem, s, ders, |p|);
    Regroup(p, v, a);
    NothingBetween(pem, p + v, v, a, ders);
    CopyAtEnd(pem, p + v + v, blk, ders);
  }

  lemma FirstTakesDashes(v: Bytes, a: Bytes)
    requires 5 < |v| && v == DASHES + v[5..] && v[5] == 66
    ensures v + (v + a) == (v + DASHES) + (v[5..] + a) && (v[5..] + a)[0] == 66
  {
  }

  lemma Regroup(p: Bytes, v: Bytes, a: Bytes)
    ensures p + (v + (v + a)) == (p + v) + (v + a) == (p + v + v) + a
  {
  }

  /** The closing dashes are all the completion's own. */
  lemma WithoutDashes(x: Bytes, y: Bytes) returns (v: Bytes, head: Bytes)
    requires var u := x + y; 0 < |u| && Extent(u) == Some(|u|) && u[|u| - 1] == DASH
    requires x != [] && EndsLine(x)
    ensures v == x + head && x + y == v + DASHES && head <= y
  {
    hide Extent;
    var u := x + y;
    EndsInDashes(u);
    assert x[|x| - 1] == NEWLINE == u[|x| - 1];
    v, head := u[..|u| - 5], y[..|y| - 5];
  }

  lemma NoneIn(b: Bytes, p: nat, y: Bytes, a: Bytes, head: Bytes, v: Bytes)
    requires p <= |b| && 0 !in b && 0 !in y && 0 !in a && head <= y && v == b[p..] + head
    ensures 0 !in head + (v + a)
  {
    assert forall k | 0 <= k < |head| :: head[k] == y[k];
  }

  /** No copy completed, but one brought to light. */
  lemma HiddenComesBack(pem: PemDecoder, b: Bytes, y: Bytes, ders: seq<Bytes>, p: nat, blk: Block) returns (t: Bytes)
    requires EndsLine(b) && 0 !in b && IsUnread(pem, b, p) && Completes(pem, b[p..], y, ders)
    requires !HoldsAny(pem(b[p..] + y).value.body, ders)
    requires blk.Armoured(pem) && HoldsAny(blk.body, ders) && 0 !in blk.Text()
    ensures 0 !in t && FindCerts(pem, t, ders, 0) == [] && FindCerts(pem, b + t, ders, 0) != []
  {
    hide Extent, ReadBlock, IndexOf, HoldsAny, Block.Text, Block.Armoured;
    MetIsThere(pem, b, 0, p);
    var x := b[p..];
    var v, head := WithoutDashes(x, y);
    assert b == b[..p] + x;
    OccursLater(b[..p], x, BEGIN, 0);
    OccursInPrefix(x, v, BEGIN, 0);
    t := head + (v + blk.Text());
    NoneIn(b, p, y, blk.Text(), head, v);
    HidesCopy(pem, x, head, v, blk, ders);
    assert b + t == b[..p] + (v + (v + blk.Text()));
    ShowsCopy(pem, b[..p], v, blk, ders);
    MetInMore(pem, b, t, ders, 0, p);
    assert FindCerts(pem, b + t, ders, p)[0] in FindCerts(pem, b + t, ders, 0);
  }

  // ----- What it means for removal

  lemma {:induction false} KeptIsShorter(s: Bytes, cuts: seq<Span>, from: nat)
    requires InOrder(cuts, from, |s|) && forall c | c in cuts :: c.start < c.end
    ensures from <= |s| && |Kept(s, cuts, from)| <= |s| - from
    ensures cuts != [] ==> |Kept(s, cuts, from)| < |s| - from
  {
    if cuts != [] {
      assert cuts[0] in cuts;
      KeptIsShorter(s, cuts[1..], cuts[0].end);
    }
  }

  /** Removal leaves a text as it is just when it finds nothing there. */
  lemma RemovedSame(pem: PemDecoder, s: Bytes, ders: seq<Bytes>)
    ensures Removed(pem, s, ders) == s <==> FindCerts(pem, s, ders, 0) == [] || 0 in s
  {
    hide FindCerts, ReadBlock, HoldsAny, Kept;
    FoundInOrder(pem, s, ders, 0);
    OnlyCopiesAreCut(pem, s, ders, 0);
    KeptIsShorter(s, FindCerts(pem, s, ders, 0), 0);
  }

  predicate SecondChangesNothing(pem: PemDecoder, s: Bytes, ders: seq<Bytes>) {
    var once := Removed(pem, s, ders);
    Removed(pem, once, ders) == once
  }

  lemma SecondPass(pem: PemDecoder, b: Bytes, blocks: seq<Block>, t: Bytes, ders: seq<Bytes>)
    requires EndsLine(b) && 0 !in b && blocks != [] && IsCA(pem, blocks, ders) && 0 !in Concat(blocks)
    requires FindCerts(pem, b, ders, 0) == [] && FindCerts(pem, t, ders, 0) == []
    ensures SecondChangesNothing(pem, b + (Concat(blocks) + t), ders) <==> 0 in t || FindCerts(pem, b + t, ders, 0) == []
  {
    hide FindCerts, Removed, IsCA, Concat;
    RemoveUndoesAppend(pem, b, blocks, t, ders);
    RemovedSame(pem, b + t, ders);
    RemovedSame(pem, b + (Concat(blocks) + t), ders);
    assert 0 in t <==> 0 in b + (Concat(blocks) + t);
    assert 0 in t <==> 0 in b + t;
  }

  /**
   * The CA after a bundle that ends its line, then whatever a step appends: a second removal changes
   * nothing, for every tail that holds no copy itself, just when no opening line the bundle leaves
   * unread can still go on.
   */
  lemma SecondChangesNothingExactly(pem: PemDecoder, b: Bytes, blocks: seq<Block>, ders: seq<Bytes>)
    requires EndsLine(b) && 0 !in b && blocks != [] && IsCA(pem, blocks, ders) && 0 !in Concat(blocks)
    requires FindCerts(pem, b, ders, 0) == []
    ensures (forall t | FindCerts(pem, t, ders, 0) == [] :: SecondChangesNothing(pem, b + (Concat(blocks) + t), ders))
      <==> !GoesOn(pem, b, ders)
  {
    hide FindCerts, SecondChangesNothing, IsCA, Concat, EndsLine, Completes, IsUnread;
    if GoesOn(pem, b, ders) {
      var t := FailsFor(pem, b, blocks, ders);
      SecondPass(pem, b, blocks, t, ders);
    } else {
      forall t | FindCerts(pem, t, ders, 0) == [] ensures SecondChangesNothing(pem, b + (Concat(blocks) + t), ders) {
        SecondPass(pem, b, blocks, t, ders);
        if 0 !in t {
          NothingGoesOn(pem, b, ders);
          JoinIsClean(pem, b, t, ders, 0);
        }
      }
    }
  }

  lemma NothingGoesOn(pem: PemDecoder, b: Bytes, ders: seq<Bytes>)
    requires !GoesOn(pem, b, ders)
    ensures forall p: nat, y: Bytes | p <= |b| && Meets(pem, b, 0, p) && ReadBlock(pem, b, p).None? ::
      !Completes(pem, b[p..], y, ders)
  {
    hide Completes, Meets, ReadBlock;
    forall p: nat, y: Bytes | p <= |b| && Meets(pem, b, 0, p) && ReadBlock(pem, b, p).None?
      ensures !Completes(pem, b[p..], y, ders)
    {
      assert IsUnread(pem, b, p);
    }
  }

  lemma FailsFor(pem: PemDecoder, b: Bytes, blocks: seq<Block>, ders: seq<Bytes>) returns (t: Bytes)
    requires EndsLine(b) && 0 !in b && blocks != [] && IsCA(pem, blocks, ders) && 0 !in Concat(blocks)
    requires GoesOn(pem, b, ders)
    ensures 0 !in t && FindCerts(pem, t, ders, 0) == [] && FindCerts(pem, b + t, ders, 0) != []
  {
    hide FindCerts, Block.Text, Block.Armoured, HoldsAny, Meets, ReadBlock, Extent;
    var p: nat, y: Bytes :| IsUnread(pem, b, p) && Completes(pem, b[p..], y, ders);
    if HoldsAny(pem(b[p..] + y).value.body, ders) {
      t := y;
      CopyComesBack(pem, b, y, ders, p);
    } else {
      assert forall k | 0 <= k < |blocks[0].Text()| :: Concat(blocks)[k] == blocks[0].Text()[k];
      t := HiddenComesBack(pem, b, y, ders, p, blocks[0]);
    }
  }

  /**
   * Only the last opening line of a bundle can go on: one with another after it stays unread. So a
   * bundle whose last opening line reads as a block is safe.
   */
  lemma LastReadIsEnough(pem: PemDecoder, b: Bytes, ders: seq<Bytes>)
    requires EndsLine(b)
    requires forall p: nat | IsUnread(pem, b, p) :: exists q :: p < q && OccursAt(b, BEGIN, q)
    ensures !GoesOn(pem, b, ders)
  {
    hide Meets, ReadBlock, Extent, HoldsAny;
    if GoesOn(pem, b, ders) {
      var p: nat, y: Bytes :| IsUnread(pem, b, p) && Completes(pem, b[p..], y, ders);
      MetIsThere(pem, b, 0, p);
      assert b + y == b[..p] + (b[p..] + y + []);
      WholeReads(pem, b[..p], b[p..] + y, []);
      ReadBlockStays(pem, b, y, p);
    }
  }

  // ----- Any file

  function Moved(cuts: seq<Span>, n: nat): seq<Span> {
    if cuts == [] then [] else [Span(n + cuts[0].start, n + cuts[0].end)] + Moved(cuts[1..], n)
  }

  lemma {:induction false} FindMoved(pem: PemDecoder, p: Bytes, t: Bytes, ders: seq<Bytes>, off: nat)
    ensures FindCerts(pem, p + t, ders, |p| + off) == Moved(FindCerts(pem, t, ders, off), |p|)
    decreases |t| - off
  {
    hide ReadBlock, HoldsAny, IndexOf;
    IndexOfAfter(p, t, BEGIN, off);
    var begin := IndexOf(t, BEGIN, off);
    if begin != -1 {
      ReadBlockAfter(pem, p, t, begin);
      match ReadBlock(pem, t, begin)
      case None => FindMoved(pem, p, t, ders, begin + |BEGIN|);
      case Some((body, end)) =>
        FindMoved(pem, p, t, ders, end);
        var rest := FindCerts(pem, t, ders, end);
        assert ([Span(begin, end)] + rest)[1..] == rest;
    }
  }

  /** The first cut, and the others as found from its end. */
  lemma {:induction false} FirstCut(pem: PemDecoder, s: Bytes, ders: seq<Bytes>, off: nat)
    requires FindCerts(pem, s, ders, off) != []
    ensures var cuts := FindCerts(pem, s, ders, off);
      OccursAt(s, BEGIN, cuts[0].start) && off <= cuts[0].start < cuts[0].end <= |s| && cuts[1..] == FindCerts(pem, s, ders, cuts[0].end)
    decreases |s| - off
  {
    hide ReadBlock, HoldsAny, IndexOf;
    var begin := IndexOf(s, BEGIN, off);
    match ReadBlock(pem, s, begin)
    case None => FirstCut(pem, s, ders, begin + |BEGIN|);
    case Some((body, end)) =>
      if HoldsAny(body, ders) {
        var rest := FindCerts(pem, s, ders, end);
        assert ([Span(begin, end)] + rest)[1..] == rest;
      } else {
        FirstCut(pem, s, ders, end);
      }
  }

  /** Each stretch kept before a cut ends its line, and nothing in it can go on. */
  ghost predicate Settled(pem: PemDecoder, s: Bytes, ders: seq<Bytes>, cuts: seq<Span>, from: nat)
    requires InOrder(cuts, from, |s|)
  {
    cuts == [] || (
      InOrderBound(cuts[1..], cuts[0].end, |s|);
      var run := s[from..cuts[0].start];
      EndsLine(run) && !GoesOn(pem, run, ders) && Settled(pem, s, ders, cuts[1..], cuts[0].end))
  }

  lemma {:induction false} KeptIsOf(s: Bytes, cuts: seq<Span>, from: nat)
    requires InOrder(cuts, from, |s|)
    ensures forall c | c in Kept(s, cuts, from) :: c in s
  {
    InOrderBound(cuts, from, |s|);
    if cuts != [] {
      InOrderBound(cuts[1..], cuts[0].end, |s|);
      KeptIsOf(s, cuts[1..], cuts[0].end);
    }
  }

  /** What stands before the first cut holds no copy by itself. */
  lemma RunIsClean(pem: PemDecoder, s: Bytes, ders: seq<Bytes>, from: nat)
    requires from <= |s| && FindCerts(pem, s, ders, from) != []
    requires var start := FindCerts(pem, s, ders, from)[0].start; from <= start <= |s| && EndsLine(s[from..start])
    ensures FindCerts(pem, s[from..FindCerts(pem, s, ders, from)[0].start], ders, 0) == []
  {
    hide ReadBlock, HoldsAny, IndexOf, FindCerts;
    FirstCut(pem, s, ders, from);
    var start := FindCerts(pem, s, ders, from)[0].start;
    var run, r := s[from..start], s[start..];
    assert s == s[..from] + (run + r) && s == s[..start] + r;
    OccursLater(s[..start], r, BEGIN, 0);
    FindBefore(pem, run, r, ders, 0);
    FindMoved(pem, s[..from], run + r, ders, 0);
    if FindCerts(pem, run, ders, 0) != [] {
      FirstCut(pem, run, ders, 0);
    }
  }

  lemma {:induction false} SettledIsClean(pem: PemDecoder, s: Bytes, ders: seq<Bytes>, from: nat)
    requires from <= |s| && 0 !in s && InOrder(FindCerts(pem, s, ders, from), from, |s|)
    requires Settled(pem, s, ders, FindCerts(pem, s, ders, from), from)
    ensures FindCerts(pem, Kept(s, FindCerts(pem, s, ders, from), from), ders, 0) == []
    decreases |s| - from
  {
    hide ReadBlock, HoldsAny, IndexOf, FindCerts, GoesOn, EndsLine;
    var cuts := FindCerts(pem, s, ders, from);
    if cuts == [] {
      assert s == s[..from] + s[from..];
      FindMoved(pem, s[..from], s[from..], ders, 0);
    } else {
      FirstCut(pem, s, ders, from);
      InOrderBound(cuts[1..], cuts[0].end, |s|);
      SettledIsClean(pem, s, ders, cuts[0].end);
      RunIsClean(pem, s, ders, from);
      KeptIsOf(s, cuts[1..], cuts[0].end);
      var run := s[from..cuts[0].start];
      NothingGoesOn(pem, run, ders);
      JoinIsClean(pem, run, Kept(s, cuts[1..], cuts[0].end), ders, 0);
    }
  }

  /** Any file, however many copies: where all that is kept before a cut is settled, once is enough. */
  lemma SettledFileIsDone(pem: PemDecoder, s: Bytes, ders: seq<Bytes>)
    requires InOrder(FindCerts(pem, s, ders, 0), 0, |s|) && Settled(pem, s, ders, FindCerts(pem, s, ders, 0), 0)
    ensures SecondChangesNothing(pem, s, ders)
  {
    hide FindCerts, Settled;
    if 0 !in s {
      SettledIsClean(pem, s, ders, 0);
      if FindCerts(pem, s, ders, 0) != [] {
        RemovedSame(pem, Kept(s, FindCerts(pem, s, ders, 0), 0), ders);
      }
    }
  }
}
