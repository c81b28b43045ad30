/** Removing the CA undoes appending it, whatever a step added after it. */
module BundleRoundTrip {
  import opened Search
  import opened FileWindow
  import opened Bundle

  /** Where a bundle can be appended to: it is empty or its last line is ended. */
  predicate EndsLine(b: Bytes) {
    b == [] || b[|b| - 1] == NEWLINE
  }

  /** As much of an opening line as fits. */
  predicate Opens(y: Bytes) {
    forall k | 0 <= k < |y| && k < |BEGIN| :: y[k] == BEGIN[k]
  }

  // ----- A block in what precedes an opening line reads the same without it

  lemma OccursAcross(x: Bytes, y: Bytes, n: Bytes, p: nat, k: nat)
    requires OccursAt(x + y, n, p) && k < |n|
    ensures n[k] == if p + k < |x| then x[p + k] else y[p + k - |x|]
  {
    assert (x + y)[p + k] == n[k];
  }

  lemma BeginStays(x: Bytes, y: Bytes, p: nat)
    requires EndsLine(x) && p < |x| && OccursAt(x + y, BEGIN, p)
    ensures p + |BEGIN| <= |x|
  {
    if p + |BEGIN| > |x| {
      OccursAcross(x, y, BEGIN, p, |x| - 1 - p);
      assert false;
    }
  }

  lemma ClosingStays(x: Bytes, y: Bytes, name: Bytes, p: nat)
    requires EndsLine(x) && Opens(y) && NEWLINE !in name
    requires p < |x| && OccursAt(x + y, Closing(name), p)
    ensures p + |Closing(name)| < |x|
  {
    var c := Closing(name);
    assert c[6] == END_LINE[6] && forall k | 0 < k < |c| :: c[k] != NEWLINE;
    var last := |x| - 1 - p;
    if last < |c| {
      OccursAcross(x, y, c, p, 6);
      OccursAcross(x, y, c, p, last);
      assert false;
    }
  }

  lemma NextBeginBefore(x: Bytes, y: Bytes)
    requires EndsLine(x) && OccursAt(x, BEGIN, 0) && Opens(y)
    ensures NextBegin(x) < |x| ==> NextBegin(x + y) == NextBegin(x)
    ensures NextBegin(x) == |x| ==> NextBegin(x + y) == if |BEGIN| <= |y| then |x| else |x + y|
  {
    assert x <= x + y;
    if IndexOf(x, BEGIN, |BEGIN|) != -1 {
      IndexOfFound(x, x + y, BEGIN, |BEGIN|);
    } else {
      forall p | |BEGIN| <= p < |x|
        ensures !OccursAt(x + y, BEGIN, p)
      {
        if OccursAt(x + y, BEGIN, p) {
          BeginStays(x, y, p);
          OccursInPrefix(x, x + y, BEGIN, p);
        }
      }
      if |BEGIN| <= |y| {
        assert OccursAt(x + y, BEGIN, |x|);
        IndexOfIs(x + y, BEGIN, |BEGIN|, |x|);
      }
    }
  }

  lemma ExtentBefore(x: Bytes, y: Bytes)
    requires EndsLine(x) && OccursAt(x, BEGIN, 0) && Opens(y)
    ensures Extent(x + y) == Extent(x)
    ensures Extent(x).Some? ==> Extent(x).value <= |x|
  {
    hide IndexOf, NextBegin, NameIn, PastBreak;
    var next, next' := NextBegin(x), NextBegin(x + y);
    NextBeginBefore(x, y);
    var newline := IndexOf(x[..next], [NEWLINE], 0);
    assert newline == IndexOf((x + y)[..next'], [NEWLINE], 0) by {
      FirstLineBefore(x, y);
    }
    if newline >= |BEGIN| {
      assert x[|BEGIN|..newline] == (x + y)[|BEGIN|..newline];
      match NameIn(x[|BEGIN|..newline])
      case None =>
      case Some(name) =>
        NameHasNoNewline(x, newline, name);
        ClosingBefore(x, y, name);
    }
  }

  lemma FirstLineBefore(x: Bytes, y: Bytes)
    requires EndsLine(x) && OccursAt(x, BEGIN, 0) && Opens(y)
    ensures IndexOf((x + y)[..NextBegin(x + y)], [NEWLINE], 0) == IndexOf(x[..NextBegin(x)], [NEWLINE], 0)
  {
    hide NextBegin, IndexOf;
    var next, next' := NextBegin(x), NextBegin(x + y);
    NextBeginBefore(x, y);
    if next < |x| {
      assert x[..next] == (x + y)[..next'];
    } else {
      assert OccursAt(x, [NEWLINE], |x| - 1);
      assert x[..next] == x <= (x + y)[..next'];
      IndexOfFound(x, (x + y)[..next'], [NEWLINE], 0);
    }
  }

  lemma NameStartsLine(line: Bytes)
    ensures NameIn(line).Some? ==> NameIn(line).value <= line
  {
  }

  lemma NameHasNoNewline(x: Bytes, newline: nat, name: Bytes)
    requires OccursAt(x, BEGIN, 0) && newline == IndexOf(x[..NextBegin(x)], [NEWLINE], 0) && newline >= |BEGIN|
    requires NameIn(x[|BEGIN|..newline]) == Some(name)
    ensures NEWLINE !in name
  {
    hide IndexOf, NextBegin, NameIn;
    NameStartsLine(x[|BEGIN|..newline]);
    forall k | 0 <= k < |name|
      ensures name[k] != NEWLINE
    {
      assert name[k] == x[|BEGIN|..newline][k] == x[|BEGIN| + k];
      assert !OccursAt(x[..NextBegin(x)], [NEWLINE], |BEGIN| + k);
    }
  }

  lemma ClosingBefore(x: Bytes, y: Bytes, name: Bytes)
    requires EndsLine(x) && OccursAt(x, BEGIN, 0) && Opens(y) && NEWLINE !in name
    ensures var c := Closing(name);
      var at := IndexOf(x[..Min(|x|, NextBegin(x) + |c| - 1)], c, 0);
      && IndexOf((x + y)[..Min(|x + y|, NextBegin(x + y) + |c| - 1)], c, 0) == at
      && (at != -1 ==> PastBreak(x + y, at + |c|) == PastBreak(x, at + |c|))
  {
    hide IndexOf, NextBegin;
    var c := Closing(name);
    NextBeginBefore(x, y);
    var u, v := x[..Min(|x|, NextBegin(x) + |c| - 1)], (x + y)[..Min(|x + y|, NextBegin(x + y) + |c| - 1)];
    assert u <= v;
    forall p | 0 <= p && p + |c| > |u|
      ensures !OccursAt(v, c, p)
    {
      if OccursAt(v, c, p) {
        OccursInPrefix(v, x + y, c, p);
        ClosingStays(x, y, name, p);
        assert false;
      }
    }
    IndexOfExtend(u, v, c, 0);
    var at := IndexOf(u, c, 0);
    if at != -1 {
      OccursInPrefix(u, x, c, at);
      OccursInPrefix(u, x + y, c, at);
      ClosingStays(x, y, name, at);
    }
  }

  lemma ReadBlockBefore(pem: PemDecoder, b: Bytes, r: Bytes, begin: nat)
    requires EndsLine(b) && OccursAt(b, BEGIN, begin) && Opens(r)
    ensures ReadBlock(pem, b + r, begin) == ReadBlock(pem, b, begin)
  {
    hide Extent;
    var end, end' := Min(begin + MAX_CERTIFICATE_BYTES, |b|), Min(begin + MAX_CERTIFICATE_BYTES, |b + r|);
    var x, w := b[begin..end], (b + r)[begin..end'];
    ExtentBounds(x);
    if end < |b| {
      assert w == x;
    } else {
      var y := r[..end' - |b|];
      SliceOfConcat(b, r, begin, end');
      assert x == b[begin..] && w == x + y;
      assert OccursAt(x, BEGIN, 0);
      ExtentBefore(x, y);
      assert Extent(x).Some? ==> w[..Extent(x).value] == x[..Extent(x).value];
    }
  }

  /** Scanning what precedes an opening line, then from that line on. */
  lemma {:induction false} FindBefore(pem: PemDecoder, b: Bytes, r: Bytes, ders: seq<Bytes>, off: nat)
    requires EndsLine(b) && off <= |b| && OccursAt(r, BEGIN, 0)
    ensures FindCerts(pem, b + r, ders, off) == FindCerts(pem, b, ders, off) + FindCerts(pem, b + r, ders, |b|)
    decreases |b| - off
  {
    hide ReadBlock, HoldsAny, IndexOf;
    forall p | off <= p < |b| && p + |BEGIN| > |b|
      ensures !OccursAt(b + r, BEGIN, p)
    {
      if OccursAt(b + r, BEGIN, p) {
        BeginStays(b, r, p);
      }
    }
    var begin := IndexOf(b, BEGIN, off);
    if begin != -1 {
      IndexOfFound(b, b + r, BEGIN, off);
      ReadBlockBefore(pem, b, r, begin);
      match ReadBlock(pem, b, begin)
      case None => FindBefore(pem, b, r, ders, begin + |BEGIN|);
      case Some((_, end)) => FindBefore(pem, b, r, ders, end);
    } else {
      forall p | off <= p < |b|
        ensures !OccursAt(b + r, BEGIN, p)
      {
        if p + |BEGIN| <= |b| {
          OccursInPrefix(b, b + r, BEGIN, p);
        }
      }
      assert OccursAt(b + r, BEGIN, |b|);
      IndexOfIs(b + r, BEGIN, off, |b|);
      IndexOfIs(b + r, BEGIN, |b|, |b|);
    }
  }

  lemma {:induction false} IndexOfAfter(p: Bytes, t: Bytes, n: Bytes, off: nat)
    ensures IndexOf(p + t, n, |p| + off) == if IndexOf(t, n, off) == -1 then -1 else |p| + IndexOf(t, n, off)
    decreases |t| - off
  {
    if off + |n| <= |t| {
      OccursInSlice(p + t, n, |p|, |p + t|, off);
      assert (p + t)[|p|..|p + t|] == t;
      IndexOfAfter(p, t, n, off + 1);
    }
  }

  lemma ReadBlockAfter(pem: PemDecoder, p: Bytes, t: Bytes, begin: nat)
    requires begin <= |t|
    ensures ReadBlock(pem, p + t, |p| + begin) ==
      match ReadBlock(pem, t, begin) case None => None case Some((body, end)) => Some((body, |p| + end))
  {
    hide Extent;
    var end := Min(begin + MAX_CERTIFICATE_BYTES, |t|);
    assert t[begin..end] == (p + t)[|p| + begin..|p| + end];
  }

  /** A tail with nothing to cut has nothing to cut wherever it stands. */
  lemma {:induction false} FindAfter(pem: PemDecoder, p: Bytes, t: Bytes, ders: seq<Bytes>, off: nat)
    requires FindCerts(pem, t, ders, off) == []
    ensures FindCerts(pem, p + t, ders, |p| + off) == []
    decreases |t| - off
  {
    hide ReadBlock, HoldsAny, IndexOf;
    IndexOfAfter(p, t, BEGIN, off);
    var begin := IndexOf(t, BEGIN, off);
    if begin != -1 {
      ReadBlockAfter(pem, p, t, begin);
      match ReadBlock(pem, t, begin)
      case None => FindAfter(pem, p, t, ders, begin + |BEGIN|);
      case Some((_, end)) => FindAfter(pem, p, t, ders, end);
    }
  }

  // ----- The blocks of the CA

  /** One armoured block, as any tool writes it: `eol` is the line break it uses. */
  datatype Block = Block(name: Bytes, eol: Bytes, text: Bytes, body: Bytes) {
    function Text(): Bytes {
      BEGIN + name + DASHES + eol + text + Closing(name) + eol
    }

    ghost predicate Armoured(pem: PemDecoder) {
      && name != [] && NEWLINE !in name && DASH !in name && DASH !in text
      && (eol == [NEWLINE] || eol == [RETURN, NEWLINE])
      && |Text()| <= MAX_CERTIFICATE_BYTES
      && forall rest :: pem(Text() + rest) == Some(Decoded(name, body, rest))
    }
  }

  function Concat(blocks: seq<Block>): Bytes {
    if blocks == [] then [] else blocks[0].Text() + Concat(blocks[1..])
  }

  /** Where the closing line of a block starts, with the line break before it. */
  function ClosingAt(blk: Block): nat {
    |BEGIN| + |blk.name| + |DASHES| + |blk.eol| + |blk.text|
  }

  lemma DashIsInRun(blk: Block, pem: PemDecoder, k: nat)
    requires blk.Armoured(pem) && k < |blk.Text()| && blk.Text()[k] == DASH
    ensures var opening, ending := |BEGIN| + |blk.name|, ClosingAt(blk) + |END_LINE| + |blk.name|;
      k < 5 || opening <= k < opening + 5 || ClosingAt(blk) < k <= ClosingAt(blk) + 5 || ending <= k < ending + 5
  {
    var middle := blk.eol + blk.text;
    assert forall j | 0 <= j < |middle| :: middle[j] != DASH;
    assert blk.Text() == BEGIN + blk.name + DASHES + middle + Closing(blk.name) + blk.eol;
  }

  lemma Landmarks(blk: Block, pem: PemDecoder)
    requires blk.Armoured(pem)
    ensures var a, opening, closing, ending := blk.Text(), |BEGIN| + |blk.name|, ClosingAt(blk), ClosingAt(blk) + |END_LINE| + |blk.name|;
      && |a| == ending + 5 + |blk.eol| && a[|a| - 1] == NEWLINE
      && a[5] == 66 && a[closing] == NEWLINE && a[closing + 6] == 69
      && a[opening - 1] != NEWLINE && a[ending - 1] != NEWLINE
      && a[opening + 5] == a[ending + 5] == blk.eol[0]
  {
  }

  /** The dashes of a block stand in four runs of five: the first alone comes before a B, and only the third after a line break. */
  lemma DashRuns(blk: Block, pem: PemDecoder, q: nat)
    requires blk.Armoured(pem) && q + 5 < |blk.Text()| && OccursAt(blk.Text(), DASHES, q)
    ensures blk.Text()[q + 5] == 66 ==> q == 0
    ensures q > 0 && blk.Text()[q - 1] == NEWLINE ==> q == ClosingAt(blk) + 1
  {
    hide Block.Text;
    Landmarks(blk, pem);
    assert forall k | 0 <= k < 5 :: DASHES[k] == DASH;
    assert blk.Text()[q + 0] == DASHES[0] && blk.Text()[q + 1] == DASHES[1] && blk.Text()[q + 2] == DASHES[2];
    assert blk.Text()[q + 3] == DASHES[3] && blk.Text()[q + 4] == DASHES[4];
    DashIsInRun(blk, pem, q);
    DashIsInRun(blk, pem, q + 1);
    DashIsInRun(blk, pem, q + 2);
    DashIsInRun(blk, pem, q + 3);
    DashIsInRun(blk, pem, q + 4);
  }

  lemma NoBeginInside(blk: Block, pem: PemDecoder, y: Bytes, q: nat)
    requires blk.Armoured(pem) && 0 < q < |blk.Text()|
    ensures !OccursAt(blk.Text() + y, BEGIN, q)
  {
    hide Block.Text;
    Landmarks(blk, pem);
    if OccursAt(blk.Text() + y, BEGIN, q) {
      BeginStays(blk.Text(), y, q);
      OccursInPrefix(blk.Text(), blk.Text() + y, BEGIN, q);
      assert BEGIN == DASHES + BEGIN[5..];
      OccursParts(blk.Text(), DASHES, BEGIN[5..], q);
      OccursAcross(blk.Text(), y, BEGIN, q, 5);
      DashRuns(blk, pem, q);
      assert false;
    }
  }

  lemma NoClosingBefore(blk: Block, pem: PemDecoder, y: Bytes, q: nat)
    requires blk.Armoured(pem) && q < ClosingAt(blk)
    ensures !OccursAt(blk.Text() + y, Closing(blk.name), q)
  {
    hide Block.Text;
    Landmarks(blk, pem);
    if OccursAt(blk.Text() + y, Closing(blk.name), q) {
      OccursInPrefix(blk.Text(), blk.Text() + y, Closing(blk.name), q);
      var rest := Closing(blk.name)[6..];
      assert Closing(blk.name) == [NEWLINE] + (DASHES + rest);
      OccursParts(blk.Text(), [NEWLINE], DASHES + rest, q);
      OccursParts(blk.Text(), DASHES, rest, q + 1);
      OccursAcross(blk.Text(), y, Closing(blk.name), q, 0);
      DashRuns(blk, pem, q + 1);
      assert false;
    }
  }

  lemma FirstLineOfBlock(blk: Block, pem: PemDecoder, y: Bytes, next: nat)
    requires blk.Armoured(pem) && |blk.Text()| <= next <= |blk.Text() + y|
    ensures var newline := IndexOf((blk.Text() + y)[..next], [NEWLINE], 0);
      newline >= |BEGIN| && NameIn((blk.Text() + y)[|BEGIN|..newline]) == Some(blk.name)
  {
    hide IndexOf, NameIn, Block.Text;
    var line := blk.name + DASHES + blk.eol[..|blk.eol| - 1];
    var tail := blk.text + Closing(blk.name) + blk.eol + y;
    OpeningLine(blk, y);
    assert NEWLINE !in BEGIN + line;
    LineEnds(BEGIN + line, tail, next);
    assert (BEGIN + line + [NEWLINE] + tail)[|BEGIN|..|BEGIN + line|] == line;
    NameInLine(blk, pem);
  }

  lemma OpeningLine(blk: Block, y: Bytes)
    requires blk.eol == [NEWLINE] || blk.eol == [RETURN, NEWLINE]
    ensures blk.Text() + y == BEGIN + (blk.name + DASHES + blk.eol[..|blk.eol| - 1]) + [NEWLINE]
      + (blk.text + Closing(blk.name) + blk.eol + y)
  {
    assert blk.eol == blk.eol[..|blk.eol| - 1] + [NEWLINE];
  }

  lemma LineEnds(line: Bytes, tail: Bytes, next: nat)
    requires NEWLINE !in line && |line| < next <= |line| + 1 + |tail|
    ensures IndexOf((line + [NEWLINE] + tail)[..next], [NEWLINE], 0) == |line|
  {
    hide IndexOf;
    var s := (line + [NEWLINE] + tail)[..next];
    forall k | 0 <= k < |line|
      ensures !OccursAt(s, [NEWLINE], k)
    {
      assert s[k + 0] == line[k] != [NEWLINE][0];
    }
    IndexOfIs(s, [NEWLINE], 0, |line|);
  }

  lemma NameInLine(blk: Block, pem: PemDecoder)
    requires blk.Armoured(pem)
    ensures NameIn(blk.name + DASHES + blk.eol[..|blk.eol| - 1]) == Some(blk.name)
  {
    var line := blk.name + DASHES;
    var text := line + blk.eol[..|blk.eol| - 1];
    assert line[|blk.name|..] == DASHES && line[..|blk.name|] == blk.name;
    assert |blk.eol| == 2 ==> text[..|text| - 1] == line;
    assert |blk.eol| == 1 ==> text == line;
  }

  lemma ClosingOccurs(blk: Block, y: Bytes)
    ensures OccursAt(blk.Text() + y, Closing(blk.name), ClosingAt(blk))
  {
    var before := BEGIN + blk.name + DASHES + blk.eol + blk.text;
    var after := blk.eol + y;
    assert blk.Text() + y == before + Closing(blk.name) + after;
  }

  lemma EndOfBlock(blk: Block, pem: PemDecoder, y: Bytes)
    requires blk.Armoured(pem)
    ensures PastBreak(blk.Text() + y, ClosingAt(blk) + |Closing(blk.name)|) == |blk.Text()|
  {
    var at := ClosingAt(blk) + |Closing(blk.name)|;
    assert forall k | 0 <= k < |blk.eol| :: (blk.Text() + y)[at + k] == blk.eol[k];
    assert (blk.Text() + y)[at] == blk.eol[0];
    assert |blk.eol| == 2 ==> (blk.Text() + y)[at + 1] == blk.eol[1];
  }

  lemma ClosingOfBlock(blk: Block, pem: PemDecoder, y: Bytes, end: nat)
    requires blk.Armoured(pem) && ClosingAt(blk) + |Closing(blk.name)| <= end <= |blk.Text() + y|
    ensures IndexOf((blk.Text() + y)[..end], Closing(blk.name), 0) == ClosingAt(blk)
  {
    hide IndexOf, Block.Text, Closing;
    var buf, closing := blk.Text() + y, Closing(blk.name);
    ClosingOccurs(blk, y);
    OccursInPrefix(buf[..end], buf, closing, ClosingAt(blk));
    forall q | 0 <= q < ClosingAt(blk)
      ensures !OccursAt(buf[..end], closing, q)
    {
      NoClosingBefore(blk, pem, y, q);
      OccursInPrefix(buf[..end], buf, closing, q);
    }
    IndexOfIs(buf[..end], closing, 0, ClosingAt(blk));
  }

  lemma NextBeginOfBlock(blk: Block, pem: PemDecoder, y: Bytes)
    requires blk.Armoured(pem)
    ensures NextBegin(blk.Text() + y) >= |blk.Text()|
  {
    hide IndexOf, Block.Text;
    var at := IndexOf(blk.Text() + y, BEGIN, |BEGIN|);
    if at != -1 && at < |blk.Text()| {
      NoBeginInside(blk, pem, y, at);
      assert false;
    }
  }

  /** A block ends where its text does, whatever comes after. */
  lemma ExtentOfBlock(blk: Block, pem: PemDecoder, y: Bytes)
    requires blk.Armoured(pem)
    ensures Extent(blk.Text() + y) == Some(|blk.Text()|)
  {
    hide IndexOf, Block.Text, NextBegin, NameIn, PastBreak;
    var buf := blk.Text() + y;
    var next := NextBegin(buf);
    NextBeginOfBlock(blk, pem, y);
    FirstLineOfBlock(blk, pem, y, next);
    assert ClosingAt(blk) + |Closing(blk.name)| <= Min(|buf|, next + |Closing(blk.name)| - 1) by {
      ClosingOccurs(blk, []);
      assert blk.Text() + [] == blk.Text();
    }
    ClosingOfBlock(blk, pem, y, Min(|buf|, next + |Closing(blk.name)| - 1));
    EndOfBlock(blk, pem, y);
  }

  // ----- The round trip

  ghost predicate IsCA(pem: PemDecoder, blocks: seq<Block>, ders: seq<Bytes>) {
    forall i | 0 <= i < |blocks| :: blocks[i].Armoured(pem) && HoldsAny(blocks[i].body, ders)
  }

  lemma ReadFirstBlock(pem: PemDecoder, blk: Block, t: Bytes)
    requires blk.Armoured(pem)
    ensures ReadBlock(pem, blk.Text() + t, 0) == Some((blk.body, |blk.Text()|))
  {
    hide Extent, Block.Text;
    var s := blk.Text() + t;
    var buf := s[0..Min(0 + MAX_CERTIFICATE_BYTES, |s|)];
    var y := buf[|blk.Text()|..];
    assert buf == blk.Text() + y;
    ExtentOfBlock(blk, pem, y);
    assert buf[..|blk.Text()|] == blk.Text() + [];
  }

  lemma BeginsOwnBlock(p: Bytes, blk: Block, t: Bytes)
    ensures IndexOf(p + (blk.Text() + t), BEGIN, |p|) == |p|
  {
    hide Block.Text, IndexOf;
    var r := blk.Text() + t;
    BlockOpens(blk);
    OccursInPrefix(blk.Text(), r, BEGIN, 0);
    IndexOfIs(r, BEGIN, 0, 0);
    IndexOfAfter(p, r, BEGIN, 0);
  }

  lemma ReadOwnBlock(pem: PemDecoder, p: Bytes, blk: Block, t: Bytes)
    requires blk.Armoured(pem)
    ensures ReadBlock(pem, p + (blk.Text() + t), |p|) == Some((blk.body, |p| + |blk.Text()|))
  {
    hide ReadBlock, Block.Text, IndexOf;
    ReadFirstBlock(pem, blk, t);
    ReadBlockAfter(pem, p, blk.Text() + t, 0);
  }

  lemma BlockOpens(blk: Block)
    ensures |blk.Text()| >= |BEGIN| && OccursAt(blk.Text(), BEGIN, 0)
  {
  }

  /** The CA's blocks, one after the other, are cut; what is kept of the file skips them. */
  lemma {:induction false} CutBlocks(pem: PemDecoder, p: Bytes, blocks: seq<Block>, t: Bytes, ders: seq<Bytes>)
    requires IsCA(pem, blocks, ders) && FindCerts(pem, t, ders, 0) == []
    ensures var s := p + (Concat(blocks) + t); var cuts := FindCerts(pem, s, ders, |p|);
      InOrder(cuts, |p|, |s|) && Kept(s, cuts, |p|) == t && (blocks != [] ==> cuts != [])
    decreases |blocks|
  {
    hide ReadBlock, HoldsAny, IndexOf, Block.Text, Block.Armoured;
    var s := p + (Concat(blocks) + t);
    if blocks == [] {
      assert s == p + t;
      FindAfter(pem, p, t, ders, 0);
    } else {
      var blk, rest := blocks[0], Concat(blocks[1..]) + t;
      assert Concat(blocks) + t == blk.Text() + rest;
      BeginsOwnBlock(p, blk, rest);
      ReadOwnBlock(pem, p, blk, rest);
      assert s == (p + blk.Text()) + rest;
      CutBlocks(pem, p + blk.Text(), blocks[1..], t, ders);
    }
  }

  /** Cuts past b leave b whole. */
  lemma KeptFrom(s: Bytes, cuts: seq<Span>, from: nat)
    requires from <= |s| && InOrder(cuts, from, |s|)
    ensures InOrder(cuts, 0, |s|) && Kept(s, cuts, 0) == s[..from] + Kept(s, cuts, from)
  {
    hide Kept, InOrder;
    if cuts == [] {
      KeptRest(s, from);
      KeptRest(s, 0);
      assert InOrder(cuts, 0, |s|) by { InOrderFrom(cuts, from, 0, |s|); }
    } else {
      InOrderFrom(cuts, from, 0, |s|);
      assert cuts[0..] == cuts;
      KeptStep(s, cuts, 0, from);
      KeptStep(s, cuts, 0, 0);
      assert s[0..cuts[0].start] == s[..from] + s[from..cuts[0].start];
    }
  }

  /**
   * A bundle b that ends its line, then the CA, then whatever a step appended: with no copy of the
   * CA elsewhere, removal leaves exactly b and what the step appended, and a binary untouched.
   */
  lemma RemoveUndoesAppend(pem: PemDecoder, b: Bytes, blocks: seq<Block>, t: Bytes, ders: seq<Bytes>)
    requires EndsLine(b) && blocks != [] && IsCA(pem, blocks, ders)
    requires FindCerts(pem, b, ders, 0) == [] && FindCerts(pem, t, ders, 0) == []
    ensures var s := b + (Concat(blocks) + t);
      Removed(pem, s, ders) == if 0 in s then s else b + t
  {
    hide FindCerts, HoldsAny, Block.Text, Kept;
    var r := Concat(blocks) + t;
    BlockOpens(blocks[0]);
    assert blocks[0].Text() <= r;
    OccursInPrefix(blocks[0].Text(), r, BEGIN, 0);
    FindBefore(pem, b, r, ders, 0);
    CutBlocks(pem, b, blocks, t, ders);
    var cuts := FindCerts(pem, b + r, ders, |b|);
    assert FindCerts(pem, b + r, ders, 0) == cuts;
    KeptFrom(b + r, cuts, |b|);
    assert (b + r)[..|b|] == b;
  }

  lemma BlockEnds(blk: Block, pem: PemDecoder)
    requires blk.Armoured(pem)
    ensures var a := blk.Text(); a[|a| - 1] == NEWLINE && a[|a| - 2] != NEWLINE && |a| > 2
  {
  }

  /** A CA made of armoured blocks is written out as it stands. */
  lemma {:induction false} AppendedIsConcat(pem: PemDecoder, blocks: seq<Block>)
    requires blocks != [] && forall i | 0 <= i < |blocks| :: blocks[i].Armoured(pem)
    ensures var ca := Concat(blocks);
      |ca| >= 2 && ca[|ca| - 1] == NEWLINE && ca[|ca| - 2] != NEWLINE && TrimNewlines(ca) + [NEWLINE] == ca
  {
    hide Block.Text;
    BlockEnds(blocks[0], pem);
    if |blocks| > 1 {
      AppendedIsConcat(pem, blocks[1..]);
      assert |Concat(blocks[1..])| >= 2;
    } else {
      assert Concat(blocks) == blocks[0].Text();
    }
    var ca := Concat(blocks);
    assert TrimNewlines(ca[..|ca| - 1]) == ca[..|ca| - 1];
  }

  /** What removal looks for is what the CA file decodes to, and every block of it holds that. */
  lemma {:induction false} BlocksAreTheCA(pem: PemDecoder, blocks: seq<Block>)
    requires pem([]).None?
    requires forall i | 0 <= i < |blocks| :: blocks[i].Armoured(pem) && HasSuffix(blocks[i].name, CERTIFICATE)
    ensures var ders := CertificateDERs(pem, Concat(blocks));
      |ders| == |blocks| && forall i | 0 <= i < |blocks| :: ders[i] == blocks[i].body
  {
    hide Block.Text, HasSuffix;
    if blocks != [] {
      BlocksAreTheCA(pem, blocks[1..]);
      BlockOpens(blocks[0]);
    }
  }

  lemma AppendedBefore(pem: PemDecoder, b: Bytes, blocks: seq<Block>, t: Bytes)
    requires blocks != [] && forall i | 0 <= i < |blocks| :: blocks[i].Armoured(pem)
    ensures Appended(b, Concat(blocks)) + t == Terminated(b) + (Concat(blocks) + t)
  {
    hide Block.Text, Block.Armoured, TrimNewlines, Concat, Terminated;
    AppendedIsConcat(pem, blocks);
    var ca := Concat(blocks);
    SameThree(Terminated(b), TrimNewlines(ca), [NEWLINE]);
    SameThree(Terminated(b), ca, t);
  }

  lemma SameThree(a: Bytes, b: Bytes, c: Bytes)
    ensures (a + b) + c == a + (b + c)
  {
  }

  /**
   * Removing the CA undoes appending it: a bundle gets back everything it held, an unterminated
   * last line gaining only its line break, along with whatever a step appended meanwhile; a file
   * holding a NUL is left untouched.
   */
  lemma AppendThenRemove(pem: PemDecoder, b: Bytes, blocks: seq<Block>, t: Bytes)
    requires pem([]).None? && blocks != []
    requires forall i | 0 <= i < |blocks| :: blocks[i].Armoured(pem) && HasSuffix(blocks[i].name, CERTIFICATE)
    requires var ders := CertificateDERs(pem, Concat(blocks));
      FindCerts(pem, Terminated(b), ders, 0) == [] && FindCerts(pem, t, ders, 0) == []
    ensures var ca := Concat(blocks); var s := Appended(b, ca) + t;
      Removed(pem, s, CertificateDERs(pem, ca)) ==
        if 0 in s then s else (if b == [] || b[|b| - 1] == NEWLINE then b else b + [NEWLINE]) + t
  {
    hide Block.Text, Block.Armoured, FindCerts, Removed, TrimNewlines, CertificateDERs, HasSuffix, Concat, IndexOf, OccursAt;
    var ders := CertificateDERs(pem, Concat(blocks));
    BlocksAreTheCA(pem, blocks);
    forall i | 0 <= i < |blocks|
      ensures HoldsAny(blocks[i].body, ders)
    {
      HoldsItself(ders, i);
    }
    AppendedBefore(pem, b, blocks, t);
    RemoveUndoesAppend(pem, Terminated(b), blocks, t, ders);
  }

  /**
   * Removal is not idempotent: closing a gap can join what stood on either side of it into a block
   * of the CA. Here a copy is cut out of the middle of another one's opening dashes.
   */
  lemma RemovalCanUncoverACopy(pem: PemDecoder, blk: Block, ders: seq<Bytes>)
    requires blk.Armoured(pem) && HoldsAny(blk.body, ders) && 0 !in blk.Text()
    ensures |blk.Text()| > 3
    ensures var a := blk.Text(); var s := a[..3] + a + a[3..];
      Removed(pem, s, ders) == a && Removed(pem, a, ders) == []
  {
    hide Block.Text, ReadBlock, HoldsAny, IndexOf, FindAny;
    var a := blk.Text();
    BlockOpens(blk);
    var p, t := a[..3], a[3..];
    assert a[..3] + a + a[3..] == p + (a + t) && p + t == a;
    assert Concat([blk]) == a;
    NoBeginInTail(pem, blk, t);
    CutBlocks(pem, p, [blk], t, ders);
    DashesFirst(pem, blk, t, ders);
    KeptFrom(p + (a + t), FindCerts(pem, p + (a + t), ders, 3), 3);
    RemoveUndoesAppend(pem, [], [blk], [], ders);
    assert [] + (Concat([blk]) + []) == a;
  }

  lemma DashesFirst(pem: PemDecoder, blk: Block, t: Bytes, ders: seq<Bytes>)
    ensures |blk.Text()| > 3
    ensures var s := blk.Text()[..3] + (blk.Text() + t); FindCerts(pem, s, ders, 0) == FindCerts(pem, s, ders, 3)
  {
    hide Block.Text, ReadBlock, HoldsAny, IndexOf;
    var a := blk.Text();
    BlockOpens(blk);
    var s := a[..3] + (a + t);
    assert forall k | 0 <= k < |BEGIN| :: a[k] == BEGIN[k];
    assert s[5] == a[2] == BEGIN[2] && s[6] == a[3] == BEGIN[3] && s[7] == a[4] == BEGIN[4];
    assert forall q | 0 <= q < 3 && OccursAt(s, BEGIN, q) :: s[q + 5] == BEGIN[5];
    SkipTo(s, BEGIN, 0, 3);
  }

  lemma {:induction false} SkipTo(s: Bytes, n: Bytes, from: nat, to: nat)
    requires from <= to && forall p | from <= p < to :: !OccursAt(s, n, p)
    ensures IndexOf(s, n, from) == IndexOf(s, n, to)
    decreases if from < to then to - from else 0
  {
    if from < to {
      SkipTo(s, n, from + 1, to);
    }
  }

  lemma NoBeginInTail(pem: PemDecoder, blk: Block, t: Bytes)
    requires blk.Armoured(pem) && |blk.Text()| > 3 && t == blk.Text()[3..]
    ensures forall ders :: FindCerts(pem, t, ders, 0) == []
  {
    hide Block.Text, IndexOf;
    var at := IndexOf(t, BEGIN, 0);
    assert blk.Text() + [] == blk.Text() && blk.Text()[3..|blk.Text()|] == t;
    if at != -1 {
      OccursInSlice(blk.Text(), BEGIN, 3, |blk.Text()|, at);
      NoBeginInside(blk, pem, [], at + 3);
      assert false;
    }
  }
}
