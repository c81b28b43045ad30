/**
 * Fitting a report's blocks into a byte limit (src/core/lib/report/render/fit-step-summary.ts):
 * blocks are given room in order of priority, and one that does not fit is cut at a line boundary.
 */
module SummaryFit {
  import opened Regex
  import opened Search
  import opened Sorting
  import opened Text

  const SAFETY_MARGIN_BYTES := 8192

  datatype Cut = Keep | AtLines | Atomic

  /** An absent `open`, `close` or `notice` is the empty text, and an absent `head` is 0. */
  datatype Block = Block(
    priority: int, level: int, section: string, text: string, cut: Cut, head: nat, open: string, close: string, notice: string)

  // ---- bytes ----

  /** A character's length in UTF-8. */
  function CharBytes(c: char): nat {
    if c as int < 0x80 then 1 else if c as int < 0x800 then 2 else if c as int < 0x10000 then 3 else 4
  }

  function Bytes(s: string): nat {
    if s == [] then 0 else Bytes(s[..|s| - 1]) + CharBytes(s[|s| - 1])
  }

  lemma {:induction false} BytesAdd(a: string, b: string)
    ensures Bytes(a + b) == Bytes(a) + Bytes(b)
  {
    if b == [] {
      assert a + b == a;
    } else {
      assert (a + b)[..|a + b| - 1] == a + b[..|b| - 1];
      BytesAdd(a, b[..|b| - 1]);
    }
  }

  function WholeBlock(b: Block): string {
    b.open + b.text + b.close
  }

  function Size(b: Block): nat {
    Bytes(WholeBlock(b))
  }

  lemma SizeIs(b: Block)
    ensures Size(b) == Bytes(b.open) + Bytes(b.text) + Bytes(b.close)
  {
    BytesAdd(b.open, b.text);
    BytesAdd(b.open + b.text, b.close);
  }

  // ---- lines ----

  /** The next line break at or after `pos`, or the end. */
  function NextBreak(text: string, pos: nat): (nl: nat)
    requires pos <= |text|
    ensures pos <= nl <= |text| && (nl < |text| ==> text[nl] == '\n') && forall k | pos <= k < nl :: text[k] != '\n'
    decreases |text| - pos
  {
    if pos == |text| || text[pos] == '\n' then pos else NextBreak(text, pos + 1)
  }

  /** A position a line starts at. */
  predicate IsLineStart(text: string, pos: nat) {
    pos <= |text| && (pos == 0 || text[pos - 1] == '\n')
  }

  predicate IsFence(line: string) {
    "```" <= Trim(line)
  }

  /** Whether a fence is open after the lines of `text` before `end`. */
  function FenceOpen(text: string, pos: nat, end: nat): bool
    requires pos <= end <= |text|
    decreases |text| - pos
  {
    var nl := NextBreak(text, pos);
    if nl >= end then false else IsFence(text[pos..nl]) != FenceOpen(text, nl + 1, end)
  }

  function LineCount(text: string, pos: nat, end: nat): nat
    requires pos <= end <= |text|
    decreases |text| - pos
  {
    var nl := NextBreak(text, pos);
    if nl >= end then 0 else 1 + LineCount(text, nl + 1, end)
  }

  /** How far whole lines fit: the first line start after which the next line, with its break, does not. */
  function FitsTo(text: string, pos: nat, room: int): (end: nat)
    requires pos <= |text|
    ensures pos <= end <= |text|
    decreases |text| - pos
  {
    var nl := NextBreak(text, pos);
    if nl == |text| || Bytes(text[..nl + 1]) > room then pos else FitsTo(text, nl + 1, room)
  }

  lemma {:induction false} FitsToIs(text: string, pos: nat, room: int)
    requires IsLineStart(text, pos)
    ensures var end := FitsTo(text, pos, room);
      && pos <= end && IsLineStart(text, end) && (end == pos || Bytes(text[..end]) <= room)
      && (var nl := NextBreak(text, end); nl == |text| || Bytes(text[..nl + 1]) > room)
    decreases |text| - pos
  {
    hide Bytes;
    var nl := NextBreak(text, pos);
    if !(nl == |text| || Bytes(text[..nl + 1]) > room) {
      FitsToIs(text, nl + 1, room);
    }
  }

  // ---- one block ----

  /** The notice standing alone keeps the blank line that ends what is above it. */
  function Alone(b: Block): string {
    (if "\n" <= (if b.open != [] then b.open else b.text) then "\n" else "") + b.notice
  }

  function Room(b: Block, budget: nat): int {
    budget - Bytes(b.open) - Bytes(b.close) - Bytes(b.notice)
  }

  /** The block cut to a budget. */
  function CutTo(b: Block, budget: nat): string {
    var end := FitsTo(b.text, 0, Room(b, budget));
    if b.cut == Atomic || (b.head > 0 && LineCount(b.text, 0, end) <= b.head) then Alone(b)
    else
      b.open + b.text[..end] + (if FenceOpen(b.text, 0, end) then "```\n" else "") + (if b.head > 0 then "\n" else "")
        + b.notice + b.close
  }

  /** Another line before `end`. */
  lemma {:induction false} OneMoreLine(text: string, pos: nat, at: nat)
    requires pos <= at <= |text| && IsLineStart(text, at) && IsLineStart(text, pos) && NextBreak(text, at) < |text|
    ensures var next := NextBreak(text, at) + 1;
      && LineCount(text, pos, next) == LineCount(text, pos, at) + 1
      && FenceOpen(text, pos, next) == (FenceOpen(text, pos, at) != IsFence(text[at..next - 1]))
    decreases at - pos
  {
    hide IsFence;
    var nl := NextBreak(text, pos);
    var next := NextBreak(text, at) + 1;
    if pos < at {
      LineStartsAfter(text, pos, at);
      OneMoreLine(text, nl + 1, at);
      assert FenceOpen(text, pos, at) == (IsFence(text[pos..nl]) != FenceOpen(text, nl + 1, at));
      assert FenceOpen(text, pos, next) == (IsFence(text[pos..nl]) != FenceOpen(text, nl + 1, next));
    } else {
      assert LineCount(text, next, next) == 0 && !FenceOpen(text, next, next);
      assert FenceOpen(text, pos, next) == (IsFence(text[pos..nl]) != FenceOpen(text, next, next));
    }
  }

  lemma LineStartsAfter(text: string, pos: nat, at: nat)
    requires pos < at <= |text| && IsLineStart(text, at)
    ensures NextBreak(text, pos) < at
  {
    assert text[at - 1] == '\n';
  }

  /** The loop has come to `pos`, and what it holds is what the lines before it make. */
  ghost predicate IsAt(b: Block, budget: nat, pos: nat, kept: string, usedBytes: nat, count: nat, fenceOpen: bool) {
    && IsLineStart(b.text, pos) && kept == b.text[..pos] && usedBytes == Bytes(kept)
    && count == LineCount(b.text, 0, pos) && fenceOpen == FenceOpen(b.text, 0, pos)
    && FitsTo(b.text, pos, Room(b, budget)) == FitsTo(b.text, 0, Room(b, budget))
  }

  /** The budget runs out before the text does. */
  lemma NextLine(b: Block, budget: nat, pos: nat, kept: string, usedBytes: nat, count: nat, fenceOpen: bool)
    requires Size(b) > budget || budget == 0
    requires IsAt(b, budget, pos, kept, usedBytes, count, fenceOpen)
    ensures pos <= |b.text|
    ensures var nl := NextBreak(b.text, pos);
      var line := b.text[pos..nl];
      var used := usedBytes + Bytes(line + "\n");
      if used > Room(b, budget) then pos == FitsTo(b.text, 0, Room(b, budget))
      else nl < |b.text| && IsAt(b, budget, nl + 1, kept + (line + "\n"), used, count + 1, fenceOpen != IsFence(line))
  {
    hide Bytes, FenceOpen, LineCount, IsFence, Room, FitsTo;
    var text, nl := b.text, NextBreak(b.text, pos);
    var line := text[pos..nl];
    LineBytes(text, pos, nl);
    if nl == |text| {
      LastLineIsTooLong(b, budget, pos);
      FitsToLast(text, pos, Room(b, budget));
    } else {
      assert text[..nl + 1] == text[..pos] + (line + "\n");
      FitsToStep(text, pos, Room(b, budget));
      OneMoreLine(text, 0, pos);
    }
  }

  lemma FitsToLast(text: string, pos: nat, room: int)
    requires pos <= |text| && NextBreak(text, pos) == |text|
    ensures FitsTo(text, pos, room) == pos
  {
  }

  lemma FitsToStep(text: string, pos: nat, room: int)
    requires pos <= |text| && NextBreak(text, pos) < |text|
    ensures var next := NextBreak(text, pos) + 1;
      FitsTo(text, pos, room) == if Bytes(text[..next]) > room then pos else FitsTo(text, next, room)
  {
    hide Bytes;
  }

  /** A line with its break, in bytes. */
  lemma LineBytes(text: string, pos: nat, nl: nat)
    requires pos <= |text| && nl == NextBreak(text, pos)
    ensures Bytes(text[..pos]) + Bytes(text[pos..nl] + "\n") ==
      if nl == |text| then Bytes(text) + 1 else Bytes(text[..nl + 1])
  {
    hide Bytes;
    var line := text[pos..nl];
    BytesAdd(line, "\n");
    ShortTexts();
    if nl == |text| {
      assert text == text[..pos] + line;
      BytesAdd(text[..pos], line);
    } else {
      assert text[..nl + 1] == text[..pos] + (line + "\n");
      BytesAdd(text[..pos], line + "\n");
    }
  }

  lemma LastLineIsTooLong(b: Block, budget: nat, pos: nat)
    requires Size(b) > budget || budget == 0
    ensures Bytes(b.text) + 1 > Room(b, budget)
  {
    hide Bytes;
    SizeIs(b);
  }

  /**
   * The block cut to `budget`. The loop has no end of its own: after the last line it would start over.
   * It never gets there, because a block is only cut when it does not fit its budget or has none.
   */
  method CutBlock(b: Block, budget: nat) returns (out: string)
    requires Size(b) > budget || budget == 0
    ensures out == CutTo(b, budget)
  {
    hide Bytes, FitsTo, Room, IsFence, Alone, Size;
    var notice := b.notice;
    var alone := Alone(b);
    if b.cut == Atomic { return alone; }
    var room := Room(b, budget);
    var kept, fenceOpen := "", false;
    var usedBytes: nat, count: nat, pos: nat := 0, 0, 0;
    assert IsAt(b, budget, pos, kept, usedBytes, count, fenceOpen) by {
      ShortTexts();
    }
    while true
      invariant pos <= |b.text| && IsAt(b, budget, pos, kept, usedBytes, count, fenceOpen)
      decreases |b.text| - pos
    {
      NextLine(b, budget, pos, kept, usedBytes, count, fenceOpen);
      var nl := NextBreak(b.text, pos);
      var line := b.text[pos..nl];
      var withNewline := line + "\n";
      var lineBytes := Bytes(withNewline);
      if usedBytes + lineBytes > room { break; }
      kept := kept + withNewline;
      usedBytes := usedBytes + lineBytes;
      count := count + 1;
      if IsFence(line) { fenceOpen := !fenceOpen; }
      pos := nl + 1;
    }
    assert pos == FitsTo(b.text, 0, room) && kept == b.text[..pos] && count == LineCount(b.text, 0, pos)
        && fenceOpen == FenceOpen(b.text, 0, pos);
    out := FinishCut(b, kept, count, fenceOpen);
  }

  /** The head that must be kept, the fence to close, the blank line that ends a table. */
  method FinishCut(b: Block, lines: string, count: nat, fenceOpen: bool) returns (out: string)
    ensures out == if b.head > 0 && count <= b.head then Alone(b)
      else b.open + lines + (if fenceOpen then "```\n" else "") + (if b.head > 0 then "\n" else "") + b.notice + b.close
  {
    hide Alone;
    var kept := lines;
    if b.head > 0 && count <= b.head { return Alone(b); }
    if fenceOpen { kept := kept + "```\n"; }
    if b.head > 0 { kept := kept + "\n"; }
    out := b.open + kept + b.notice + b.close;
    var fence, blank := if fenceOpen then "```\n" else "", if b.head > 0 then "\n" else "";
    assert kept == lines + fence + blank;
    assert b.open + (lines + fence + blank) == b.open + lines + fence + blank;
  }

  /** What a cut costs beside the lines it keeps. */
  function Overhead(b: Block): nat {
    Bytes(b.open) + Bytes(b.close) + Bytes(b.notice) + 5
  }

  /** A cut block is no longer than its budget or its frame, and the two closing lines. */
  lemma CutIsBounded(b: Block, budget: nat)
    ensures Bytes(CutTo(b, budget)) <= budget + Overhead(b)
  {
    hide Bytes, FitsTo, LineCount, FenceOpen;
    var end := FitsTo(b.text, 0, Room(b, budget));
    FitsToIs(b.text, 0, Room(b, budget));
    assert Bytes("\n") == 1 && Bytes("```\n") == 4 && Bytes("") == 0 by { ShortTexts(); }
    BytesAdd(if "\n" <= (if b.open != [] then b.open else b.text) then "\n" else "", b.notice);
    var fence := if FenceOpen(b.text, 0, end) then "```\n" else "";
    var blank := if b.head > 0 then "\n" else "";
    assert b.text[..0] == "";
    BytesAdd(b.open, b.text[..end]);
    BytesAdd(b.open + b.text[..end], fence);
    BytesAdd(b.open + b.text[..end] + fence, blank);
    BytesAdd(b.open + b.text[..end] + fence + blank, b.notice);
    BytesAdd(b.open + b.text[..end] + fence + blank + b.notice, b.close);
  }

  lemma ShortTexts()
    ensures Bytes("\n") == 1 && Bytes("```\n") == 4 && Bytes("") == 0
  {
    assert "\n"[..0] == "" && "```\n"[..3] == "```" && "```"[..2] == "``" && "``"[..1] == "`" && "`"[..0] == "";
  }

  /** How many lines end in a text. */
  function Breaks(s: string): nat {
    if s == "" then 0 else Breaks(s[..|s| - 1]) + if s[|s| - 1] == '\n' then 1 else 0
  }

  lemma {:induction false} BreaksAdd(a: string, b: string)
    ensures Breaks(a + b) == Breaks(a) + Breaks(b)
  {
    if b == [] {
      assert a + b == a;
    } else {
      assert (a + b)[..|a + b| - 1] == a + b[..|b| - 1];
      BreaksAdd(a, b[..|b| - 1]);
    }
  }

  lemma {:induction false} NoBreaks(s: string)
    requires forall k | 0 <= k < |s| :: s[k] != '\n'
    ensures Breaks(s) == 0
  {
    if s != "" {
      NoBreaks(s[..|s| - 1]);
    }
  }

  lemma {:induction false} LinesAreBreaks(text: string, pos: nat, end: nat)
    requires pos <= end <= |text| && IsLineStart(text, end)
    ensures LineCount(text, pos, end) == Breaks(text[pos..end])
    decreases end - pos
  {
    hide Breaks;
    if pos < end {
      LineStartsAfter(text, pos, end);
      var nl := NextBreak(text, pos);
      LinesAreBreaks(text, nl + 1, end);
      OneBreak(text, pos, nl);
      BreaksAdd(text[pos..nl + 1], text[nl + 1..end]);
      assert text[pos..end] == text[pos..nl + 1] + text[nl + 1..end];
    } else {
      NoBreaks(text[pos..end]);
    }
  }

  lemma OneBreak(text: string, pos: nat, nl: nat)
    requires pos <= nl < |text| && text[nl] == '\n' && forall k | pos <= k < nl :: text[k] != '\n'
    ensures Breaks(text[pos..nl + 1]) == 1
  {
    NoBreaks(text[pos..nl]);
    assert text[pos..nl + 1][..nl - pos] == text[pos..nl];
  }

  lemma BytesOfPrefix(text: string, a: nat, b: nat)
    requires a <= b <= |text|
    ensures Bytes(text[..a]) <= Bytes(text[..b])
  {
    BytesAdd(text[..a], text[a..b]);
    assert text[..a] + text[a..b] == text[..b];
  }

  /** No line start further on is within the room. */
  lemma FitsFarthest(text: string, room: int, e: nat)
    requires IsLineStart(text, e) && Bytes(text[..e]) <= room
    ensures e <= FitsTo(text, 0, room)
  {
    hide Bytes;
    FitsToIs(text, 0, room);
    var end := FitsTo(text, 0, room);
    if end < e {
      LineStartsAfter(text, end, e);
      BytesOfPrefix(text, NextBreak(text, end) + 1, e);
    }
  }

  /**
   * What a cut prints. It keeps whole lines of the text, the most there is room for beside the frame and
   * the notice; where it is to be whole, or no line is left after its head, the notice stands alone,
   * with the break the block opened with.
   */
  lemma CutKeepsWholeLines(b: Block, budget: nat) returns (end: nat)
    ensures var room := budget - Bytes(b.open) - Bytes(b.close) - Bytes(b.notice);
      && IsLineStart(b.text, end) && (end == 0 || Bytes(b.text[..end]) <= room)
      && (forall e: nat | IsLineStart(b.text, e) && Bytes(b.text[..e]) <= room :: e <= end)
    ensures CutTo(b, budget) ==
      if b.cut == Atomic || (b.head > 0 && Breaks(b.text[..end]) <= b.head)
      then (if "\n" <= b.open + b.text then "\n" else "") + b.notice
      else (b.open + (b.text[..end] + (if FenceOpen(b.text[..end], 0, end) then "```\n" else "")
        + (if b.head > 0 then "\n" else "")) + b.notice + b.close)
  {
    hide Bytes, FitsTo, LineCount, FenceOpen, Breaks;
    var room := Room(b, budget);
    end := FitsTo(b.text, 0, room);
    FitsToIs(b.text, 0, room);
    forall e: nat | IsLineStart(b.text, e) && Bytes(b.text[..e]) <= room ensures e <= end {
      FitsFarthest(b.text, room, e);
    }
    LinesAreBreaks(b.text, 0, end);
    assert b.text[0..end] == b.text[..end];
    FenceOfPrefix(b.text, 0, end);
    FirstBreak(b);
    var fence, blank := if FenceOpen(b.text, 0, end) then "```\n" else "", if b.head > 0 then "\n" else "";
    assert b.open + (b.text[..end] + fence + blank) == b.open + b.text[..end] + fence + blank;
  }

  lemma FirstBreak(b: Block)
    ensures Alone(b) == (if "\n" <= b.open + b.text then "\n" else "") + b.notice
  {
    if b.open == [] {
      assert b.open + b.text == b.text;
    } else {
      assert (b.open + b.text)[0] == b.open[0];
    }
  }

  lemma FenceLine(text: string, pos: nat, end: nat)
    requires pos <= end <= |text| && NextBreak(text, pos) < end
    ensures var nl := NextBreak(text, pos); FenceOpen(text, pos, end) == (IsFence(text[pos..nl]) != FenceOpen(text, nl + 1, end))
  {
  }

  lemma NoLine(text: string, pos: nat)
    requires pos <= |text|
    ensures !FenceOpen(text, pos, pos)
  {
  }

  lemma {:induction false} FenceOfConcat(a: string, b: string, pos: nat)
    requires IsLineStart(a, pos) && IsLineStart(a, |a|) && pos <= |a|
    ensures FenceOpen(a + b, pos, |a + b|) == (FenceOpen(a, pos, |a|) != FenceOpen(a + b, |a|, |a + b|))
    decreases |a| - pos
  {
    hide IsFence, FenceOpen;
    if pos < |a| {
      LineStartsAfter(a, pos, |a|);
      var nl := NextBreak(a, pos);
      SameBreak(a, b, pos);
      assert (a + b)[pos..nl] == a[pos..nl];
      FenceOfConcat(a, b, nl + 1);
      FenceLine(a, pos, |a|);
      FenceLine(a + b, pos, |a + b|);
    } else {
      NoLine(a, pos);
    }
  }

  lemma {:induction false} SameBreak(a: string, b: string, pos: nat)
    requires pos <= |a| && NextBreak(a, pos) < |a|
    ensures NextBreak(a + b, pos) == NextBreak(a, pos)
    decreases |a| - pos
  {
    if a[pos] != '\n' {
      SameBreak(a, b, pos + 1);
    }
  }

  /** What comes after a line says nothing of the fences before it. */
  lemma {:induction false} FenceOfPrefix(text: string, pos: nat, end: nat)
    requires pos <= end && IsLineStart(text, end)
    ensures FenceOpen(text[..end], pos, end) == FenceOpen(text, pos, end)
    decreases end - pos
  {
    hide IsFence, FenceOpen;
    var a := text[..end];
    if pos < end {
      LineStartsAfter(text, pos, end);
      LineStartsAfter(a, pos, end);
      SameBreak(a, text[end..], pos);
      assert a + text[end..] == text;
      var nl := NextBreak(text, pos);
      assert a[pos..nl] == text[pos..nl];
      FenceOfPrefix(text, nl + 1, end);
      FenceLine(a, pos, end);
      FenceLine(text, pos, end);
    } else {
      NoLine(a, pos);
      NoLine(text, pos);
    }
  }

  lemma FencesClose(a: string)
    requires IsLineStart(a, |a|)
    ensures var kept := a + if FenceOpen(a, 0, |a|) then "```\n" else ""; !FenceOpen(kept, 0, |kept|)
  {
    var b := if FenceOpen(a, 0, |a|) then "```\n" else "";
    FenceOfConcat(a, b, 0);
    if FenceOpen(a, 0, |a|) {
      ClosingFence(a);
    } else {
      assert a + b == a;
    }
  }

  /** Closing what is open closes all: at the notice no fence is. */
  lemma FencesAreClosed(text: string, end: nat)
    requires IsLineStart(text, end)
    ensures var kept := text[..end] + if FenceOpen(text[..end], 0, end) then "```\n" else ""; !FenceOpen(kept, 0, |kept|)
  {
    hide FenceOpen;
    FencesClose(text[..end]);
  }

  lemma NextBreakIs(text: string, pos: nat, nl: nat)
    requires pos <= nl < |text| && text[nl] == '\n' && forall k | pos <= k < nl :: text[k] != '\n'
    ensures NextBreak(text, pos) == nl
  {
  }

  lemma BareFence()
    ensures IsFence("```")
  {
    assert !IsSpace('`');
    assert TrimStart("```") == "```" && TrimEnd("```") == "```";
  }

  lemma ClosingFence(a: string)
    ensures FenceOpen(a + "```\n", |a|, |a| + 4)
  {
    hide IsFence, NextBreak;
    var s := a + "```\n";
    assert s[|a|] == '`' && s[|a| + 1] == '`' && s[|a| + 2] == '`' && s[|a| + 3] == '\n';
    NextBreakIs(s, |a|, |a| + 3);
    assert s[|a|..|a| + 3] == "```";
    BareFence();
    assert !FenceOpen(s, |a| + 4, |a| + 4) && FenceOpen(s, |a|, |a| + 4) == (IsFence("```") != FenceOpen(s, |a| + 4, |a| + 4)) by {
    }
  }

  // ---- all blocks ----

  /** Keep blocks come before all others; among equals the earlier block does. */
  predicate RankBefore(blocks: seq<Block>, i: nat, j: nat) {
    if i >= |blocks| || j >= |blocks| then i < |blocks| || (j >= |blocks| && i < j)
    else
      var a, b := blocks[i], blocks[j];
      if a.cut == Keep || b.cut == Keep then a.cut == Keep && (b.cut != Keep || i < j)
      else a.priority < b.priority || (a.priority == b.priority && i < j)
  }

  function Indices(n: nat): seq<nat> {
    seq(n, i requires 0 <= i < n => i)
  }

  function Order(blocks: seq<Block>): seq<nat> {
    Sort((i: nat, j: nat) => RankBefore(blocks, i, j), Indices(|blocks|))
  }

  /** How far the fit has come: what is left, what is printed, where sections were cut, and which blocks. */
  datatype Fit = Fit(budget: int, out: seq<string>, cutAt: map<string, int>, cuts: seq<nat>)

  function Start(blocks: seq<Block>, budget: int): Fit {
    Fit(budget, seq(|blocks|, i requires 0 <= i < |blocks| => ""), map[], [])
  }

  /** One block's turn. */
  function Place(blocks: seq<Block>, i: nat, st: Fit): (next: Fit)
    requires i < |blocks| == |st.out|
    ensures |next.out| == |blocks|
  {
    var b := blocks[i];
    if b.section in st.cutAt && st.cutAt[b.section] < b.level then st
    else if b.cut == Keep || Size(b) <= st.budget then
      st.(out := st.out[i := WholeBlock(b)], budget := st.budget - Size(b))
    else
      var text := CutTo(b, Max(0, st.budget));
      Fit(st.budget - Bytes(text), st.out[i := text],
        st.cutAt[b.section := if b.section in st.cutAt then Min(st.cutAt[b.section], b.level) else b.level], st.cuts + [i])
  }

  function PlaceAll(blocks: seq<Block>, order: seq<nat>, budget: int): (st: Fit)
    requires forall k | 0 <= k < |order| :: order[k] < |blocks|
    ensures |st.out| == |blocks|
  {
    if order == [] then Start(blocks, budget)
    else Place(blocks, order[|order| - 1], PlaceAll(blocks, order[..|order| - 1], budget))
  }

  function JoinAll(texts: seq<string>): string {
    if texts == [] then "" else JoinAll(texts[..|texts| - 1]) + texts[|texts| - 1]
  }

  function SizeAll(blocks: seq<Block>): nat {
    if blocks == [] then 0 else SizeAll(blocks[..|blocks| - 1]) + Size(blocks[|blocks| - 1])
  }

  function Wholes(blocks: seq<Block>): seq<string> {
    seq(|blocks|, i requires 0 <= i < |blocks| => WholeBlock(blocks[i]))
  }

  lemma OrderInRange(blocks: seq<Block>)
    ensures |Order(blocks)| == |blocks| && forall k | 0 <= k < |Order(blocks)| :: Order(blocks)[k] < |blocks|
  {
    hide Sort, RankBefore;
    var less := (i: nat, j: nat) => RankBefore(blocks, i, j);
    SortMembers(less, Indices(|blocks|));
    forall k | 0 <= k < |Order(blocks)| ensures Order(blocks)[k] < |blocks| {
      assert Order(blocks)[k] in Order(blocks);
      assert Order(blocks)[k] in Indices(|blocks|);
    }
  }

  function Fitted(blocks: seq<Block>, usedBytes: nat, limitBytes: nat): (string, seq<nat>)
  {
    var budget := limitBytes - SAFETY_MARGIN_BYTES - usedBytes;
    if SizeAll(blocks) <= budget then (JoinAll(Wholes(blocks)), [])
    else
      OrderInRange(blocks);
      var st := PlaceAll(blocks, Order(blocks), budget);
      (JoinAll(st.out), st.cuts)
  }

  /** The fitted summary, and the blocks `onCut` is called with, in the order it is. */
  method FitStepSummary(blocks: seq<Block>, usedBytes: nat, limitBytes: nat) returns (summary: string, cuts: seq<nat>)
    ensures (summary, cuts) == Fitted(blocks, usedBytes, limitBytes)
  {
    hide Bytes, CutTo, Sort, RankBefore, SizeAll, JoinAll;
    var budget: int := limitBytes - SAFETY_MARGIN_BYTES - usedBytes;
    if SizeAll(blocks) <= budget {
      return JoinAll(Wholes(blocks)), [];
    }
    OrderInRange(blocks);
    var order := Order(blocks);
    ghost var start := budget;
    var out := seq(|blocks|, i requires 0 <= i < |blocks| => "");
    var cutAt: map<string, int> := map[];
    cuts := [];
    assert PlaceAll(blocks, order[..0], start) == Start(blocks, start);
    for k := 0 to |order|
      invariant |out| == |blocks|
      invariant Fit(budget, out, cutAt, cuts) == PlaceAll(blocks, order[..k], start)
    {
      var i := order[k];
      var b := blocks[i];
      PlaceStep(blocks, order, start, k);
      if b.section in cutAt && cutAt[b.section] < b.level { continue; }
      if b.cut == Keep || Size(b) <= budget {
        out := out[i := WholeBlock(b)];
        budget := budget - Size(b);
      } else {
        var text := CutBlock(b, Max(0, budget));
        out := out[i := text];
        budget := budget - Bytes(text);
        cutAt := cutAt[b.section := if b.section in cutAt then Min(cutAt[b.section], b.level) else b.level];
        cuts := cuts + [i];
      }
    }
    assert order[..|order|] == order;
    summary := JoinAll(out);
  }

  lemma PlaceStep(blocks: seq<Block>, order: seq<nat>, budget: int, k: nat)
    requires k < |order| && forall j | 0 <= j < |order| :: order[j] < |blocks|
    ensures PlaceAll(blocks, order[..k + 1], budget) == Place(blocks, order[k], PlaceAll(blocks, order[..k], budget))
  {
    hide Place;
    assert order[..k + 1][..k] == order[..k];
  }

  // ---- the order ----

  lemma RankIsOrder(blocks: seq<Block>)
    ensures IsOrder((i: nat, j: nat) => RankBefore(blocks, i, j))
  {
    var less := (i: nat, j: nat) => RankBefore(blocks, i, j);
    forall x, y | less(x, y) ensures !less(y, x) {
    }
    forall x, y, z | less(x, z) ensures less(x, y) || less(y, z) {
    }
  }

  /**
   * Room is given to each block once: to those always kept first, then by priority, the lowest first,
   * and among equals in document order.
   */
  lemma OrderIsByRank(blocks: seq<Block>)
    ensures forall j, k | 0 <= j < k < |Order(blocks)| ::
      var x, y := Order(blocks)[j], Order(blocks)[k];
      && x < |blocks| && y < |blocks| && x != y && RankBefore(blocks, x, y)
      && (blocks[y].cut == Keep ==> blocks[x].cut == Keep && x < y)
      && (blocks[x].cut != Keep ==>
            blocks[x].priority < blocks[y].priority || (blocks[x].priority == blocks[y].priority && x < y))
    ensures multiset(Order(blocks)) == multiset(Indices(|blocks|))
  {
    hide Sort, RankBefore;
    var less := (i: nat, j: nat) => RankBefore(blocks, i, j);
    var order := Order(blocks);
    OrderInRange(blocks);
    RankIsOrder(blocks);
    SortInOrder(less, Indices(|blocks|));
    SortStaysDistinct(less, Indices(|blocks|));
    SortPermutes(less, Indices(|blocks|));
    forall j, k | 0 <= j < k < |order| ensures RankBefore(blocks, order[j], order[k]) && order[j] != order[k] {
      assert !less(order[k], order[j]);
      RankIsTotal(blocks, order[j], order[k]);
    }
    forall j, k | 0 <= j < k < |order|
      ensures var x, y := order[j], order[k];
        && (blocks[y].cut == Keep ==> blocks[x].cut == Keep && x < y)
        && (blocks[x].cut != Keep ==>
              blocks[x].priority < blocks[y].priority || (blocks[x].priority == blocks[y].priority && x < y))
    {
      RankIs(blocks, order[j], order[k]);
    }
  }

  lemma RankIs(blocks: seq<Block>, x: nat, y: nat)
    requires x < |blocks| && y < |blocks| && RankBefore(blocks, x, y)
    ensures blocks[y].cut == Keep ==> blocks[x].cut == Keep && x < y
    ensures blocks[x].cut != Keep ==>
      blocks[x].priority < blocks[y].priority || (blocks[x].priority == blocks[y].priority && x < y)
  {
  }

  lemma RankIsTotal(blocks: seq<Block>, i: nat, j: nat)
    requires i != j
    ensures RankBefore(blocks, i, j) || RankBefore(blocks, j, i)
  {
  }

  predicate IsOrdered(blocks: seq<Block>, order: seq<nat>) {
    && (forall k | 0 <= k < |order| :: order[k] < |blocks|)
    && (forall j, k | 0 <= j < k < |order| :: RankBefore(blocks, order[j], order[k]))
    && (forall j, k | 0 <= j < k < |order| :: order[j] != order[k])
  }

  lemma OrderIsOrdered(blocks: seq<Block>)
    ensures IsOrdered(blocks, Order(blocks))
  {
    hide Order, RankBefore;
    OrderInRange(blocks);
    OrderIsByRank(blocks);
  }

  // ---- the bound ----

  function SumBytes(texts: seq<string>): nat {
    if texts == [] then 0 else SumBytes(texts[..|texts| - 1]) + Bytes(texts[|texts| - 1])
  }

  lemma {:induction false} JoinedBytes(texts: seq<string>)
    ensures Bytes(JoinAll(texts)) == SumBytes(texts)
  {
    if texts != [] {
      JoinedBytes(texts[..|texts| - 1]);
      BytesAdd(JoinAll(texts[..|texts| - 1]), texts[|texts| - 1]);
    }
  }

  lemma {:induction false} SumUpdate(texts: seq<string>, i: nat, text: string)
    requires i < |texts| && texts[i] == ""
    ensures SumBytes(texts[i := text]) == SumBytes(texts) + Bytes(text)
  {
    hide Bytes;
    ShortTexts();
    var n := |texts| - 1;
    if i == n {
      assert texts[i := text][..n] == texts[..n];
    } else {
      assert texts[i := text][..n] == texts[..n][i := text];
      SumUpdate(texts[..n], i, text);
    }
  }

  lemma {:induction false} SumOfEmpties(n: nat)
    ensures SumBytes(seq(n, i requires 0 <= i < n => "")) == 0
  {
    if n > 0 {
      var texts := seq(n, i requires 0 <= i < n => "");
      assert texts[..n - 1] == seq(n - 1, i requires 0 <= i < n - 1 => "");
      SumOfEmpties(n - 1);
    }
  }

  /** The bytes of the `keep` blocks among `order`. */
  function KeepSum(blocks: seq<Block>, order: seq<nat>): nat
    requires forall k | 0 <= k < |order| :: order[k] < |blocks|
  {
    if order == [] then 0
    else
      var last := order[|order| - 1];
      KeepSum(blocks, order[..|order| - 1]) + if blocks[last].cut == Keep then Size(blocks[last]) else 0
  }

  function CutCost(blocks: seq<Block>, cuts: seq<nat>): nat
    requires forall k | 0 <= k < |cuts| :: cuts[k] < |blocks|
  {
    if cuts == [] then 0 else CutCost(blocks, cuts[..|cuts| - 1]) + Overhead(blocks[cuts[|cuts| - 1]])
  }

  predicate AllKeep(blocks: seq<Block>, order: seq<nat>)
    requires forall k | 0 <= k < |order| :: order[k] < |blocks|
  {
    forall k | 0 <= k < |order| :: blocks[order[k]].cut == Keep
  }

  /** What holds after the first blocks of an order have had their turn. */
  ghost predicate Bounded(blocks: seq<Block>, order: seq<nat>, budget: int, st: Fit)
    requires forall k | 0 <= k < |order| :: order[k] < |blocks|
  {
    && |st.out| == |blocks| && (forall i | 0 <= i < |blocks| && i !in order :: st.out[i] == "")
    && (forall k | 0 <= k < |st.cuts| :: st.cuts[k] < |blocks|)
    && SumBytes(st.out) + st.budget == budget
    && SumBytes(st.out) <= Max(budget, KeepSum(blocks, order)) + CutCost(blocks, st.cuts)
    && (AllKeep(blocks, order) ==> st.cutAt == map[] && st.cuts == [] && SumBytes(st.out) == KeepSum(blocks, order))
  }

  lemma NextInOrder(blocks: seq<Block>, done: seq<nat>, i: nat)
    requires i < |blocks| && forall k | 0 <= k < |done| :: done[k] < |blocks|
    ensures KeepSum(blocks, done + [i]) == KeepSum(blocks, done) + if blocks[i].cut == Keep then Size(blocks[i]) else 0
    ensures AllKeep(blocks, done + [i]) <==> AllKeep(blocks, done) && blocks[i].cut == Keep
  {
    hide Size;
    var order := done + [i];
    assert order[..|done|] == done && order[|done|] == i;
    if AllKeep(blocks, order) {
      assert forall k | 0 <= k < |done| :: order[k] == done[k];
      assert blocks[order[|done|]].cut == Keep;
    }
  }

  lemma NextCut(blocks: seq<Block>, cuts: seq<nat>, i: nat)
    requires i < |blocks| && forall k | 0 <= k < |cuts| :: cuts[k] < |blocks|
    ensures CutCost(blocks, cuts + [i]) == CutCost(blocks, cuts) + Overhead(blocks[i])
  {
    hide Overhead;
    assert (cuts + [i])[..|cuts|] == cuts;
  }

  /** One more turn keeps the bound. */
  lemma PlaceKeepsBound(blocks: seq<Block>, done: seq<nat>, i: nat, budget: int, st: Fit)
    requires i < |blocks| && i !in done && forall k | 0 <= k < |done| :: done[k] < |blocks|
    requires Bounded(blocks, done, budget, st) && (blocks[i].cut == Keep ==> AllKeep(blocks, done))
    ensures Bounded(blocks, done + [i], budget, Place(blocks, i, st))
  {
    hide Bytes, SumBytes, KeepSum, CutTo, CutCost, Overhead, WholeBlock, AllKeep;
    var b := blocks[i];
    NextInOrder(blocks, done, i);
    assert st.out[i] == "";
    if b.section in st.cutAt && st.cutAt[b.section] < b.level {
      assert !AllKeep(blocks, done);
    } else if b.cut == Keep || Size(b) <= st.budget {
      assert Bytes(WholeBlock(b)) == Size(b);
      SumUpdate(st.out, i, WholeBlock(b));
    } else {
      var text := CutTo(b, Max(0, st.budget));
      SumUpdate(st.out, i, text);
      CutIsBounded(b, Max(0, st.budget));
      NextCut(blocks, st.cuts, i);
    }
  }

  lemma KeepComesFirst(blocks: seq<Block>, i: nat, j: nat)
    requires i < |blocks| && j < |blocks| && RankBefore(blocks, i, j)
    ensures blocks[j].cut == Keep ==> blocks[i].cut == Keep
  {
  }

  lemma OrderedInit(blocks: seq<Block>, order: seq<nat>)
    requires IsOrdered(blocks, order) && order != []
    ensures var done, i := order[..|order| - 1], order[|order| - 1];
      && IsOrdered(blocks, done) && i !in done && i < |blocks| && order == done + [i]
      && (blocks[i].cut == Keep ==> AllKeep(blocks, done))
  {
    hide RankBefore;
    var done, i := order[..|order| - 1], order[|order| - 1];
    assert forall j, k | 0 <= j < k < |done| :: done[j] == order[j] && done[k] == order[k];
    forall k | 0 <= k < |done| ensures blocks[i].cut == Keep ==> blocks[done[k]].cut == Keep {
      assert done[k] == order[k];
      assert RankBefore(blocks, order[k], order[|order| - 1]);
      KeepComesFirst(blocks, order[k], i);
    }
    assert forall k | 0 <= k < |done| :: done[k] == order[k] && order[k] != i;
  }

  lemma {:induction false} PlacedIsBounded(blocks: seq<Block>, order: seq<nat>, budget: int)
    requires IsOrdered(blocks, order)
    ensures Bounded(blocks, order, budget, PlaceAll(blocks, order, budget))
  {
    hide Place, RankBefore, Bytes, AllKeep;
    if order == [] {
      SumOfEmpties(|blocks|);
      assert KeepSum(blocks, []) == 0 && CutCost(blocks, []) == 0;
    } else {
      var done, i := order[..|order| - 1], order[|order| - 1];
      OrderedInit(blocks, order);
      hide IsOrdered;
      PlacedIsBounded(blocks, done, budget);
      PlaceKeepsBound(blocks, done, i, budget, PlaceAll(blocks, done, budget));
    }
  }

  predicate InRange(blocks: seq<Block>, order: seq<nat>) {
    forall k | 0 <= k < |order| :: order[k] < |blocks|
  }

  lemma {:induction false} KeepSumPermutes(blocks: seq<Block>, a: seq<nat>, b: seq<nat>)
    requires multiset(a) == multiset(b) && InRange(blocks, a) && InRange(blocks, b)
    ensures KeepSum(blocks, a) == KeepSum(blocks, b)
    decreases |a|
  {
    if a == [] {
      assert |multiset(b)| == 0;
    } else {
      var n := |a| - 1;
      var j, rest := TakeOut(a, b);
      KeepSumPermutes(blocks, a[..n], rest);
      KeepSumWithout(blocks, b, j, rest);
    }
  }

  /** The last of `a` taken out of a rearrangement of it. */
  lemma TakeOut(a: seq<nat>, b: seq<nat>) returns (j: nat, rest: seq<nat>)
    requires a != [] && multiset(a) == multiset(b)
    ensures j < |b| && b[j] == a[|a| - 1] && rest == b[..j] + b[j + 1..] && multiset(rest) == multiset(a[..|a| - 1])
  {
    var n := |a| - 1;
    LastApart(a);
    assert a[n] in multiset(b);
    j :| 0 <= j < |b| && b[j] == a[n];
    rest := b[..j] + b[j + 1..];
    OneApart(b, j);
    assert multiset(rest) == multiset(b) - multiset{b[j]};
    assert multiset(a[..n]) == multiset(a) - multiset{a[n]};
  }

  lemma LastApart(a: seq<nat>)
    requires a != []
    ensures multiset(a) == multiset(a[..|a| - 1]) + multiset{a[|a| - 1]}
  {
    assert a == a[..|a| - 1] + [a[|a| - 1]];
  }

  lemma OneApart(b: seq<nat>, j: nat)
    requires j < |b|
    ensures multiset(b) == multiset(b[..j] + b[j + 1..]) + multiset{b[j]}
  {
    assert b == b[..j] + [b[j]] + b[j + 1..];
  }

  lemma WithoutLast(b: seq<nat>, j: nat, rest: seq<nat>)
    requires j < |b| - 1 && rest == b[..j] + b[j + 1..]
    ensures var n := |b| - 1;
      |rest| == n && rest[n - 1] == b[n] && rest[..n - 1] == b[..n][..j] + b[..n][j + 1..]
  {
    var n := |b| - 1;
    assert b[..n][..j] == b[..j] && b[..n][j + 1..] == b[j + 1..n];
    forall k | 0 <= k < n - 1 ensures rest[k] == (b[..j] + b[j + 1..n])[k] {
    }
    assert rest[..n - 1] == b[..j] + b[j + 1..n];
  }

  lemma {:induction false} KeepSumWithout(blocks: seq<Block>, b: seq<nat>, j: nat, rest: seq<nat>)
    requires j < |b| && InRange(blocks, b) && InRange(blocks, rest) && rest == b[..j] + b[j + 1..]
    ensures KeepSum(blocks, b) == KeepSum(blocks, rest) + if blocks[b[j]].cut == Keep then Size(blocks[b[j]]) else 0
    decreases |b|
  {
    hide Size;
    var n := |b| - 1;
    if j == n {
      assert rest == b[..n];
    } else {
      WithoutLast(b, j, rest);
      KeepSumWithout(blocks, b[..n], j, rest[..n - 1]);
    }
  }

  /**
   * The summary has a real bound: it is at most the limit less the margin and what is already used, or
   * the frame that is always kept where that is more, and beside that each cut block's own frame.
   */
  lemma FitIsBounded(blocks: seq<Block>, usedBytes: nat, limitBytes: nat)
    ensures var (summary, cuts) := Fitted(blocks, usedBytes, limitBytes);
      && (forall k | 0 <= k < |cuts| :: cuts[k] < |blocks|)
      && Bytes(summary) <= Max(limitBytes - SAFETY_MARGIN_BYTES - usedBytes, KeepSum(blocks, Indices(|blocks|)))
        + CutCost(blocks, cuts)
  {
    hide Bytes, Order, PlaceAll, SizeAll, JoinAll, SumBytes, KeepSum, IsOrdered;
    var budget := limitBytes - SAFETY_MARGIN_BYTES - usedBytes;
    if SizeAll(blocks) <= budget {
      WholesAreSizes(blocks);
      assert CutCost(blocks, []) == 0;
    } else {
      var order := Order(blocks);
      OrderInRange(blocks);
      OrderIsOrdered(blocks);
      OrderIsByRank(blocks);
      PlacedIsBounded(blocks, order, budget);
      KeepSumPermutes(blocks, order, Indices(|blocks|));
      JoinedBytes(PlaceAll(blocks, order, budget).out);
    }
  }

  lemma {:induction false} WholesAreSizes(blocks: seq<Block>)
    ensures Bytes(JoinAll(Wholes(blocks))) == SizeAll(blocks)
  {
    if blocks == [] {
      assert Wholes(blocks) == [];
    } else {
      var n := |blocks| - 1;
      WholesAreSizes(blocks[..n]);
      assert Wholes(blocks)[..n] == Wholes(blocks[..n]);
      BytesAdd(JoinAll(Wholes(blocks[..n])), WholeBlock(blocks[n]));
    }
  }

  /** What each block prints, in document order. */
  function Printed(blocks: seq<Block>, usedBytes: nat, limitBytes: nat): (texts: seq<string>)
    ensures |texts| == |blocks|
  {
    var budget: int := limitBytes - SAFETY_MARGIN_BYTES - usedBytes;
    if SizeAll(blocks) <= budget then Wholes(blocks)
    else
      OrderInRange(blocks);
      PlaceAll(blocks, Order(blocks), budget).out
  }

  // ---- what each block gets ----

  /** What the blocks that come before the `q`-th of an order leave of the budget. */
  function LeftAt(texts: seq<string>, order: seq<nat>, q: nat, budget: int): int
    requires q <= |order| && forall k | 0 <= k < |order| :: order[k] < |texts|
  {
    if q == 0 then budget else LeftAt(texts, order, q - 1, budget) - Bytes(texts[order[q - 1]])
  }

  /** A block of its section that is less deep was cut before its turn. */
  predicate IsSilenced(blocks: seq<Block>, order: seq<nat>, cuts: seq<nat>, q: nat)
    requires q < |order| && InRange(blocks, order)
  {
    exists p | 0 <= p < q :: order[p] in cuts
      && blocks[order[p]].section == blocks[order[q]].section && blocks[order[p]].level < blocks[order[q]].level
  }

  /**
   * What the `q`-th block of an order prints, given what the ones before it do: nothing where it is
   * silenced, all of it where it must be kept or there is room, and else what is left cut to fit.
   */
  ghost predicate TurnIs(blocks: seq<Block>, order: seq<nat>, texts: seq<string>, cuts: seq<nat>, budget: int, q: nat)
    requires q < |order| && InRange(blocks, order) && |texts| == |blocks|
  {
    var b, left, silenced := blocks[order[q]], LeftAt(texts, order, q, budget), IsSilenced(blocks, order, cuts, q);
    && texts[order[q]] == (
        if silenced then "" else if b.cut == Keep || Bytes(b.open + b.text + b.close) <= left then b.open + b.text + b.close
        else CutTo(b, Max(0, left)))
    && (order[q] in cuts <==> !silenced && b.cut != Keep && Bytes(b.open + b.text + b.close) > left)
  }

  /** What is known of the fit after the first `n` of an order. */
  ghost predicate FirstTurns(blocks: seq<Block>, order: seq<nat>, n: nat, budget: int, st: Fit)
    requires n <= |order| && InRange(blocks, order)
  {
    && |st.out| == |blocks| && st.budget == LeftAt(st.out, order, n, budget)
    && (forall i | 0 <= i < |blocks| && i !in order[..n] :: st.out[i] == "")
    && (forall c | c in st.cuts :: c in order[..n])
    && CutsKnown(blocks, st)
    && (forall q | 0 <= q < n :: TurnIs(blocks, order, st.out, st.cuts, budget, q))
  }

  /** A section is cut at the least level of its cut blocks. */
  ghost predicate CutsKnown(blocks: seq<Block>, st: Fit) {
    && (forall c | c in st.cuts :: c < |blocks| && blocks[c].section in st.cutAt && st.cutAt[blocks[c].section] <= blocks[c].level)
    && (forall s | s in st.cutAt :: exists c | c in st.cuts ::
          c < |blocks| && blocks[c].section == s && blocks[c].level == st.cutAt[s])
  }

  lemma {:induction false} SameLeft(texts: seq<string>, texts': seq<string>, order: seq<nat>, q: nat, budget: int)
    requires q <= |order| && |texts| == |texts'| && forall k | 0 <= k < |order| :: order[k] < |texts|
    requires forall p | 0 <= p < q :: texts[order[p]] == texts'[order[p]]
    ensures LeftAt(texts, order, q, budget) == LeftAt(texts', order, q, budget)
  {
    hide Bytes;
    if q > 0 {
      SameLeft(texts, texts', order, q - 1, budget);
    }
  }

  /** A turn stays what it was when later blocks have theirs. */
  lemma TurnStays(blocks: seq<Block>, order: seq<nat>, n: nat, budget: int, st: Fit, next: Fit, q: nat)
    requires q < n < |order| && InRange(blocks, order) && |st.out| == |blocks| == |next.out|
    requires forall j, k | 0 <= j < k < |order| :: order[j] != order[k]
    requires forall i | 0 <= i < |blocks| && i != order[n] :: next.out[i] == st.out[i]
    requires forall c | c != order[n] :: c in next.cuts <==> c in st.cuts
    requires TurnIs(blocks, order, st.out, st.cuts, budget, q)
    ensures TurnIs(blocks, order, next.out, next.cuts, budget, q)
  {
    hide Bytes, CutTo;
    SameLeft(st.out, next.out, order, q, budget);
    assert IsSilenced(blocks, order, next.cuts, q) == IsSilenced(blocks, order, st.cuts, q) by {
      assert forall p | 0 <= p < q :: order[p] != order[n];
    }
  }

  /** Where a section was cut tells who is silenced. */
  lemma SilencedIs(blocks: seq<Block>, order: seq<nat>, n: nat, st: Fit)
    requires n < |order| && InRange(blocks, order) && CutsKnown(blocks, st) && forall c | c in st.cuts :: c in order[..n]
    ensures var b := blocks[order[n]];
      IsSilenced(blocks, order, st.cuts, n) <==> b.section in st.cutAt && st.cutAt[b.section] < b.level
  {
    var b := blocks[order[n]];
    if b.section in st.cutAt && st.cutAt[b.section] < b.level {
      var c :| c in st.cuts && c < |blocks| && blocks[c].section == b.section && blocks[c].level == st.cutAt[b.section];
      assert c in order[..n];
      var p :| 0 <= p < |order[..n]| && order[..n][p] == c;
      assert order[p] == c;
    }
  }

  lemma PlaceKnowsCuts(blocks: seq<Block>, i: nat, st: Fit)
    requires i < |blocks| == |st.out| && CutsKnown(blocks, st)
    ensures CutsKnown(blocks, Place(blocks, i, st))
  {
    hide Bytes, CutTo, Size;
    var next := Place(blocks, i, st);
    if next.cuts != st.cuts {
      assert next.cuts == st.cuts + [i];
      forall s | s in next.cutAt
        ensures exists c | c in next.cuts :: c < |blocks| && blocks[c].section == s && blocks[c].level == next.cutAt[s]
      {
        if s == blocks[i].section && next.cutAt[s] == blocks[i].level {
          assert i in next.cuts;
        } else {
          assert s in st.cutAt && next.cutAt[s] == st.cutAt[s];
          var c :| c in st.cuts && c < |blocks| && blocks[c].section == s && blocks[c].level == st.cutAt[s];
          assert c in next.cuts;
        }
      }
    }
  }

  lemma NextTurn(blocks: seq<Block>, order: seq<nat>, n: nat, budget: int, st: Fit)
    requires n < |order| && InRange(blocks, order) && FirstTurns(blocks, order, n, budget, st)
    requires forall j, k | 0 <= j < k < |order| :: order[j] != order[k]
    ensures FirstTurns(blocks, order, n + 1, budget, Place(blocks, order[n], st))
  {
    hide Bytes, CutTo, TurnIs, CutsKnown, LeftAt, IsSilenced;
    var i := order[n];
    var next := Place(blocks, i, st);
    assert order[..n + 1] == order[..n] + [i];
    assert i !in order[..n];
    assert forall j | 0 <= j < |blocks| && j != i :: next.out[j] == st.out[j];
    assert forall c | c != i :: c in next.cuts <==> c in st.cuts;
    SilencedIs(blocks, order, n, st);
    PlaceKnowsCuts(blocks, i, st);
    SameLeft(st.out, next.out, order, n, budget);
    forall q | 0 <= q < n ensures TurnIs(blocks, order, next.out, next.cuts, budget, q) {
      TurnStays(blocks, order, n, budget, st, next, q);
    }
    assert IsSilenced(blocks, order, next.cuts, n) == IsSilenced(blocks, order, st.cuts, n) by {
      SilencedBefore(blocks, order, n, st.cuts, next.cuts);
    }
    assert i !in st.cuts;
    assert next.budget == st.budget - Bytes(next.out[i]) by { ShortTexts(); }
    LeftStep(next.out, order, n, budget);
    ThisTurn(blocks, order, n, budget, st);
  }

  lemma SilencedBefore(blocks: seq<Block>, order: seq<nat>, n: nat, cuts: seq<nat>, cuts': seq<nat>)
    requires n < |order| && InRange(blocks, order) && forall j, k | 0 <= j < k < |order| :: order[j] != order[k]
    requires forall c | c != order[n] :: c in cuts' <==> c in cuts
    ensures IsSilenced(blocks, order, cuts', n) == IsSilenced(blocks, order, cuts, n)
  {
    assert forall p | 0 <= p < n :: order[p] != order[n];
  }

  lemma LeftStep(texts: seq<string>, order: seq<nat>, n: nat, budget: int)
    requires n < |order| && forall k | 0 <= k < |order| :: order[k] < |texts|
    ensures LeftAt(texts, order, n + 1, budget) == LeftAt(texts, order, n, budget) - Bytes(texts[order[n]])
  {
    hide Bytes;
  }

  lemma ThisTurn(blocks: seq<Block>, order: seq<nat>, n: nat, budget: int, st: Fit)
    requires n < |order| && InRange(blocks, order) && |st.out| == |blocks| && order[n] !in st.cuts && st.out[order[n]] == ""
    requires st.budget == LeftAt(st.out, order, n, budget)
    requires var next := Place(blocks, order[n], st);
      && LeftAt(next.out, order, n, budget) == st.budget
      && IsSilenced(blocks, order, next.cuts, n) == (var b := blocks[order[n]]; b.section in st.cutAt && st.cutAt[b.section] < b.level)
    ensures var next := Place(blocks, order[n], st); TurnIs(blocks, order, next.out, next.cuts, budget, n)
  {
    hide Bytes, CutTo, LeftAt, IsSilenced;
  }

  lemma {:induction false} PlacedInTurn(blocks: seq<Block>, order: seq<nat>, n: nat, budget: int)
    requires n <= |order| && InRange(blocks, order) && forall j, k | 0 <= j < k < |order| :: order[j] != order[k]
    ensures FirstTurns(blocks, order, n, budget, PlaceAll(blocks, order[..n], budget))
    decreases n
  {
    hide Place, TurnIs, LeftAt;
    if n == 0 {
      assert order[..0] == [];
      assert LeftAt(Start(blocks, budget).out, order, 0, budget) == budget by { NothingSpent(Start(blocks, budget).out, order, budget); }
    } else {
      PlacedInTurn(blocks, order, n - 1, budget);
      NextTurn(blocks, order, n - 1, budget, PlaceAll(blocks, order[..n - 1], budget));
      assert order[..n][..n - 1] == order[..n - 1] && order[..n][n - 1] == order[n - 1];
    }
  }

  lemma NothingSpent(texts: seq<string>, order: seq<nat>, budget: int)
    requires forall k | 0 <= k < |order| :: order[k] < |texts|
    ensures LeftAt(texts, order, 0, budget) == budget
  {
  }

  /**
   * What a report's summary is, for all blocks: everything whole where it fits, and else what each block
   * prints in its turn of the order above, in document order.
   */
  lemma PrintedIs(blocks: seq<Block>, usedBytes: nat, limitBytes: nat)
    ensures var (summary, cuts) := Fitted(blocks, usedBytes, limitBytes);
      var texts, budget := Printed(blocks, usedBytes, limitBytes), limitBytes - SAFETY_MARGIN_BYTES - usedBytes;
      && summary == JoinAll(texts) && InRange(blocks, Order(blocks))
      && if Bytes(JoinAll(Wholes(blocks))) <= budget then texts == Wholes(blocks) && cuts == []
         else forall q | 0 <= q < |Order(blocks)| :: TurnIs(blocks, Order(blocks), texts, cuts, budget, q)
  {
    hide Order, PlaceAll, SizeAll, JoinAll, Bytes, TurnIs;
    WholesAreSizes(blocks);
    OrderInRange(blocks);
    OrderIsByRank(blocks);
    var order := Order(blocks);
    PlacedInTurn(blocks, order, |order|, limitBytes - SAFETY_MARGIN_BYTES - usedBytes);
    assert order[..|order|] == order;
  }

  /** In particular, where a block was cut the deeper blocks of its section that come after it print nothing. */
  lemma CutSilencesDeeper(blocks: seq<Block>, usedBytes: nat, limitBytes: nat, p: nat, q: nat)
    requires p < q < |Order(blocks)|
    requires forall k | 0 <= k < |Order(blocks)| :: Order(blocks)[k] < |blocks|
    requires Order(blocks)[p] in Fitted(blocks, usedBytes, limitBytes).1
    requires var i, j := Order(blocks)[p], Order(blocks)[q];
      blocks[j].section == blocks[i].section && blocks[j].level > blocks[i].level
    ensures Printed(blocks, usedBytes, limitBytes)[Order(blocks)[q]] == ""
  {
    hide Order, PlaceAll, SizeAll, JoinAll, Bytes, CutTo, LeftAt;
    PrintedIs(blocks, usedBytes, limitBytes);
    assert TurnIs(blocks, Order(blocks), Printed(blocks, usedBytes, limitBytes), Fitted(blocks, usedBytes, limitBytes).1,
      limitBytes - SAFETY_MARGIN_BYTES - usedBytes, q);
  }
}
