/** The proxy CA's slot in an NSS pkcs11.txt: appended, taken back out, and cut out of copies. */
module NssSlot {
  import Bundle
  import opened Search

  const NSS_CA_DB_DIR := "/dev/buildcage-nssdb"
  const LINE_1 := "library=libsoftokn3.so"
  const LINE_2 := "name=\"buildcage proxy CA\""
  const LINE_3 := "parameters=\"configdir='sql:" + NSS_CA_DB_DIR + "' flags=readOnly\""
  const LINE_4 := "NSS=\"\""
  /** The slot's entry, ended by a blank line. */
  const SLOT: string := LINE_1 + "\n" + LINE_2 + "\n" + LINE_3 + "\n" + LINE_4 + "\n\n"
  const CONFIG_DIR: string := "configdir='sql:" + NSS_CA_DB_DIR + "'"
  const MAX_PKCS11_TXT_BYTES: nat := 0x10_0000

  predicate EndsWith(s: string, suffix: string) {
    |suffix| <= |s| && s[|s| - |suffix|..] == suffix
  }

  /** The blank line a file gains first when it does not already end in one. */
  function Separator(c: string): string {
    if c == "" || EndsWith(c, "\n\n") || c == "\n" then ""
    else if EndsWith(c, "\n") then "\n"
    else "\n\n"
  }

  function Appended(c: string): string { Separator(c) + SLOT }

  datatype Removal = TooLarge | NoSlot | Left(content: string)

  /** Which bytes go: the separator with the slot where the file still ends in them, else the last slot alone. */
  function Cut(content: string, appended: string): (string, int) {
    var i := LastIndexOf(content, appended, |content| - |appended| + 1);
    if i < 0 || i + |appended| < |content| then (SLOT, LastIndexOf(content, SLOT, |content| - |SLOT| + 1)) else (appended, i)
  }

  /** What taking the slot back leaves of a file. */
  function Removed(content: string, appended: string): Removal {
    if |content| > MAX_PKCS11_TXT_BYTES then TooLarge
    else
      var (cut, i) := Cut(content, appended);
      if i < 0 then NoSlot else Left(content[..i] + content[i + |cut|..])
  }

  /** One left-to-right pass over every slot in s. */
  function ReplaceAll(s: string): string
    decreases |s|
  {
    var i := IndexOf(s, SLOT, 0);
    if i == -1 then s else s[..i] + ReplaceAll(s[i + |SLOT|..])
  }

  /** Passes until none is left: taking one out can join another together. */
  function Stripped(s: string): string
    decreases |s|
  {
    if !Contains(s, SLOT) then s
    else
      ReplaceAllShorter(s);
      Stripped(ReplaceAll(s))
  }

  lemma {:induction false} ReplaceAllShorter(s: string)
    ensures |ReplaceAll(s)| <= |s|
    ensures Contains(s, SLOT) ==> |ReplaceAll(s)| < |s|
    decreases |s|
  {
    hide IndexOf;
    var i := IndexOf(s, SLOT, 0);
    if i != -1 {
      ReplaceAllShorter(s[i + |SLOT|..]);
    }
  }

  /** What cutting a copy of the file leaves: first the separator too, where the copy still ends in it. */
  function StrippedCopy(content: string, appended: string): string {
    Stripped(if appended != "" && EndsWith(content, appended) then content[..|content| - |appended|] else content)
  }

  /** A file being rewritten in place and then cut to its new length, broken off somewhere. */
  predicate HalfWritten(was: string, kept: string, now: string) {
    |kept| <= |was| && exists n | 0 <= n <= |kept| :: now == kept[..n] + was[n..]
  }

  /** The last two characters say what separator a file needs. */
  lemma TailTells(c: string)
    ensures c == "" ==> Separator(c) == ""
    ensures c != "" ==> var tail := c[|c| - Min(|c|, 2)..];
      Separator(c) == if EndsWith(tail, "\n\n") || tail == "\n" then "" else if EndsWith(tail, "\n") then "\n" else "\n\n"
  {
    if |c| >= 2 {
      var tail := c[|c| - 2..];
      assert tail[|tail| - 1..] == c[|c| - 1..];
      assert tail[|tail| - 2..] == c[|c| - 2..];
    }
  }

  /** A slot stands at the start of the file or after a blank line, and no more is added than that takes. */
  lemma SlotStandsApart(c: string)
    ensures var before := c + Separator(c); before == "" || before == "\n" || EndsWith(before, "\n\n")
    ensures Separator(c) <= "\n\n" && (Separator(c) == "" <==> c == "" || c == "\n" || EndsWith(c, "\n\n"))
    ensures EndsWith(c, "\n") ==> |Separator(c)| <= 1
  {
    var before := c + Separator(c);
    assert "\n\n" == "\n" + "\n" == ['\n', '\n'];
    if |c| >= 2 && EndsWith(c, "\n\n") {
      assert before == c;
    } else if c != "" && c != "\n" {
      if EndsWith(c, "\n") {
        assert before[|before| - 2..] == [c[|c| - 1], '\n'] && c[|c| - 1..][0] == c[|c| - 1];
      } else {
        assert before[|before| - 2..] == "\n\n";
      }
    }
  }

  class Pkcs11Txt {
    var present: bool
    var content: string

    constructor (present: bool, content: string)
      ensures this.present == present && this.content == content
    {
      this.present, this.content := present, content;
    }

    function Was(): string
      reads this
    {
      if present then content else ""
    }

    /** Adds the slot, creating the file when missing, and returns what was appended. A write can stop partway. */
    method AppendSlot(opening: Bundle.Opening) returns (ok: bool, appended: string)
      requires opening.Missing? <==> !present
      modifies this
      ensures opening.NotRegular? || opening.Unopened? ==> !ok && content == old(content) && present == old(present)
      ensures ok ==> present && appended == Appended(old(Was())) && content == old(Was()) + appended
      ensures old(Was()) <= Was() <= old(Was()) + Appended(old(Was()))
    {
      hide SLOT, Separator, EndsWith;
      ghost var was := Was();
      appended := "";
      if opening.NotRegular? || opening.Unopened? {
        return false, "";
      }
      if !present {
        present, content := true, "";
      }
      var size := |content|;
      if size > 0 {
        var readable := *;
        if !readable {
          return false, "";
        }
        var tail := content[size - Min(size, 2)..];
        if EndsWith(tail, "\n\n") || tail == "\n" {
        } else if EndsWith(tail, "\n") {
          appended := "\n";
        } else {
          appended := "\n\n";
        }
      }
      TailTells(was);
      appended := appended + SLOT;
      assert appended == Appended(was) && content == was;
      var n: nat :| n <= |appended|;
      content := content + appended[..n];
      return n == |appended|, appended;
    }

    /** Writes shorter content over the file and cuts it to length. */
    method Rewrite(kept: string) returns (ok: bool)
      requires |kept| <= |content|
      modifies this`content
      ensures if ok then content == kept else HalfWritten(old(content), kept, content)
    {
      var n: nat :| n <= |kept|;
      var cutOff := *;
      ok := n == |kept| && cutOff;
      content := if ok then kept else kept[..n] + content[n..];
    }

    /**
     * Takes back what was appended. A file the injection created goes once it holds nothing else; one
     * that is no regular file any more holds no slot.
     */
    method RemoveSlot(appended: string, created: bool, opening: Bundle.Opening) returns (ok: bool)
      requires opening.Missing? <==> !present
      modifies this
      ensures !opening.Opened? ==> ok == !opening.Unopened? && content == old(content) && present == old(present)
      ensures opening.Opened? ==> match Removed(old(content), appended)
        case TooLarge => !ok && present && content == old(content)
        case NoSlot => present && content == old(content)
        case Left(kept) =>
          if ok then if created && kept == "" then !present else present && content == kept
          else present && (content == old(content) || HalfWritten(old(content), kept, content))
    {
      hide SLOT, HalfWritten, LastIndexOf;
      if !opening.Opened? {
        return !opening.Unopened?;
      }
      if |content| > MAX_PKCS11_TXT_BYTES {
        return false;
      }
      var readable := *;
      if !readable {
        return false;
      }
      var (cut, i) := Cut(content, appended);
      if i < 0 {
        return true;
      }
      var kept := content[..i] + content[i + |cut|..];
      if created && kept == "" {
        var removed := *;
        present := !removed;
        return removed;
      }
      ok := Rewrite(kept);
    }

    /**
     * Cuts every slot out of a copy; a file that empties is removed. Says whether the file still counts
     * as residue.
     */
    method StripCopy(appended: string) returns (ok: bool, residue: bool)
      requires present
      modifies this
      ensures ok && |old(content)| > MAX_PKCS11_TXT_BYTES ==> residue && present && content == old(content)
      ensures ok && |old(content)| <= MAX_PKCS11_TXT_BYTES ==>
        var kept := StrippedCopy(old(content), appended);
        if kept == "" && old(content) != "" then !present && !residue
        else present && content == kept && residue == Contains(kept, CONFIG_DIR)
      ensures !ok ==> present && (content == old(content) || HalfWritten(old(content), StrippedCopy(old(content), appended), content))
    {
      hide SLOT, CONFIG_DIR, IndexOf, ReplaceAll, HalfWritten;
      var readable := *;
      if !readable {
        return false, false;
      }
      if |content| > MAX_PKCS11_TXT_BYTES {
        return true, true;
      }
      var kept := content;
      if appended != "" && EndsWith(kept, appended) {
        kept := kept[..|kept| - |appended|];
      }
      while Contains(kept, SLOT)
        invariant unchanged(this)
        invariant kept == content || |kept| < |content|
        invariant Stripped(kept) == StrippedCopy(content, appended)
        decreases |kept|
      {
        ReplaceAllShorter(kept);
        kept := ReplaceAll(kept);
      }
      if |kept| < |content| {
        if kept == "" {
          var removed := *;
          present := !removed;
          return removed, false;
        }
        ok := Rewrite(kept);
        if !ok {
          return false, false;
        }
      }
      return true, Contains(kept, CONFIG_DIR);
    }
  }

  // ----- Two slots never overlap

  lemma LinesAreWhole()
    ensures '\n' !in LINE_1 && '\n' !in LINE_2 && '\n' !in LINE_3 && '\n' !in LINE_4
  {
  }

  /** The slot's one blank line is its end. */
  lemma BlankLineEnds(k: nat)
    requires 0 < k < |SLOT| && SLOT[k - 1] == '\n' && SLOT[k] == '\n'
    ensures k == |SLOT| - 1
  {
    LinesAreWhole();
  }

  lemma SlotEnds()
    ensures |SLOT| > 2 && SLOT[0] != '\n' && SLOT[|SLOT| - 1] == '\n' && SLOT[|SLOT| - 2] == '\n'
  {
  }

  /** An occurrence of the slot is followed by none that starts inside it. */
  lemma SlotsApart(s: string, p: nat, q: nat)
    requires OccursAt(s, SLOT, p) && OccursAt(s, SLOT, q) && p < q
    ensures p + |SLOT| <= q
  {
    hide SLOT;
    SlotEnds();
    if q < p + |SLOT| {
      var k := p + |SLOT| - 1 - q;
      SameAt(s, p, q, k);
      if k > 0 {
        SameAt(s, p, q, k - 1);
        BlankLineEnds(k);
      }
      assert false;
    }
  }

  lemma SameAt(s: string, p: nat, q: nat, k: nat)
    requires OccursAt(s, SLOT, p) && OccursAt(s, SLOT, q) && p <= q && q + k < p + |SLOT|
    ensures SLOT[k] == SLOT[q - p + k]
  {
    hide SLOT;
    assert s[q + k] == SLOT[k];
    assert s[p + (q - p + k)] == SLOT[q - p + k];
  }

  // ----- Taking the slot back

  lemma LastIndexOfIs(s: string, n: string, at: nat)
    requires OccursAt(s, n, at) && forall q | at < q && q + |n| <= |s| :: !OccursAt(s, n, q)
    ensures LastIndexOf(s, n, |s| - |n| + 1) == at
  {
  }

  /** In a slot-free tail, and across its start, no slot occurs. */
  lemma NoSlotAfter(b: string, t: string, q: nat)
    requires !Contains(t, SLOT) && |b| < q
    ensures !OccursAt(b + SLOT + t, SLOT, q)
  {
    hide SLOT, IndexOf;
    var s := b + SLOT + t;
    assert OccursAt(s, SLOT, |b|) && s[|b + SLOT|..|s|] == t;
    if OccursAt(s, SLOT, q) {
      SlotsApart(s, |b|, q);
      OccursInSlice(s, SLOT, |b + SLOT|, |s|, q - |b + SLOT|);
    }
  }

  /**
   * Taking back what was appended: with nothing after it the file is what it was, separator
   * included; with a slot-free tail the separator stays, so an entry after it stays one of its own.
   */
  lemma RemoveUndoesAppend(c: string, t: string)
    requires !Contains(t, SLOT) && |c + Appended(c) + t| <= MAX_PKCS11_TXT_BYTES
    ensures Removed(c + Appended(c) + t, Appended(c)) == Left(if t == "" then c else c + Separator(c) + t)
  {
    hide SLOT, Cut, Separator, Appended, Contains;
    var b := c + Separator(c);
    InParts(c, t);
    if t == "" {
      CutsAppended(c);
      assert c + Appended(c) + t == c + Appended(c);
      assert (c + Appended(c))[..|c|] == c;
    } else {
      CutsSlot(c, t);
      assert (b + SLOT + t)[|b| + |SLOT|..] == t && (b + SLOT + t)[..|b|] == b;
    }
  }

  lemma InParts(c: string, t: string)
    ensures c + Appended(c) + t == c + Separator(c) + SLOT + t
  {
    hide SLOT, Separator;
  }

  lemma CutsAppended(c: string)
    ensures Cut(c + Appended(c), Appended(c)) == (Appended(c), |c|)
  {
    hide SLOT, LastIndexOf, Separator;
    assert OccursAt(c + Appended(c), Appended(c), |c|);
    LastIndexOfIs(c + Appended(c), Appended(c), |c|);
  }

  lemma CutsSlot(c: string, t: string)
    requires !Contains(t, SLOT) && t != ""
    ensures Cut(c + Separator(c) + SLOT + t, Appended(c)) == (SLOT, |c + Separator(c)|)
  {
    hide SLOT, IndexOf, LastIndexOf, Separator;
    var appended, b := Appended(c), c + Separator(c);
    var s := b + SLOT + t;
    assert OccursAt(s, SLOT, |b|);
    forall q | |b| < q
      ensures !OccursAt(s, SLOT, q)
    {
      NoSlotAfter(b, t, q);
    }
    LastIndexOfIs(s, SLOT, |b|);
    var i := LastIndexOf(s, appended, |s| - |appended| + 1);
    if i >= 0 && i + |appended| == |s| {
      OccursParts(s, Separator(c), SLOT, i);
      assert false;
    }
  }

  // ----- Cutting copies

  /** However the passes join text together, no slot is left. */
  lemma {:induction false} StrippedHoldsNone(s: string)
    ensures !Contains(Stripped(s), SLOT) && |Stripped(s)| <= |s|
    decreases |s|
  {
    hide SLOT, IndexOf, ReplaceAll;
    if Contains(s, SLOT) {
      ReplaceAllShorter(s);
      StrippedHoldsNone(ReplaceAll(s));
    }
  }

  /** One copy between slot-free texts that do not join into another is taken out alone. */
  lemma StripsOneCopy(b: string, t: string)
    requires !Contains(b, SLOT) && !Contains(t, SLOT) && !Contains(b + t, SLOT)
    ensures Stripped(b + SLOT + t) == b + t
  {
    hide SLOT, IndexOf;
    var s := b + SLOT + t;
    assert OccursAt(s, SLOT, |b|);
    forall q | 0 <= q < |b|
      ensures !OccursAt(s, SLOT, q)
    {
      if OccursAt(s, SLOT, q) {
        SlotsApart(s, q, |b|);
        assert b <= s;
        OccursInPrefix(b, s, SLOT, q);
      }
    }
    IndexOfIs(s, SLOT, 0, |b|);
    assert s[..|b|] == b && s[|b| + |SLOT|..] == t;
    assert ReplaceAll(t) == t;
    assert ReplaceAll(s) == b + t;
  }

  /** A copy that still ends in what was appended to a slot-free file is that file again. */
  lemma StripUndoesAppend(c: string)
    requires !Contains(c, SLOT)
    ensures StrippedCopy(c + Appended(c), Appended(c)) == c
  {
    hide SLOT, IndexOf, ReplaceAll;
    SlotEnds();
    var s := c + Appended(c);
    assert s[|s| - |Appended(c)|..] == Appended(c) && s[..|c|] == c;
  }

  // ----- As bytes

  /** A file's bytes as the text they are looked at as. */
  function AsText(b: Bytes): string {
    seq(|b|, i requires 0 <= i < |b| => b[i] as char)
  }

  function AsBytes(s: string): Bytes {
    seq(|s|, i requires 0 <= i < |s| => s[i] as int % 256)
  }

  predicate IsByteText(s: string) {
    forall k | 0 <= k < |s| :: s[k] as int < 256
  }

  lemma BytesBack(b: Bytes)
    ensures AsBytes(AsText(b)) == b && IsByteText(AsText(b))
  {
  }

  lemma ByteTextJoins(a: string, b: string)
    requires IsByteText(a) && IsByteText(b)
    ensures IsByteText(a + b)
  {
  }

  lemma LineChars()
    ensures IsByteText(LINE_1) && IsByteText(LINE_2) && IsByteText(NSS_CA_DB_DIR) && IsByteText(LINE_4)
    ensures IsByteText("parameters=\"configdir='sql:") && IsByteText("' flags=readOnly\"")
    ensures IsByteText("\n") && IsByteText("\n\n")
  {
  }

  lemma SlotChars()
    ensures IsByteText(SLOT)
  {
    LineChars();
    var head, tail := "parameters=\"configdir='sql:", "' flags=readOnly\"";
    assert LINE_3 == head + NSS_CA_DB_DIR + tail;
    hide LINE_1, LINE_2, LINE_3, LINE_4, NSS_CA_DB_DIR, IsByteText;
    ByteTextJoins(head, NSS_CA_DB_DIR);
    ByteTextJoins(head + NSS_CA_DB_DIR, tail);
    ByteTextJoins(LINE_1, "\n");
    ByteTextJoins(LINE_1 + "\n", LINE_2);
    ByteTextJoins(LINE_1 + "\n" + LINE_2, "\n");
    ByteTextJoins(LINE_1 + "\n" + LINE_2 + "\n", LINE_3);
    ByteTextJoins(LINE_1 + "\n" + LINE_2 + "\n" + LINE_3, "\n");
    ByteTextJoins(LINE_1 + "\n" + LINE_2 + "\n" + LINE_3 + "\n", LINE_4);
    ByteTextJoins(LINE_1 + "\n" + LINE_2 + "\n" + LINE_3 + "\n" + LINE_4, "\n\n");
  }

  lemma AppendedChars(c: string)
    ensures IsByteText(Appended(c)) && IsByteText(Separator(c)) && Appended(c) != ""
  {
    assert SLOT != "";
    hide SLOT;
    SlotChars();
    assert IsByteText(Separator(c));
    ByteTextJoins(Separator(c), SLOT);
  }

  lemma TextBack(s: string)
    requires IsByteText(s)
    ensures AsText(AsBytes(s)) == s
  {
  }

  /** Cutting leaves characters that were there. */
  lemma {:induction false} ReplacedChars(s: string)
    requires IsByteText(s)
    ensures IsByteText(ReplaceAll(s))
    decreases |s|
  {
    hide IndexOf;
    var i := IndexOf(s, SLOT, 0);
    if i != -1 {
      ReplacedChars(s[i + |SLOT|..]);
    }
  }

  lemma {:induction false} StrippedChars(s: string)
    requires IsByteText(s)
    ensures IsByteText(Stripped(s))
    decreases |s|
  {
    hide IndexOf, ReplaceAll, SLOT;
    if Contains(s, SLOT) {
      ReplaceAllShorter(s);
      ReplacedChars(s);
      StrippedChars(ReplaceAll(s));
    }
  }

  /** A copy cut is left without a slot, and still reads as what was left. */
  lemma StrippedCopyIs(b: Bytes, appended: string)
    ensures var kept := StrippedCopy(AsText(b), appended);
      IsByteText(kept) && AsText(AsBytes(kept)) == kept && !Contains(kept, SLOT)
  {
    hide SLOT, IndexOf, ReplaceAll, Stripped;
    var c := AsText(b);
    var s := if appended != "" && EndsWith(c, appended) then c[..|c| - |appended|] else c;
    BytesBack(b);
    StrippedChars(s);
    StrippedHoldsNone(s);
    TextBack(Stripped(s));
  }

  /** What is appended is a slot, whatever comes before it. */
  predicate IsAppended(appended: string) {
    appended == "" || EndsWith(appended, SLOT)
  }

  lemma EndIsThere(s: string, a: string)
    requires EndsWith(s, a) && EndsWith(a, SLOT)
    ensures Contains(s, SLOT)
  {
    hide SLOT, IndexOf;
    var at := |s| - |SLOT|;
    assert s[|s| - |a|..] == a && a[|a| - |SLOT|..] == SLOT;
    assert s[at..] == SLOT;
    assert OccursAt(s, SLOT, at);
  }

  lemma NotAtEnd(s: string, a: string)
    requires !EndsWith(s, a)
    ensures !OccursAt(s, a, |s| - |a|)
  {
    if |a| <= |s| {
      OccursIsSlice(s, a, |s| - |a|);
    }
  }

  /** A file without a slot is left alone by either cut. */
  lemma NoSlotNoCut(c: string, appended: string)
    requires !Contains(c, SLOT) && IsAppended(appended)
    ensures StrippedCopy(c, appended) == c
    ensures appended != "" ==> !Removed(c, appended).Left?
  {
    hide SLOT, IndexOf, LastIndexOf;
    if appended != "" {
      if EndsWith(c, appended) {
        EndIsThere(c, appended);
      }
      NotAtEnd(c, appended);
    }
  }
}
