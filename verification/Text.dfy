/** Cutting strings at a character and putting the pieces back together. */
module Text {
  import opened Regex

  function IndexOfChar(s: string, c: char): (k: nat)
    ensures k <= |s| && c !in s[..k] && (k < |s| ==> s[k] == c)
  {
    if s == [] || s[0] == c then 0
    else
      var k := IndexOfChar(s[1..], c);
      assert s[..k + 1] == [s[0]] + s[1..][..k];
      1 + k
  }

  /** The last index of `c`, or -1. */
  function LastIndexOfChar(s: string, c: char): (k: int)
    ensures -1 <= k < |s|
    ensures k >= 0 ==> s[k] == c && c !in s[k + 1..]
    ensures k < 0 ==> c !in s
  {
    if s == [] then -1
    else if s[|s| - 1] == c then |s| - 1
    else
      var k := LastIndexOfChar(s[..|s| - 1], c);
      assert k >= 0 ==> s[k + 1..] == s[..|s| - 1][k + 1..] + [s[|s| - 1]];
      assert s == s[..|s| - 1] + [s[|s| - 1]];
      k
  }

  function Split(s: string, c: char): (parts: seq<string>)
    ensures parts != []
    decreases |s|
  {
    var k := IndexOfChar(s, c);
    if k == |s| then [s] else [s[..k]] + Split(s[k + 1..], c)
  }

  function Join(parts: seq<string>, sep: string): string {
    if parts == [] then "" else if |parts| == 1 then parts[0] else parts[0] + sep + Join(parts[1..], sep)
  }

  lemma NotBefore(s: string, c: char, k: nat)
    requires k <= |s| && c !in s[..k]
    ensures forall j | 0 <= j < k :: s[j] != c
  {
    assert forall j | 0 <= j < k :: s[..k][j] == s[j];
  }

  lemma NotAfter(s: string, c: char, k: nat)
    requires k < |s| && c !in s[k + 1..]
    ensures forall j | k < j < |s| :: s[j] != c
  {
    assert forall j | k < j < |s| :: s[k + 1..][j - k - 1] == s[j];
  }

  lemma IndexOfIsFirst(s: string, c: char, k: nat)
    requires k <= |s| && c !in s[..k] && (k < |s| ==> s[k] == c)
    ensures IndexOfChar(s, c) == k
  {
    NotBefore(s, c, k);
    NotBefore(s, c, IndexOfChar(s, c));
  }

  lemma LastIndexIs(s: string, c: char, k: nat)
    requires k < |s| && s[k] == c && c !in s[k + 1..]
    ensures LastIndexOfChar(s, c) == k
  {
    NotAfter(s, c, k);
    var m := LastIndexOfChar(s, c);
    assert m >= 0;
    NotAfter(s, c, m);
  }

  lemma SplitStep(s: string, c: char)
    ensures var k := IndexOfChar(s, c); Split(s, c) == if k == |s| then [s] else [s[..k]] + Split(s[k + 1..], c)
  {
    hide IndexOfChar;
  }

  lemma JoinStep(part: string, rest: seq<string>, sep: string)
    requires rest != []
    ensures Join([part] + rest, sep) == part + sep + Join(rest, sep)
  {
    assert ([part] + rest)[1..] == rest;
  }

  lemma JoinOne(part: string, sep: string)
    ensures Join([part], sep) == part
  {
  }

  lemma CutRejoins(s: string, c: char)
    requires IndexOfChar(s, c) < |s|
    ensures var k := IndexOfChar(s, c); s[..k] + [c] + s[k + 1..] == s
  {
    hide IndexOfChar;
  }

  lemma {:induction false} JoinOfSplit(s: string, c: char)
    ensures Join(Split(s, c), [c]) == s
    decreases |s|
  {
    hide Split, Join, IndexOfChar;
    var k := IndexOfChar(s, c);
    SplitStep(s, c);
    if k < |s| {
      JoinOfSplit(s[k + 1..], c);
      JoinStep(s[..k], Split(s[k + 1..], c), [c]);
      CutRejoins(s, c);
    } else {
      JoinOne(s, [c]);
    }
  }

  lemma SplitAt(a: string, b: string, c: char)
    requires c !in a
    ensures Split(a + [c] + b, c) == [a] + Split(b, c)
  {
    var s := a + [c] + b;
    assert s[..|a|] == a && s[|a| + 1..] == b;
    IndexOfIsFirst(s, c, |a|);
  }

  lemma SplitWhole(a: string, c: char)
    requires c !in a
    ensures Split(a, c) == [a]
  {
    assert a[..|a|] == a;
    IndexOfIsFirst(a, c, |a|);
  }

  function TrimStart(s: string): string {
    if s != [] && IsSpace(s[0]) then TrimStart(s[1..]) else s
  }

  function TrimEnd(s: string): string {
    if s != [] && IsSpace(s[|s| - 1]) then TrimEnd(s[..|s| - 1]) else s
  }

  function Trim(s: string): string {
    TrimEnd(TrimStart(s))
  }
}
