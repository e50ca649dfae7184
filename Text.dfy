/** The string primitives of Python that the engine relies on: whitespace
    stripping, splitting text into lines at the boundaries of
    `str.splitlines`, joining lines with '\n' and character search. */
module Text {

  /** The characters Python's `str.isspace` (and so `strip`, `rstrip` and the
      regular-expression class `\s`) treats as whitespace. */
  predicate IsSpace(c: char) {
    var n := c as int;
    n == 0x20 || (0x09 <= n <= 0x0d) || (0x1c <= n <= 0x1f) || n == 0x85 || n == 0xa0
    || n == 0x1680 || (0x2000 <= n <= 0x200a) || n == 0x2028 || n == 0x2029
    || n == 0x202f || n == 0x205f || n == 0x3000
  }

  /** The end of `s[..n]` once its trailing whitespace is dropped. */
  function TrimEnd(s: string, n: nat): (k: nat)
    requires n <= |s|
    ensures k <= n
    ensures k == 0 || !IsSpace(s[k - 1])
  {
    if n > 0 && IsSpace(s[n - 1]) then TrimEnd(s, n - 1) else n
  }

  /** What `TrimEnd` drops is whitespace. */
  lemma {:induction false} TrimEndSpaces(s: string, n: nat)
    requires n <= |s|
    ensures forall i :: TrimEnd(s, n) <= i < n ==> IsSpace(s[i])
  {
    if n > 0 && IsSpace(s[n - 1]) {
      TrimEndSpaces(s, n - 1);
    }
  }

  /** `TrimEnd` is the only cut with its three properties. */
  lemma {:induction false} TrimEndUnique(s: string, n: nat, k: nat)
    requires n <= |s| && k <= n
    requires k == 0 || !IsSpace(s[k - 1])
    requires forall i :: k <= i < n ==> IsSpace(s[i])
    ensures TrimEnd(s, n) == k
    decreases n
  {
    if k < n {
      assert IsSpace(s[n - 1]);
      TrimEndUnique(s, n - 1, k);
    }
  }

  /** The first index at or after `i` that does not hold whitespace, or `|s|`. */
  function SkipSpace(s: string, i: nat): (k: nat)
    requires i <= |s|
    ensures i <= k <= |s|
    ensures k == |s| || !IsSpace(s[k])
    decreases |s| - i
  {
    if i < |s| && IsSpace(s[i]) then SkipSpace(s, i + 1) else i
  }

  /** What `SkipSpace` skips is whitespace. */
  lemma {:induction false} SkipSpaceSpaces(s: string, i: nat)
    requires i <= |s|
    ensures forall j :: i <= j < SkipSpace(s, i) ==> IsSpace(s[j])
    decreases |s| - i
  {
    if i < |s| && IsSpace(s[i]) {
      SkipSpaceSpaces(s, i + 1);
    }
  }

  /** `s.rstrip()`: the longest prefix of `s` that does not end in whitespace,
      such that everything removed is whitespace. */
  function RStrip(s: string): (r: string)
    ensures |r| <= |s| && r == s[..|r|]
    ensures r == "" || !IsSpace(r[|r| - 1])
  {
    s[..TrimEnd(s, |s|)]
  }

  /** Everything `rstrip` removes is whitespace. */
  lemma RStripRemoved(s: string)
    ensures forall i :: |RStrip(s)| <= i < |s| ==> IsSpace(s[i])
  {
    TrimEndSpaces(s, |s|);
  }

  /** `s.lstrip()` */
  function LStrip(s: string): (r: string)
    ensures |r| <= |s| && r == s[|s| - |r|..]
    ensures r == "" || !IsSpace(r[0])
  {
    s[SkipSpace(s, 0)..]
  }

  /** Everything `lstrip` removes is whitespace. */
  lemma LStripRemoved(s: string)
    ensures forall i :: 0 <= i < |s| - |LStrip(s)| ==> IsSpace(s[i])
  {
    SkipSpaceSpaces(s, 0);
  }

  /** `s.strip()` */
  function Strip(s: string): (r: string)
    ensures r == "" || (!IsSpace(r[0]) && !IsSpace(r[|r| - 1]))
  {
    RStrip(LStrip(s))
  }

  /** `s.rstrip(c)` for a single character `c` */
  function RStripChar(s: string, c: char): (r: string)
    ensures |r| <= |s| && r == s[..|r|]
    ensures r == "" || r[|r| - 1] != c
    ensures forall i :: |r| <= i < |s| ==> s[i] == c
  {
    if s != "" && s[|s| - 1] == c then RStripChar(s[..|s| - 1], c) else s
  }

  /** `rstrip` keeps a first character that is not whitespace. */
  lemma RStripFirst(s: string)
    requires s != "" && !IsSpace(s[0])
    ensures RStrip(s) != "" && RStrip(s)[0] == s[0]
  {
    TrimEndSpaces(s, |s|);
  }

  lemma RStripNoTrailingSpace(s: string)
    requires s == "" || !IsSpace(s[|s| - 1])
    ensures RStrip(s) == s
  {
    assert TrimEnd(s, |s|) == |s|;
    assert s[..|s|] == s;
  }

  lemma LStripNoLeadingSpace(s: string)
    requires s == "" || !IsSpace(s[0])
    ensures LStrip(s) == s
  {
    assert SkipSpace(s, 0) == 0;
    assert s[0..] == s;
  }

  /** A text that neither starts nor ends with whitespace is its own `strip`. */
  lemma StripNoOuterSpace(s: string)
    requires s == "" || (!IsSpace(s[0]) && !IsSpace(s[|s| - 1]))
    ensures Strip(s) == s
  {
    LStripNoLeadingSpace(s);
    RStripNoTrailingSpace(s);
  }

  /** `s.find(c)`: the index of the first `c`, or -1. */
  function IndexOf(s: string, c: char): (i: int)
    ensures -1 <= i < |s|
    ensures i >= 0 ==> s[i] == c && c !in s[..i]
    ensures i < 0 <==> c !in s
  {
    if s == "" then -1
    else if s[0] == c then 0
    else
      var j := IndexOf(s[1..], c);
      assert s[1..][..if j < 0 then 0 else j] == s[1..(if j < 0 then 1 else j + 1)];
      if j < 0 then -1 else j + 1
  }

  /** `s.rfind(c)`: the index of the last `c`, or -1. */
  function LastIndexOf(s: string, c: char): (i: int)
    ensures -1 <= i < |s|
    ensures i >= 0 ==> s[i] == c && c !in s[i + 1..]
    ensures i < 0 <==> c !in s
  {
    if s == "" then -1
    else if s[|s| - 1] == c then |s| - 1
    else
      var j := LastIndexOf(s[..|s| - 1], c);
      assert j >= 0 ==> s[j + 1..] == s[..|s| - 1][j + 1..] + [s[|s| - 1]];
      j
  }

  lemma IndexOfAfter(a: string, c: char, b: string)
    requires c !in a
    ensures IndexOf(a + [c] + b, c) == |a|
  {
    var s := a + [c] + b;
    var i := IndexOf(s, c);
    assert s[|a|] == c;
    assert forall j :: 0 <= j < |a| ==> s[j] == a[j];
  }

  lemma IndexOfAbsent(a: string, c: char, b: string)
    requires c !in a && c !in b
    ensures c !in a + b
  {
  }

  // ---------------------------------------------------------------------------
  // Lines.

  /** The characters `str.splitlines` ends a line at: '\n', '\r', '\x0b',
      '\x0c', '\x1c' to '\x1e', '\x85', U+2028 and U+2029. Each of them is
      whitespace. */
  predicate IsLineBreak(c: char) {
    var n := c as int;
    (0x0a <= n <= 0x0d) || (0x1c <= n <= 0x1e) || n == 0x85 || n == 0x2028 || n == 0x2029
  }

  lemma LineBreakIsSpace(c: char)
    requires IsLineBreak(c)
    ensures IsSpace(c)
  {
  }

  /** A string holding no line boundary. */
  predicate OneLine(s: string) {
    forall j :: 0 <= j < |s| ==> !IsLineBreak(s[j])
  }

  predicate NoLineBreaks(ls: seq<string>) {
    forall i :: 0 <= i < |ls| ==> OneLine(ls[i])
  }

  /** The index of the first line boundary, or `|s|` when there is none. */
  function FindBreak(s: string): (i: nat)
    ensures i <= |s|
    ensures i < |s| ==> IsLineBreak(s[i])
    ensures forall j :: 0 <= j < i ==> !IsLineBreak(s[j])
  {
    FindBreakFrom(s, 0)
  }

  /** The index of the first line boundary at or after `i`, or `|s|`. */
  function FindBreakFrom(s: string, i: nat): (k: nat)
    requires i <= |s|
    ensures i <= k <= |s|
    ensures k < |s| ==> IsLineBreak(s[k])
    ensures forall j :: i <= j < k ==> !IsLineBreak(s[j])
    decreases |s| - i
  {
    if i == |s| || IsLineBreak(s[i]) then i else FindBreakFrom(s, i + 1)
  }

  /** Where the line after a boundary at `i` starts: "\r\n" is one boundary. */
  function BreakEnd(s: string, i: nat): (k: nat)
    requires i < |s|
    ensures i < k <= |s|
  {
    if s[i] == '\r' && i + 1 < |s| && s[i + 1] == '\n' then i + 2 else i + 1
  }

  lemma OneLinePrefix(s: string, i: nat)
    requires i <= |s| && forall j :: 0 <= j < i ==> !IsLineBreak(s[j])
    ensures OneLine(s[..i])
  {
    assert forall j :: 0 <= j < i ==> s[..i][j] == s[j];
  }

  /** `s.splitlines()`: the pieces between line boundaries; a final boundary
      does not start another, empty, line. */
  function SplitLines(s: string): (ls: seq<string>)
    ensures s == "" <==> ls == []
    decreases |s|
  {
    if s == "" then []
    else
      var i := FindBreak(s);
      if i == |s| then [s]
      else [s[..i]] + SplitLines(s[BreakEnd(s, i)..])
  }

  /** No line of `splitlines` holds a line boundary. */
  lemma {:induction false} SplitLinesNoBreaks(s: string)
    ensures NoLineBreaks(SplitLines(s))
    decreases |s|
  {
    if s != "" {
      var i := FindBreak(s);
      OneLinePrefix(s, i);
      if i == |s| {
        assert s[..i] == s;
      } else {
        var rest := s[BreakEnd(s, i)..];
        SplitLinesNoBreaks(rest);
        var ls := SplitLines(s);
        assert ls == [s[..i]] + SplitLines(rest);
        forall j | 0 <= j < |ls| ensures OneLine(ls[j]) {
          if j > 0 {
            assert ls[j] == SplitLines(rest)[j - 1];
          }
        }
      }
    }
  }

  /** `"\n".join(ls)` */
  function JoinLines(ls: seq<string>): string
  {
    if ls == [] then ""
    else if |ls| == 1 then ls[0]
    else ls[0] + "\n" + JoinLines(ls[1..])
  }

  lemma FindBreakAt(a: string, c: char, b: string)
    requires OneLine(a) && IsLineBreak(c)
    ensures FindBreak(a + [c] + b) == |a|
  {
    var s := a + [c] + b;
    var i := FindBreak(s);
    assert s[|a|] == c;
    assert forall j :: 0 <= j < |a| ==> s[j] == a[j];
  }

  lemma FindBreakNone(s: string)
    requires OneLine(s)
    ensures FindBreak(s) == |s|
  {
  }

  /** Splitting a line followed by '\n' and more text. */
  lemma SplitLinesCons(a: string, rest: string)
    requires OneLine(a)
    ensures SplitLines(a + "\n" + rest) == [a] + SplitLines(rest)
  {
    var s := a + "\n" + rest;
    assert s == a + ['\n'] + rest;
    FindBreakAt(a, '\n', rest);
    assert s[..|a|] == a;
    assert s[|a| + 1..] == rest;
  }

  /** Joining lines and then ending the text with a newline is undone by splitting. */
  lemma {:induction false} SplitJoinTerminated(ls: seq<string>)
    requires ls != [] && NoLineBreaks(ls)
    ensures SplitLines(JoinLines(ls) + "\n") == ls
    decreases |ls|
  {
    assert OneLine(ls[0]);
    if |ls| == 1 {
      SplitLinesCons(ls[0], "");
      assert ls[0] + "\n" + "" == JoinLines(ls) + "\n";
    } else {
      var rest := JoinLines(ls[1..]) + "\n";
      assert JoinLines(ls) + "\n" == ls[0] + "\n" + rest;
      SplitLinesCons(ls[0], rest);
      assert NoLineBreaks(ls[1..]) by {
        forall i | 0 <= i < |ls| - 1 ensures OneLine(ls[1..][i]) {
          assert ls[1..][i] == ls[i + 1];
        }
      }
      SplitJoinTerminated(ls[1..]);
    }
  }

  /** Joining lines whose last one is not empty is undone by splitting. */
  lemma {:induction false} SplitJoin(ls: seq<string>)
    requires ls != [] && NoLineBreaks(ls) && ls[|ls| - 1] != ""
    ensures SplitLines(JoinLines(ls)) == ls
    decreases |ls|
  {
    assert OneLine(ls[0]);
    if |ls| == 1 {
      FindBreakNone(ls[0]);
      assert ls[0][..|ls[0]|] == ls[0];
    } else {
      var rest := JoinLines(ls[1..]);
      SplitLinesCons(ls[0], rest);
      assert NoLineBreaks(ls[1..]) by {
        forall i | 0 <= i < |ls| - 1 ensures OneLine(ls[1..][i]) {
          assert ls[1..][i] == ls[i + 1];
        }
      }
      SplitJoin(ls[1..]);
    }
  }

  lemma {:induction false} JoinLinesLast(ls: seq<string>)
    requires ls != [] && ls[|ls| - 1] != ""
    ensures JoinLines(ls) != ""
    ensures JoinLines(ls)[|JoinLines(ls)| - 1] == ls[|ls| - 1][|ls[|ls| - 1]| - 1]
    decreases |ls|
  {
    if |ls| > 1 {
      JoinLinesLast(ls[1..]);
    }
  }

  lemma {:induction false} JoinLinesFirst(ls: seq<string>)
    requires ls != [] && ls[0] != ""
    ensures JoinLines(ls) != "" && JoinLines(ls)[0] == ls[0][0]
  {
  }

  /** A text that does not end at a line boundary ends its last line with its
      last character. */
  lemma {:induction false} SplitLinesLast(s: string)
    requires s != "" && !IsLineBreak(s[|s| - 1])
    ensures SplitLines(s) != []
    ensures LastLine(SplitLines(s)) != ""
    ensures LastLine(SplitLines(s))[|LastLine(SplitLines(s))| - 1] == s[|s| - 1]
    decreases |s|
  {
    var i := FindBreak(s);
    if i < |s| {
      BreakEndBefore(s, i);
      var rest := s[BreakEnd(s, i)..];
      assert rest[|rest| - 1] == s[|s| - 1];
      SplitLinesLast(rest);
      assert SplitLines(s) == [s[..i]] + SplitLines(rest);
    } else {
      assert s[..i] == s;
    }
  }

  /** A boundary before a last character that is not one leaves text after it. */
  lemma BreakEndBefore(s: string, i: nat)
    requires i < |s| && IsLineBreak(s[i]) && !IsLineBreak(s[|s| - 1])
    ensures BreakEnd(s, i) < |s|
  {
  }

  function LastLine(ls: seq<string>): string
    requires ls != []
  {
    ls[|ls| - 1]
  }

  /** A text that does not start at a line boundary starts its first line
      with its first character. */
  lemma SplitLinesFirst(s: string)
    requires s != "" && !IsLineBreak(s[0])
    ensures var ls := SplitLines(s); ls != [] && ls[0] != "" && ls[0][0] == s[0]
  {
    var i := FindBreak(s);
    assert i > 0;
    assert s[..i][0] == s[0];
  }

  // ---------------------------------------------------------------------------
  // Prefixes, suffixes and searches.

  predicate StartsWith(s: string, prefix: string) {
    |prefix| <= |s| && s[..|prefix|] == prefix
  }

  predicate EndsWith(s: string, suffix: string) {
    |suffix| <= |s| && s[|s| - |suffix|..] == suffix
  }

  /** `s.removesuffix(suffix)` */
  function RemoveSuffix(s: string, suffix: string): (r: string)
    ensures EndsWith(s, suffix) ==> r + suffix == s
    ensures !EndsWith(s, suffix) ==> r == s
  {
    if EndsWith(s, suffix) then
      assert s[..|s| - |suffix|] + s[|s| - |suffix|..] == s;
      s[..|s| - |suffix|]
    else s
  }

  /** `s.replace(c, d, 1)` */
  function ReplaceFirst(s: string, c: char, d: char): (r: string)
    ensures |r| == |s|
  {
    var i := IndexOf(s, c);
    if i < 0 then s else s[..i] + [d] + s[i + 1..]
  }

  /** `s.rsplit(c, 1)[-1]`: what follows the last `c`, or all of `s`. */
  function AfterLast(s: string, c: char): (r: string)
    ensures c !in r
  {
    var i := LastIndexOf(s, c);
    if i < 0 then s else s[i + 1..]
  }

  /** The index of the first character of `s` in `cs`, or `|s|`. */
  function FindAny(s: string, cs: set<char>): (i: nat)
    ensures i <= |s|
    ensures i < |s| ==> s[i] in cs
    ensures forall j :: 0 <= j < i ==> s[j] !in cs
  {
    if s == "" then 0
    else if s[0] in cs then 0
    else 1 + FindAny(s[1..], cs)
  }

  lemma FindAnyAfter(a: string, c: char, b: string, cs: set<char>)
    requires forall j :: 0 <= j < |a| ==> a[j] !in cs
    requires c in cs
    ensures FindAny(a + [c] + b, cs) == |a|
  {
    var s := a + [c] + b;
    var i := FindAny(s, cs);
    assert s[|a|] == c;
    assert forall j :: 0 <= j < |a| ==> s[j] == a[j];
  }

  lemma FindAnyNone(s: string, cs: set<char>)
    requires forall j :: 0 <= j < |s| ==> s[j] !in cs
    ensures FindAny(s, cs) == |s|
  {
  }

  lemma {:induction false} LastIndexOfBefore(a: string, c: char, b: string)
    requires c !in b
    ensures LastIndexOf(a + [c] + b, c) == |a|
    decreases |b|
  {
    var s := a + [c] + b;
    if b == [] {
      assert s[|s| - 1] == c;
    } else {
      assert s[|s| - 1] == b[|b| - 1];
      assert s[..|s| - 1] == a + [c] + b[..|b| - 1];
      LastIndexOfBefore(a, c, b[..|b| - 1]);
    }
  }
}
