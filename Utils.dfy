/** The helpers of `reggie_build.utils` that the synchronisers are built from:
    text normalisation, the nested-mapping accessors `mapping_get`,
    `mapping_set`, `mapping_merge` and `mapping_prune`, and the parsing of a
    git remote URL into a repository name. */
module Utils {
  import opened Wrappers
  import opened Toml
  import opened Text

  // ===========================================================================
  // clean_text

  /** Every line right-stripped. */
  function MapRStrip(ls: seq<string>): (r: seq<string>)
    ensures |r| == |ls|
    ensures forall i :: 0 <= i < |ls| ==> r[i] == RStrip(ls[i])
  {
    seq(|ls|, i requires 0 <= i < |ls| => RStrip(ls[i]))
  }

  /** The lines the loop of `clean_text` keeps: a line is appended when it is
      not blank or when the line appended before it is not blank. */
  function Collapse(ls: seq<string>): seq<string>
  {
    if ls == [] then []
    else
      var pre := Collapse(ls[..|ls| - 1]);
      var line := ls[|ls| - 1];
      if line != "" || (pre != [] && pre[|pre| - 1] != "") then pre + [line] else pre
  }

  /** The non-blank lines, in order. */
  function NonBlank(ls: seq<string>): seq<string>
  {
    if ls == [] then []
    else NonBlank(ls[..|ls| - 1]) + (if ls[|ls| - 1] != "" then [ls[|ls| - 1]] else [])
  }

  /** No blank line follows another blank line. */
  predicate NoDoubleBlank(ls: seq<string>) {
    forall i :: 0 <= i < |ls| - 1 ==> ls[i] != "" || ls[i + 1] != ""
  }

  /** The text `clean_text` returns, stated on whole lines. */
  function CleanedText(text: string): string
  {
    var t := Strip(text);
    if t == "" then ""
    else
      var j := RStrip(JoinLines(Collapse(MapRStrip(SplitLines(t)))));
      if j == "" then "" else j + "\n"
  }

  /** `clean_text`: strips the text, right-strips every line, squeezes runs of
      blank lines to one, and ends a non-empty result with one newline. */
  method CleanText(text: string) returns (r: string)
    ensures r == CleanedText(text)
  {
    var t := Strip(text);
    if t != "" {
      var lines := SplitLines(t);
      var out: seq<string> := [];
      var i := 0;
      while i < |lines|
        invariant 0 <= i <= |lines|
        invariant out == Collapse(MapRStrip(lines[..i]))
      {
        var line := RStrip(lines[i]);
        CollapseStep(lines, i);
        if line != "" || (out != [] && out[|out| - 1] != "") {
          out := out + [line];
        }
        i := i + 1;
      }
      assert lines[..|lines|] == lines;
      t := RStrip(JoinLines(out));
    }
    r := if t != "" then t + "\n" else "";
  }

  lemma CollapseStep(lines: seq<string>, i: nat)
    requires i < |lines|
    ensures var pre := Collapse(MapRStrip(lines[..i])); var line := RStrip(lines[i]);
      Collapse(MapRStrip(lines[..i + 1]))
      == if line != "" || (pre != [] && pre[|pre| - 1] != "") then pre + [line] else pre
  {
    var ls := MapRStrip(lines[..i + 1]);
    assert ls[..|ls| - 1] == MapRStrip(lines[..i]);
  }

  /** The kept lines hold no blank run and do not start with a blank line. */
  lemma {:induction false} CollapseShape(ls: seq<string>)
    ensures NoDoubleBlank(Collapse(ls))
    ensures Collapse(ls) != [] ==> Collapse(ls)[0] != ""
    ensures forall x :: x in Collapse(ls) ==> x in ls
  {
    if ls != [] {
      var init := ls[..|ls| - 1];
      CollapseShape(init);
      var pre := Collapse(init);
      var line := ls[|ls| - 1];
      if line != "" || (pre != [] && pre[|pre| - 1] != "") {
        assert forall x :: x in init ==> x in ls;
      }
    }
  }

  /** Only blank lines are dropped. */
  lemma {:induction false} CollapseNonBlank(ls: seq<string>)
    ensures NonBlank(Collapse(ls)) == NonBlank(ls)
  {
    if ls != [] {
      var init := ls[..|ls| - 1];
      CollapseNonBlank(init);
      var pre := Collapse(init);
      var line := ls[|ls| - 1];
      if line != "" || (pre != [] && pre[|pre| - 1] != "") {
        assert (pre + [line])[..|pre + [line]| - 1] == pre;
      }
    }
  }

  lemma {:induction false} CollapseEnds(ls: seq<string>)
    requires ls != []
    ensures ls[0] != "" ==> Collapse(ls) != [] && Collapse(ls)[0] == ls[0]
    ensures ls[|ls| - 1] != "" ==> Collapse(ls) != [] && Collapse(ls)[|Collapse(ls)| - 1] == ls[|ls| - 1]
  {
    if |ls| > 1 {
      var init := ls[..|ls| - 1];
      CollapseEnds(init);
    }
  }

  lemma {:induction false} CollapseFixed(ls: seq<string>)
    requires NoDoubleBlank(ls) && (ls == [] || ls[0] != "")
    ensures Collapse(ls) == ls
  {
    if ls != [] {
      var init := ls[..|ls| - 1];
      assert NoDoubleBlank(init) && (init == [] || init[0] != "") by {
        assert forall i :: 0 <= i < |init| ==> init[i] == ls[i];
      }
      CollapseFixed(init);
      if |ls| > 1 {
        assert init[|init| - 1] == ls[|ls| - 2];
      }
      assert init + [ls[|ls| - 1]] == ls;
    }
  }

  lemma MapRStripFixed(ls: seq<string>)
    requires forall i :: 0 <= i < |ls| ==> RStrip(ls[i]) == ls[i]
    ensures MapRStrip(ls) == ls
  {
  }

  lemma RStripAfterSpace(s: string, c: char)
    requires IsSpace(c)
    ensures RStrip(s + [c]) == RStrip(s)
  {
    var t := s + [c];
    var k := TrimEnd(s, |s|);
    TrimEndSpaces(s, |s|);
    assert forall i :: 0 <= i < |s| ==> t[i] == s[i];
    TrimEndUnique(t, |t|, k);
    assert t[..k] == s[..k];
  }

  /** The lines of the stripped text, right-stripped and with blank runs
      squeezed: the line sequence `clean_text`'s result consists of. */
  function CleanLines(text: string): seq<string>
  {
    Collapse(MapRStrip(SplitLines(Strip(text))))
  }

  /** Lines as `clean_text` leaves them: at least one, none holding a line
      boundary or trailing whitespace, no blank run, and the first and last lines
      neither blank nor starting or ending in whitespace. */
  predicate WellCleaned(c: seq<string>) {
    && c != [] && NoLineBreaks(c) && NoDoubleBlank(c)
    && c[0] != "" && !IsSpace(c[0][0])
    && c[|c| - 1] != "" && !IsSpace(c[|c| - 1][|c[|c| - 1]| - 1])
    && (forall i :: 0 <= i < |c| ==> RStrip(c[i]) == c[i])
  }

  /** Right-stripping the lines of a stripped, non-empty text keeps the first
      and last lines non-blank. */
  lemma MapRStripEnds(t: string)
    requires t != "" && !IsSpace(t[0]) && !IsSpace(t[|t| - 1])
    ensures var m := MapRStrip(SplitLines(t));
      m != [] && m[0] != "" && !IsSpace(m[0][0])
      && m[|m| - 1] != "" && !IsSpace(m[|m| - 1][|m[|m| - 1]| - 1])
  {
    var l0 := SplitLines(t);
    var m := MapRStrip(l0);
    SplitLinesFirst(t);
    SplitLinesLast(t);
    assert !IsSpace(l0[0][0]);
    RStripFirst(l0[0]);
    assert m[0] == RStrip(l0[0]);
    var last := l0[|l0| - 1];
    assert last == LastLine(l0) && !IsSpace(last[|last| - 1]);
    RStripNoTrailingSpace(last);
    assert m[|m| - 1] == RStrip(last) == last;
  }

  /** Right-stripped lines hold no line boundary and no trailing whitespace. */
  lemma MapRStripClean(l0: seq<string>)
    requires NoLineBreaks(l0)
    ensures forall x :: x in MapRStrip(l0) ==> OneLine(x) && RStrip(x) == x
  {
    var m := MapRStrip(l0);
    forall x | x in m ensures OneLine(x) && RStrip(x) == x {
      var i :| 0 <= i < |m| && m[i] == x;
      assert OneLine(l0[i]);
      OneLinePrefix(l0[i], |x|);
      RStripNoTrailingSpace(x);
    }
  }

  /** How a non-empty stripped text shows in its cleaned lines. */
  lemma {:induction false} CleanLinesEnds(text: string)
    requires Strip(text) != ""
    ensures WellCleaned(CleanLines(text))
  {
    CleanLinesBounds(text);
    CleanLinesInner(text);
  }

  /** The first and last cleaned lines of a non-empty stripped text. */
  lemma CleanLinesBounds(text: string)
    requires Strip(text) != ""
    ensures var c := CleanLines(text);
      && c != [] && c[0] != "" && !IsSpace(c[0][0])
      && c[|c| - 1] != "" && !IsSpace(c[|c| - 1][|c[|c| - 1]| - 1])
  {
    var t := Strip(text);
    assert t != "" && !IsSpace(t[0]) && !IsSpace(t[|t| - 1]);
    var m := MapRStrip(SplitLines(t));
    MapRStripEnds(t);
    assert m != [] && m[0] != "" && m[|m| - 1] != "";
    CollapseEnds(m);
    var c := Collapse(m);
    assert c == CleanLines(text);
    assert c != [] && c[0] == m[0] && c[|c| - 1] == m[|m| - 1];
  }

  /** Every cleaned line is free of line boundaries and right-stripped, and no blank
      line follows another. */
  lemma CleanLinesInner(text: string)
    ensures var c := CleanLines(text);
      && NoLineBreaks(c) && NoDoubleBlank(c)
      && forall i :: 0 <= i < |c| ==> RStrip(c[i]) == c[i]
  {
    var l0 := SplitLines(Strip(text));
    var m := MapRStrip(l0);
    SplitLinesNoBreaks(Strip(text));
    MapRStripClean(l0);
    CollapseShape(m);
    var c := Collapse(m);
    forall i | 0 <= i < |c|
      ensures OneLine(c[i]) && RStrip(c[i]) == c[i]
    {
      assert c[i] in c;
    }
  }

  /** The result of `clean_text` is exactly its lines, each ended by a newline;
      it is empty exactly when the input is blank. */
  lemma {:induction false} CleanedTextIsLines(text: string)
    ensures CleanedText(text) == "" <==> Strip(text) == ""
    ensures Strip(text) != "" ==> CleanedText(text) == JoinLines(CleanLines(text)) + "\n"
  {
    if Strip(text) != "" {
      CleanLinesBounds(text);
      var c := CleanLines(text);
      JoinLinesLast(c);
      RStripNoTrailingSpace(JoinLines(c));
    }
  }

  /** `clean_text` output: no line carries trailing whitespace, no two blank
      lines in a row, the first and last lines are not blank, the text ends
      in exactly one newline, and the non-blank lines of the stripped input
      survive in order. */
  lemma {:induction false} CleanTextShape(text: string)
    ensures var r := CleanedText(text); var ls := SplitLines(r);
      && (r == "" <==> Strip(text) == "")
      && (r != "" ==> r[|r| - 1] == '\n' && JoinLines(ls) + "\n" == r)
      && NoDoubleBlank(ls)
      && (forall i :: 0 <= i < |ls| ==> RStrip(ls[i]) == ls[i])
      && (ls != [] ==> ls[0] != "" && ls[|ls| - 1] != "")
      && NonBlank(ls) == NonBlank(MapRStrip(SplitLines(Strip(text))))
  {
    CleanedTextIsLines(text);
    if Strip(text) != "" {
      CleanLinesEnds(text);
      var c := CleanLines(text);
      SplitJoinTerminated(c);
      CollapseNonBlank(MapRStrip(SplitLines(Strip(text))));
    }
  }

  lemma StripTerminated(j: string)
    requires j != "" && !IsSpace(j[0]) && !IsSpace(j[|j| - 1])
    ensures Strip(j + "\n") == j
  {
    var r := j + "\n";
    assert r[0] == j[0];
    LStripNoLeadingSpace(r);
    RStripAfterSpace(j, '\n');
    RStripNoTrailingSpace(j);
  }

  /** A stripped text ended by a newline strips back to itself. */
  lemma StrippedTerminated(j: string)
    requires Strip(j) == j != ""
    ensures Strip(j + "\n") == j
  {
    StripTerminated(j);
  }

  /** Text made of well-cleaned lines is left as it is. */
  lemma {:induction false} CleanedFixpoint(c: seq<string>)
    requires WellCleaned(c)
    ensures CleanedText(JoinLines(c) + "\n") == JoinLines(c) + "\n"
  {
    var j := JoinLines(c);
    JoinLinesFirst(c);
    JoinLinesLast(c);
    StripTerminated(j);
    SplitJoin(c);
    MapRStripFixed(c);
    CollapseFixed(c);
    assert CleanLines(j + "\n") == c;
    RStripNoTrailingSpace(j);
  }

  /** Cleaning cleaned text changes nothing. */
  lemma {:induction false} CleanTextIdempotent(text: string)
    ensures CleanedText(CleanedText(text)) == CleanedText(text)
  {
    CleanedTextIsLines(text);
    if Strip(text) != "" {
      CleanLinesEnds(text);
      CleanedFixpoint(CleanLines(text));
    } else {
      assert Strip("") == "";
    }
  }

  // ===========================================================================
  // mapping_get

  /** `mapping_get(table, *path, default=default)` as an expression: the value
      stored under `path`, or `default` when the path is empty, a key is
      missing, an intermediate value is not a table, or the value is None. */
  function Get(es: seq<Entry>, path: seq<string>, default: Value): Value
  {
    if path == [] then default
    else
      match Lookup(es, path)
      case Some(v) => if v.Nil? then default else v
      case None => default
  }

  /** `mapping_get`: walks the key path one table at a time, stopping at the
      first key that is missing or that does not lead to a table. `data` is a
      mapping or None. */
  method MappingGet(data: Value, path: seq<string>, default: Value) returns (r: Value)
    requires data.Table? || data.Nil?
    ensures data.Nil? || data == Table([]) || path == [] ==> r == default
    ensures data.Table? ==> r == Get(data.entries, path, default)
  {
    if Truthy(data) {
      var cur := data.entries;
      var i := 0;
      while i < |path|
        invariant 0 <= i < |path| || (i == 0 && path == [])
        invariant i < |path| ==> Lookup(data.entries, path[..i]) == Some(Table(cur))
        decreases |path| - i
      {
        var next := FindOrNil(cur, path[i]);
        LookupAppend(data.entries, path[..i], [path[i]]);
        assert path[..i] + [path[i]] == path[..i + 1];
        if i == |path| - 1 {
          assert path[..i + 1] == path;
          return if next != Nil then next else default;
        } else if next.Table? {
          cur := next.entries;
        } else {
          assert path[..i + 1] + path[i + 1..] == path;
          LookupAppend(data.entries, path[..i + 1], path[i + 1..]);
          return default;
        }
        i := i + 1;
      }
    }
    return default;
  }

  // ===========================================================================
  // mapping_set

  /** `mapping_set` on a non-empty path, exactly as written: intermediate
      values that are not tables are replaced by new empty tables, and the
      result flag only compares the old leaf with the new value. Setting an
      identical leaf is modelled as setting an equal one. */
  function SetPathAsWritten(es: seq<Entry>, path: seq<string>, value: Value): (seq<Entry>, bool)
    requires path != []
    decreases |path|
  {
    var next := FindOrNil(es, path[0]);
    if |path| == 1 then
      if next == value then (es, false) else (Put(es, path[0], value), true)
    else
      var sub := if next.Table? then next.entries else [];
      var (sub', mod) := SetPathAsWritten(sub, path[1..], value);
      (Put(es, path[0], Table(sub')), mod)
  }

  function MappingSetAsWritten(es: seq<Entry>, path: seq<string>, value: Value): (seq<Entry>, bool)
  {
    if path == [] then (es, false) else SetPathAsWritten(es, path, value)
  }

  /** `mapping_set` with the evidently intended result flag: creating a
      missing intermediate table is a modification too. */
  function SetPath(es: seq<Entry>, path: seq<string>, value: Value): (seq<Entry>, bool)
    requires path != []
    decreases |path|
  {
    var next := FindOrNil(es, path[0]);
    if |path| == 1 then
      if next == value then (es, false) else (Put(es, path[0], value), true)
    else
      var sub := if next.Table? then next.entries else [];
      var (sub', mod) := SetPath(sub, path[1..], value);
      (Put(es, path[0], Table(sub')), mod || !next.Table?)
  }

  function MappingSet(es: seq<Entry>, path: seq<string>, value: Value): (seq<Entry>, bool)
  {
    if path == [] then (es, false) else SetPath(es, path, value)
  }

  /** Afterwards the path leads to the value (an absent key reads as None),
      and every proper prefix of the path leads to a table. */
  lemma {:induction false} MappingSetStores(es: seq<Entry>, path: seq<string>, value: Value)
    requires path != []
    ensures LookupOrNil(MappingSet(es, path, value).0, path) == value
    ensures forall m :: 0 < m < |path| ==>
      (Lookup(MappingSet(es, path, value).0, path[..m]).Some?
       && Lookup(MappingSet(es, path, value).0, path[..m]).value.Table?)
    decreases |path|
  {
    var r := SetPath(es, path, value).0;
    var next := FindOrNil(es, path[0]);
    if |path| == 1 {
      if next == value {
        assert LookupOrNil(es, path) == FindOrNil(es, path[0]);
      }
    } else {
      var sub := if next.Table? then next.entries else [];
      MappingSetStores(sub, path[1..], value);
      var sub' := SetPath(sub, path[1..], value).0;
      assert Find(r, path[0]) == Some(Table(sub'));
      assert Lookup(r, path) == Lookup(sub', path[1..]);
      forall m | 0 < m < |path|
        ensures Lookup(r, path[..m]).Some? && Lookup(r, path[..m]).value.Table?
      {
        if m > 1 {
          assert path[..m][1..] == path[1..][..m - 1];
          assert Lookup(r, path[..m]) == Lookup(sub', path[1..][..m - 1]);
        }
      }
    }
  }

  /** Lookups under any path that diverges from the written one are unchanged. */
  lemma {:induction false} MappingSetFrame(es: seq<Entry>, path: seq<string>, value: Value, q: seq<string>)
    requires Diverges(path, q)
    ensures Lookup(MappingSet(es, path, value).0, q) == Lookup(es, q)
    decreases |path|
  {
    var next := FindOrNil(es, path[0]);
    if q[0] != path[0] {
      if |path| == 1 {
        if next != value {
          LookupPutOther(es, path[0], value, q);
        }
      } else {
        var sub := if next.Table? then next.entries else [];
        LookupPutOther(es, path[0], Table(SetPath(sub, path[1..], value).0), q);
      }
    } else {
      var sub := if next.Table? then next.entries else [];
      MappingSetFrame(sub, path[1..], value, q[1..]);
      var sub' := SetPath(sub, path[1..], value).0;
      var r := SetPath(es, path, value).0;
      assert Find(r, q[0]) == Some(Table(sub'));
      assert Lookup(r, q) == Lookup(sub', q[1..]);
      if !next.Table? {
        assert Lookup(es, q) == None;
      }
    }
  }

  /** The corrected flag is true exactly when the document changed. */
  lemma {:induction false} MappingSetFlag(es: seq<Entry>, path: seq<string>, value: Value)
    ensures MappingSet(es, path, value).1 <==> MappingSet(es, path, value).0 != es
    decreases |path|
  {
    if path != [] {
      var k := path[0];
      var next := FindOrNil(es, k);
      var r := SetPath(es, path, value);
      if |path| == 1 {
        if next != value {
          assert Find(r.0, k) != Find(es, k);
        }
      } else {
        var sub := if next.Table? then next.entries else [];
        MappingSetFlag(sub, path[1..], value);
        var sr := SetPath(sub, path[1..], value);
        if next.Table? && !sr.1 {
          PutExisting(es, k, Table(sub));
        } else {
          assert Find(r.0, k) != Find(es, k);
        }
      }
    }
  }

  /** Setting a value that is already stored there changes nothing. */
  lemma {:induction false} MappingSetPresent(es: seq<Entry>, path: seq<string>, value: Value)
    requires path != [] && Lookup(es, path) == Some(value)
    ensures MappingSet(es, path, value) == (es, false)
    decreases |path|
  {
    var k := path[0];
    var next := FindOrNil(es, k);
    if |path| > 1 {
      MappingSetPresent(next.entries, path[1..], value);
      PutExisting(es, k, next);
    }
  }

  /** Both versions write the same document; the as-written flag only
      reports whether the old leaf differed from the new value. */
  lemma {:induction false} MappingSetAsWrittenFlag(es: seq<Entry>, path: seq<string>, value: Value)
    requires path != []
    ensures MappingSetAsWritten(es, path, value).0 == MappingSet(es, path, value).0
    ensures MappingSetAsWritten(es, path, value).1 <==> LookupOrNil(es, path) != value
    decreases |path|
  {
    var next := FindOrNil(es, path[0]);
    if |path| > 1 {
      var sub := if next.Table? then next.entries else [];
      MappingSetAsWrittenFlag(sub, path[1..], value);
      if !next.Table? {
        assert LookupOrNil(es, path) == Nil;
        assert Lookup([], path[1..]) == None;
      }
    }
  }

  /** Setting None under a missing intermediate key creates that table and
      yet reports no modification. */
  lemma MappingSetNoneCounterexample()
    ensures MappingSetAsWritten([], ["a", "b"], Nil) == ([Entry("a", Table([]))], false)
    ensures MappingSet([], ["a", "b"], Nil) == ([Entry("a", Table([]))], true)
  {
  }

  // ===========================================================================
  // mapping_merge

  /** Tables hold each key once, in every table reached through tables. */
  predicate DistinctDeep(es: seq<Entry>)
    decreases EntriesSize(es)
  {
    es == [] ||
    (assert EntriesSize(es) == ValueSize(es[0].val) + EntriesSize(es[1..]);
     && es[0].key !in Keys(es[1..])
     && (es[0].val.Table? ==> DistinctDeep(es[0].val.entries))
     && DistinctDeep(es[1..]))
  }

  lemma {:induction false} DistinctDeepKeys(es: seq<Entry>)
    requires DistinctDeep(es)
    ensures DistinctKeys(es)
    decreases |es|
  {
    if es != [] {
      DistinctDeepKeys(es[1..]);
      forall i, j | 0 <= i < j < |es| ensures es[i].key != es[j].key {
        if i == 0 {
          assert es[j].key == Keys(es[1..])[j - 1];
        } else {
          assert es[i] == es[1..][i - 1] && es[j] == es[1..][j - 1];
        }
      }
    }
  }

  lemma {:induction false} FindDistinct(es: seq<Entry>, i: nat)
    requires DistinctKeys(es) && i < |es|
    ensures Find(es, es[i].key) == Some(es[i].val)
    decreases i
  {
    if i > 0 {
      assert es[0].key != es[i].key;
      assert es[1..][i - 1] == es[i];
      FindDistinct(es[1..], i - 1);
    }
  }

  lemma {:induction false} EntrySizeBound(es: seq<Entry>, i: nat)
    requires i < |es|
    ensures ValueSize(es[i].val) <= EntriesSize(es)
    decreases i
  {
    if i > 0 {
      assert es[1..][i - 1] == es[i];
      EntrySizeBound(es[1..], i - 1);
    }
  }

  /** One entry of the right-hand mapping merged into the left one: two tables
      merge recursively; any other value is assigned when it is new or differs. */
  function MergeStep(left: seq<Entry>, e: Entry): (seq<Entry>, bool)
    decreases ValueSize(e.val), 0
  {
    var cur := Find(left, e.key);
    if cur.Some? && e.val.Table? && cur.value.Table? then
      var (sub, mod) := Merge(cur.value.entries, e.val.entries);
      (Put(left, e.key, Table(sub)), mod)
    else if cur != Some(e.val) then (Put(left, e.key, e.val), true)
    else (left, false)
  }

  /** The right-hand entries merged into `left` in order; the flag reports
      whether any step modified the left mapping. */
  function Merge(left: seq<Entry>, right: seq<Entry>): (seq<Entry>, bool)
    decreases EntriesSize(right), 1
  {
    if right == [] then (left, false)
    else
      assert EntriesSize(right) == ValueSize(right[0].val) + EntriesSize(right[1..]);
      var (l1, m1) := MergeStep(left, right[0]);
      var (l2, m2) := Merge(l1, right[1..]);
      (l2, m1 || m2)
  }

  /** `mapping_merge(left, right)`: `right` is a mapping or None; the left
      mapping is returned updated together with the modification flag. */
  method MappingMerge(left: seq<Entry>, right: Value) returns (merged: seq<Entry>, mod: bool)
    requires right.Table? || right.Nil?
    ensures !Truthy(right) ==> merged == left && !mod
    ensures right.Table? ==> (merged, mod) == Merge(left, right.entries)
  {
    if Truthy(right) {
      merged, mod := MergeEntries(left, right.entries);
    } else {
      merged, mod := left, false;
    }
  }

  /** The loop of `mapping_merge` over the items of a non-empty right mapping. */
  method MergeEntries(left: seq<Entry>, right: seq<Entry>) returns (merged: seq<Entry>, mod: bool)
    ensures (merged, mod) == Merge(left, right)
    decreases EntriesSize(right), 1
  {
    merged, mod := left, false;
    ghost var goal := Merge(left, right);
    var i := 0;
    while i < |right|
      invariant 0 <= i <= |right|
      invariant Merge(merged, right[i..]).0 == goal.0
      invariant (mod || Merge(merged, right[i..]).1) == goal.1
    {
      EntrySizeBound(right, i);
      MergeAt(merged, right, i);
      var m;
      merged, m := MergeEntry(merged, right[i]);
      if m {
        mod := true;
      }
      i := i + 1;
    }
    assert right[|right|..] == [];
  }

  /** One entry of the loop: a table merged into a table recursively,
      anything else assigned when it differs from what is there. */
  method MergeEntry(left: seq<Entry>, e: Entry) returns (merged: seq<Entry>, mod: bool)
    ensures (merged, mod) == MergeStep(left, e)
    decreases ValueSize(e.val), 0
  {
    var cur := Find(left, e.key);
    if cur.Some? && e.val.Table? && cur.value.Table? {
      var sub;
      sub, mod := MergeEntries(cur.value.entries, e.val.entries);
      merged := Put(left, e.key, Table(sub));
    } else if cur != Some(e.val) {
      merged, mod := Put(left, e.key, e.val), true;
    } else {
      merged, mod := left, false;
    }
  }

  /** Merging from position `i` is one step at `right[i]`, then the rest. */
  lemma MergeAt(left: seq<Entry>, right: seq<Entry>, i: nat)
    requires i < |right|
    ensures Merge(left, right[i..]).0 == Merge(MergeStep(left, right[i]).0, right[i + 1..]).0
    ensures Merge(left, right[i..]).1 == (MergeStep(left, right[i]).1 || Merge(MergeStep(left, right[i]).0, right[i + 1..]).1)
  {
    assert right[i..][0] == right[i] && right[i..][1..] == right[i + 1..];
  }

  /** Keys the right-hand mapping does not name are left as they were. */
  lemma {:induction false} MergeFrame(left: seq<Entry>, right: seq<Entry>, k: string)
    requires k !in Keys(right)
    ensures Find(Merge(left, right).0, k) == Find(left, k)
    decreases |right|
  {
    if right != [] {
      assert right[0].key == Keys(right)[0];
      assert Keys(right[1..]) == Keys(right)[1..];
      MergeFrame(MergeStep(left, right[0]).0, right[1..], k);
    }
  }

  /** `left` already holds `e`: the key is there, with the same value or, for
      a table, with a table that in turn holds every entry of it. */
  predicate Holds(left: seq<Entry>, e: Entry)
    decreases ValueSize(e.val), 0
  {
    if e.val.Table? then
      match Find(left, e.key)
      case Some(Table(sub)) => Absorbs(sub, e.val.entries)
      case _ => false
    else Find(left, e.key) == Some(e.val)
  }

  /** `left` holds every entry of `right`. */
  predicate Absorbs(left: seq<Entry>, right: seq<Entry>)
    decreases EntriesSize(right), 1
  {
    right == [] ||
    (assert EntriesSize(right) == ValueSize(right[0].val) + EntriesSize(right[1..]);
     Holds(left, right[0]) && Absorbs(left, right[1..]))
  }

  lemma {:induction false} AbsorbsFrame(l: seq<Entry>, l': seq<Entry>, right: seq<Entry>)
    requires Absorbs(l, right)
    requires forall k :: k in Keys(right) ==> Find(l', k) == Find(l, k)
    ensures Absorbs(l', right)
    decreases |right|
  {
    if right != [] {
      assert right[0].key == Keys(right)[0];
      assert forall k :: k in Keys(right[1..]) ==> k in Keys(right);
      AbsorbsFrame(l, l', right[1..]);
    }
  }

  /** A mapping whose keys are unique at every depth holds each of its own entries. */
  lemma {:induction false} AbsorbsFinds(l: seq<Entry>, right: seq<Entry>)
    requires DistinctDeep(right)
    requires forall i :: 0 <= i < |right| ==> Find(l, right[i].key) == Some(right[i].val)
    ensures Absorbs(l, right)
    decreases EntriesSize(right)
  {
    if right != [] {
      assert EntriesSize(right) == ValueSize(right[0].val) + EntriesSize(right[1..]);
      var e := right[0];
      assert Find(l, e.key) == Some(e.val);
      if e.val.Table? {
        var x := e.val.entries;
        DistinctDeepKeys(x);
        forall i | 0 <= i < |x| ensures Find(x, x[i].key) == Some(x[i].val) {
          FindDistinct(x, i);
        }
        AbsorbsFinds(x, x);
      }
      assert forall i :: 0 <= i < |right[1..]| ==> right[1..][i] == right[i + 1];
      AbsorbsFinds(l, right[1..]);
    }
  }

  /** After merging, the left mapping holds every entry of the right one:
      nested tables were merged into, every other right-hand value replaced
      what was there. */
  lemma {:induction false} MergeAbsorbs(left: seq<Entry>, right: seq<Entry>)
    requires DistinctDeep(right)
    ensures Absorbs(Merge(left, right).0, right)
    decreases EntriesSize(right)
  {
    if right != [] {
      assert EntriesSize(right) == ValueSize(right[0].val) + EntriesSize(right[1..]);
      var e := right[0];
      var l1 := MergeStep(left, e).0;
      var l2 := Merge(l1, right[1..]).0;
      MergeAbsorbs(l1, right[1..]);
      assert Holds(l1, e) by {
        var cur := Find(left, e.key);
        if cur.Some? && e.val.Table? && cur.value.Table? {
          MergeAbsorbs(cur.value.entries, e.val.entries);
        } else if cur != Some(e.val) && e.val.Table? {
          AbsorbsFinds(e.val.entries, e.val.entries) by {
            var x := e.val.entries;
            DistinctDeepKeys(x);
            forall i | 0 <= i < |x| ensures Find(x, x[i].key) == Some(x[i].val) {
              FindDistinct(x, i);
            }
          }
        }
      }
      MergeFrame(l1, right[1..], e.key);
      assert Absorbs(l2, [e]) by {
        AbsorbsFrame(l1, l2, [e]) by {
          assert Absorbs(l1, [e]) by {
            assert [e][1..] == [];
          }
        }
      }
    }
  }

  /** Merging into a mapping that already holds the right-hand entries
      changes nothing and reports no modification. */
  lemma {:induction false} MergeAbsorbed(left: seq<Entry>, right: seq<Entry>)
    requires Absorbs(left, right)
    ensures Merge(left, right) == (left, false)
    decreases EntriesSize(right)
  {
    if right != [] {
      assert EntriesSize(right) == ValueSize(right[0].val) + EntriesSize(right[1..]);
      var e := right[0];
      if e.val.Table? {
        var sub := Find(left, e.key).value.entries;
        MergeAbsorbed(sub, e.val.entries);
        PutExisting(left, e.key, Table(sub));
      }
      MergeAbsorbed(left, right[1..]);
    }
  }

  /** Merging the same mapping twice is merging it once. */
  lemma MergeIdempotent(left: seq<Entry>, right: seq<Entry>)
    requires DistinctDeep(right)
    ensures Merge(Merge(left, right).0, right) == (Merge(left, right).0, false)
  {
    MergeAbsorbs(left, right);
    MergeAbsorbed(Merge(left, right).0, right);
  }

  /** The merge flag is true exactly when the left mapping changed. */
  lemma {:induction false} MergeFlag(left: seq<Entry>, right: seq<Entry>)
    requires DistinctDeep(right)
    ensures Merge(left, right).1 <==> Merge(left, right).0 != left
    decreases EntriesSize(right)
  {
    if right != [] {
      assert EntriesSize(right) == ValueSize(right[0].val) + EntriesSize(right[1..]);
      var e := right[0];
      var (l1, m1) := MergeStep(left, e);
      var cur := Find(left, e.key);
      assert m1 ==> Find(l1, e.key) != cur by {
        if cur.Some? && e.val.Table? && cur.value.Table? {
          MergeFlag(cur.value.entries, e.val.entries);
        }
      }
      assert !m1 ==> l1 == left by {
        if cur.Some? && e.val.Table? && cur.value.Table? {
          MergeFlag(cur.value.entries, e.val.entries);
          if !m1 {
            PutExisting(left, e.key, cur.value);
          }
        }
      }
      MergeFlag(l1, right[1..]);
      MergeFrame(l1, right[1..], e.key);
    }
  }

  // ===========================================================================
  // mapping_prune

  /** `value is None or (_is_collection(value) and len(value) == 0)` is
      `IsEmptyCollection`; `_prune` exactly as written tests that on each
      entry or element *before* pruning it. */
  function PruneValue(v: Value): (Value, bool)
    decreases ValueSize(v), 0
  {
    match v
    case Table(es) => var (es', mod) := PruneEntries(es); (Table(es'), mod)
    case Array(xs) => var (xs', mod) := PruneItems(xs); (Array(xs'), mod)
    case _ => (v, false)
  }

  function PruneEntries(es: seq<Entry>): (seq<Entry>, bool)
    decreases EntriesSize(es), 1
  {
    if es == [] then ([], false)
    else
      assert EntriesSize(es) == ValueSize(es[0].val) + EntriesSize(es[1..]);
      var (rest, mr) := PruneEntries(es[1..]);
      if IsEmptyCollection(es[0].val) then (rest, true)
      else
        var (v', mv) := PruneValue(es[0].val);
        ([Entry(es[0].key, v')] + rest, mv || mr)
  }

  function PruneItems(xs: seq<Value>): (seq<Value>, bool)
    decreases ItemsSize(xs), 1
  {
    if xs == [] then ([], false)
    else
      assert ItemsSize(xs) == ValueSize(xs[0]) + ItemsSize(xs[1..]);
      var (rest, mr) := PruneItems(xs[1..]);
      if IsEmptyCollection(xs[0]) then (rest, true)
      else
        var (v', mv) := PruneValue(xs[0]);
        ([v'] + rest, mv || mr)
  }

  lemma {:induction false} ItemSizeBound(xs: seq<Value>, i: nat)
    requires i < |xs|
    ensures ValueSize(xs[i]) <= ItemsSize(xs)
    decreases i
  {
    if i > 0 {
      assert xs[1..][i - 1] == xs[i];
      ItemSizeBound(xs[1..], i - 1);
    }
  }

  /** `mapping_prune(data)` as written, on a mapping or None. */
  method MappingPrune(data: Value) returns (pruned: Value, mod: bool)
    requires data.Table? || data.Nil?
    ensures (pruned, mod) == PruneValue(data)
  {
    pruned, mod := Prune(data);
  }

  /** `_prune`: mappings are walked over a snapshot of their keys, sequences
      from the last index down, each entry deleted or pruned in place. */
  method Prune(v: Value) returns (pruned: Value, mod: bool)
    ensures (pruned, mod) == PruneValue(v)
    decreases ValueSize(v), 0
  {
    match v
    case Table(es) =>
      var es', m := PruneTable(es);
      pruned, mod := Table(es'), m;
    case Array(xs) =>
      var xs', m := PruneArray(xs);
      pruned, mod := Array(xs'), m;
    case _ =>
      pruned, mod := v, false;
  }

  method PruneTable(es: seq<Entry>) returns (out: seq<Entry>, mod: bool)
    ensures (out, mod) == PruneEntries(es)
    decreases EntriesSize(es), 1
  {
    out, mod := [], false;
    var i := 0;
    while i < |es|
      invariant 0 <= i <= |es|
      invariant out + PruneEntries(es[i..]).0 == PruneEntries(es).0
      invariant (mod || PruneEntries(es[i..]).1) == PruneEntries(es).1
    {
      assert es[i..][0] == es[i] && es[i..][1..] == es[i + 1..];
      var e := es[i];
      if IsEmptyCollection(e.val) {
        mod := true;
      } else {
        EntrySizeBound(es, i);
        var v', m := Prune(e.val);
        out := out + [Entry(e.key, v')];
        if m {
          mod := true;
        }
      }
      i := i + 1;
    }
    assert es[|es|..] == [];
    assert out + [] == out;
  }

  method PruneArray(xs: seq<Value>) returns (out: seq<Value>, mod: bool)
    ensures (out, mod) == PruneItems(xs)
    decreases ItemsSize(xs), 1
  {
    out, mod := xs, false;
    var i := |xs|;
    while i > 0
      invariant 0 <= i <= |xs|
      invariant out == xs[..i] + PruneItems(xs[i..]).0
      invariant mod == PruneItems(xs[i..]).1
    {
      i := i - 1;
      assert xs[i..][0] == xs[i] && xs[i..][1..] == xs[i + 1..];
      assert out[i] == xs[i] && out[..i] == xs[..i] && out[i + 1..] == PruneItems(xs[i + 1..]).0;
      if IsEmptyCollection(out[i]) {
        out := out[..i] + out[i + 1..];
        mod := true;
      } else {
        ItemSizeBound(xs, i);
        var v', m := Prune(out[i]);
        out := out[..i] + [v'] + out[i + 1..];
        if m {
          mod := true;
        }
      }
    }
    assert xs[..0] == [] && xs[0..] == xs;
    assert out == PruneItems(xs).0 && mod == PruneItems(xs).1;
  }

  /** Pruning as written never grows a value, and reports a change exactly
      when it shrank it. */
  lemma {:induction false} PruneValueShrinks(v: Value)
    ensures PruneValue(v).1 ==> ValueSize(PruneValue(v).0) < ValueSize(v)
    ensures !PruneValue(v).1 ==> PruneValue(v).0 == v
    decreases ValueSize(v), 0
  {
    match v
    case Table(es) => PruneEntriesShrinks(es);
    case Array(xs) => PruneItemsShrinks(xs);
    case _ =>
  }

  lemma {:induction false} PruneEntriesShrinks(es: seq<Entry>)
    ensures PruneEntries(es).1 ==> EntriesSize(PruneEntries(es).0) < EntriesSize(es)
    ensures !PruneEntries(es).1 ==> PruneEntries(es).0 == es
    decreases EntriesSize(es), 1
  {
    if es != [] {
      assert EntriesSize(es) == ValueSize(es[0].val) + EntriesSize(es[1..]);
      PruneEntriesShrinks(es[1..]);
      var rest := PruneEntries(es[1..]).0;
      if !IsEmptyCollection(es[0].val) {
        PruneValueShrinks(es[0].val);
        var out := [Entry(es[0].key, PruneValue(es[0].val).0)] + rest;
        assert out[0].val == PruneValue(es[0].val).0 && out[1..] == rest;
        assert EntriesSize(out) == ValueSize(out[0].val) + EntriesSize(out[1..]);
        assert !PruneEntries(es).1 ==> out == [es[0]] + es[1..];
      }
    }
  }

  lemma {:induction false} PruneItemsShrinks(xs: seq<Value>)
    ensures PruneItems(xs).1 ==> ItemsSize(PruneItems(xs).0) < ItemsSize(xs)
    ensures !PruneItems(xs).1 ==> PruneItems(xs).0 == xs
    decreases ItemsSize(xs), 1
  {
    if xs != [] {
      assert ItemsSize(xs) == ValueSize(xs[0]) + ItemsSize(xs[1..]);
      PruneItemsShrinks(xs[1..]);
      var rest := PruneItems(xs[1..]).0;
      if !IsEmptyCollection(xs[0]) {
        PruneValueShrinks(xs[0]);
        var out := [PruneValue(xs[0]).0] + rest;
        assert out[0] == PruneValue(xs[0]).0 && out[1..] == rest;
        assert ItemsSize(out) == ValueSize(out[0]) + ItemsSize(out[1..]);
        assert !PruneItems(xs).1 ==> out == [xs[0]] + xs[1..];
      }
    }
  }

  /** The flag of `mapping_prune` is true exactly when something was removed. */
  lemma MappingPruneFlag(v: Value)
    ensures PruneValue(v).1 <==> PruneValue(v).0 != v
  {
    PruneValueShrinks(v);
  }

  /** As written, an entry is removed exactly when its value was None or an
      empty collection before pruning; any other entry stays, pruned. */
  lemma {:induction false} PruneEntriesFind(es: seq<Entry>, k: string)
    requires DistinctKeys(es)
    ensures Find(PruneEntries(es).0, k) ==
      match Find(es, k)
      case None => None
      case Some(x) => if IsEmptyCollection(x) then None else Some(PruneValue(x).0)
  {
    if es != [] {
      assert DistinctKeys(es[1..]) by {
        assert forall i :: 0 <= i < |es| - 1 ==> es[1..][i] == es[i + 1];
      }
      PruneEntriesFind(es[1..], k);
      if es[0].key == k {
        forall i | 0 <= i < |es| - 1 ensures Keys(es[1..])[i] != k {
          assert es[1..][i] == es[i + 1];
        }
        FindKeys(es[1..], k);
        PruneEntriesFind(es[1..], k);
      }
    }
  }

  /** Pruning `{"a": {"b": {}}}` as written leaves `{"a": {}}`: the empty
      table that pruning produced stays, and a second pass removes it. */
  lemma MappingPruneCounterexample()
    ensures var v := Table([Entry("a", Table([Entry("b", Table([]))]))]);
      && PruneValue(v) == (Table([Entry("a", Table([]))]), true)
      && !Pruned(PruneValue(v).0)
      && PruneValue(PruneValue(v).0) == (Table([]), true)
  {
    var inner := [Entry("b", Table([]))];
    assert PruneEntries(inner[1..]) == ([], false);
    assert PruneEntries(inner) == ([], true);
    assert PruneValue(Table(inner)) == (Table([]), true);
    assert !IsEmptyCollection(Table(inner));
    var outer := [Entry("a", Table(inner))];
    assert PruneEntries(outer[1..]) == ([], false);
    assert outer[0].val == Table(inner) && outer[0].key == "a";
    assert [Entry("a", Table([]))] + [] == [Entry("a", Table([]))];
    assert PruneEntries(outer) == ([Entry("a", Table([]))], true);
    var once := [Entry("a", Table([]))];
    assert PruneEntries(once[1..]) == ([], false);
  }

  // ---------------------------------------------------------------------------
  // The evidently intended prune: values are pruned first, then dropped when
  // they were None or have become empty collections.

  /** No table entry and no array element, at any depth, is None or an empty collection. */
  predicate Pruned(v: Value)
    decreases ValueSize(v), 0
  {
    match v
    case Table(es) => PrunedEntries(es)
    case Array(xs) => PrunedItems(xs)
    case _ => true
  }

  predicate PrunedEntries(es: seq<Entry>)
    decreases EntriesSize(es), 1
  {
    es == [] ||
    (assert EntriesSize(es) == ValueSize(es[0].val) + EntriesSize(es[1..]);
     !IsEmptyCollection(es[0].val) && Pruned(es[0].val) && PrunedEntries(es[1..]))
  }

  predicate PrunedItems(xs: seq<Value>)
    decreases ItemsSize(xs), 1
  {
    xs == [] ||
    (assert ItemsSize(xs) == ValueSize(xs[0]) + ItemsSize(xs[1..]);
     !IsEmptyCollection(xs[0]) && Pruned(xs[0]) && PrunedItems(xs[1..]))
  }

  function PruneDeep(v: Value): (Value, bool)
    decreases ValueSize(v), 0
  {
    match v
    case Table(es) => var (es', mod) := PruneDeepEntries(es); (Table(es'), mod)
    case Array(xs) => var (xs', mod) := PruneDeepItems(xs); (Array(xs'), mod)
    case _ => (v, false)
  }

  function PruneDeepEntries(es: seq<Entry>): (seq<Entry>, bool)
    decreases EntriesSize(es), 1
  {
    if es == [] then ([], false)
    else
      assert EntriesSize(es) == ValueSize(es[0].val) + EntriesSize(es[1..]);
      var (rest, mr) := PruneDeepEntries(es[1..]);
      var (v', mv) := PruneDeep(es[0].val);
      if IsEmptyCollection(v') then (rest, true)
      else ([Entry(es[0].key, v')] + rest, mv || mr)
  }

  function PruneDeepItems(xs: seq<Value>): (seq<Value>, bool)
    decreases ItemsSize(xs), 1
  {
    if xs == [] then ([], false)
    else
      assert ItemsSize(xs) == ValueSize(xs[0]) + ItemsSize(xs[1..]);
      var (rest, mr) := PruneDeepItems(xs[1..]);
      var (v', mv) := PruneDeep(xs[0]);
      if IsEmptyCollection(v') then (rest, true)
      else ([v'] + rest, mv || mr)
  }

  /** The corrected prune leaves no None and no empty collection anywhere below the top. */
  lemma {:induction false} PruneDeepPrunes(v: Value)
    ensures Pruned(PruneDeep(v).0)
    decreases ValueSize(v), 0
  {
    match v
    case Table(es) => PruneDeepEntriesPrunes(es);
    case Array(xs) => PruneDeepItemsPrunes(xs);
    case _ =>
  }

  lemma {:induction false} PruneDeepEntriesPrunes(es: seq<Entry>)
    ensures PrunedEntries(PruneDeepEntries(es).0)
    decreases EntriesSize(es), 1
  {
    if es != [] {
      assert EntriesSize(es) == ValueSize(es[0].val) + EntriesSize(es[1..]);
      PruneDeepEntriesPrunes(es[1..]);
      PruneDeepPrunes(es[0].val);
      var out := PruneDeepEntries(es).0;
      if out != PruneDeepEntries(es[1..]).0 {
        assert out[1..] == PruneDeepEntries(es[1..]).0;
      }
    }
  }

  lemma {:induction false} PruneDeepItemsPrunes(xs: seq<Value>)
    ensures PrunedItems(PruneDeepItems(xs).0)
    decreases ItemsSize(xs), 1
  {
    if xs != [] {
      assert ItemsSize(xs) == ValueSize(xs[0]) + ItemsSize(xs[1..]);
      PruneDeepItemsPrunes(xs[1..]);
      PruneDeepPrunes(xs[0]);
      var out := PruneDeepItems(xs).0;
      if out != PruneDeepItems(xs[1..]).0 {
        assert out[1..] == PruneDeepItems(xs[1..]).0;
      }
    }
  }

  /** A pruned value is left untouched. */
  lemma {:induction false} PruneDeepFixed(v: Value)
    requires Pruned(v)
    ensures PruneDeep(v) == (v, false)
    decreases ValueSize(v), 0
  {
    match v
    case Table(es) => PruneDeepEntriesFixed(es);
    case Array(xs) => PruneDeepItemsFixed(xs);
    case _ =>
  }

  lemma {:induction false} PruneDeepEntriesFixed(es: seq<Entry>)
    requires PrunedEntries(es)
    ensures PruneDeepEntries(es) == (es, false)
    decreases EntriesSize(es), 1
  {
    if es != [] {
      assert EntriesSize(es) == ValueSize(es[0].val) + EntriesSize(es[1..]);
      PruneDeepEntriesFixed(es[1..]);
      PruneDeepFixed(es[0].val);
      assert [Entry(es[0].key, es[0].val)] + es[1..] == es;
    }
  }

  lemma {:induction false} PruneDeepItemsFixed(xs: seq<Value>)
    requires PrunedItems(xs)
    ensures PruneDeepItems(xs) == (xs, false)
    decreases ItemsSize(xs), 1
  {
    if xs != [] {
      assert ItemsSize(xs) == ValueSize(xs[0]) + ItemsSize(xs[1..]);
      PruneDeepItemsFixed(xs[1..]);
      PruneDeepFixed(xs[0]);
      assert [xs[0]] + xs[1..] == xs;
    }
  }

  /** A pruned value is left untouched by the prune as written too. */
  lemma {:induction false} PruneValueFixed(v: Value)
    requires Pruned(v)
    ensures PruneValue(v) == (v, false)
    decreases ValueSize(v), 0
  {
    match v
    case Table(es) => PruneEntriesFixed(es);
    case Array(xs) => PruneItemsFixed(xs);
    case _ =>
  }

  lemma {:induction false} PruneEntriesFixed(es: seq<Entry>)
    requires PrunedEntries(es)
    ensures PruneEntries(es) == (es, false)
    decreases EntriesSize(es), 1
  {
    if es != [] {
      assert EntriesSize(es) == ValueSize(es[0].val) + EntriesSize(es[1..]);
      PruneEntriesFixed(es[1..]);
      PruneValueFixed(es[0].val);
      assert [Entry(es[0].key, es[0].val)] + es[1..] == es;
    }
  }

  lemma {:induction false} PruneItemsFixed(xs: seq<Value>)
    requires PrunedItems(xs)
    ensures PruneItems(xs) == (xs, false)
    decreases ItemsSize(xs), 1
  {
    if xs != [] {
      assert ItemsSize(xs) == ValueSize(xs[0]) + ItemsSize(xs[1..]);
      PruneItemsFixed(xs[1..]);
      PruneValueFixed(xs[0]);
      assert [xs[0]] + xs[1..] == xs;
    }
  }

  /** Pruning twice is pruning once. */
  lemma PruneDeepIdempotent(v: Value)
    ensures PruneDeep(PruneDeep(v).0) == (PruneDeep(v).0, false)
  {
    PruneDeepPrunes(v);
    PruneDeepFixed(PruneDeep(v).0);
  }

  lemma {:induction false} PruneDeepShrinks(v: Value)
    ensures PruneDeep(v).1 ==> ValueSize(PruneDeep(v).0) < ValueSize(v)
    ensures !PruneDeep(v).1 ==> PruneDeep(v).0 == v
    decreases ValueSize(v), 0
  {
    match v
    case Table(es) => PruneDeepEntriesShrinks(es);
    case Array(xs) => PruneDeepItemsShrinks(xs);
    case _ =>
  }

  lemma {:induction false} PruneDeepEntriesShrinks(es: seq<Entry>)
    ensures PruneDeepEntries(es).1 ==> EntriesSize(PruneDeepEntries(es).0) < EntriesSize(es)
    ensures !PruneDeepEntries(es).1 ==> PruneDeepEntries(es).0 == es
    decreases EntriesSize(es), 1
  {
    if es != [] {
      assert EntriesSize(es) == ValueSize(es[0].val) + EntriesSize(es[1..]);
      PruneDeepEntriesShrinks(es[1..]);
      PruneDeepShrinks(es[0].val);
      var rest := PruneDeepEntries(es[1..]).0;
      var v' := PruneDeep(es[0].val).0;
      if !IsEmptyCollection(v') {
        var out := [Entry(es[0].key, v')] + rest;
        assert out[0].val == v' && out[1..] == rest;
        assert EntriesSize(out) == ValueSize(out[0].val) + EntriesSize(out[1..]);
        assert !PruneDeepEntries(es).1 ==> out == [es[0]] + es[1..];
      }
    }
  }

  lemma {:induction false} PruneDeepItemsShrinks(xs: seq<Value>)
    ensures PruneDeepItems(xs).1 ==> ItemsSize(PruneDeepItems(xs).0) < ItemsSize(xs)
    ensures !PruneDeepItems(xs).1 ==> PruneDeepItems(xs).0 == xs
    decreases ItemsSize(xs), 1
  {
    if xs != [] {
      assert ItemsSize(xs) == ValueSize(xs[0]) + ItemsSize(xs[1..]);
      PruneDeepItemsShrinks(xs[1..]);
      PruneDeepShrinks(xs[0]);
      var rest := PruneDeepItems(xs[1..]).0;
      var v' := PruneDeep(xs[0]).0;
      if !IsEmptyCollection(v') {
        var out := [v'] + rest;
        assert out[0] == v' && out[1..] == rest;
        assert ItemsSize(out) == ValueSize(out[0]) + ItemsSize(out[1..]);
        assert !PruneDeepItems(xs).1 ==> out == [xs[0]] + xs[1..];
      }
    }
  }

  /** The corrected flag is true exactly when something was removed. */
  lemma PruneDeepFlag(v: Value)
    ensures PruneDeep(v).1 <==> PruneDeep(v).0 != v
  {
    PruneDeepShrinks(v);
  }

  /** An entry is removed exactly when its value is None or prunes down to an
      empty collection; every other entry stays, pruned. */
  lemma {:induction false} PruneDeepFind(es: seq<Entry>, k: string)
    requires DistinctKeys(es)
    ensures Find(PruneDeepEntries(es).0, k) ==
      match Find(es, k)
      case None => None
      case Some(x) => if IsEmptyCollection(PruneDeep(x).0) then None else Some(PruneDeep(x).0)
  {
    if es != [] {
      assert DistinctKeys(es[1..]) by {
        assert forall i :: 0 <= i < |es| - 1 ==> es[1..][i] == es[i + 1];
      }
      PruneDeepFind(es[1..], k);
      if es[0].key == k {
        forall i | 0 <= i < |es| - 1 ensures Keys(es[1..])[i] != k {
          assert es[1..][i] == es[i + 1];
        }
        FindKeys(es[1..], k);
      }
    }
  }

  /** Scalars are never removed, not even an empty string, zero or false. */
  lemma {:induction false} PruneDeepKeepsScalars(es: seq<Entry>, k: string)
    requires Find(es, k).Some?
    requires var x := Find(es, k).value; !x.Table? && !x.Array? && !x.Nil?
    ensures Find(PruneDeepEntries(es).0, k) == Find(es, k)
  {
    if es[0].key != k {
      PruneDeepKeepsScalars(es[1..], k);
    }
  }

  /** `mapping_prune` as its documentation describes it, on a mapping or None;
      this is the prune the synchronisers use before writing a manifest. */
  function MappingPruneDeep(data: Value): (r: (Value, bool))
    requires data.Table? || data.Nil?
    ensures Pruned(r.0) && (r.1 <==> r.0 != data)
    ensures data.Nil? ==> r == (Nil, false)
  {
    PruneDeepPrunes(data);
    PruneDeepFlag(data);
    PruneDeep(data)
  }

  // ===========================================================================
  // git_repo_name and git_version

  /** Python's `DEFAULT_VERSION`. */
  const DefaultVersion: string := "0.0.1"

  /** The parts of `urllib.parse.urlparse(url)` the repository name is taken from. */
  datatype ParsedUrl = ParsedUrl(scheme: string, netloc: string, path: string)

  predicate IsAsciiLetter(c: char) {
    'a' <= c <= 'z' || 'A' <= c <= 'Z'
  }

  /** `urllib.parse.scheme_chars` */
  predicate IsSchemeChar(c: char) {
    IsAsciiLetter(c) || '0' <= c <= '9' || c == '+' || c == '-' || c == '.'
  }

  function AsciiLower(s: string): (r: string)
    ensures |r| == |s|
  {
    if s == "" then ""
    else [if 'A' <= s[0] <= 'Z' then (s[0] as int + 32) as char else s[0]] + AsciiLower(s[1..])
  }

  /** `urllib.parse.uses_params`: the schemes whose last path segment may carry `;params`. */
  const UsesParams: set<string> := {"", "ftp", "hdl", "prospero", "http", "imap", "https",
    "shttp", "rtsp", "rtsps", "rtspu", "sip", "sips", "mms", "sftp", "tel"}

  /** `_splitparams`: cuts the path at the first `;` of its last segment
      (or at the first `;` when there is no `/`). */
  function SplitParams(url: string): string
  {
    if '/' in url then
      var last := LastIndexOf(url, '/');
      var j := IndexOf(url[last..], ';');
      if j < 0 then url else url[..last + j]
    else
      var j := IndexOf(url, ';');
      if j < 0 then url else url[..j]
  }

  /** The scheme before the first `:`, when it starts with a letter and holds
      only scheme characters; otherwise no scheme and the whole URL. */
  function SplitScheme(url: string): (string, string)
  {
    var i := IndexOf(url, ':');
    if i > 0 && IsAsciiLetter(url[0]) && forall j :: 0 <= j < i ==> IsSchemeChar(url[j]) then
      (AsciiLower(url[..i]), url[i + 1..])
    else ("", url)
  }

  /** After a leading `//`, the network location runs up to the first `/`, `?` or `#`. */
  function SplitNetloc(rest: string): (string, string)
  {
    if |rest| >= 2 && rest[..2] == "//" then
      var cut := 2 + FindAny(rest[2..], {'/', '?', '#'});
      (rest[2..cut], rest[cut..])
    else ("", rest)
  }

  /** The path: what remains before any `#fragment`, `?query` and, for the
      schemes that use them, `;params`. */
  function PathPart(scheme: string, afterNetloc: string): string
  {
    var noFragment := if '#' in afterNetloc then afterNetloc[..IndexOf(afterNetloc, '#')] else afterNetloc;
    var noQuery := if '?' in noFragment then noFragment[..IndexOf(noFragment, '?')] else noFragment;
    if scheme in UsesParams && ';' in noQuery then SplitParams(noQuery) else noQuery
  }

  /** `urllib.parse.urlparse` restricted to what decides the path; a network
      location with an unbalanced `[` or `]` raises ValueError. */
  function UrlParse(url: string): Result<ParsedUrl>
  {
    var (scheme, rest) := SplitScheme(url);
    var (netloc, afterNetloc) := SplitNetloc(rest);
    if ('[' in netloc) != (']' in netloc) then Failure("Invalid IPv6 URL")
    else Success(ParsedUrl(scheme, netloc, PathPart(scheme, afterNetloc)))
  }

  /** The SSH form `git@host:path` rewritten as the URL `ssh://git@host/path`. */
  function NormaliseOrigin(o: string): string
  {
    if StartsWith(o, "git@") then "ssh://" + ReplaceFirst(o, ':', '/') else o
  }

  /** The last segment of a URL path with any trailing `/` and `.git` removed. */
  function RepoNameFromPath(path: string): (r: Option<string>)
    ensures r.Some? ==> r.value != "" && '/' !in r.value
  {
    if path == "" then None
    else
      var name := AfterLast(RStripChar(path, '/'), '/');
      var base := RemoveSuffix(name, ".git");
      assert forall k :: 0 <= k < |base| ==> base[k] == name[k];
      if base == "" then None else Some(base)
  }

  /** `git_repo_name`, given the stripped output of `git remote get-url origin`
      (None when git is missing or the command failed). */
  function GitRepoName(origin: Option<string>): (r: Option<string>)
    ensures r.Some? ==> r.value != "" && '/' !in r.value
    ensures origin == None || origin == Some("") ==> r == None
  {
    match origin
    case None => None
    case Some(o) =>
      if o == "" then None
      else
        match UrlParse(NormaliseOrigin(o))
        case Failure(_) => None
        case Success(parsed) => RepoNameFromPath(parsed.path)
  }

  /** Text free of the characters that end a host name or a path segment. */
  predicate PlainSegment(s: string) {
    forall j :: 0 <= j < |s| ==> s[j] !in {':', '/', '?', '#', '[', ']', ';', '@'}
  }

  lemma NormaliseSsh(host: string, tail: string)
    requires PlainSegment(host)
    ensures NormaliseOrigin("git@" + host + ":" + tail) == "ssh" + "://" + ("git@" + host) + "/" + tail
  {
    var o := "git@" + host + ":" + tail;
    assert o[..4] == "git@";
    assert o == ("git@" + host) + [':'] + tail;
    IndexOfAfter("git@" + host, ':', tail);
    assert ReplaceFirst(o, ':', '/') == "git@" + host + "/" + tail;
  }

  lemma RepoPathName(owner: string, repo: string)
    requires PlainSegment(owner) && PlainSegment(repo) && repo != ""
    ensures RepoNameFromPath("/" + owner + "/" + repo + ".git") == Some(repo)
  {
    var path := "/" + owner + "/" + repo + ".git";
    assert path[|path| - 1] == 't';
    assert RStripChar(path, '/') == path;
    assert path == ("/" + owner) + ['/'] + (repo + ".git");
    assert '/' !in repo + ".git";
    LastIndexOfBefore("/" + owner, '/', repo + ".git");
    assert AfterLast(path, '/') == repo + ".git";
  }

  /** `git@host:owner/repo.git` names the repository `repo`. */
  lemma GitRepoNameSsh(host: string, owner: string, repo: string)
    requires PlainSegment(host) && PlainSegment(owner) && PlainSegment(repo) && repo != ""
    ensures GitRepoName(Some("git@" + host + ":" + owner + "/" + repo + ".git")) == Some(repo)
  {
    var tail := owner + "/" + repo + ".git";
    assert "git@" + host + ":" + owner + "/" + repo + ".git" == "git@" + host + ":" + tail;
    NormaliseSsh(host, tail);
    ParseRepoPath("ssh", "git@" + host, owner, repo);
    RepoPathName(owner, repo);
  }

  /** `https://host/owner/repo.git` names the repository `repo`. */
  lemma GitRepoNameHttps(host: string, owner: string, repo: string)
    requires PlainSegment(host) && PlainSegment(owner) && PlainSegment(repo) && repo != ""
    ensures GitRepoName(Some("https://" + host + "/" + owner + "/" + repo + ".git")) == Some(repo)
  {
    var o := "https://" + host + "/" + owner + "/" + repo + ".git";
    assert !StartsWith(o, "git@") by {
      assert o[0] == 'h';
    }
    assert o == "https" + "://" + host + "/" + (owner + "/" + repo + ".git");
    ParseRepoPath("https", host, owner, repo);
    RepoPathName(owner, repo);
  }

  lemma SchemeOf(scheme: string, rest: string)
    requires scheme in {"ssh", "https"}
    ensures SplitScheme(scheme + [':'] + rest) == (scheme, rest)
  {
    var url := scheme + [':'] + rest;
    IndexOfAfter(scheme, ':', rest);
    assert url[..|scheme|] == scheme;
    assert url[|scheme| + 1..] == rest;
    assert AsciiLower(scheme) == scheme;
  }

  lemma NetlocOf(host: string, tail: string)
    requires forall j :: 0 <= j < |host| ==> host[j] !in {'/', '?', '#'}
    ensures SplitNetloc("//" + host + "/" + tail) == (host, "/" + tail)
  {
    var rest := "//" + host + "/" + tail;
    assert rest[..2] == "//";
    assert rest[2..] == host + ['/'] + tail;
    FindAnyAfter(host, '/', tail, {'/', '?', '#'});
    assert rest[2..2 + |host|] == host;
    assert rest[2 + |host|..] == "/" + tail;
  }

  lemma UrlParseOf(url: string, scheme: string, rest: string, netloc: string, after: string)
    requires SplitScheme(url) == (scheme, rest) && SplitNetloc(rest) == (netloc, after)
    requires '[' !in netloc && ']' !in netloc
    ensures UrlParse(url) == Success(ParsedUrl(scheme, netloc, PathPart(scheme, after)))
  {
  }

  lemma ParseRepoPath(scheme: string, host: string, owner: string, repo: string)
    requires scheme in {"ssh", "https"}
    requires forall j :: 0 <= j < |host| ==> host[j] !in {'/', '?', '#', '[', ']'}
    requires PlainSegment(owner) && PlainSegment(repo) && repo != ""
    ensures var url := scheme + "://" + host + "/" + (owner + "/" + repo + ".git");
      UrlParse(url).Success? && UrlParse(url).value.path == "/" + owner + "/" + repo + ".git"
  {
    var tail := owner + "/" + repo + ".git";
    var rest := "//" + host + "/" + tail;
    var url := scheme + "://" + host + "/" + tail;
    UrlShape(scheme, host, tail);
    SchemeOf(scheme, rest);
    HostChars(host);
    NetlocOf(host, tail);
    var path := "/" + tail;
    PathShape(owner, repo);
    PlainPath(owner, repo);
    PathPartPlain(scheme, path);
    UrlParseOf(url, scheme, rest, host, path);
  }

  lemma UrlShape(scheme: string, host: string, tail: string)
    ensures scheme + "://" + host + "/" + tail == scheme + [':'] + ("//" + host + "/" + tail)
  {
  }

  lemma PathShape(owner: string, repo: string)
    ensures "/" + (owner + "/" + repo + ".git") == "/" + owner + "/" + repo + ".git"
  {
  }

  lemma HostChars(host: string)
    requires forall j :: 0 <= j < |host| ==> host[j] !in {'/', '?', '#', '[', ']'}
    ensures forall j :: 0 <= j < |host| ==> host[j] !in {'/', '?', '#'}
    ensures '[' !in host && ']' !in host
  {
  }

  lemma PlainPath(owner: string, repo: string)
    requires PlainSegment(owner) && PlainSegment(repo)
    ensures var path := "/" + owner + "/" + repo + ".git";
      '#' !in path && '?' !in path && ';' !in path
  {
    var path := "/" + owner + "/" + repo + ".git";
    assert forall j :: 0 <= j < |path| ==> path[j] !in {'#', '?', ';'};
  }

  lemma PathPartPlain(scheme: string, path: string)
    requires '#' !in path && '?' !in path && ';' !in path
    ensures PathPart(scheme, path) == path
  {
  }
}
