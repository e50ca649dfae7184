/** `reggie_build.sync`: the commands that bring member manifests in line with
    the workspace root (build system, dependencies on fellow members, the
    shared `tool.member-project` table, the version), the resolution of the
    projects they work on, and the persisting of the edited manifests. */
module Sync {
  import opened Wrappers
  import opened Toml
  import opened Text
  import opened Utils
  import opened Files
  import opened Projects
  import opened Seqs

  // ===========================================================================
  // parse_dep_name: `^\s*([\w\-\.\[\]]+)\s*@\s*file://`

  predicate IsAsciiDigit(c: char) {
    '0' <= c <= '9'
  }

  /** A character of the captured name: a word character, `-`, `.`, `[` or `]`. */
  predicate IsNameChar(c: char) {
    IsAsciiLetter(c) || IsAsciiDigit(c) || c == '_' || c == '-' || c == '.' || c == '[' || c == ']'
  }

  /** A name the pattern can capture whole. */
  predicate IsDepName(s: string) {
    s != "" && forall i :: 0 <= i < |s| ==> IsNameChar(s[i])
  }

  /** The end of the run of whitespace starting at `i`. */
  function SpanSpace(s: string, i: nat): (r: nat)
    requires i <= |s|
    ensures i <= r <= |s|
    ensures forall j :: i <= j < r ==> IsSpace(s[j])
    ensures r < |s| ==> !IsSpace(s[r])
    decreases |s| - i
  {
    if i < |s| && IsSpace(s[i]) then SpanSpace(s, i + 1) else i
  }

  /** The end of the run of name characters starting at `i`. */
  function SpanName(s: string, i: nat): (r: nat)
    requires i <= |s|
    ensures i <= r <= |s|
    ensures forall j :: i <= j < r ==> IsNameChar(s[j])
    ensures r < |s| ==> !IsNameChar(s[r])
    decreases |s| - i
  {
    if i < |s| && IsNameChar(s[i]) then SpanName(s, i + 1) else i
  }

  /** `parse_dep_name`: the name in front of `@ file://`, or the whole entry
      when it is not such a reference. Neither group can give back, so the
      match is decided by the longest runs. */
  function ParseDepName(dep: string): (r: string)
    ensures r == dep || (IsDepName(r) && StartsWith(LStrip(dep), r))
    ensures '@' !in dep ==> r == dep
  {
    var t := LStrip(dep);
    match FileReferenceName(t)
    case Some(n) =>
      assert '@' in dep by {
        InSuffix(dep, |dep| - |t|, '@');
      }
      n
    case None => dep
  }

  /** The match on a string with no leading whitespace: the name, when a run
      of name characters, optional whitespace, `@`, optional whitespace and
      `file://` follow one another. */
  function FileReferenceName(t: string): (r: Option<string>)
    ensures r.Some? ==> IsDepName(r.value) && StartsWith(t, r.value) && '@' in t
  {
    var b := SpanName(t, 0);
    var c := SpanSpace(t, b);
    if 0 < b && c < |t| && t[c] == '@' then
      var d := SpanSpace(t, c + 1);
      if StartsWith(t[d..], "file://") then
        NamePrefix(t, b);
        Some(t[..b])
      else None
    else None
  }

  /** A run of name characters at the front of `t` is a name `t` starts with. */
  lemma NamePrefix(t: string, b: nat)
    requires 0 < b <= |t|
    requires forall j :: 0 <= j < b ==> IsNameChar(t[j])
    ensures IsDepName(t[..b]) && StartsWith(t, t[..b])
  {
  }

  const RootPlaceholder := "${PROJECT_ROOT}"

  /** The reference a member dependency is rewritten to. */
  function MemberReference(dep: string): string {
    dep + " @ file://" + RootPlaceholder + "/../" + dep
  }

  lemma NameCharNotSpace(c: char)
    requires IsNameChar(c)
    ensures !IsSpace(c) && c != '@'
  {
  }

  /** Where the parts of `n @ file://rest` sit. */
  lemma FileReferenceLayout(n: string, rest: string)
    requires IsDepName(n)
    ensures var s := n + " @ file://" + rest; var k := |n|;
      && |s| == k + 10 + |rest| && s[..k] == n
      && (forall j :: 0 <= j < k ==> IsNameChar(s[j]))
      && s[k] == ' ' && s[k + 1] == '@' && s[k + 2] == ' ' && s[k + 3] == 'f'
      && s[k + 3..][..7] == "file://"
  {
    var s := n + " @ file://" + rest;
    var k := |n|;
    assert forall j :: 0 <= j < k ==> s[j] == n[j];
  }

  /** The runs `ParseDepName` measures in `name @ f...`. */
  lemma FileReferenceSpans(s: string, k: nat)
    requires 0 < k && k + 4 <= |s|
    requires forall j :: 0 <= j < k ==> IsNameChar(s[j])
    requires s[k] == ' ' && s[k + 1] == '@' && s[k + 2] == ' ' && s[k + 3] == 'f'
    ensures SpanName(s, 0) == k && SpanSpace(s, k) == k + 1 && SpanSpace(s, k + 2) == k + 3
  {
    assert !IsNameChar(s[k]);
    assert SpanSpace(s, k + 1) == k + 1;
    assert SpanSpace(s, k + 3) == k + 3;
  }

  /** A name followed by ` @ file://` is parsed back to that name. */
  lemma ParseFileReference(n: string, rest: string)
    requires IsDepName(n)
    ensures ParseDepName(n + " @ file://" + rest) == n
  {
    var s := n + " @ file://" + rest;
    FileReferenceLayout(n, rest);
    NameCharNotSpace(s[0]);
    LStripNoLeadingSpace(s);
    FileReferenceSpans(s, |n|);
  }

  /** Rewriting is stable: the rewritten reference names the same member. */
  lemma ParseMemberReference(n: string)
    requires IsDepName(n)
    ensures ParseDepName(MemberReference(n)) == n
  {
    var rest := RootPlaceholder + "/../" + n;
    assert MemberReference(n) == n + " @ file://" + rest by {
      ConcatTail(n, " @ file://", RootPlaceholder, "/../", n);
    }
    ParseFileReference(n, rest);
  }

  // ===========================================================================
  // member_project_dependencies: the dependency list

  /** The entry the rewrite loop puts in place of `x`: the member reference when
      the name `parse` reads from it is a member name, `x` itself otherwise. */
  function Rewritten(x: Value, names: seq<Value>, parse: string -> string): Value
    requires x.Str?
  {
    var dep := parse(x.s);
    if Str(dep) in names then Str(MemberReference(dep)) else x
  }

  const NotAString := "expected string or bytes-like object"
  const NoGet := "object has no attribute 'get'"

  /** The member `x` names, if any. */
  function MemberFound(x: Value, names: seq<Value>, parse: string -> string): seq<string>
    requires x.Str?
  {
    var dep := parse(x.s);
    if Str(dep) in names then [dep] else []
  }

  /** The dependency list after the rewrite loop, and the member names found,
      in order; an entry that is not a string cannot be matched and raises. */
  function RewriteItems(items: seq<Value>, names: seq<Value>, parse: string -> string)
    : (r: Result<(seq<Value>, seq<string>)>)
    ensures r.Failure? ==> r.error == NotAString
  {
    if items == [] then Success(([], []))
    else
      var pre :- RewriteItems(items[..|items| - 1], names, parse);
      var x := items[|items| - 1];
      if !x.Str? then Failure(NotAString)
      else Success((pre.0 + [Rewritten(x, names, parse)], pre.1 + MemberFound(x, names, parse)))
  }

  /** The rewrite succeeds exactly when every entry is a string. */
  lemma {:induction false} RewriteItemsSucceeds(items: seq<Value>, names: seq<Value>, parse: string -> string)
    ensures RewriteItems(items, names, parse).Success? <==> forall i :: 0 <= i < |items| ==> items[i].Str?
    decreases |items|
  {
    if items != [] {
      var n := |items|;
      var pre := items[..n - 1];
      RewriteItemsSucceeds(pre, names, parse);
      assert forall i :: 0 <= i < n - 1 ==> pre[i] == items[i];
    }
  }

  /** The rewrite keeps the length, turns each entry naming a member into that
      member's reference and leaves every other entry alone. */
  lemma {:induction false} RewriteItemsEntries(items: seq<Value>, names: seq<Value>, parse: string -> string)
    requires RewriteItems(items, names, parse).Success?
    ensures var out := RewriteItems(items, names, parse).value.0;
      && |out| == |items|
      && forall i :: 0 <= i < |items| ==> items[i].Str? && out[i] == Rewritten(items[i], names, parse)
    decreases |items|
  {
    if items != [] {
      var n := |items|;
      var pre := items[..n - 1];
      RewriteItemsEntries(pre, names, parse);
      var out := RewriteItems(items, names, parse).value.0;
      var p := RewriteItems(pre, names, parse).value.0;
      assert out == p + [Rewritten(items[n - 1], names, parse)];
      assert forall i :: 0 <= i < n - 1 ==> pre[i] == items[i] && out[i] == p[i];
    }
  }

  /** The members recorded are exactly those some entry names. */
  lemma {:induction false} RewriteItemsFound(items: seq<Value>, names: seq<Value>, parse: string -> string)
    requires RewriteItems(items, names, parse).Success?
    ensures forall d :: d in RewriteItems(items, names, parse).value.1 <==>
      exists i :: 0 <= i < |items| && items[i].Str? && parse(items[i].s) == d && Str(d) in names
    decreases |items|
  {
    if items != [] {
      var n := |items|;
      var pre := items[..n - 1];
      RewriteItemsFound(pre, names, parse);
      assert forall i :: 0 <= i < n - 1 ==> pre[i] == items[i];
    }
  }

  /** Every member reference `parse` reads back to its member. */
  predicate ReadsBack(names: seq<Value>, parse: string -> string) {
    forall i :: 0 <= i < |names| ==> names[i].Str? ==> parse(MemberReference(names[i].s)) == names[i].s
  }

  /** Member names that `parse_dep_name` reads back: those its pattern
      captures whole. */
  lemma ParsableNames(names: seq<Value>)
    requires forall i :: 0 <= i < |names| ==> names[i].Str? ==> IsDepName(names[i].s)
    ensures ReadsBack(names, ParseDepName)
  {
    forall i | 0 <= i < |names| && names[i].Str?
      ensures ParseDepName(MemberReference(names[i].s)) == names[i].s
    {
      ParseMemberReference(names[i].s);
    }
  }

  /** A second rewrite of a rewritten list changes nothing and finds the same
      members. */
  lemma {:induction false} RewriteItemsIdempotent(items: seq<Value>, names: seq<Value>, parse: string -> string)
    requires ReadsBack(names, parse)
    requires RewriteItems(items, names, parse).Success?
    ensures RewriteItems(RewriteItems(items, names, parse).value.0, names, parse) == RewriteItems(items, names, parse)
    decreases |items|
  {
    if items != [] {
      var n := |items|;
      var pre := items[..n - 1];
      RewriteItemsIdempotent(pre, names, parse);
      var r := RewriteItems(items, names, parse).value;
      var p := RewriteItems(pre, names, parse).value;
      var x := items[n - 1];
      var last := Rewritten(x, names, parse);
      assert r.0 == p.0 + [last];
      assert r.0[..|r.0| - 1] == p.0;
      var dep := parse(x.s);
      if Str(dep) in names {
        var i :| 0 <= i < |names| && names[i] == Str(dep);
        assert parse(MemberReference(dep)) == dep;
      }
    }
  }

  // ===========================================================================
  // member_project_dependencies: tool.uv.sources

  const DepsPath: seq<string> := ["project", "dependencies"]
  const SourcesPath: seq<string> := ["tool", "uv", "sources"]

  /** Where the workspace flag of a source lives. */
  function SourcePath(name: string): seq<string> {
    SourcesPath + [name, "workspace"]
  }

  lemma SourcePathSplit(name: string)
    ensures SourcePath(name) == SourcesPath + [name] + ["workspace"]
  {
    PairSplit(SourcesPath, name, "workspace");
  }

  /** A source entry of the form `{ workspace = true, ... }`. */
  predicate WorkspaceSource(v: Value) {
    v.Table? && FindOrNil(v.entries, "workspace") == Bool(true)
  }

  /** The sources table after the clean-up loop: an entry is deleted when its
      key is not among the member dependencies and its `workspace` is true; an
      entry that is consulted and is not a table has no `.get` and raises. */
  function DropStale(es: seq<Entry>, deps: seq<string>): (r: Result<seq<Entry>>)
    ensures r.Failure? ==> r.error == NoGet
  {
    if es == [] then Success([])
    else
      var pre :- DropStale(es[..|es| - 1], deps);
      var last :- KeepSource(es[|es| - 1], deps);
      Success(pre + last)
  }

  /** What the clean-up keeps of one entry. */
  function KeepSource(e: Entry, deps: seq<string>): (r: Result<seq<Entry>>)
    ensures r.Success? ==> r.value == [] || r.value == [e]
    ensures r.Failure? ==> r.error == NoGet
  {
    if e.key in deps then Success([e])
    else if !e.val.Table? then Failure(NoGet)
    else if WorkspaceSource(e.val) then Success([])
    else Success([e])
  }

  /** How the clean-up treats the last entry. */
  lemma DropStaleLast(es: seq<Entry>, deps: seq<string>)
    requires es != [] && DropStale(es, deps).Success?
    ensures var pre := es[..|es| - 1]; var e := es[|es| - 1];
      && DropStale(pre, deps).Success? && KeepSource(e, deps).Success?
      && DropStale(es, deps).value == DropStale(pre, deps).value + KeepSource(e, deps).value
  {
  }

  /** Looking a key up after the clean-up of a non-empty table, split at
      its last entry. */
  lemma DropStaleFindLast(es: seq<Entry>, deps: seq<string>, k: string)
    requires es != [] && DropStale(es, deps).Success?
    ensures var p := DropStale(es[..|es| - 1], deps).value;
      var e := es[|es| - 1];
      && DropStale(es[..|es| - 1], deps).Success? && KeepSource(e, deps).Success?
      && Find(DropStale(es, deps).value, k) ==
         (if Find(p, k).Some? || KeepSource(e, deps).value == [] then Find(p, k)
          else if e.key == k then Some(e.val) else None)
  {
    var p := DropStale(es[..|es| - 1], deps).value;
    var e := es[|es| - 1];
    DropStaleLast(es, deps);
    if KeepSource(e, deps).value == [] {
      assert p + [] == p;
    } else {
      FindSnoc(p, e, k);
    }
  }

  /** Sources in `deps` are untouched by the clean-up. */
  lemma {:induction false} DropStaleKeeps(es: seq<Entry>, deps: seq<string>, k: string)
    requires DropStale(es, deps).Success? && k in deps
    ensures Find(DropStale(es, deps).value, k) == Find(es, k)
    decreases |es|
  {
    if es != [] {
      DropStaleFindLast(es, deps, k);
      DropStaleKeeps(es[..|es| - 1], deps, k);
      FindLast(es, k);
    }
  }

  /** No source outside `deps` is left a workspace source. */
  lemma {:induction false} DropStaleClears(es: seq<Entry>, deps: seq<string>, k: string)
    requires DropStale(es, deps).Success? && k !in deps
    ensures Find(DropStale(es, deps).value, k).None? || !WorkspaceSource(Find(DropStale(es, deps).value, k).value)
    decreases |es|
  {
    if es != [] {
      DropStaleFindLast(es, deps, k);
      DropStaleClears(es[..|es| - 1], deps, k);
    }
  }

  /** The clean-up adds no key. */
  lemma {:induction false} DropStaleClearsAbsent(es: seq<Entry>, deps: seq<string>, k: string)
    requires DropStale(es, deps).Success? && Find(es, k).None?
    ensures Find(DropStale(es, deps).value, k).None?
    decreases |es|
  {
    if es != [] {
      DropStaleFindLast(es, deps, k);
      FindLast(es, k);
      DropStaleClearsAbsent(es[..|es| - 1], deps, k);
    }
  }

  /** Any other source that is not a workspace source is kept as it is. */
  lemma {:induction false} DropStaleKeepsOthers(es: seq<Entry>, deps: seq<string>, k: string)
    requires DropStale(es, deps).Success? && k !in deps
    requires Find(es, k).Some? && !WorkspaceSource(Find(es, k).value)
    ensures Find(DropStale(es, deps).value, k) == Find(es, k)
    decreases |es|
  {
    DropStaleFindLast(es, deps, k);
    FindLast(es, k);
    var pre := es[..|es| - 1];
    if Find(pre, k).Some? {
      DropStaleKeepsOthers(pre, deps, k);
    } else {
      DropStaleClearsAbsent(pre, deps, k);
    }
  }

  /** The clean-up step: it runs only when `tool.uv.sources` is a table. */
  function CleanSources(doc: Doc, deps: seq<string>): Result<Doc>
  {
    var sources := Get(doc, SourcesPath, Nil);
    if !sources.Table? then Success(doc)
    else
      var kept :- DropStale(sources.entries, deps);
      Success(MappingSet(doc, SourcesPath, Table(kept)).0)
  }

  /** `mapping_set(doc, "tool", "uv", "sources", dep, "workspace", value=True)`
      for each member dependency in turn. */
  function SetWorkspaceSources(doc: Doc, deps: seq<string>): Doc
  {
    if deps == [] then doc
    else MappingSet(SetWorkspaceSources(doc, deps[..|deps| - 1]), SourcePath(deps[|deps| - 1]), Bool(true)).0
  }

  /** Every member dependency ends up a workspace source. */
  lemma {:induction false} SetWorkspaceSourcesStores(doc: Doc, deps: seq<string>, d: string)
    requires d in deps
    ensures LookupOrNil(SetWorkspaceSources(doc, deps), SourcePath(d)) == Bool(true)
    decreases |deps|
  {
    var n := |deps|;
    var pre := SetWorkspaceSources(doc, deps[..n - 1]);
    if deps[n - 1] == d {
      MappingSetStores(pre, SourcePath(d), Bool(true));
    } else {
      assert d in deps[..n - 1];
      SetWorkspaceSourcesStores(doc, deps[..n - 1], d);
      SourcePathsDiverge(deps[n - 1], d, []);
      MappingSetFrame(pre, SourcePath(deps[n - 1]), Bool(true), SourcePath(d));
    }
  }

  /** Paths under two different sources lead apart. */
  lemma SourcePathsDiverge(a: string, b: string, tail: seq<string>)
    requires a != b
    ensures Diverges(SourcePath(a), SourcesPath + [b] + tail)
    ensures Diverges(SourcePath(a), SourcePath(b))
  {
    var p := SourcePath(a);
    var q := SourcesPath + [b] + tail;
    assert p[1..][1..][1..][0] == a;
    assert q[1..][1..][1..][0] == b;
    assert Diverges(p[1..][1..][1..], q[1..][1..][1..]);
    var r := SourcePath(b);
    assert Diverges(p[1..][1..][1..], r[1..][1..][1..]);
  }

  /** Lookups under a source that is not a member dependency are unchanged. */
  lemma {:induction false} SetWorkspaceSourcesFrame(doc: Doc, deps: seq<string>, k: string, tail: seq<string>)
    requires k !in deps
    ensures Lookup(SetWorkspaceSources(doc, deps), SourcesPath + [k] + tail) == Lookup(doc, SourcesPath + [k] + tail)
    decreases |deps|
  {
    if deps != [] {
      var n := |deps|;
      assert k !in deps[..n - 1];
      SetWorkspaceSourcesFrame(doc, deps[..n - 1], k, tail);
      SourcePathsDiverge(deps[n - 1], k, tail);
      MappingSetFrame(SetWorkspaceSources(doc, deps[..n - 1]), SourcePath(deps[n - 1]), Bool(true), SourcesPath + [k] + tail);
    }
  }

  /** Lookups outside `tool` are unchanged by the sources steps. */
  lemma {:induction false} SetWorkspaceSourcesOutside(doc: Doc, deps: seq<string>, q: seq<string>)
    requires q != [] && q[0] != "tool"
    ensures Lookup(SetWorkspaceSources(doc, deps), q) == Lookup(doc, q)
    decreases |deps|
  {
    if deps != [] {
      var n := |deps|;
      SetWorkspaceSourcesOutside(doc, deps[..n - 1], q);
      MappingSetFrame(SetWorkspaceSources(doc, deps[..n - 1]), SourcePath(deps[n - 1]), Bool(true), q);
    }
  }

  // ===========================================================================
  // member_project_dependencies: one manifest

  const NoItemAssignment := "'str' object does not support item assignment"
  const NoKeyZero := "KeyError: 0"
  const NoLength := "object has no len()"

  /** The loop over a string: `range(len(deps))` walks its characters, each
      taken for a dependency, and the first that names a member cannot be
      assigned back. */
  function ScanNames(s: string, names: seq<Value>, parse: string -> string): (r: Result<Unit>)
    ensures r.Failure? <==> exists i :: 0 <= i < |s| && Str(parse([s[i]])) in names
    ensures r.Failure? ==> r.error == NoItemAssignment
  {
    if s == [] then Success(Unit)
    else if Str(parse([s[0]])) in names then Failure(NoItemAssignment)
    else
      var rest := ScanNames(s[1..], names, parse);
      assert forall i :: 1 <= i < |s| ==> s[i] == s[1..][i - 1];
      rest
  }

  /** The index loop of `_set` over whatever `project.dependencies` holds: a
      list is rewritten; a string is walked character by character; an empty
      table gives an empty range and a non-empty one has no key 0; a number or
      boolean has no length. Only a list can yield member dependencies. */
  function RewriteAny(deps: Value, names: seq<Value>, parse: string -> string): (r: Result<(Value, seq<string>)>)
    ensures r.Success? && !deps.Array? ==> r.value == (deps, [])
    ensures deps.Table? ==> (r.Success? <==> deps.entries == [])
    ensures deps.Str? ==> (r.Success? <==> forall i :: 0 <= i < |deps.s| ==> Str(parse([deps.s[i]])) !in names)
    ensures deps.Int? || deps.Bool? || deps.Nil? ==> r == Failure(NoLength)
  {
    match deps
    case Array(items) =>
      var rw :- RewriteItems(items, names, parse);
      Success((Array(rw.0), rw.1))
    case Str(s) =>
      var _ :- ScanNames(s, names, parse);
      Success((deps, []))
    case Table(es) => if es == [] then Success((deps, [])) else Failure(NoKeyZero)
    case _ => Failure(NoLength)
  }

  /** `_set` of `member_project_dependencies` on one manifest, given the names
      of the root's members: the edited document and the member dependencies
      found. */
  function SyncDependencies(doc: Doc, names: seq<Value>, parse: string -> string): Result<(Doc, seq<string>)>
  {
    var rw :- RewriteAny(Get(doc, DepsPath, Array([])), names, parse);
    var doc1 := if rw.1 == [] then doc else MappingSet(doc, DepsPath, rw.0).0;
    var doc2 :- CleanSources(doc1, rw.1);
    Success((SetWorkspaceSources(doc2, rw.1), rw.1))
  }

  lemma {:induction false} RewriteItemsFails(items: seq<Value>, names: seq<Value>, parse: string -> string, i: nat)
    requires i < |items| && !items[i].Str?
    ensures RewriteItems(items, names, parse) == Failure(NotAString)
  {
    RewriteItemsSucceeds(items, names, parse);
  }

  lemma {:induction false} DropStaleFails(es: seq<Entry>, deps: seq<string>, j: nat)
    requires j < |es| && DropStale(es[..j], deps).Success? && KeepSource(es[j], deps).Failure?
    ensures DropStale(es, deps) == Failure(NoGet)
    decreases |es|
  {
    if j < |es| - 1 {
      var pre := es[..|es| - 1];
      assert pre[..j] == es[..j] && pre[j] == es[j];
      DropStaleFails(pre, deps, j);
    } else {
      assert es[..|es| - 1] == es[..j];
    }
  }

  /** The index loop of `_set` over the dependency list: each member
      dependency is replaced by its file reference and collected. */
  method RewriteDependencies(deps: seq<Value>, names: seq<Value>, parse: string -> string)
    returns (r: Result<(seq<Value>, seq<string>)>)
    ensures r == RewriteItems(deps, names, parse)
  {
    var items := deps;
    var memberDeps: seq<string> := [];
    var i := 0;
    while i < |items|
      invariant 0 <= i <= |items| == |deps|
      invariant forall k :: i <= k < |items| ==> items[k] == deps[k]
      invariant RewriteItems(deps[..i], names, parse) == Success((items[..i], memberDeps))
    {
      assert deps[..i + 1][..i] == deps[..i];
      assert items[i] == deps[i];
      if !items[i].Str? {
        RewriteItemsFails(deps, names, parse, i);
        return Failure(NotAString);
      }
      assert RewriteItems(deps[..i + 1], names, parse) ==
        Success((items[..i] + [Rewritten(deps[i], names, parse)], memberDeps + MemberFound(deps[i], names, parse)));
      var dep := parse(items[i].s);
      if Str(dep) !in names {
        TakeSnoc(items, i);
        assert memberDeps + [] == memberDeps;
        i := i + 1;
        continue;
      }
      ghost var done := items[..i];
      UpdateTake(items, i, Str(MemberReference(dep)));
      items := items[i := Str(MemberReference(dep))];
      assert items[..i + 1] == done + [Rewritten(deps[i], names, parse)];
      assert [dep] == MemberFound(deps[i], names, parse);
      memberDeps := memberDeps + [dep];
      i := i + 1;
    }
    assert deps[..|items|] == deps && items[..|items|] == items;
    return Success((items, memberDeps));
  }

  /** The index loop of `_set` on whatever `project.dependencies` holds. */
  method RewriteAnyDependencies(deps: Value, names: seq<Value>, parse: string -> string)
    returns (r: Result<(Value, seq<string>)>)
    ensures r == RewriteAny(deps, names, parse)
  {
    match deps
    case Array(items) =>
      var rw := RewriteDependencies(items, names, parse);
      if rw.Failure? {
        return Failure(rw.error);
      }
      return Success((Array(rw.value.0), rw.value.1));
    case Str(s) =>
      var i := 0;
      while i < |s|
        invariant 0 <= i <= |s|
        invariant ScanNames(s, names, parse) == ScanNames(s[i..], names, parse)
      {
        if Str(parse([s[i]])) in names {
          return Failure(NoItemAssignment);
        }
        assert s[i..][1..] == s[i + 1..];
        i := i + 1;
      }
      return Success((deps, []));
    case Table(es) =>
      if es != [] {
        return Failure(NoKeyZero);
      }
      return Success((deps, []));
    case _ =>
      return Failure(NoLength);
  }

  /** The loop of `_set` over `tool.uv.sources` that deletes the workspace
      sources of names that are no longer member dependencies, modelled as
      building the table of the entries it keeps. */
  method DropStaleSources(es: seq<Entry>, memberDeps: seq<string>) returns (r: Result<seq<Entry>>)
    ensures r == DropStale(es, memberDeps)
  {
    var kept: seq<Entry> := [];
    var j := 0;
    while j < |es|
      invariant 0 <= j <= |es|
      invariant DropStale(es[..j], memberDeps) == Success(kept)
    {
      var e := es[j];
      assert es[..j + 1][..j] == es[..j];
      if e.key !in memberDeps {
        if !e.val.Table? {
          DropStaleFails(es, memberDeps, j);
          return Failure(NoGet);
        }
        if FindOrNil(e.val.entries, "workspace") == Bool(true) {
          assert kept + [] == kept;
          j := j + 1;
          continue;
        }
      }
      kept := kept + [e];
      j := j + 1;
    }
    assert es[..|es|] == es;
    return Success(kept);
  }

  /** The closing loop of `_set`: every member dependency becomes a workspace source. */
  method MarkWorkspaceSources(doc: Doc, memberDeps: seq<string>) returns (out: Doc)
    ensures out == SetWorkspaceSources(doc, memberDeps)
  {
    out := doc;
    var m := 0;
    while m < |memberDeps|
      invariant 0 <= m <= |memberDeps|
      invariant out == SetWorkspaceSources(doc, memberDeps[..m])
    {
      assert memberDeps[..m + 1][..m] == memberDeps[..m];
      out := MappingSet(out, SourcePath(memberDeps[m]), Bool(true)).0;
      m := m + 1;
    }
    assert memberDeps[..|memberDeps|] == memberDeps;
  }

  /** `_set` of `member_project_dependencies` on one manifest. */
  method MemberDependencies(doc: Doc, names: seq<Value>, parse: string -> string)
    returns (r: Result<(Doc, seq<string>)>)
    ensures r == SyncDependencies(doc, names, parse)
  {
    var deps := MappingGet(Table(doc), DepsPath, Array([]));
    var rw := RewriteAnyDependencies(deps, names, parse);
    if rw.Failure? {
      return Failure(rw.error);
    }
    var (rewritten, memberDeps) := rw.value;
    var doc1 := doc;
    if memberDeps != [] {
      doc1 := MappingSet(doc, DepsPath, rewritten).0;
    }
    var sources := MappingGet(Table(doc1), SourcesPath, Nil);
    var doc2 := doc1;
    if sources.Table? {
      var kept := DropStaleSources(sources.entries, memberDeps);
      if kept.Failure? {
        return Failure(kept.error);
      }
      doc2 := MappingSet(doc1, SourcesPath, Table(kept.value)).0;
    }
    var out := doc2;
    if memberDeps != [] {
      out := MarkWorkspaceSources(doc2, memberDeps);
    }
    return Success((out, memberDeps));
  }

  // ---------------------------------------------------------------------------
  // What `_set` does to one manifest.

  /** Reading a source entry, or a path inside one, through the sources table. */
  lemma SourceEntryLookup(doc: Doc, k: string, tail: seq<string>)
    ensures Lookup(doc, SourcesPath + [k] + tail) ==
      (match Lookup(doc, SourcesPath)
       case Some(Table(sub)) => Lookup(sub, [k] + tail)
       case _ => None)
  {
    assert SourcesPath + [k] + tail == SourcesPath + ([k] + tail);
    LookupAppend(doc, SourcesPath, [k] + tail);
  }

  /** After the clean-up no source of a name outside `deps` is a workspace source. */
  lemma CleanSourcesClears(doc: Doc, deps: seq<string>, k: string)
    requires CleanSources(doc, deps).Success? && k !in deps
    ensures Lookup(CleanSources(doc, deps).value, SourcePath(k)) != Some(Bool(true))
  {
    var out := CleanSources(doc, deps).value;
    SourcePathSplit(k);
    SourceEntryLookup(out, k, ["workspace"]);
    var sources := Get(doc, SourcesPath, Nil);
    if sources.Table? {
      var kept := DropStale(sources.entries, deps).value;
      MappingSetStores(doc, SourcesPath, Table(kept));
      assert Lookup(out, SourcesPath) == Some(Table(kept));
      DropStaleClears(sources.entries, deps, k);
    }
  }

  /** The clean-up keeps every source of a name outside `deps` that is not a
      workspace source. */
  lemma CleanSourcesKeeps(doc: Doc, deps: seq<string>, k: string)
    requires CleanSources(doc, deps).Success? && k !in deps
    requires Lookup(doc, SourcesPath + [k]).Some? && !WorkspaceSource(Lookup(doc, SourcesPath + [k]).value)
    ensures Lookup(CleanSources(doc, deps).value, SourcesPath + [k]) == Lookup(doc, SourcesPath + [k])
  {
    var out := CleanSources(doc, deps).value;
    SourceEntryLookup(doc, k, []);
    SourceEntryLookup(out, k, []);
    assert SourcesPath + [k] + [] == SourcesPath + [k];
    var sources := Get(doc, SourcesPath, Nil);
    if sources.Table? {
      var kept := DropStale(sources.entries, deps).value;
      MappingSetStores(doc, SourcesPath, Table(kept));
      assert Lookup(out, SourcesPath) == Some(Table(kept));
      assert Lookup(doc, SourcesPath) == Some(sources);
      DropStaleKeepsOthers(sources.entries, deps, k);
    }
  }

  /** The clean-up touches nothing outside `tool`. */
  lemma CleanSourcesOutside(doc: Doc, deps: seq<string>, q: seq<string>)
    requires CleanSources(doc, deps).Success? && q != [] && q[0] != "tool"
    ensures Lookup(CleanSources(doc, deps).value, q) == Lookup(doc, q)
  {
    if Get(doc, SourcesPath, Nil).Table? {
      var kept := DropStale(Get(doc, SourcesPath, Nil).entries, deps).value;
      MappingSetFrame(doc, SourcesPath, Table(kept), q);
    }
  }

  /** Afterwards every member dependency has a workspace source, and no other
      name has one. */
  lemma {:induction false} SyncDependenciesSources(doc: Doc, names: seq<Value>, parse: string -> string, k: string)
    requires SyncDependencies(doc, names, parse).Success?
    ensures var (out, found) := SyncDependencies(doc, names, parse).value;
      (k in found ==> LookupOrNil(out, SourcePath(k)) == Bool(true))
      && (k !in found ==> Lookup(out, SourcePath(k)) != Some(Bool(true)))
  {
    var rw := RewriteAny(Get(doc, DepsPath, Array([])), names, parse).value;
    var doc1 := if rw.1 == [] then doc else MappingSet(doc, DepsPath, rw.0).0;
    var doc2 := CleanSources(doc1, rw.1).value;
    if k in rw.1 {
      SetWorkspaceSourcesStores(doc2, rw.1, k);
    } else {
      CleanSourcesClears(doc1, rw.1, k);
      SetWorkspaceSourcesFrame(doc2, rw.1, k, ["workspace"]);
      SourcePathSplit(k);
    }
  }

  /** A source of a name that is not a member dependency and is not a workspace
      source survives unchanged. */
  lemma {:induction false} SyncDependenciesKeepsSources(doc: Doc, names: seq<Value>, parse: string -> string, k: string)
    requires SyncDependencies(doc, names, parse).Success?
    requires k !in SyncDependencies(doc, names, parse).value.1
    requires Lookup(doc, SourcesPath + [k]).Some? && !WorkspaceSource(Lookup(doc, SourcesPath + [k]).value)
    ensures Lookup(SyncDependencies(doc, names, parse).value.0, SourcesPath + [k]) == Lookup(doc, SourcesPath + [k])
  {
    var rw := RewriteAny(Get(doc, DepsPath, Array([])), names, parse).value;
    var doc1 := if rw.1 == [] then doc else MappingSet(doc, DepsPath, rw.0).0;
    if rw.1 != [] {
      assert Diverges(DepsPath, SourcesPath + [k]);
      MappingSetFrame(doc, DepsPath, rw.0, SourcesPath + [k]);
    }
    CleanSourcesKeeps(doc1, rw.1, k);
    var doc2 := CleanSources(doc1, rw.1).value;
    SetWorkspaceSourcesFrame(doc2, rw.1, k, []);
    assert SourcesPath + [k] + [] == SourcesPath + [k];
  }

  /** With no member dependency found, the rewrite loop leaves the list alone. */
  lemma RewriteItemsNothingFound(items: seq<Value>, names: seq<Value>, parse: string -> string)
    requires RewriteItems(items, names, parse).Success?
    requires RewriteItems(items, names, parse).value.1 == []
    ensures RewriteItems(items, names, parse).value.0 == items
  {
    RewriteItemsEntries(items, names, parse);
    RewriteItemsFound(items, names, parse);
    var out := RewriteItems(items, names, parse).value.0;
    forall i | 0 <= i < |items| ensures out[i] == items[i] {
      assert Str(parse(items[i].s)) !in names;
    }
  }

  /** Afterwards `project.dependencies` is what the rewrite loop produced, and
      the member dependencies reported are the ones it found. */
  lemma {:induction false} SyncDependenciesList(doc: Doc, names: seq<Value>, parse: string -> string)
    requires SyncDependencies(doc, names, parse).Success?
    ensures var rw := RewriteAny(Get(doc, DepsPath, Array([])), names, parse);
      && rw.Success?
      && Get(SyncDependencies(doc, names, parse).value.0, DepsPath, Array([])) == rw.value.0
      && SyncDependencies(doc, names, parse).value.1 == rw.value.1
  {
    var deps := Get(doc, DepsPath, Array([]));
    var rw := RewriteAny(deps, names, parse).value;
    var doc1 := if rw.1 == [] then doc else MappingSet(doc, DepsPath, rw.0).0;
    var doc2 := CleanSources(doc1, rw.1).value;
    if rw.1 == [] {
      if deps.Array? {
        RewriteItemsNothingFound(deps.items, names, parse);
      }
    } else {
      MappingSetStores(doc, DepsPath, rw.0);
      assert rw.0.Array?;
    }
    assert Get(doc1, DepsPath, Array([])) == rw.0;
    CleanSourcesOutside(doc1, rw.1, DepsPath);
    SetWorkspaceSourcesOutside(doc2, rw.1, DepsPath);
  }

  /** `_set` of `member_project_dependencies` as an edit of the manifest alone. */
  function SyncDependenciesDoc(doc: Doc, names: seq<Value>, parse: string -> string): (r: Result<Doc>)
    ensures r.Success? <==> SyncDependencies(doc, names, parse).Success?
    ensures r.Success? ==> r.value == SyncDependencies(doc, names, parse).value.0
  {
    var (out, _) :- SyncDependencies(doc, names, parse);
    Success(out)
  }

  /** The edit touches nothing but `project.dependencies` and `tool.uv.sources`. */
  lemma {:induction false} SyncDependenciesFrame(doc: Doc, names: seq<Value>, parse: string -> string, q: seq<string>)
    requires SyncDependencies(doc, names, parse).Success?
    requires Diverges(DepsPath, q) && Diverges(SourcesPath, q)
    ensures Lookup(SyncDependencies(doc, names, parse).value.0, q) == Lookup(doc, q)
  {
    var rw := RewriteAny(Get(doc, DepsPath, Array([])), names, parse).value;
    var doc1 := if rw.1 == [] then doc else MappingSet(doc, DepsPath, rw.0).0;
    if rw.1 != [] {
      MappingSetFrame(doc, DepsPath, rw.0, q);
    }
    var sources := Get(doc1, SourcesPath, Nil);
    if sources.Table? {
      MappingSetFrame(doc1, SourcesPath, Table(DropStale(sources.entries, rw.1).value), q);
    }
    SetWorkspaceSourcesAway(CleanSources(doc1, rw.1).value, rw.1, q);
  }

  lemma {:induction false} DivergesExtend(p: seq<string>, ext: seq<string>, q: seq<string>)
    requires Diverges(p, q)
    ensures Diverges(p + ext, q)
    decreases |p|
  {
    assert (p + ext)[0] == p[0];
    if p[0] == q[0] {
      assert (p + ext)[1..] == p[1..] + ext;
      DivergesExtend(p[1..], ext, q[1..]);
    }
  }

  /** Marking workspace sources touches nothing away from `tool.uv.sources`. */
  lemma {:induction false} SetWorkspaceSourcesAway(doc: Doc, deps: seq<string>, q: seq<string>)
    requires Diverges(SourcesPath, q)
    ensures Lookup(SetWorkspaceSources(doc, deps), q) == Lookup(doc, q)
    decreases |deps|
  {
    if deps != [] {
      var d := deps[|deps| - 1];
      SetWorkspaceSourcesAway(doc, deps[..|deps| - 1], q);
      DivergesExtend(SourcesPath, [d, "workspace"], q);
      MappingSetFrame(SetWorkspaceSources(doc, deps[..|deps| - 1]), SourcePath(d), Bool(true), q);
    }
  }

  // ===========================================================================
  // build_system, member_project_tool and version on one manifest

  const BuildSystemKey := "build-system"
  const ToolPath: seq<string> := ["tool", "member-project"]
  const VersionPath: seq<string> := ["project", "version"]

  /** `p.pyproject["build-system"] = deepcopy(data)` */
  function SetBuildSystem(doc: Doc, data: Value): (r: Doc)
    ensures Find(r, BuildSystemKey) == Some(data)
    ensures forall k :: k != BuildSystemKey ==> Find(r, k) == Find(doc, k)
  {
    Put(doc, BuildSystemKey, data)
  }

  /** `_set` of `member_project_tool`: the root's `tool.member-project`, when
      it is truthy, is assigned to the same path of the manifest. */
  function SetMemberTool(doc: Doc, data: Value): (r: Doc)
    ensures Truthy(data) ==> LookupOrNil(r, ToolPath) == data
    ensures !Truthy(data) ==> r == doc
  {
    if Truthy(data) then MappingSetStores(doc, ToolPath, data); MappingSet(doc, ToolPath, data).0 else doc
  }

  lemma SetMemberToolFrame(doc: Doc, data: Value, q: seq<string>)
    requires Diverges(ToolPath, q)
    ensures Lookup(SetMemberTool(doc, data), q) == Lookup(doc, q)
  {
    if Truthy(data) {
      MappingSetFrame(doc, ToolPath, data, q);
    }
  }

  /** `_set` of `version`: `project.version` is assigned only when it differs
      from the requested version. */
  function SetVersion(doc: Doc, v: string): Doc
  {
    if Str(v) != Get(doc, VersionPath, Nil) then MappingSet(doc, VersionPath, Str(v)).0 else doc
  }

  /** Afterwards the manifest carries the version, and it was left alone
      exactly when it already did. */
  lemma SetVersionStores(doc: Doc, v: string)
    ensures Get(SetVersion(doc, v), VersionPath, Nil) == Str(v)
    ensures SetVersion(doc, v) == doc <==> Get(doc, VersionPath, Nil) == Str(v)
  {
    MappingSetStores(doc, VersionPath, Str(v));
  }

  lemma SetVersionFrame(doc: Doc, v: string, q: seq<string>)
    requires Diverges(VersionPath, q)
    ensures Lookup(SetVersion(doc, v), q) == Lookup(doc, q)
  {
    if Str(v) != Get(doc, VersionPath, Nil) {
      MappingSetFrame(doc, VersionPath, Str(v), q);
    }
  }

  /** The version `version` applies: the argument, else the git-derived
      version, else the default. */
  function ChosenVersion(requested: string, git: Option<string>): (v: string)
    ensures v != ""
    ensures requested != "" ==> v == requested
    ensures requested == "" && git.Some? && git.value != "" ==> v == git.value
    ensures requested == "" && (git.None? || git.value == "") ==> v == DefaultVersion
  {
    if requested != "" then requested
    else if git.Some? && git.value != "" then git.value
    else DefaultVersion
  }

  /** Copying the root's own build system into the root changes nothing. */
  lemma SetBuildSystemRoot(root: Doc)
    requires Truthy(FindOrNil(root, BuildSystemKey))
    ensures SetBuildSystem(root, FindOrNil(root, BuildSystemKey)) == root
  {
    PutExisting(root, BuildSystemKey, FindOrNil(root, BuildSystemKey));
  }

  /** Copying the root's own member-project tool table into the root changes nothing. */
  lemma SetMemberToolRoot(root: Doc)
    ensures SetMemberTool(root, Get(root, ToolPath, Nil)) == root
  {
    var data := Get(root, ToolPath, Nil);
    if Truthy(data) {
      assert Lookup(root, ToolPath) == Some(data);
      MappingSetPresent(root, ToolPath, data);
    }
  }

  lemma SetBuildSystemIdempotent(doc: Doc, data: Value)
    ensures SetBuildSystem(SetBuildSystem(doc, data), data) == SetBuildSystem(doc, data)
  {
    PutExisting(SetBuildSystem(doc, data), BuildSystemKey, data);
  }

  lemma SetMemberToolIdempotent(doc: Doc, data: Value)
    ensures SetMemberTool(SetMemberTool(doc, data), data) == SetMemberTool(doc, data)
  {
    if Truthy(data) {
      var once := SetMemberTool(doc, data);
      assert Lookup(once, ToolPath) == Some(data);
      MappingSetPresent(once, ToolPath, data);
    }
  }

  lemma SetVersionIdempotent(doc: Doc, v: string)
    ensures SetVersion(SetVersion(doc, v), v) == SetVersion(doc, v)
  {
    SetVersionStores(doc, v);
  }

  // ===========================================================================
  // _update_projects and the commands built on it

  /** `edit` applied `n` times, stopping at the first error. */
  function Iterate(edit: Doc -> Result<Doc>, n: nat, d: Doc): Result<Doc>
  {
    if n == 0 then Success(d)
    else
      var d' :- Iterate(edit, n - 1, d);
      edit(d')
  }

  lemma IterateStep(edit: Doc -> Result<Doc>, n: nat, d: Doc)
    requires n > 0 && Iterate(edit, n, d).Success?
    ensures Iterate(edit, n - 1, d).Success?
    ensures Iterate(edit, n, d) == edit(Iterate(edit, n - 1, d).value)
  {
  }

  lemma IterateNext(edit: Doc -> Result<Doc>, n: nat, d: Doc, cur: Doc)
    requires Iterate(edit, n, d) == Success(cur)
    ensures Iterate(edit, n + 1, d) == edit(cur)
  {
  }

  lemma {:induction false} IterateFails(edit: Doc -> Result<Doc>, n: nat, m: nat, d: Doc)
    requires n <= m && Iterate(edit, n, d).Failure?
    ensures Iterate(edit, m, d).Failure?
    decreases m
  {
    if n < m {
      IterateFails(edit, n, m - 1, d);
    }
  }

  /** An edit that always succeeds and leaves its own result alone acts once
      however often it is applied. */
  lemma {:induction false} IterateIdempotent(edit: Doc -> Result<Doc>, n: nat, d: Doc)
    requires forall x :: edit(x).Success? && edit(edit(x).value) == edit(x)
    requires n >= 1
    ensures Iterate(edit, n, d) == edit(d)
  {
    if n > 1 {
      IterateIdempotent(edit, n - 1, d);
    }
  }

  /** One turn of `_update_projects`: the `i`-th target edited once more,
      `orig` holding every target's document before the loop. */
  method UpdateNext(targets: seq<Project>, i: nat, edit: Doc -> Result<Doc>,
                    ghost orig: map<Project, Doc>) returns (r: Result<Unit>)
    requires i < |targets|
    requires forall p :: p in targets ==>
      p in orig && Iterate(edit, multiset(targets[..i])[p], orig[p]) == Success(p.pyproject)
    modifies targets[i]
    ensures r.Failure? ==> !Iterate(edit, multiset(targets)[targets[i]], orig[targets[i]]).Success?
    ensures r.Success? ==> forall p :: p in targets ==>
      Iterate(edit, multiset(targets[..i + 1])[p], orig[p]) == Success(p.pyproject)
  {
    var p := targets[i];
    ghost var n := multiset(targets[..i])[p];
    assert multiset(targets[..i + 1]) == multiset(targets[..i]) + multiset{p} by {
      TakeMultisetSnoc(targets, i);
    }
    var next := edit(p.pyproject);
    assert Iterate(edit, n + 1, orig[p]) == next by {
      IterateNext(edit, n, orig[p], p.pyproject);
    }
    if next.Failure? {
      assert !Iterate(edit, multiset(targets)[p], orig[p]).Success? by {
        TakeMultiset(targets, i + 1);
        IterateFails(edit, n + 1, multiset(targets)[p], orig[p]);
      }
      return Failure(next.error);
    }
    p.pyproject := next.value;
    forall q | q in targets
      ensures Iterate(edit, multiset(targets[..i + 1])[q], orig[q]) == Success(q.pyproject)
    {
      if q != p {
        assert multiset(targets[..i + 1])[q] == multiset(targets[..i])[q];
      }
    }
    r := Success(Unit);
  }

  /** `_update_projects`: the edit applied to each target in order. A project
      that occurs `n` times among the targets is edited `n` times; an error
      stops the loop. */
  method UpdateProjects(targets: seq<Project>, edit: Doc -> Result<Doc>) returns (r: Result<Unit>)
    modifies set p | p in targets
    ensures r.Success? <==>
      forall p :: p in targets ==> Iterate(edit, multiset(targets)[p], old(p.pyproject)).Success?
    ensures r.Success? ==>
      forall p :: p in targets ==> p.pyproject == Iterate(edit, multiset(targets)[p], old(p.pyproject)).value
  {
    ghost var orig := map p | p in targets :: p.pyproject;
    for i := 0 to |targets|
      invariant forall p :: p in targets ==>
        p in orig && Iterate(edit, multiset(targets[..i])[p], orig[p]) == Success(p.pyproject)
    {
      var done := UpdateNext(targets, i, edit, orig);
      if done.Failure? {
        assert targets[i] in targets && orig[targets[i]] == old(targets[i].pyproject);
        return done;
      }
    }
    FullTake(targets);
    forall p | p in targets
      ensures Iterate(edit, multiset(targets)[p], old(p.pyproject)) == Success(p.pyproject)
    {
      assert orig[p] == old(p.pyproject);
    }
    return Success(Unit);
  }

  /** `build_system`: the root's `build-system` table copied into every target;
      when the root has none, a warning and no change. */
  method BuildSystem(targets: seq<Project>, root: Project) returns (warned: bool)
    modifies set p | p in targets
    ensures warned <==> !Truthy(FindOrNil(old(root.pyproject), BuildSystemKey))
    ensures forall p :: p in targets ==>
      (p.pyproject == if warned then old(p.pyproject)
        else SetBuildSystem(old(p.pyproject), FindOrNil(old(root.pyproject), BuildSystemKey)))
  {
    var data := FindOrNil(root.pyproject, BuildSystemKey);
    if !Truthy(data) {
      return true;
    }
    var edit := (d: Doc) => Success(SetBuildSystem(d, data));
    forall x ensures edit(x).Success? && edit(edit(x).value) == edit(x) {
      SetBuildSystemIdempotent(x, data);
    }
    var r := UpdateProjects(targets, edit);
    forall p | p in targets ensures Iterate(edit, multiset(targets)[p], old(p.pyproject)) == edit(old(p.pyproject)) {
      IterateIdempotent(edit, multiset(targets)[p], old(p.pyproject));
    }
    assert r.Success?;
    return false;
  }

  /** `member_project_tool`: for each target in turn the root's
      `tool.member-project` is read and, when truthy, assigned to the target's.
      The root may itself be a target; that assignment leaves it alone, so every
      target receives the root's original table. */
  method MemberProjectTool(targets: seq<Project>, root: Project)
    modifies set p | p in targets
    ensures forall p :: p in targets ==>
      p.pyproject == SetMemberTool(old(p.pyproject), Get(old(root.pyproject), ToolPath, Nil))
  {
    ghost var data0 := Get(root.pyproject, ToolPath, Nil);
    for i := 0 to |targets|
      invariant Get(root.pyproject, ToolPath, Nil) == data0
      invariant forall p :: p in targets ==>
        p.pyproject == if p in targets[..i] then SetMemberTool(old(p.pyproject), data0) else old(p.pyproject)
    {
      var p := targets[i];
      TakeSnoc(targets, i);
      var data := MappingGet(Table(root.pyproject), ToolPath, Nil);
      ghost var before := p.pyproject;
      if Truthy(data) {
        p.pyproject := MappingSet(p.pyproject, ToolPath, data).0;
      }
      assert p.pyproject == SetMemberTool(before, data0);
      SetMemberToolIdempotent(old(p.pyproject), data0);
    }
  }

  /** `version`: every target's `project.version` becomes the chosen version,
      written only where it differs. */
  method Version(targets: seq<Project>, requested: string, git: Option<string>) returns (v: string)
    modifies set p | p in targets
    ensures v == ChosenVersion(requested, git)
    ensures forall p :: p in targets ==> p.pyproject == SetVersion(old(p.pyproject), v)
  {
    v := requested;
    if v == "" {
      v := if git.Some? && git.value != "" then git.value else DefaultVersion;
    }
    var w := v;
    var edit := (d: Doc) => Success(SetVersion(d, w));
    forall x ensures edit(x).Success? && edit(edit(x).value) == edit(x) {
      SetVersionIdempotent(x, w);
    }
    var r := UpdateProjects(targets, edit);
    forall p | p in targets ensures Iterate(edit, multiset(targets)[p], old(p.pyproject)) == edit(old(p.pyproject)) {
      IterateIdempotent(edit, multiset(targets)[p], old(p.pyproject));
    }
    assert r.Success?;
  }

  /** `member_project_dependencies`: every target's manifest is rewritten
      against the names of the root's members, taken once before the loop. */
  method MemberProjectDependencies(targets: seq<Project>, names: seq<Value>) returns (r: Result<Unit>)
    modifies set p | p in targets
    ensures r.Success? <==>
      forall p :: p in targets ==> Iterate(SyncEdit(names), multiset(targets)[p], old(p.pyproject)).Success?
    ensures r.Success? ==>
      forall p :: p in targets ==> p.pyproject == Iterate(SyncEdit(names), multiset(targets)[p], old(p.pyproject)).value
  {
    r := UpdateProjects(targets, SyncEdit(names));
  }

  /** The manifest edit of `member_project_dependencies` for fixed member names. */
  function SyncEdit(names: seq<Value>): Doc -> Result<Doc>
  {
    d => SyncDependenciesDoc(d, names, ParseDepName)
  }

  lemma SyncEditApplied(names: seq<Value>, d: Doc)
    ensures SyncEdit(names)(d) == SyncDependenciesDoc(d, names, ParseDepName)
  {
  }

  /** A target listed once is rewritten once. */
  lemma SyncEditOnce(names: seq<Value>, d: Doc)
    ensures Iterate(SyncEdit(names), 1, d) == SyncDependenciesDoc(d, names, ParseDepName)
  {
  }

  // ===========================================================================
  // _persist_projects

  /** The text written for a manifest: the dump stripped, plus one newline. */
  function Serialised(doc: Doc, dump: Doc -> string): (t: string)
    ensures t != "" && t[|t| - 1] == '\n'
  {
    Strip(dump(doc)) + "\n"
  }

  /** The written text is the dump without surrounding whitespace, closed by
      exactly one newline. */
  lemma SerialisedShape(doc: Doc, dump: Doc -> string)
    ensures var t := Serialised(doc, dump); var body := t[..|t| - 1];
      body == Strip(dump(doc)) && (body == "" || (!IsSpace(body[0]) && !IsSpace(body[|body| - 1])))
  {
    var t := Serialised(doc, dump);
    assert t[..|t| - 1] == Strip(dump(doc));
  }

  /** A manifest after `n` turns of the loop's optional prune, each one
      `mapping_prune` as written: a project listed `n` times among the
      targets is pruned `n` times. */
  function PrunedTimes(doc: Doc, prune: bool, n: nat): (r: Doc)
    ensures !prune ==> r == doc
    decreases n
  {
    if !prune || n == 0 then doc
    else PruneEntries(PrunedTimes(doc, prune, n - 1)).0
  }

  /** A manifest with no None and no empty collection left in it is not
      changed by pruning, however often. */
  lemma {:induction false} PrunedTimesFixed(doc: Doc, prune: bool, n: nat)
    requires PrunedEntries(doc)
    ensures PrunedTimes(doc, prune, n) == doc
    decreases n
  {
    if prune && n > 0 {
      PrunedTimesFixed(doc, prune, n - 1);
      PruneEntriesFixed(doc);
    }
  }

  /** A manifest the corrected prune has cleaned is not changed by the loop's prune. */
  lemma PrunedTimesAfterDeep(doc: Doc, prune: bool, n: nat)
    ensures PrunedTimes(PruneDeepEntries(doc).0, prune, n) == PruneDeepEntries(doc).0
  {
    PruneDeepPrunes(Table(doc));
    PrunedTimesFixed(PruneDeepEntries(doc).0, prune, n);
  }

  /** The manifests of the targets, in order. */
  function DocsOf(targets: seq<Project>): (docs: seq<Doc>)
    reads set p | p in targets
    ensures |docs| == |targets|
    ensures forall i :: 0 <= i < |targets| ==> docs[i] == targets[i].pyproject
  {
    if targets == [] then []
    else DocsOf(targets[..|targets| - 1]) + [targets[|targets| - 1].pyproject]
  }

  /** How many times the loop has reached `targets[i]` once it is at index `i`. */
  function Turn(targets: seq<Project>, i: nat): (n: nat)
    requires i < |targets|
    ensures n >= 1
    ensures targets[i] !in targets[..i] ==> n == 1
  {
    multiset(targets[..i])[targets[i]] + 1
  }

  /** The (file, text) pairs the loop considers, one per target, `docs` holding
      the targets' manifests before the loop: the `i`-th is the target's
      manifest file and the text of its manifest pruned as often as the loop
      has reached it. */
  function Writes(targets: seq<Project>, docs: seq<Doc>, prune: bool, dump: Doc -> string): (ws: seq<(Path, string)>)
    requires |docs| == |targets|
    ensures |ws| == |targets|
    ensures forall i :: 0 <= i < |targets| ==> ws[i].0 == targets[i].ManifestPath()
  {
    seq(|targets|, i requires 0 <= i < |targets| =>
      (targets[i].ManifestPath(), Serialised(PrunedTimes(docs[i], prune, Turn(targets, i)), dump)))
  }

  /** Compare-then-write: each text is written unless `force` is off and the
      file already holds it; the flag says whether anything was written. */
  function Persisted(files: map<Path, string>, writes: seq<(Path, string)>, force: bool): (map<Path, string>, bool)
  {
    if writes == [] then (files, false)
    else
      var (fs, updated) := Persisted(files, writes[..|writes| - 1], force);
      var (p, t) := writes[|writes| - 1];
      if !force && p in fs && fs[p] == t then (fs, updated) else (fs[p := t], true)
  }

  /** Writing every text unconditionally, the reference for the final files. */
  function Overlay(files: map<Path, string>, writes: seq<(Path, string)>): map<Path, string>
  {
    if writes == [] then files
    else Overlay(files, writes[..|writes| - 1])[writes[|writes| - 1].0 := writes[|writes| - 1].1]
  }

  /** Skipping the writes whose text is already there changes no file's final content. */
  lemma {:induction false} PersistedOverlay(files: map<Path, string>, writes: seq<(Path, string)>, force: bool)
    ensures Persisted(files, writes, force).0 == Overlay(files, writes)
    decreases |writes|
  {
    if writes != [] {
      PersistedOverlay(files, writes[..|writes| - 1], force);
      var fs := Persisted(files, writes[..|writes| - 1], force).0;
      var (p, t) := writes[|writes| - 1];
      if p in fs && fs[p] == t {
        assert fs[p := t] == fs;
      }
    }
  }

  /** A file no write names keeps its content. */
  lemma {:induction false} OverlayUntouched(files: map<Path, string>, writes: seq<(Path, string)>, q: Path)
    requires forall i :: 0 <= i < |writes| ==> writes[i].0 != q
    ensures (q in Overlay(files, writes) <==> q in files)
    ensures q in files ==> Overlay(files, writes)[q] == files[q]
    decreases |writes|
  {
    if writes != [] {
      OverlayUntouched(files, writes[..|writes| - 1], q);
    }
  }

  /** The last write to a file decides its content. */
  lemma {:induction false} OverlayLast(files: map<Path, string>, writes: seq<(Path, string)>, i: nat)
    requires i < |writes|
    requires forall j :: i < j < |writes| ==> writes[j].0 != writes[i].0
    ensures writes[i].0 in Overlay(files, writes) && Overlay(files, writes)[writes[i].0] == writes[i].1
    decreases |writes|
  {
    if i < |writes| - 1 {
      OverlayLast(files, writes[..|writes| - 1], i);
    }
  }

  /** With `force` every target is written. */
  lemma {:induction false} PersistedForce(files: map<Path, string>, writes: seq<(Path, string)>)
    ensures Persisted(files, writes, true).1 <==> writes != []
    decreases |writes|
  {
    if writes != [] {
      PersistedForce(files, writes[..|writes| - 1]);
    }
  }

  /** Without `force`, when every text equals the file's content nothing is
      written and the flag stays down. */
  lemma {:induction false} PersistedUnchanged(files: map<Path, string>, writes: seq<(Path, string)>)
    requires forall i :: 0 <= i < |writes| ==> writes[i].0 in files && files[writes[i].0] == writes[i].1
    ensures Persisted(files, writes, false) == (files, false)
    decreases |writes|
  {
    if writes != [] {
      PersistedUnchanged(files, writes[..|writes| - 1]);
    }
  }

  /** Without `force`, and with one target per file, the flag is raised exactly
      when some target's text differs from its file's content (or the file is
      missing). */
  lemma {:induction false} PersistedFlag(files: map<Path, string>, writes: seq<(Path, string)>)
    requires forall i, j :: 0 <= i < j < |writes| ==> writes[i].0 != writes[j].0
    ensures Persisted(files, writes, false).1 <==>
      exists i :: 0 <= i < |writes| && (writes[i].0 !in files || files[writes[i].0] != writes[i].1)
    decreases |writes|
  {
    if writes != [] {
      var n := |writes|;
      var pre := writes[..n - 1];
      PersistedFlag(files, pre);
      PersistedOverlay(files, pre, false);
      OverlayUntouched(files, pre, writes[n - 1].0);
      if exists i :: 0 <= i < |pre| && (pre[i].0 !in files || files[pre[i].0] != pre[i].1) {
        var i :| 0 <= i < |pre| && (pre[i].0 !in files || files[pre[i].0] != pre[i].1);
        assert writes[i] == pre[i];
      }
    }
  }

  /** The targets after `targets[i]` name other manifest files. */
  predicate LastFor(targets: seq<Project>, i: nat)
    requires i < |targets|
  {
    forall j :: i < j < |targets| ==> targets[j].ManifestPath() != targets[i].ManifestPath()
  }

  /** After the loop, the file of a target that no later target shares holds
      that target's text, and a file no target names is untouched. */
  lemma PersistedFiles(files: map<Path, string>, targets: seq<Project>, docs: seq<Doc>, prune: bool,
                       dump: Doc -> string, force: bool)
    requires |docs| == |targets|
    ensures var out := Persisted(files, Writes(targets, docs, prune, dump), force).0;
      forall i :: 0 <= i < |targets| && LastFor(targets, i) ==>
        targets[i].ManifestPath() in out &&
        out[targets[i].ManifestPath()] == Serialised(PrunedTimes(docs[i], prune, Turn(targets, i)), dump)
    ensures var out := Persisted(files, Writes(targets, docs, prune, dump), force).0;
      forall q :: (forall i :: 0 <= i < |targets| ==> targets[i].ManifestPath() != q) ==>
        (q in out <==> q in files) && (q in files ==> out[q] == files[q])
  {
    forall i | 0 <= i < |targets| && LastFor(targets, i) {
      PersistedLast(files, targets, docs, prune, dump, force, i);
    }
    forall q | forall i :: 0 <= i < |targets| ==> targets[i].ManifestPath() != q {
      PersistedOther(files, targets, docs, prune, dump, force, q);
    }
  }

  lemma PersistedLast(files: map<Path, string>, targets: seq<Project>, docs: seq<Doc>, prune: bool,
                      dump: Doc -> string, force: bool, i: nat)
    requires |docs| == |targets| && i < |targets| && LastFor(targets, i)
    ensures var out := Persisted(files, Writes(targets, docs, prune, dump), force).0;
      targets[i].ManifestPath() in out &&
      out[targets[i].ManifestPath()] == Serialised(PrunedTimes(docs[i], prune, Turn(targets, i)), dump)
  {
    var ws := Writes(targets, docs, prune, dump);
    PersistedOverlay(files, ws, force);
    assert forall j :: i < j < |ws| ==> ws[j].0 == targets[j].ManifestPath();
    OverlayLast(files, ws, i);
  }

  lemma PersistedOther(files: map<Path, string>, targets: seq<Project>, docs: seq<Doc>, prune: bool,
                       dump: Doc -> string, force: bool, q: Path)
    requires |docs| == |targets|
    requires forall i :: 0 <= i < |targets| ==> targets[i].ManifestPath() != q
    ensures var out := Persisted(files, Writes(targets, docs, prune, dump), force).0;
      (q in out <==> q in files) && (q in files ==> out[q] == files[q])
  {
    var ws := Writes(targets, docs, prune, dump);
    PersistedOverlay(files, ws, force);
    assert forall j :: 0 <= j < |ws| ==> ws[j].0 == targets[j].ManifestPath();
    OverlayUntouched(files, ws, q);
  }

  /** One turn of the loop of `_persist_projects`: `mapping_prune` when asked,
      the stripped dump plus a newline, and a write unless `force` is off and
      the file already holds that text. */
  method PersistOne(p: Project, store: TextStore, dump: Doc -> string, prune: bool, force: bool)
    returns (wrote: bool)
    modifies p, store
    ensures p.pyproject == PrunedTimes(old(p.pyproject), prune, 1)
    ensures var text := Serialised(p.pyproject, dump); var path := p.ManifestPath();
      if !force && path in old(store.files) && old(store.files)[path] == text
      then store.files == old(store.files) && !wrote
      else store.files == old(store.files)[path := text] && wrote
  {
    if prune {
      var pruned, _ := MappingPrune(Table(p.pyproject));
      p.pyproject := pruned.entries;
    }
    var text := Strip(dump(p.pyproject)) + "\n";
    if !force {
      var current := store.Read(p.ManifestPath());
      if current == Some(text) {
        return false;
      }
    }
    store.Write(p.ManifestPath(), text);
    return true;
  }

  /** `_persist_projects`: each target in turn is pruned if asked, serialised
      by `dump`, compared with its manifest file unless `force` is set, and
      written when it differs. */
  method PersistProjects(targets: seq<Project>, store: TextStore, dump: Doc -> string, prune: bool, force: bool)
    returns (updated: bool)
    modifies store, set p | p in targets
    ensures forall p :: p in targets ==> p.pyproject == PrunedTimes(old(p.pyproject), prune, multiset(targets)[p])
    ensures (store.files, updated) == Persisted(old(store.files), Writes(targets, old(DocsOf(targets)), prune, dump), force)
    ensures forall i :: 0 <= i < |targets| && LastFor(targets, i) ==>
      targets[i].ManifestPath() in store.files &&
      store.files[targets[i].ManifestPath()] == Serialised(PrunedTimes(old(targets[i].pyproject), prune, Turn(targets, i)), dump)
    ensures forall q :: (forall i :: 0 <= i < |targets| ==> targets[i].ManifestPath() != q) ==>
      (q in store.files <==> q in old(store.files)) && (q in old(store.files) ==> store.files[q] == old(store.files)[q])
  {
    ghost var orig := map p | p in targets :: p.pyproject;
    ghost var docs := DocsOf(targets);
    ghost var ws := Writes(targets, docs, prune, dump);
    forall j | 0 <= j < |targets|
      ensures ws[j] == (targets[j].ManifestPath(),
                        Serialised(PrunedTimes(orig[targets[j]], prune, Turn(targets, j)), dump))
    {
    }
    PersistedFiles(store.files, targets, docs, prune, dump, force);
    updated := PersistLoop(targets, store, dump, prune, force, orig, ws);
    FullTake(ws);
    FullTake(targets);
    forall p | p in targets ensures p.pyproject == PrunedTimes(old(p.pyproject), prune, multiset(targets)[p]) {
      assert orig[p] == old(p.pyproject);
    }
  }

  /** The loop of `_persist_projects` against its precomputed writes `ws`. */
  method PersistLoop(targets: seq<Project>, store: TextStore, dump: Doc -> string, prune: bool, force: bool,
                     ghost orig: map<Project, Doc>, ghost ws: seq<(Path, string)>) returns (updated: bool)
    requires |ws| == |targets|
    requires PrunedSoFar(targets, orig, prune, multiset{})
    requires forall j | 0 <= j < |targets| ::
      ws[j] == (targets[j].ManifestPath(),
                Serialised(PrunedTimes(orig[targets[j]], prune, Turn(targets, j)), dump))
    modifies store, set p | p in targets
    ensures PrunedSoFar(targets, orig, prune, multiset(targets[..|targets|]))
    ensures (store.files, updated) == Persisted(old(store.files), ws[..|ws|], force)
  {
    updated := false;
    assert targets[..0] == [];
    for i := 0 to |targets|
      invariant PrunedSoFar(targets, orig, prune, multiset(targets[..i]))
      invariant (store.files, updated) == Persisted(old(store.files), ws[..i], force)
    {
      updated := PersistNext(targets, i, store, dump, prune, force, orig, ws, old(store.files), updated);
    }
  }

  /** One turn of `_persist_projects` against the whole loop's writes `ws`. */
  method PersistNext(targets: seq<Project>, i: nat, store: TextStore, dump: Doc -> string, prune: bool, force: bool,
                     ghost orig: map<Project, Doc>, ghost ws: seq<(Path, string)>,
                     ghost files: map<Path, string>, updated0: bool) returns (updated: bool)
    requires i < |targets| == |ws|
    requires PrunedSoFar(targets, orig, prune, multiset(targets[..i]))
    requires ws[i] == (targets[i].ManifestPath(),
                       Serialised(PrunedTimes(orig[targets[i]], prune, Turn(targets, i)), dump))
    requires (store.files, updated0) == Persisted(files, ws[..i], force)
    modifies targets[i], store
    ensures PrunedSoFar(targets, orig, prune, multiset(targets[..i + 1]))
    ensures (store.files, updated) == Persisted(files, ws[..i + 1], force)
  {
    var p := targets[i];
    ghost var m0 := multiset(targets[..i]);
    ghost var m1 := multiset(targets[..i + 1]);
    ghost var next := PrunedTimes(orig[p], prune, Turn(targets, i));
    CountNext(targets, i);
    assert p in targets;
    PrunedTimesNext(orig[p], prune, m0[p]);
    assert PrunedTimes(p.pyproject, prune, 1) == next;
    PersistedStep(files, ws, i, force);
    var wrote := PersistOne(p, store, dump, prune, force);
    updated := updated0 || wrote;
    assert p.pyproject == next && m1[p] == Turn(targets, i);
    forall q | q in targets && q != p ensures q.pyproject == PrunedTimes(orig[q], prune, m1[q]) {
      assert m1[q] == m0[q];
    }
  }

  /** Every target's manifest has been pruned as often as `counts` says. */
  ghost predicate PrunedSoFar(targets: seq<Project>, orig: map<Project, Doc>, prune: bool, counts: multiset<Project>)
    reads set p | p in targets
  {
    forall p :: p in targets ==> p in orig && p.pyproject == PrunedTimes(orig[p], prune, counts[p])
  }

  /** The loop's count of each target after one more turn. */
  lemma CountNext<T>(s: seq<T>, i: nat)
    requires i < |s|
    ensures multiset(s[..i + 1])[s[i]] == multiset(s[..i])[s[i]] + 1
    ensures forall x :: x != s[i] ==> multiset(s[..i + 1])[x] == multiset(s[..i])[x]
  {
    TakeMultisetSnoc(s, i);
  }

  /** One more turn of the loop's optional prune. */
  lemma PrunedTimesNext(doc: Doc, prune: bool, n: nat)
    ensures PrunedTimes(PrunedTimes(doc, prune, n), prune, 1) == PrunedTimes(doc, prune, n + 1)
  {
    if prune {
      assert PrunedTimes(PrunedTimes(doc, prune, n), prune, 0) == PrunedTimes(doc, prune, n);
    }
  }

  /** The compare-then-write of the first `i + 1` texts, split at the last. */
  lemma PersistedStep(files: map<Path, string>, ws: seq<(Path, string)>, i: nat, force: bool)
    requires i < |ws|
    ensures var (fs, updated) := Persisted(files, ws[..i], force);
      Persisted(files, ws[..i + 1], force) ==
        if !force && ws[i].0 in fs && fs[ws[i].0] == ws[i].1 then (fs, updated) else (fs[ws[i].0 := ws[i].1], true)
  {
    assert ws[..i + 1][..i] == ws[..i];
  }

  // ===========================================================================
  // _projects

  /** An element of the list `_projects` resolves: a project, or a name or path. */
  datatype Target = ProjectTarget(project: Project) | NamedTarget(id: string)

  /** `p` is what `_projects` yields for `t`: the project itself, or a new
      project of the directory `locate` finds for the identifier. */
  predicate Resolved(t: Target, p: Project, locate: string -> Option<Path>, load: Path -> Doc)
    reads p
  {
    match t
    case ProjectTarget(q) => p == q
    case NamedTarget(id) => locate(id) == Some(p.dir) && p.pyproject == load(p.dir)
  }

  /** The index of the first identifier `locate` cannot place, or `|ids|`. */
  function FirstUnresolved(ids: seq<Target>, locate: string -> Option<Path>): (i: nat)
    ensures i <= |ids|
    ensures i < |ids| ==> ids[i].NamedTarget? && locate(ids[i].id).None?
    ensures forall j :: 0 <= j < i ==> ids[j].ProjectTarget? || locate(ids[j].id).Some?
  {
    if ids == [] then 0
    else if ids[0].NamedTarget? && locate(ids[0].id).None? then 0
    else 1 + FirstUnresolved(ids[1..], locate)
  }

  /** `_projects`: with no identifiers, the root's members and, when the root's
      `project` table is truthy, the root itself; otherwise each identifier in
      turn, a project passing through and a name or path becoming a new
      project of the directory `projects.dir` finds for it, loaded by `load`.
      An identifier with no directory raises `ValueError`. */
  method ResolveProjects(ids: seq<Target>, members: seq<Project>, root: Project,
                         locate: string -> Option<Path>, load: Path -> Doc) returns (r: Result<seq<Project>>)
    ensures ids == [] ==>
      r == Success(if Truthy(Get(root.pyproject, ["project"], Nil)) then members + [root] else members)
    ensures ids != [] ==> (r.Failure? <==> FirstUnresolved(ids, locate) < |ids|)
    ensures ids != [] && r.Failure? ==> r.error == "Project " + ids[FirstUnresolved(ids, locate)].id + " not found"
    ensures r.Success? && ids != [] ==> |r.value| == |ids|
    ensures r.Success? && ids != [] ==> forall i :: 0 <= i < |ids| ==> Resolved(ids[i], r.value[i], locate, load)
    ensures r.Success? && ids != [] ==> forall i :: 0 <= i < |ids| && ids[i].NamedTarget? ==> fresh(r.value[i])
  {
    if ids == [] {
      var data := MappingGet(Table(root.pyproject), ["project"], Nil);
      return Success(if Truthy(data) then members + [root] else members);
    }
    var out: seq<Project> := [];
    for i := 0 to |ids|
      invariant |out| == i
      invariant FirstUnresolved(ids, locate) >= i
      invariant forall j :: 0 <= j < i ==> Resolved(ids[j], out[j], locate, load)
      invariant forall j :: 0 <= j < i && ids[j].NamedTarget? ==> fresh(out[j])
    {
      FirstUnresolvedStep(ids, locate, i);
      match ids[i]
      case ProjectTarget(q) =>
        out := out + [q];
      case NamedTarget(id) =>
        var dir := locate(id);
        if dir.None? {
          return Failure("Project " + id + " not found");
        }
        var q := new Project(dir.value, load(dir.value));
        out := out + [q];
    }
    return Success(out);
  }

  /** The first unresolved index is `i` exactly when the identifiers before
      it resolve and `i` does not. */
  lemma {:induction false} FirstUnresolvedStep(ids: seq<Target>, locate: string -> Option<Path>, i: nat)
    requires i < |ids| && FirstUnresolved(ids, locate) >= i
    ensures FirstUnresolved(ids, locate) == i <==> ids[i].NamedTarget? && locate(ids[i].id).None?
    decreases i
  {
    if i > 0 {
      FirstUnresolvedStep(ids[1..], locate, i - 1);
      assert ids[1..][i - 1] == ids[i];
    }
  }

  // ===========================================================================
  // all

  /** What the first three commands of `all` make of one target's manifest,
      listed `n` times: the root's build system when it has one, the
      dependency rewrite `sync` `n` times, and the root's `tool.member-project`. */
  function PreVersion(doc: Doc, root: Doc, sync: Doc -> Result<Doc>, n: nat): Result<Doc>
  {
    var build := FindOrNil(root, BuildSystemKey);
    var d1 := if Truthy(build) then SetBuildSystem(doc, build) else doc;
    var d2 :- Iterate(sync, n, d1);
    Success(SetMemberTool(d2, Get(root, ToolPath, Nil)))
  }

  /** What `all` makes of one target's manifest before it is persisted: the
      first three commands, then version `v`. */
  function AllEdit(doc: Doc, root: Doc, sync: Doc -> Result<Doc>, n: nat, v: string): Result<Doc>
  {
    var d3 :- PreVersion(doc, root, sync, n);
    Success(SetVersion(d3, v))
  }

  /** An edit that keeps the value under `q` keeps it however often it is applied. */
  lemma {:induction false} IterateFrame(edit: Doc -> Result<Doc>, n: nat, d: Doc, q: seq<string>)
    requires forall x :: edit(x).Success? ==> Lookup(edit(x).value, q) == Lookup(x, q)
    requires Iterate(edit, n, d).Success?
    ensures Lookup(Iterate(edit, n, d).value, q) == Lookup(d, q)
  {
    if n > 0 {
      IterateStep(edit, n, d);
      IterateFrame(edit, n - 1, d, q);
    }
  }

  /** The dependency rewrite, repeated, touches nothing but `project.dependencies`
      and `tool.uv.sources`. */
  lemma IterateSyncFrame(names: seq<Value>, n: nat, d: Doc, q: seq<string>)
    requires Iterate(SyncEdit(names), n, d).Success?
    requires Diverges(DepsPath, q) && Diverges(SourcesPath, q)
    ensures Lookup(Iterate(SyncEdit(names), n, d).value, q) == Lookup(d, q)
  {
    forall x | SyncEdit(names)(x).Success? ensures Lookup(SyncEdit(names)(x).value, q) == Lookup(x, q) {
      SyncEditApplied(names, x);
      SyncDependenciesFrame(x, names, ParseDepName, q);
    }
    IterateFrame(SyncEdit(names), n, d, q);
  }

  /** After `all` every manifest carries the root's build system (when the root
      has one), the root's `tool.member-project` (when truthy) and the version. */
  lemma AllEditSettles(doc: Doc, root: Doc, names: seq<Value>, n: nat, v: string)
    requires AllEdit(doc, root, SyncEdit(names), n, v).Success?
    ensures var out := AllEdit(doc, root, SyncEdit(names), n, v).value;
      && Get(out, VersionPath, Nil) == Str(v)
      && (Truthy(FindOrNil(root, BuildSystemKey)) ==> FindOrNil(out, BuildSystemKey) == FindOrNil(root, BuildSystemKey))
      && (Truthy(Get(root, ToolPath, Nil)) ==> LookupOrNil(out, ToolPath) == Get(root, ToolPath, Nil))
  {
    var build := FindOrNil(root, BuildSystemKey);
    var d1 := if Truthy(build) then SetBuildSystem(doc, build) else doc;
    var d2 := Iterate(SyncEdit(names), n, d1).value;
    var data := Get(root, ToolPath, Nil);
    var d3 := SetMemberTool(d2, data);
    assert PreVersion(doc, root, SyncEdit(names), n) == Success(d3);
    SetVersionStores(d3, v);
    var q := [BuildSystemKey];
    IterateSyncFrame(names, n, d1, q);
    SetMemberToolFrame(d2, data, q);
    SetVersionFrame(d3, v, q);
    SetVersionFrame(d3, v, ToolPath);
  }

  /** The root, edited by the first two commands, still holds its own
      `tool.member-project` when the rewrite keeps that table. */
  lemma AllRootTool(root: Doc, sync: Doc -> Result<Doc>, n: nat)
    requires forall x :: sync(x).Success? ==> Lookup(sync(x).value, ToolPath) == Lookup(x, ToolPath)
    requires var build := FindOrNil(root, BuildSystemKey);
      Iterate(sync, n, if Truthy(build) then SetBuildSystem(root, build) else root).Success?
    ensures var build := FindOrNil(root, BuildSystemKey);
      Get(Iterate(sync, n, if Truthy(build) then SetBuildSystem(root, build) else root).value, ToolPath, Nil)
        == Get(root, ToolPath, Nil)
  {
    if Truthy(FindOrNil(root, BuildSystemKey)) {
      SetBuildSystemRoot(root);
    }
    IterateFrame(sync, n, root, ToolPath);
  }

  const RuffMissing := "ruff not installed"

  /** What `ruff` yields: without the executable it raises when `require` is
      truthy and only warns otherwise; with it, the outcome `format` of
      formatting the tracked Python files (`check=True` turns a failing
      `ruff format` into an error). */
  function RuffOutcome(require: bool, installed: bool, format: Result<Unit>): Result<Unit>
  {
    if installed then format else if require then Failure(RuffMissing) else Success(Unit)
  }

  /** `ruff`, with the executable lookup and the formatter's outcome as inputs. */
  method Ruff(require: bool, installed: bool, format: Result<Unit>) returns (r: Result<Unit>)
    ensures !installed ==> (r.Failure? <==> require)
    ensures !installed && require ==> r == Failure(RuffMissing)
    ensures installed ==> r == format
  {
    if !installed {
      if require {
        return Failure(RuffMissing);
      }
      return Success(Unit);
    }
    return format;
  }

  /** The registered commands of `all` in order (`build_system`,
      `member_project_dependencies` with its manifest edit `sync`,
      `member_project_tool`, `ruff`, `version`) on one list of projects.
      `all` hands every command the project list, so `ruff` receives it as
      its `require` flag. An error of the dependency rewrite or of `ruff`
      ends the run; when `ruff` fails the versions are not yet set. */
  method RunCommands(targets: seq<Project>, root: Project, sync: Doc -> Result<Doc>, requested: string, git: Option<string>,
                     installed: bool, format: Result<Unit>)
    returns (r: Result<Unit>)
    requires forall x :: sync(x).Success? ==> Lookup(sync(x).value, ToolPath) == Lookup(x, ToolPath)
    modifies set p | p in targets
    ensures r.Success? <==>
      (forall p :: p in targets ==>
        AllEdit(old(p.pyproject), old(root.pyproject), sync, multiset(targets)[p], ChosenVersion(requested, git)).Success?)
      && RuffOutcome(targets != [], installed, format).Success?
    ensures r.Success? ==> forall p :: p in targets ==>
      p.pyproject == AllEdit(old(p.pyproject), old(root.pyproject), sync, multiset(targets)[p], ChosenVersion(requested, git)).value
    ensures ((forall p :: p in targets ==> PreVersion(old(p.pyproject), old(root.pyproject), sync, multiset(targets)[p]).Success?)
             && RuffOutcome(targets != [], installed, format).Failure?) ==>
      r == RuffOutcome(targets != [], installed, format) &&
      forall p :: p in targets ==> p.pyproject == PreVersion(old(p.pyproject), old(root.pyproject), sync, multiset(targets)[p]).value
  {
    ghost var root0 := root.pyproject;
    var _ := BuildSystem(targets, root);
    r := UpdateProjects(targets, sync);
    if r.Failure? {
      return;
    }
    assert Get(root.pyproject, ToolPath, Nil) == Get(root0, ToolPath, Nil) by {
      if root in targets {
        AllRootTool(root0, sync, multiset(targets)[root]);
      }
    }
    MemberProjectTool(targets, root);
    r := Ruff(targets != [], installed, format);
    if r.Failure? {
      return;
    }
    var v := Version(targets, requested, git);
  }

  /** `all`: the registered commands, then, when `persist` is set,
      `_persist_projects` with pruning and `force`, the texts made by `dump`.
      The file of each target ends up holding its edited manifest, pruned as
      often as the persisting loop reaches it, unless a later target shares the
      file; files of no target are untouched. */
  method All(targets: seq<Project>, root: Project, names: seq<Value>, requested: string, git: Option<string>,
             installed: bool, format: Result<Unit>, store: TextStore, dump: Doc -> string, persist: bool)
    returns (r: Result<Unit>)
    requires targets != []
    modifies store, set p | p in targets
    ensures r.Success? <==>
      (forall p :: p in targets ==>
        AllEdit(old(p.pyproject), old(root.pyproject), SyncEdit(names), multiset(targets)[p], ChosenVersion(requested, git)).Success?)
      && RuffOutcome(true, installed, format).Success?
    ensures r.Success? ==> forall p :: p in targets ==>
      p.pyproject == PrunedTimes(AllEdit(old(p.pyproject), old(root.pyproject), SyncEdit(names), multiset(targets)[p],
                                         ChosenVersion(requested, git)).value, persist, multiset(targets)[p])
    ensures r.Success? && persist ==> forall i :: 0 <= i < |targets| && LastFor(targets, i) ==>
      targets[i].ManifestPath() in store.files &&
      store.files[targets[i].ManifestPath()] ==
        Serialised(PrunedTimes(AllEdit(old(targets[i].pyproject), old(root.pyproject), SyncEdit(names),
                                       multiset(targets)[targets[i]], ChosenVersion(requested, git)).value,
                               true, Turn(targets, i)), dump)
    ensures forall q :: (forall i :: 0 <= i < |targets| ==> targets[i].ManifestPath() != q) ==>
      (q in store.files <==> q in old(store.files)) && (q in old(store.files) ==> store.files[q] == old(store.files)[q])
    ensures !(r.Success? && persist) ==> store.files == old(store.files)
  {
    forall x | SyncEdit(names)(x).Success? ensures Lookup(SyncEdit(names)(x).value, ToolPath) == Lookup(x, ToolPath) {
      SyncEditApplied(names, x);
      SyncDependenciesFrame(x, names, ParseDepName, ToolPath);
    }
    r := RunCommands(targets, root, SyncEdit(names), requested, git, installed, format);
    if r.Success? && persist {
      ghost var edited := map p | p in targets :: p.pyproject;
      var _ := PersistProjects(targets, store, dump, true, true);
      forall i | 0 <= i < |targets| && LastFor(targets, i)
        ensures store.files[targets[i].ManifestPath()] ==
          Serialised(PrunedTimes(AllEdit(old(targets[i].pyproject), old(root.pyproject), SyncEdit(names),
                                         multiset(targets)[targets[i]], ChosenVersion(requested, git)).value,
                                 true, Turn(targets, i)), dump)
      {
        assert targets[i] in targets;
        assert edited[targets[i]] == AllEdit(old(targets[i].pyproject), old(root.pyproject), SyncEdit(names),
                                             multiset(targets)[targets[i]], ChosenVersion(requested, git)).value;
      }
    }
  }
}
