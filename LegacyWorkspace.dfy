/** `reggie_build.workspace`: the older command-line front end. Its `sync`
    commands edit `projects.Project` manifests through the keypath `get` and
    the deep `merge` of a keypath dictionary: the root's `build-system` is
    merged into every target, `project.version` is merged in, the root's
    `tool.member-project` table is merged at the top level, and dependencies
    on workspace members are rewritten into file references with their
    `tool.uv.sources` entries. The scripts project is skipped unless a command
    asks for it. `merge(other, overwrite=True)` is `Utils.Merge`: two tables
    merge recursively and every other value replaces what was there. */
module LegacyWorkspace {
  import opened Wrappers
  import opened Toml
  import opened Utils
  import opened Files
  import opened Projects
  import opened Seqs
  import Sync
  import WorkspaceSync

  // ===========================================================================
  // Merging a one-entry mapping

  /** Merging `{k: {...}}` puts under `k` the merge of the table already
      there, or the new table itself when nothing or a non-table was there. */
  lemma MergeOneTable(left: seq<Entry>, k: string, r: seq<Entry>)
    ensures Merge(left, [Entry(k, Table(r))]).0 ==
      Put(left, k, Table(match Find(left, k) case Some(Table(c)) => Merge(c, r).0 case _ => r))
  {
    var e := Entry(k, Table(r));
    assert [e][1..] == [];
    match Find(left, k)
    case Some(Table(c)) =>
    case _ =>
  }

  /** Merging `{k: v}` for a value that is not a table assigns it. */
  lemma MergeOneValue(left: seq<Entry>, k: string, v: Value)
    requires !v.Table?
    ensures Merge(left, [Entry(k, v)]).0 == Put(left, k, v)
  {
    assert [Entry(k, v)][1..] == [];
    if Find(left, k) == Some(v) {
      PutExisting(left, k, v);
    }
  }

  /** A lookup depends on the first key's value only. */
  lemma LookupSameHead(a: seq<Entry>, b: seq<Entry>, q: seq<string>)
    requires q != [] && Find(a, q[0]) == Find(b, q[0])
    ensures Lookup(a, q) == Lookup(b, q)
  {
  }

  // ===========================================================================
  // sync_build_system, sync_version and sync_member_project_tool on one manifest

  /** `root.pyproject.get("build-system", None)` */
  function BuildSystemData(root: Doc): Value {
    FindOrNil(root, Sync.BuildSystemKey)
  }

  /** `_set` of `sync_build_system`: a truthy `data` is merged in as
      `{"build-system": data}`. */
  function MergedBuildSystem(doc: Doc, data: Value): Doc {
    if Truthy(data) then Merge(doc, [Entry(Sync.BuildSystemKey, data)]).0 else doc
  }

  /** Nothing but `build-system` changes, and a falsy `data` changes nothing. */
  lemma MergedBuildSystemFrame(doc: Doc, data: Value, k: string)
    ensures !Truthy(data) ==> MergedBuildSystem(doc, data) == doc
    ensures k != Sync.BuildSystemKey ==> Find(MergedBuildSystem(doc, data), k) == Find(doc, k)
  {
    if Truthy(data) && k != Sync.BuildSystemKey {
      MergeFrame(doc, [Entry(Sync.BuildSystemKey, data)], k);
    }
  }

  /** The member's `build-system` afterwards holds every entry of the root's,
      and a key of the member's own table that the root's does not name is
      kept: the tables are merged, not copied. */
  lemma {:induction false} MergedBuildSystemHolds(doc: Doc, data: Value, j: string)
    requires Truthy(data) && data.Table?
    ensures var r := MergedBuildSystem(doc, data);
      && Find(r, Sync.BuildSystemKey).Some? && Find(r, Sync.BuildSystemKey).value.Table?
      && (DistinctDeep(data.entries) ==> Absorbs(Find(r, Sync.BuildSystemKey).value.entries, data.entries))
      && (j !in Keys(data.entries) ==>
            match Find(doc, Sync.BuildSystemKey)
            case Some(Table(c)) => Find(Find(r, Sync.BuildSystemKey).value.entries, j) == Find(c, j)
            case _ => Find(Find(r, Sync.BuildSystemKey).value.entries, j) == None)
  {
    var key := Sync.BuildSystemKey;
    MergeOneTable(doc, key, data.entries);
    var t := Find(MergedBuildSystem(doc, data), key).value.entries;
    match Find(doc, key)
    case Some(Table(c)) =>
      assert t == Merge(c, data.entries).0;
      if DistinctDeep(data.entries) {
        MergeAbsorbs(c, data.entries);
      }
      if j !in Keys(data.entries) {
        MergeFrame(c, data.entries, j);
      }
    case _ =>
      assert t == data.entries;
      FindKeys(data.entries, j);
      if DistinctDeep(data.entries) {
        DistinctDeepKeys(data.entries);
        forall i | 0 <= i < |t| ensures Find(t, t[i].key) == Some(t[i].val) {
          FindDistinct(t, i);
        }
        AbsorbsFinds(t, t);
      }
  }

  /** Where the member has no `build-system` table, or the root's is not a
      table, the merge is the plain copy `sync.py` makes. */
  lemma MergedBuildSystemAgrees(doc: Doc, data: Value)
    requires Truthy(data)
    requires !data.Table? || Find(doc, Sync.BuildSystemKey).None? || !Find(doc, Sync.BuildSystemKey).value.Table?
    ensures MergedBuildSystem(doc, data) == Sync.SetBuildSystem(doc, data)
  {
    if data.Table? {
      MergeOneTable(doc, Sync.BuildSystemKey, data.entries);
    } else {
      MergeOneValue(doc, Sync.BuildSystemKey, data);
    }
  }

  /** Merging the same build system twice is merging it once. */
  lemma MergedBuildSystemSettles(doc: Doc, data: Value)
    requires data.Table? ==> DistinctDeep(data.entries)
    ensures MergedBuildSystem(MergedBuildSystem(doc, data), data) == MergedBuildSystem(doc, data)
  {
    if Truthy(data) {
      var right := [Entry(Sync.BuildSystemKey, data)];
      assert right[1..] == [];
      assert DistinctDeep(right);
      MergeIdempotent(doc, right);
    }
  }

  const ProjectKey := "project"
  const VersionKey := "version"

  /** `_set` of `sync_version`: `{"project": {"version": v}}` merged in. */
  function MergedVersion(doc: Doc, v: string): Doc {
    Merge(doc, [Entry(ProjectKey, Table([Entry(VersionKey, Str(v))]))]).0
  }

  /** Afterwards `project.version` is `v`; a `project` table keeps its other
      keys, and no other top-level key changes. */
  lemma MergedVersionMeaning(doc: Doc, v: string, k: string, j: string)
    ensures Lookup(MergedVersion(doc, v), Sync.VersionPath) == Some(Str(v))
    ensures k != ProjectKey ==> Find(MergedVersion(doc, v), k) == Find(doc, k)
    ensures j != VersionKey && Find(doc, ProjectKey).Some? && Find(doc, ProjectKey).value.Table? ==>
      Lookup(MergedVersion(doc, v), [ProjectKey, j]) == Lookup(doc, [ProjectKey, j])
  {
    var inner := [Entry(VersionKey, Str(v))];
    MergeOneTable(doc, ProjectKey, inner);
    match Find(doc, ProjectKey) {
      case Some(Table(c)) =>
        MergeOneValue(c, VersionKey, Str(v));
      case _ =>
    }
    if k != ProjectKey {
      MergeFrame(doc, [Entry(ProjectKey, Table(inner))], k);
    }
  }

  /** Merging the version twice is merging it once. */
  lemma MergedVersionSettles(doc: Doc, v: string)
    ensures MergedVersion(MergedVersion(doc, v), v) == MergedVersion(doc, v)
  {
    var inner := [Entry(VersionKey, Str(v))];
    var right := [Entry(ProjectKey, Table(inner))];
    assert right[1..] == [] && inner[1..] == [];
    assert DistinctDeep(right);
    MergeIdempotent(doc, right);
  }

  /** `root.pyproject.get("tool.member-project", None)`: a keypath read, so a
      missing key or a non-table on the way reads as None. */
  function MemberToolData(root: Doc): Value {
    LookupOrNil(root, Sync.ToolPath)
  }

  /** `_set` of `sync_member_project_tool`: a truthy `data` is merged into the
      top level of the manifest; one that is not a mapping cannot be merged. */
  function MergedMemberTool(doc: Doc, data: Value): (r: Result<Doc>)
    ensures r.Failure? <==> Truthy(data) && !data.Table?
    ensures !Truthy(data) ==> r == Success(doc)
  {
    if Truthy(data) then WorkspaceSync.Merged(doc, data) else Success(doc)
  }

  /** A merged table afterwards holds every entry of the root's table, at the
      top level, and every top-level key the table does not name is kept. */
  lemma MergedMemberToolMeaning(doc: Doc, data: Value, k: string)
    requires Truthy(data) && data.Table? && DistinctDeep(data.entries)
    ensures Absorbs(MergedMemberTool(doc, data).value, data.entries)
    ensures k !in Keys(data.entries) ==> Find(MergedMemberTool(doc, data).value, k) == Find(doc, k)
    ensures MergedMemberTool(MergedMemberTool(doc, data).value, data) == MergedMemberTool(doc, data)
  {
    WorkspaceSync.MergedMeaning(doc, data, k);
    WorkspaceSync.MergedSettles(doc, data);
  }

  // ===========================================================================
  // sync_member_project_dependencies: the sources clean-up

  /** The names the clean-up loop collects for deletion, in table order: a
      source whose name is not a member dependency is read with `.get`, so one
      that is not a table raises, and a workspace source is collected. */
  function StaleKeys(es: seq<Entry>, md: seq<string>): (r: Result<seq<string>>)
    ensures r.Failure? ==> r.error == Sync.NoGet
  {
    if es == [] then Success([])
    else
      var pre :- StaleKeys(es[..|es| - 1], md);
      var e := es[|es| - 1];
      if e.key in md then Success(pre)
      else if !e.val.Table? then Failure(Sync.NoGet)
      else if Sync.WorkspaceSource(e.val) then Success(pre + [e.key])
      else Success(pre)
  }

  /** A name is collected exactly when it is not a member dependency and some
      source of that name is a workspace source. */
  lemma {:induction false} StaleKeysMeaning(es: seq<Entry>, md: seq<string>, k: string)
    requires StaleKeys(es, md).Success?
    ensures k in StaleKeys(es, md).value <==>
      k !in md && exists i :: 0 <= i < |es| && es[i].key == k && Sync.WorkspaceSource(es[i].val)
    decreases |es|
  {
    if es != [] {
      var pre := es[..|es| - 1];
      StaleKeysMeaning(pre, md, k);
      var stale := (x: Entry) => x.key == k && Sync.WorkspaceSource(x.val);
      ExistsSplit(es, pre, stale);
    }
  }

  /** The clean-up raises exactly when a source whose name is not a member
      dependency is not a table. */
  lemma {:induction false} StaleKeysSucceeds(es: seq<Entry>, md: seq<string>)
    ensures StaleKeys(es, md).Success? <==>
      forall i :: 0 <= i < |es| && es[i].key !in md ==> es[i].val.Table?
    decreases |es|
  {
    if es != [] {
      var pre := es[..|es| - 1];
      StaleKeysSucceeds(pre, md);
      assert forall i :: 0 <= i < |pre| ==> pre[i] == es[i];
    }
  }

  lemma {:induction false} StaleKeysFails(es: seq<Entry>, md: seq<string>, j: nat)
    requires j < |es| && StaleKeys(es[..j], md).Success?
    requires es[j].key !in md && !es[j].val.Table?
    ensures StaleKeys(es, md) == Failure(Sync.NoGet)
    decreases |es|
  {
    if j < |es| - 1 {
      var pre := es[..|es| - 1];
      assert pre[..j] == es[..j] && pre[j] == es[j];
      StaleKeysFails(pre, md, j);
    } else {
      assert es[..|es| - 1] == es[..j];
    }
  }

  /** `for dep in del_deps: del sources[dep]` */
  function Deleted(es: seq<Entry>, ks: seq<string>): seq<Entry>
  {
    if ks == [] then es else Del(Deleted(es, ks[..|ks| - 1]), ks[|ks| - 1])
  }

  /** A deleted name is gone; every other lookup is unchanged. */
  lemma {:induction false} DeletedMeaning(es: seq<Entry>, ks: seq<string>, k: string)
    ensures Find(Deleted(es, ks), k) == if k in ks then None else Find(es, k)
    decreases |ks|
  {
    if ks != [] {
      var pre := ks[..|ks| - 1];
      var last := ks[|ks| - 1];
      DeletedMeaning(es, pre, k);
      assert ks == pre + [last];
      assert k in ks <==> k in pre || k == last;
      var d := Deleted(es, pre);
      assert Deleted(es, ks) == Del(d, last);
      if k != last {
        assert Find(Del(d, last), k) == Find(d, k);
      }
    }
  }

  /** The clean-up step: only a `tool.uv.sources` that is a table is cleaned. */
  function CleanedSources(doc: Doc, md: seq<string>): (r: Result<Doc>)
    ensures r.Failure? ==> r.error == Sync.NoGet
  {
    var sources := LookupOrNil(doc, Sync.SourcesPath);
    if !sources.Table? then Success(doc)
    else
      var del :- StaleKeys(sources.entries, md);
      Success(MappingSet(doc, Sync.SourcesPath, Table(Deleted(sources.entries, del))).0)
  }

  /** The sources table of a cleaned manifest, when there is one. */
  lemma CleanedSourcesTable(doc: Doc, md: seq<string>)
    requires CleanedSources(doc, md).Success?
    requires LookupOrNil(doc, Sync.SourcesPath).Table?
    ensures var es := LookupOrNil(doc, Sync.SourcesPath).entries;
      && StaleKeys(es, md).Success?
      && Lookup(CleanedSources(doc, md).value, Sync.SourcesPath) == Some(Table(Deleted(es, StaleKeys(es, md).value)))
  {
    var es := LookupOrNil(doc, Sync.SourcesPath).entries;
    MappingSetStores(doc, Sync.SourcesPath, Table(Deleted(es, StaleKeys(es, md).value)));
  }

  /** After the clean-up no source of a name outside `md` is a workspace source. */
  lemma CleanedSourcesClears(doc: Doc, md: seq<string>, k: string)
    requires CleanedSources(doc, md).Success? && k !in md
    ensures Lookup(CleanedSources(doc, md).value, Sync.SourcePath(k)) != Some(Bool(true))
  {
    var out := CleanedSources(doc, md).value;
    Sync.SourcePathSplit(k);
    Sync.SourceEntryLookup(out, k, ["workspace"]);
    var sources := LookupOrNil(doc, Sync.SourcesPath);
    if sources.Table? {
      var es := sources.entries;
      var del := StaleKeys(es, md).value;
      CleanedSourcesTable(doc, md);
      DeletedMeaning(es, del, k);
      if k !in del && Find(es, k).Some? {
        FindIn(es, k);
        var i :| 0 <= i < |es| && es[i] == Entry(k, Find(es, k).value);
        StaleKeysMeaning(es, md, k);
        assert !Sync.WorkspaceSource(es[i].val);
      }
    }
  }

  /** A manifest whose sources table, if any, names each source once, as a
      parsed TOML table always does. */
  predicate SourcesDistinct(doc: Doc) {
    match Lookup(doc, Sync.SourcesPath)
    case Some(Table(es)) => DistinctKeys(es)
    case _ => true
  }

  /** The clean-up keeps every source of a name outside `md` that is not a
      workspace source. */
  lemma CleanedSourcesKeeps(doc: Doc, md: seq<string>, k: string)
    requires CleanedSources(doc, md).Success? && k !in md && SourcesDistinct(doc)
    requires Lookup(doc, Sync.SourcesPath + [k]).Some? && !Sync.WorkspaceSource(Lookup(doc, Sync.SourcesPath + [k]).value)
    ensures Lookup(CleanedSources(doc, md).value, Sync.SourcesPath + [k]) == Lookup(doc, Sync.SourcesPath + [k])
  {
    var out := CleanedSources(doc, md).value;
    Sync.SourceEntryLookup(doc, k, []);
    Sync.SourceEntryLookup(out, k, []);
    assert Sync.SourcesPath + [k] + [] == Sync.SourcesPath + [k];
    var es := LookupOrNil(doc, Sync.SourcesPath).entries;
    var del := StaleKeys(es, md).value;
    CleanedSourcesTable(doc, md);
    DeletedMeaning(es, del, k);
    StaleKeysMeaning(es, md, k);
    if k in del {
      var i :| 0 <= i < |es| && es[i].key == k && Sync.WorkspaceSource(es[i].val);
      FindDistinct(es, i);
      assert false;
    }
  }

  /** The clean-up touches nothing outside `tool`. */
  lemma CleanedSourcesOutside(doc: Doc, md: seq<string>, q: seq<string>)
    requires CleanedSources(doc, md).Success? && q != [] && q[0] != "tool"
    ensures Lookup(CleanedSources(doc, md).value, q) == Lookup(doc, q)
  {
    var sources := LookupOrNil(doc, Sync.SourcesPath);
    if sources.Table? {
      var es := sources.entries;
      MappingSetFrame(doc, Sync.SourcesPath, Table(Deleted(es, StaleKeys(es, md).value)), q);
    }
  }

  // ===========================================================================
  // sync_member_project_dependencies: marking workspace sources

  /** The mapping the closing loop builds with `setdefault` and merges in:
      `{"tool": {"uv": {"sources": {dep: {"workspace": True}, ...}}}}`. */
  function WorkspaceData(md: seq<string>): Doc {
    [Entry("tool", Table([Entry("uv", Table([Entry("sources", Table(WorkspaceSync.Marked([], md)))]))]))]
  }

  lemma {:induction false} PutKeepsValues(es: seq<Entry>, k: string, v: Value)
    requires forall i :: 0 <= i < |es| ==> es[i].val == v
    ensures forall i :: 0 <= i < |Put(es, k, v)| ==> Put(es, k, v)[i].val == v
  {
    if es != [] && es[0].key != k {
      PutKeepsValues(es[1..], k, v);
      assert Put(es, k, v) == [es[0]] + Put(es[1..], k, v);
    }
  }

  /** Every source of the merged mapping is `{workspace = true}`. */
  lemma {:induction false} MarkedFlags(md: seq<string>)
    ensures forall i :: 0 <= i < |WorkspaceSync.Marked([], md)| ==>
      WorkspaceSync.Marked([], md)[i].val == WorkspaceSync.WorkspaceTrue
    decreases |md|
  {
    if md != [] {
      MarkedFlags(md[..|md| - 1]);
      PutKeepsValues(WorkspaceSync.Marked([], md[..|md| - 1]), md[|md| - 1], WorkspaceSync.WorkspaceTrue);
    }
  }

  /** Merging sources that are all `{workspace = true}` flags every one of them. */
  lemma {:induction false} MergeFlagsSet(l: seq<Entry>, s: seq<Entry>, k: string)
    requires forall i :: 0 <= i < |s| ==> s[i].val == WorkspaceSync.WorkspaceTrue
    requires k in Keys(s)
    ensures Lookup(Merge(l, s).0, [k, WorkspaceSync.WorkspaceKey]) == Some(Bool(true))
    decreases |s|
  {
    var e := s[0];
    var l1 := MergeStep(l, e).0;
    assert EntriesSize(s) == ValueSize(s[0].val) + EntriesSize(s[1..]);
    assert Merge(l, s).0 == Merge(l1, s[1..]).0;
    assert Keys(s) == [e.key] + Keys(s[1..]);
    if k in Keys(s[1..]) {
      MergeFlagsSet(l1, s[1..], k);
    } else {
      MergeFrame(l1, s[1..], k);
      var cur := Find(l, k);
      if cur.Some? && cur.value.Table? {
        MergeOneValue(cur.value.entries, WorkspaceSync.WorkspaceKey, Bool(true));
      }
    }
  }

  /** After the merge `tool.uv.sources` is a table: the old one merged with
      the new sources, or the new sources where there was no table. */
  lemma MergeWorkspaceDataSources(doc: Doc, md: seq<string>)
    ensures Lookup(Merge(doc, WorkspaceData(md)).0, Sync.SourcesPath) ==
      Some(Table(match Lookup(doc, Sync.SourcesPath)
                 case Some(Table(s0)) => Merge(s0, WorkspaceSync.Marked([], md)).0
                 case _ => WorkspaceSync.Marked([], md)))
  {
    var s := WorkspaceSync.Marked([], md);
    var srcE := Entry("sources", Table(s));
    var uvE := Entry("uv", Table([srcE]));
    MergeOneTable(doc, "tool", [uvE]);
    var path := Sync.SourcesPath;
    assert path[1..] == ["uv", "sources"] && path[1..][1..] == ["sources"];
    match Find(doc, "tool") {
      case Some(Table(c)) =>
        MergeOneTable(c, "uv", [srcE]);
        match Find(c, "uv") {
          case Some(Table(u)) =>
            MergeOneTable(u, "sources", s);
          case _ =>
        }
      case _ =>
    }
  }

  /** After the merge every member dependency is a workspace source. */
  lemma MergeWorkspaceDataFlags(doc: Doc, md: seq<string>, k: string)
    requires k in md
    ensures Lookup(Merge(doc, WorkspaceData(md)).0, Sync.SourcePath(k)) == Some(Bool(true))
  {
    var s := WorkspaceSync.Marked([], md);
    var out := Merge(doc, WorkspaceData(md)).0;
    var key := [k, WorkspaceSync.WorkspaceKey];
    MergeWorkspaceDataSources(doc, md);
    Sync.SourcePathSplit(k);
    Sync.SourceEntryLookup(out, k, [WorkspaceSync.WorkspaceKey]);
    assert [k] + [WorkspaceSync.WorkspaceKey] == key;
    match Lookup(doc, Sync.SourcesPath) {
      case Some(Table(s0)) =>
        MarkedFlags(md);
        WorkspaceSync.MarkedMeaning([], md, k);
        FindKeys(s, k);
        MergeFlagsSet(s0, s, k);
        assert Lookup(out, Sync.SourcesPath) == Some(Table(Merge(s0, s).0));
      case _ =>
        assert Lookup(out, Sync.SourcesPath) == Some(Table(s));
        WorkspaceSync.MarkedMeaning([], md, k);
        assert Lookup(s, key) == Some(Bool(true));
    }
  }

  /** Everything under the source of a name that is not a member dependency
      is as it was before the merge. */
  lemma MergeWorkspaceDataFrame(doc: Doc, md: seq<string>, k: string, tail: seq<string>)
    requires k !in md
    ensures Lookup(Merge(doc, WorkspaceData(md)).0, Sync.SourcesPath + [k] + tail) == Lookup(doc, Sync.SourcesPath + [k] + tail)
  {
    var s := WorkspaceSync.Marked([], md);
    var out := Merge(doc, WorkspaceData(md)).0;
    MergeWorkspaceDataSources(doc, md);
    WorkspaceSync.MarkedMeaning([], md, k);
    FindKeys(s, k);
    Sync.SourceEntryLookup(out, k, tail);
    Sync.SourceEntryLookup(doc, k, tail);
    match Lookup(doc, Sync.SourcesPath) {
      case Some(Table(s0)) =>
        MergeFrame(s0, s, k);
        LookupSameHead(Merge(s0, s).0, s0, [k] + tail);
      case _ =>
    }
  }

  /** The merge touches nothing outside `tool`. */
  lemma MergeWorkspaceDataOutside(doc: Doc, md: seq<string>, q: seq<string>)
    requires q != [] && q[0] != "tool"
    ensures Lookup(Merge(doc, WorkspaceData(md)).0, q) == Lookup(doc, q)
  {
    MergeFrame(doc, WorkspaceData(md), q[0]);
    LookupSameHead(Merge(doc, WorkspaceData(md)).0, doc, q);
  }

  // ===========================================================================
  // sync_member_project_dependencies: one manifest

  /** `doc.get("project.dependencies", [])`: a keypath read with a default. */
  function DependencyList(doc: Doc): Value {
    Lookup(doc, Sync.DepsPath).GetOr(Array([]))
  }

  /** `_set` of `sync_member_project_dependencies`: the list is rewritten in
      place, the stale workspace sources are deleted, and the member
      dependencies found are merged in as workspace sources. The index loop
      treats whatever the dependency entry holds as in the newer command. */
  function LegacyDependencies(doc: Doc, names: seq<Value>, parse: string -> string): Result<(Doc, seq<string>)>
  {
    var rw :- Sync.RewriteAny(DependencyList(doc), names, parse);
    var doc1 := if rw.1 == [] then doc else MappingSet(doc, Sync.DepsPath, rw.0).0;
    var doc2 :- CleanedSources(doc1, rw.1);
    Success((if rw.1 == [] then doc2 else Merge(doc2, WorkspaceData(rw.1)).0, rw.1))
  }

  /** Afterwards `project.dependencies` is the list the rewrite loop produced,
      and the member dependencies reported are the ones it found. */
  lemma LegacyDependenciesList(doc: Doc, names: seq<Value>, parse: string -> string)
    requires LegacyDependencies(doc, names, parse).Success?
    ensures var rw := Sync.RewriteAny(DependencyList(doc), names, parse);
      && rw.Success?
      && DependencyList(LegacyDependencies(doc, names, parse).value.0) == rw.value.0
      && LegacyDependencies(doc, names, parse).value.1 == rw.value.1
  {
    var deps := DependencyList(doc);
    var rw := Sync.RewriteAny(deps, names, parse).value;
    var doc1 := if rw.1 == [] then doc else MappingSet(doc, Sync.DepsPath, rw.0).0;
    var doc2 := CleanedSources(doc1, rw.1).value;
    if rw.1 == [] {
      if deps.Array? {
        Sync.RewriteItemsNothingFound(deps.items, names, parse);
      }
    } else {
      MappingSetStores(doc, Sync.DepsPath, rw.0);
      MergeWorkspaceDataOutside(doc2, rw.1, Sync.DepsPath);
    }
    CleanedSourcesOutside(doc1, rw.1, Sync.DepsPath);
  }

  /** Afterwards every member dependency found has a workspace source, and no
      other name has one. */
  lemma LegacyDependenciesSources(doc: Doc, names: seq<Value>, parse: string -> string, k: string)
    requires LegacyDependencies(doc, names, parse).Success?
    ensures var (out, found) := LegacyDependencies(doc, names, parse).value;
      && (k in found ==> Lookup(out, Sync.SourcePath(k)) == Some(Bool(true)))
      && (k !in found ==> Lookup(out, Sync.SourcePath(k)) != Some(Bool(true)))
  {
    var deps := DependencyList(doc);
    var rw := Sync.RewriteAny(deps, names, parse).value;
    var doc1 := if rw.1 == [] then doc else MappingSet(doc, Sync.DepsPath, rw.0).0;
    var doc2 := CleanedSources(doc1, rw.1).value;
    if k in rw.1 {
      MergeWorkspaceDataFlags(doc2, rw.1, k);
    } else {
      MergeWorkspaceDataFrame(doc2, rw.1, k, [WorkspaceSync.WorkspaceKey]);
      CleanedSourcesClears(doc1, rw.1, k);
      Sync.SourcePathSplit(k);
    }
  }

  /** A source of a name that is not a member dependency and is not a
      workspace source survives unchanged. */
  lemma LegacyDependenciesKeepsSources(doc: Doc, names: seq<Value>, parse: string -> string, k: string)
    requires LegacyDependencies(doc, names, parse).Success? && SourcesDistinct(doc)
    requires k !in LegacyDependencies(doc, names, parse).value.1
    requires Lookup(doc, Sync.SourcesPath + [k]).Some? && !Sync.WorkspaceSource(Lookup(doc, Sync.SourcesPath + [k]).value)
    ensures Lookup(LegacyDependencies(doc, names, parse).value.0, Sync.SourcesPath + [k]) == Lookup(doc, Sync.SourcesPath + [k])
  {
    var deps := DependencyList(doc);
    var rw := Sync.RewriteAny(deps, names, parse).value;
    var doc1 := if rw.1 == [] then doc else MappingSet(doc, Sync.DepsPath, rw.0).0;
    if rw.1 != [] {
      assert Diverges(Sync.DepsPath, Sync.SourcesPath + [k]);
      MappingSetFrame(doc, Sync.DepsPath, rw.0, Sync.SourcesPath + [k]);
      assert Diverges(Sync.DepsPath, Sync.SourcesPath);
      MappingSetFrame(doc, Sync.DepsPath, rw.0, Sync.SourcesPath);
    }
    CleanedSourcesKeeps(doc1, rw.1, k);
    var doc2 := CleanedSources(doc1, rw.1).value;
    if rw.1 != [] {
      MergeWorkspaceDataFrame(doc2, rw.1, k, []);
    }
    assert Sync.SourcesPath + [k] + [] == Sync.SourcesPath + [k];
  }

  /** The edit touches nothing outside `project` and `tool`; in particular
      a manifest without member dependencies keeps its dependency list. */
  lemma LegacyDependenciesOutside(doc: Doc, names: seq<Value>, parse: string -> string, q: seq<string>)
    requires LegacyDependencies(doc, names, parse).Success?
    requires q != [] && q[0] != "tool" && Diverges(Sync.DepsPath, q)
    ensures Lookup(LegacyDependencies(doc, names, parse).value.0, q) == Lookup(doc, q)
  {
    var deps := DependencyList(doc);
    var rw := Sync.RewriteAny(deps, names, parse).value;
    var doc1 := if rw.1 == [] then doc else MappingSet(doc, Sync.DepsPath, rw.0).0;
    if rw.1 != [] {
      MappingSetFrame(doc, Sync.DepsPath, rw.0, q);
      MergeWorkspaceDataOutside(CleanedSources(doc1, rw.1).value, rw.1, q);
    }
    CleanedSourcesOutside(doc1, rw.1, q);
  }

  /** `_set` of `sync_member_project_dependencies` on a possibly invalid
      manifest document, the error, when there is one, marking where the edit
      would raise. */
  function LegacyDependenciesDoc(doc: Doc, names: seq<Value>): (r: Result<Doc>)
    ensures r.Failure? <==> LegacyDependencies(doc, names, Sync.ParseDepName).Failure?
  {
    var out :- LegacyDependencies(doc, names, Sync.ParseDepName);
    Success(out.0)
  }

  // ===========================================================================
  // The loops of `_set`

  /** The collecting loop over `sources.items()`. */
  method CollectStale(es: seq<Entry>, md: seq<string>) returns (r: Result<seq<string>>)
    ensures r == StaleKeys(es, md)
  {
    var del: seq<string> := [];
    for i := 0 to |es|
      invariant StaleKeys(es[..i], md) == Success(del)
    {
      assert es[..i + 1][..i] == es[..i];
      var e := es[i];
      if e.key !in md {
        if !e.val.Table? {
          StaleKeysFails(es, md, i);
          return Failure(Sync.NoGet);
        }
        if FindOrNil(e.val.entries, WorkspaceSync.WorkspaceKey) == Bool(true) {
          del := del + [e.key];
        }
      }
    }
    assert es[..|es|] == es;
    return Success(del);
  }

  /** The deleting loop `for dep in del_deps: del sources[dep]`. */
  method DeleteKeys(es: seq<Entry>, del: seq<string>) returns (out: seq<Entry>)
    ensures out == Deleted(es, del)
  {
    out := es;
    for i := 0 to |del|
      invariant out == Deleted(es, del[..i])
    {
      assert del[..i + 1][..i] == del[..i];
      out := Del(out, del[i]);
    }
    assert del[..|del|] == del;
  }

  /** `d.setdefault(k, {})` where every value the loop stores is a table. */
  function SetDefault(es: seq<Entry>, k: string): seq<Entry> {
    match Find(es, k)
    case Some(Table(t)) => t
    case _ => []
  }

  /** On a table of at most the one key `k`, `setdefault` and the assignment
      that follows it act on that single entry. */
  lemma SingleEntry(es: seq<Entry>, k: string, t: seq<Entry>, w: Value)
    requires es == [] || es == [Entry(k, Table(t))]
    ensures SetDefault(es, k) == if es == [] then [] else t
    ensures Put(es, k, w) == [Entry(k, w)]
  {
  }

  /** Flagging a new or already flagged source gives `{workspace = true}`. */
  lemma FlagEntry(m: seq<Entry>, md: seq<string>, dep: string)
    requires m == WorkspaceSync.Marked([], md)
    ensures Table(Put(SetDefault(m, dep), WorkspaceSync.WorkspaceKey, Bool(true))) == WorkspaceSync.WorkspaceTrue
  {
    WorkspaceSync.MarkedMeaning([], md, dep);
  }

  /** Marking one more member dependency. */
  lemma MarkedNext(md: seq<string>, i: nat)
    requires i < |md|
    ensures WorkspaceSync.Marked([], md[..i + 1]) == Put(WorkspaceSync.Marked([], md[..i]), md[i], WorkspaceSync.WorkspaceTrue)
  {
    TakeTake(md, i);
  }

  /** The `setdefault` chain that builds the mapping merged in at the end. */
  method BuildWorkspaceData(md: seq<string>) returns (data: Doc)
    ensures data == if md == [] then [] else WorkspaceData(md)
  {
    data := [];
    for i := 0 to |md|
      invariant data == if i == 0 then [] else WorkspaceData(md[..i])
    {
      var dep := md[i];
      ghost var m := WorkspaceSync.Marked([], md[..i]);
      ghost var uv0: seq<Entry> := if i == 0 then [] else [Entry("sources", Table(m))];
      ghost var tool0: seq<Entry> := if i == 0 then [] else [Entry("uv", Table(uv0))];
      var tool := SetDefault(data, "tool");
      SingleEntry(data, "tool", tool0, Nil);
      var uv := SetDefault(tool, "uv");
      SingleEntry(tool, "uv", uv0, Nil);
      var sources := SetDefault(uv, "sources");
      SingleEntry(uv, "sources", m, Nil);
      assert sources == m;
      var entry := SetDefault(sources, dep);
      entry := Put(entry, WorkspaceSync.WorkspaceKey, Bool(true));
      FlagEntry(m, md[..i], dep);
      sources := Put(sources, dep, Table(entry));
      MarkedNext(md, i);
      SingleEntry(uv, "sources", m, Table(sources));
      uv := Put(uv, "sources", Table(sources));
      SingleEntry(tool, "uv", uv0, Table(uv));
      tool := Put(tool, "uv", Table(uv));
      SingleEntry(data, "tool", tool0, Table(tool));
      data := Put(data, "tool", Table(tool));
    }
    assert md[..|md|] == md;
  }

  /** `_set` of `sync_member_project_dependencies`, step by step. */
  method MemberDependenciesLegacy(doc: Doc, names: seq<Value>, parse: string -> string)
    returns (r: Result<(Doc, seq<string>)>)
    ensures r == LegacyDependencies(doc, names, parse)
  {
    var deps := DependencyList(doc);
    var rw := Sync.RewriteAnyDependencies(deps, names, parse);
    if rw.Failure? {
      return Failure(rw.error);
    }
    var rewritten := rw.value.0;
    var memberDeps := rw.value.1;
    var out := doc;
    if memberDeps != [] {
      out := MappingSet(out, Sync.DepsPath, rewritten).0;
    }
    var sources := LookupOrNil(out, Sync.SourcesPath);
    if sources.Table? {
      var del := CollectStale(sources.entries, memberDeps);
      if del.Failure? {
        return Failure(del.error);
      }
      var kept := DeleteKeys(sources.entries, del.value);
      out := MappingSet(out, Sync.SourcesPath, Table(kept)).0;
    }
    if memberDeps != [] {
      var data := BuildWorkspaceData(memberDeps);
      var merged, _ := MergeEntries(out, data);
      out := merged;
    }
    return Success((out, memberDeps));
  }

  // ===========================================================================
  // _update_projects

  /** `proj.is_scripts`: the project is the workspace's scripts project, the
      one in directory `scripts`. */
  predicate IsScripts(p: Project, scripts: Path) {
    p.dir == scripts
  }

  /** `_update_projects` passes over the scripts project unless asked not to. */
  predicate Skipped(p: Project, includeScripts: bool, scripts: Path) {
    !includeScripts && IsScripts(p, scripts)
  }

  /** How often `_update_projects` edits `p` when walking `xs`. */
  function Times(xs: seq<Project>, p: Project, includeScripts: bool, scripts: Path): nat {
    if Skipped(p, includeScripts, scripts) then 0 else multiset(xs)[p]
  }

  /** Walking one more target edits that target once more, unless it is
      passed over, and no other project. */
  lemma TimesStep(xs: seq<Project>, q: Project, p: Project, includeScripts: bool, scripts: Path)
    ensures Times(xs + [q], p, includeScripts, scripts) ==
      Times(xs, p, includeScripts, scripts) + if p == q && !Skipped(q, includeScripts, scripts) then 1 else 0
  {
    assert multiset(xs + [q]) == multiset(xs) + multiset{q};
  }

  /** `_update_projects`: the edit applied to each target in order, the
      scripts project passed over unless `includeScripts`. A project listed
      `n` times is edited `n` times; an error of the edit stops the loop. */
  method UpdateLegacy(targets: seq<Project>, edit: Doc -> Result<Doc>, includeScripts: bool, scripts: Path)
    returns (r: Result<Unit>)
    modifies set p | p in targets
    ensures r.Success? <==> forall p :: p in targets && !Skipped(p, includeScripts, scripts) ==>
      Sync.Iterate(edit, multiset(targets)[p], old(p.pyproject)).Success?
    ensures forall p :: p in targets && Skipped(p, includeScripts, scripts) ==> p.pyproject == old(p.pyproject)
    ensures r.Success? ==> forall p :: p in targets && !Skipped(p, includeScripts, scripts) ==>
      p.pyproject == Sync.Iterate(edit, multiset(targets)[p], old(p.pyproject)).value
  {
    for i := 0 to |targets|
      invariant forall p :: p in targets ==>
        Sync.Iterate(edit, Times(targets[..i], p, includeScripts, scripts), old(p.pyproject)) == Success(p.pyproject)
    {
      var p := targets[i];
      TakeSnoc(targets, i);
      forall q | q in targets
        ensures Times(targets[..i + 1], q, includeScripts, scripts) ==
          Times(targets[..i], q, includeScripts, scripts) + if q == p && !Skipped(p, includeScripts, scripts) then 1 else 0
      {
        TimesStep(targets[..i], p, q, includeScripts, scripts);
      }
      if !includeScripts && p.dir == scripts {
        continue;
      }
      var next := edit(p.pyproject);
      if next.Failure? {
        assert Times(targets[..i + 1], p, includeScripts, scripts) <= multiset(targets)[p] by {
          assert targets == targets[..i + 1] + targets[i + 1..];
        }
        Sync.IterateFails(edit, Times(targets[..i + 1], p, includeScripts, scripts), multiset(targets)[p], old(p.pyproject));
        return Failure(next.error);
      }
      p.pyproject := next.value;
    }
    assert targets[..|targets|] == targets;
    return Success(Unit);
  }

  /** An edit that always fails fails however often it is applied, once it is
      applied at all. */
  lemma {:induction false} IterateAlwaysFails(edit: Doc -> Result<Doc>, n: nat, d: Doc)
    requires forall x :: edit(x).Failure?
    ensures Sync.Iterate(edit, n, d).Failure? <==> n >= 1
  {
    if n > 1 {
      IterateAlwaysFails(edit, n - 1, d);
    }
  }

  // ===========================================================================
  // The commands

  /** The edit of `build-system`. */
  function BuildEdit(data: Value): Doc -> Result<Doc> {
    d => Success(MergedBuildSystem(d, data))
  }

  /** The edit of `version`. */
  function VersionEdit(v: string): Doc -> Result<Doc> {
    d => Success(MergedVersion(d, v))
  }

  /** The edit of `member-project-tool`. */
  function ToolEdit(data: Value): Doc -> Result<Doc> {
    d => MergedMemberTool(d, data)
  }

  /** The edit of `member-project-dependencies`. */
  function DependenciesEdit(names: seq<Value>): Doc -> Result<Doc> {
    d => LegacyDependenciesDoc(d, names)
  }

  /** A target listed any number of times is merged with the root's build
      system once in effect, when that table names each key once. */
  lemma BuildEditOnce(data: Value, n: nat, d: Doc)
    requires data.Table? ==> DistinctDeep(data.entries)
    requires n >= 1
    ensures Sync.Iterate(BuildEdit(data), n, d) == Success(MergedBuildSystem(d, data))
  {
    forall x ensures BuildEdit(data)(x).Success? && BuildEdit(data)(BuildEdit(data)(x).value) == BuildEdit(data)(x) {
      MergedBuildSystemSettles(x, data);
    }
    Sync.IterateIdempotent(BuildEdit(data), n, d);
  }

  lemma VersionEditOnce(v: string, n: nat, d: Doc)
    requires n >= 1
    ensures Sync.Iterate(VersionEdit(v), n, d) == Success(MergedVersion(d, v))
  {
    forall x ensures VersionEdit(v)(x).Success? && VersionEdit(v)(VersionEdit(v)(x).value) == VersionEdit(v)(x) {
      MergedVersionSettles(x, v);
    }
    Sync.IterateIdempotent(VersionEdit(v), n, d);
  }

  /** The member-tool edit fails at its first application exactly when the
      root's table is truthy but not a mapping; otherwise it acts once. */
  lemma ToolEditOnce(data: Value, n: nat, d: Doc)
    requires data.Table? ==> DistinctDeep(data.entries)
    ensures Sync.Iterate(ToolEdit(data), n, d).Failure? <==> n >= 1 && Truthy(data) && !data.Table?
    ensures n >= 1 && Sync.Iterate(ToolEdit(data), n, d).Success? ==> Sync.Iterate(ToolEdit(data), n, d) == MergedMemberTool(d, data)
  {
    if Truthy(data) && !data.Table? {
      IterateAlwaysFails(ToolEdit(data), n, d);
    } else if n >= 1 {
      forall x ensures ToolEdit(data)(x).Success? && ToolEdit(data)(ToolEdit(data)(x).value) == ToolEdit(data)(x) {
        if Truthy(data) {
          MergedMemberToolMeaning(x, data, "");
        }
      }
      Sync.IterateIdempotent(ToolEdit(data), n, d);
    }
  }

  /** `sync build-system`: the root's `build-system`, when truthy, merged into
      every target, the scripts project included. The root keeps its own
      document: it is never one of the targets `_projects` yields. */
  method SyncBuildSystemLegacy(targets: seq<Project>, root: Project)
    requires root !in targets
    modifies set p | p in targets
    ensures forall p :: p in targets ==>
      Sync.Iterate(BuildEdit(BuildSystemData(old(root.pyproject))), multiset(targets)[p], old(p.pyproject)) == Success(p.pyproject)
    ensures var data := BuildSystemData(old(root.pyproject));
      (data.Table? ==> DistinctDeep(data.entries)) ==>
        forall p :: p in targets ==> p.pyproject == MergedBuildSystem(old(p.pyproject), data)
  {
    var data := FindOrNil(root.pyproject, Sync.BuildSystemKey);
    var r := UpdateLegacy(targets, BuildEdit(data), true, root.dir);
    assert r.Success? by {
      forall p | p in targets ensures Sync.Iterate(BuildEdit(data), multiset(targets)[p], old(p.pyproject)).Success? {
        IterateTotal(BuildEdit(data), multiset(targets)[p], old(p.pyproject));
      }
    }
    if data.Table? ==> DistinctDeep(data.entries) {
      forall p | p in targets ensures p.pyproject == MergedBuildSystem(old(p.pyproject), data) {
        BuildEditOnce(data, multiset(targets)[p], old(p.pyproject));
      }
    }
  }

  /** An edit that always succeeds succeeds however often it is applied. */
  lemma {:induction false} IterateTotal(edit: Doc -> Result<Doc>, n: nat, d: Doc)
    requires forall x :: edit(x).Success?
    ensures Sync.Iterate(edit, n, d).Success?
  {
    if n > 0 {
      IterateTotal(edit, n - 1, d);
    }
  }

  /** `sync version`: the requested version, else the git version, else the
      default, merged into every target but the scripts project. */
  method SyncVersionLegacy(targets: seq<Project>, requested: string, git: Option<string>, scripts: Path)
    returns (v: string)
    modifies set p | p in targets
    ensures v == Sync.ChosenVersion(requested, git)
    ensures forall p :: p in targets ==>
      p.pyproject == if Skipped(p, false, scripts) then old(p.pyproject) else MergedVersion(old(p.pyproject), v)
  {
    v := requested;
    if v == "" {
      v := if git.Some? && git.value != "" then git.value else DefaultVersion;
    }
    var r := UpdateLegacy(targets, VersionEdit(v), false, scripts);
    forall p | p in targets && !Skipped(p, false, scripts)
      ensures Sync.Iterate(VersionEdit(v), multiset(targets)[p], old(p.pyproject)) == Success(MergedVersion(old(p.pyproject), v))
    {
      VersionEditOnce(v, multiset(targets)[p], old(p.pyproject));
    }
  }

  /** `sync member-project-tool`: the root's `tool.member-project` table, when
      truthy, merged into the top level of every target but the scripts
      project; a truthy value that is not a mapping makes the merge raise
      at the first target. */
  method SyncMemberProjectToolLegacy(targets: seq<Project>, root: Project, scripts: Path)
    returns (r: Result<Unit>)
    requires root !in targets
    modifies set p | p in targets
    ensures var data := MemberToolData(old(root.pyproject));
      r.Failure? <==> Truthy(data) && !data.Table? && exists p :: p in targets && !Skipped(p, false, scripts)
    ensures r.Success? <==> forall p :: p in targets && !Skipped(p, false, scripts) ==>
      Sync.Iterate(ToolEdit(MemberToolData(old(root.pyproject))), multiset(targets)[p], old(p.pyproject)).Success?
    ensures r.Success? ==> forall p :: p in targets && !Skipped(p, false, scripts) ==>
      p.pyproject == Sync.Iterate(ToolEdit(MemberToolData(old(root.pyproject))), multiset(targets)[p], old(p.pyproject)).value
    ensures forall p :: p in targets && Skipped(p, false, scripts) ==> p.pyproject == old(p.pyproject)
    ensures var data := MemberToolData(old(root.pyproject));
      r.Success? && (data.Table? ==> DistinctDeep(data.entries)) ==>
        forall p :: p in targets && !Skipped(p, false, scripts) ==>
          p.pyproject == MergedMemberTool(old(p.pyproject), data).value
  {
    var data := LookupOrNil(root.pyproject, Sync.ToolPath);
    r := UpdateLegacy(targets, ToolEdit(data), false, scripts);
    if Truthy(data) && !data.Table? {
      forall p | p in targets && !Skipped(p, false, scripts)
        ensures Sync.Iterate(ToolEdit(data), multiset(targets)[p], old(p.pyproject)).Failure?
      {
        IterateAlwaysFails(ToolEdit(data), multiset(targets)[p], old(p.pyproject));
      }
    } else {
      forall p | p in targets && !Skipped(p, false, scripts)
        ensures Sync.Iterate(ToolEdit(data), multiset(targets)[p], old(p.pyproject)).Success?
      {
        IterateTotal(ToolEdit(data), multiset(targets)[p], old(p.pyproject));
      }
      if data.Table? ==> DistinctDeep(data.entries) {
        forall p | p in targets && !Skipped(p, false, scripts)
          ensures p.pyproject == MergedMemberTool(old(p.pyproject), data).value
        {
          ToolEditOnce(data, multiset(targets)[p], old(p.pyproject));
        }
      }
    }
  }

  /** `sync member-project-dependencies`: every target but the scripts
      project rewritten against the names of the root's members, taken once
      before the loop. */
  method SyncMemberProjectDependenciesLegacy(targets: seq<Project>, names: seq<Value>, scripts: Path)
    returns (r: Result<Unit>)
    modifies set p | p in targets
    ensures r.Success? <==> forall p :: p in targets && !Skipped(p, false, scripts) ==>
      Sync.Iterate(DependenciesEdit(names), multiset(targets)[p], old(p.pyproject)).Success?
    ensures forall p :: p in targets && Skipped(p, false, scripts) ==> p.pyproject == old(p.pyproject)
    ensures r.Success? ==> forall p :: p in targets && !Skipped(p, false, scripts) ==>
      p.pyproject == Sync.Iterate(DependenciesEdit(names), multiset(targets)[p], old(p.pyproject)).value
  {
    r := UpdateLegacy(targets, DependenciesEdit(names), false, scripts);
  }

  /** A target listed once is rewritten once. */
  lemma DependenciesEditOnce(names: seq<Value>, d: Doc)
    ensures Sync.Iterate(DependenciesEdit(names), 1, d).Success? <==> LegacyDependencies(d, names, Sync.ParseDepName).Success?
    ensures Sync.Iterate(DependenciesEdit(names), 1, d).Success? ==>
      Sync.Iterate(DependenciesEdit(names), 1, d).value == LegacyDependencies(d, names, Sync.ParseDepName).value.0
  {
    assert Sync.Iterate(DependenciesEdit(names), 1, d) == LegacyDependenciesDoc(d, names);
  }

  // ===========================================================================
  // all

  /** What `all` makes of one target's manifest, listed `n` times, before it
      is persisted: the registered commands in order, `build-system` on every
      target and `version`, `member-project-tool` and
      `member-project-dependencies` on every target but the scripts project
      (`skip`). The first error ends the run. */
  function LegacyAllEdit(doc: Doc, root: Doc, names: seq<Value>, n: nat, skip: bool, v: string): Result<Doc>
  {
    var m := if skip then 0 else n;
    var d1 :- Sync.Iterate(BuildEdit(BuildSystemData(root)), n, doc);
    var d2 :- Sync.Iterate(VersionEdit(v), m, d1);
    var d3 :- Sync.Iterate(ToolEdit(MemberToolData(root)), m, d2);
    Sync.Iterate(DependenciesEdit(names), m, d3)
  }

  /** Once the first two commands have run, `all` goes on with the last two. */
  lemma LegacyAllStages(doc: Doc, root: Doc, names: seq<Value>, n: nat, skip: bool, v: string, d1: Doc, d2: Doc)
    requires Sync.Iterate(BuildEdit(BuildSystemData(root)), n, doc) == Success(d1)
    requires Sync.Iterate(VersionEdit(v), if skip then 0 else n, d1) == Success(d2)
    ensures LegacyAllEdit(doc, root, names, n, skip, v) ==
      match Sync.Iterate(ToolEdit(MemberToolData(root)), if skip then 0 else n, d2)
      case Failure(e) => Failure(e)
      case Success(d3) => Sync.Iterate(DependenciesEdit(names), if skip then 0 else n, d3)
  {
  }

  /** `_sync_all`: every registered command but `all` itself, on one list of
      projects, the last of them `sync_ruff`. That one takes no projects,
      formats only when ruff is `installed`, and fails with the outcome
      `format` of `ruff format` (`check=True`); its failure comes after every
      manifest edit. `sync_version` is called with no version, so the
      git-derived one or the default is used. */
  method SyncAllLegacy(targets: seq<Project>, root: Project, names: seq<Value>,
                       git: Option<string>, scripts: Path, installed: bool, format: Result<Unit>) returns (r: Result<Unit>)
    requires root !in targets
    modifies set p | p in targets
    ensures r.Success? <==>
      && (forall p :: p in targets ==>
            LegacyAllEdit(old(p.pyproject), old(root.pyproject), names, multiset(targets)[p],
                          Skipped(p, false, scripts), Sync.ChosenVersion("", git)).Success?)
      && Sync.RuffOutcome(false, installed, format).Success?
    ensures (forall p :: p in targets ==>
      LegacyAllEdit(old(p.pyproject), old(root.pyproject), names, multiset(targets)[p],
                    Skipped(p, false, scripts), Sync.ChosenVersion("", git)).Success?) ==>
      && r == Sync.RuffOutcome(false, installed, format)
      && forall p :: p in targets ==>
           p.pyproject == LegacyAllEdit(old(p.pyproject), old(root.pyproject), names, multiset(targets)[p],
                                        Skipped(p, false, scripts), Sync.ChosenVersion("", git)).value
  {
    SyncBuildSystemLegacy(targets, root);
    label Built:
    var v := SyncVersionLegacy(targets, "", git, scripts);
    label Versioned:
    forall p | p in targets
      ensures LegacyAllEdit(old(p.pyproject), old(root.pyproject), names, multiset(targets)[p], Skipped(p, false, scripts), v) ==
        match Sync.Iterate(ToolEdit(MemberToolData(old(root.pyproject))), Times(targets, p, false, scripts), old@Versioned(p.pyproject))
        case Failure(e) => Failure(e)
        case Success(d3) => Sync.Iterate(DependenciesEdit(names), Times(targets, p, false, scripts), d3)
    {
      if !Skipped(p, false, scripts) {
        VersionEditOnce(v, multiset(targets)[p], old@Built(p.pyproject));
      }
      LegacyAllStages(old(p.pyproject), old(root.pyproject), names, multiset(targets)[p], Skipped(p, false, scripts), v,
                      old@Built(p.pyproject), old@Versioned(p.pyproject));
    }
    r := SyncMemberProjectToolLegacy(targets, root, scripts);
    if r.Failure? {
      return;
    }
    r := SyncMemberProjectDependenciesLegacy(targets, names, scripts);
    if r.Failure? {
      return;
    }
    r := Sync.Ruff(false, installed, format);
    assert r == Sync.RuffOutcome(false, installed, format) by {
      if !installed {
        assert r.value == Unit;
      }
    }
  }

  /** A member-tool table that leaves the top-level key `k` alone. */
  predicate ToolKeeps(data: Value, k: string) {
    !Truthy(data) || (data.Table? && DistinctDeep(data.entries) && k !in Keys(data.entries))
  }

  lemma ToolEditFrame(data: Value, n: nat, d: Doc, k: string)
    requires ToolKeeps(data, k) && Sync.Iterate(ToolEdit(data), n, d).Success?
    ensures Find(Sync.Iterate(ToolEdit(data), n, d).value, k) == Find(d, k)
  {
    forall x | ToolEdit(data)(x).Success? ensures Lookup(ToolEdit(data)(x).value, [k]) == Lookup(x, [k]) {
      if Truthy(data) {
        MergedMemberToolMeaning(x, data, k);
      }
    }
    Sync.IterateFrame(ToolEdit(data), n, d, [k]);
  }

  lemma VersionEditFrame(v: string, n: nat, d: Doc, k: string)
    requires k != ProjectKey
    ensures Sync.Iterate(VersionEdit(v), n, d).Success?
    ensures Find(Sync.Iterate(VersionEdit(v), n, d).value, k) == Find(d, k)
  {
    IterateTotal(VersionEdit(v), n, d);
    forall x ensures Lookup(VersionEdit(v)(x).value, [k]) == Lookup(x, [k]) {
      MergedVersionMeaning(x, v, k, "");
    }
    Sync.IterateFrame(VersionEdit(v), n, d, [k]);
  }

  lemma DependenciesEditFrame(names: seq<Value>, n: nat, d: Doc, q: seq<string>)
    requires q != [] && q[0] != "tool" && Diverges(Sync.DepsPath, q)
    requires Sync.Iterate(DependenciesEdit(names), n, d).Success?
    ensures Lookup(Sync.Iterate(DependenciesEdit(names), n, d).value, q) == Lookup(d, q)
  {
    forall x | DependenciesEdit(names)(x).Success?
      ensures Lookup(DependenciesEdit(names)(x).value, q) == Lookup(x, q)
    {
      LegacyDependenciesOutside(x, names, Sync.ParseDepName, q);
    }
    Sync.IterateFrame(DependenciesEdit(names), n, d, q);
  }

  /** After `all` every target's `build-system` is the root's merged in
      once, provided the root's member-tool table does not itself carry a
      `build-system`. */
  lemma LegacyAllBuildSystem(doc: Doc, root: Doc, names: seq<Value>, n: nat, skip: bool, v: string)
    requires n >= 1 && LegacyAllEdit(doc, root, names, n, skip, v).Success?
    requires BuildSystemData(root).Table? ==> DistinctDeep(BuildSystemData(root).entries)
    requires !skip ==> ToolKeeps(MemberToolData(root), Sync.BuildSystemKey)
    ensures Find(LegacyAllEdit(doc, root, names, n, skip, v).value, Sync.BuildSystemKey) ==
      Find(MergedBuildSystem(doc, BuildSystemData(root)), Sync.BuildSystemKey)
  {
    var m := if skip then 0 else n;
    BuildEditOnce(BuildSystemData(root), n, doc);
    var d1 := MergedBuildSystem(doc, BuildSystemData(root));
    VersionEditFrame(v, m, d1, Sync.BuildSystemKey);
    var d2 := Sync.Iterate(VersionEdit(v), m, d1).value;
    if !skip {
      ToolEditFrame(MemberToolData(root), m, d2, Sync.BuildSystemKey);
    }
    var d3 := Sync.Iterate(ToolEdit(MemberToolData(root)), m, d2).value;
    assert Diverges(Sync.DepsPath, [Sync.BuildSystemKey]);
    DependenciesEditFrame(names, m, d3, [Sync.BuildSystemKey]);
  }

  /** After `all` every target but the scripts project carries the chosen
      version, provided the root's member-tool table does not itself carry a
      `project` table. */
  lemma LegacyAllVersion(doc: Doc, root: Doc, names: seq<Value>, n: nat, v: string)
    requires n >= 1 && LegacyAllEdit(doc, root, names, n, false, v).Success?
    requires ToolKeeps(MemberToolData(root), ProjectKey)
    ensures Lookup(LegacyAllEdit(doc, root, names, n, false, v).value, Sync.VersionPath) == Some(Str(v))
  {
    var d1 := Sync.Iterate(BuildEdit(BuildSystemData(root)), n, doc).value;
    VersionEditOnce(v, n, d1);
    var d2 := MergedVersion(d1, v);
    MergedVersionMeaning(d1, v, "", "");
    ToolEditFrame(MemberToolData(root), n, d2, ProjectKey);
    var d3 := Sync.Iterate(ToolEdit(MemberToolData(root)), n, d2).value;
    LookupSameHead(d3, d2, Sync.VersionPath);
    assert Diverges(Sync.DepsPath, Sync.VersionPath);
    DependenciesEditFrame(names, n, d3, Sync.VersionPath);
  }

  /** The scripts project only receives the build system. */
  lemma LegacyAllScripts(doc: Doc, root: Doc, names: seq<Value>, n: nat, v: string)
    requires BuildSystemData(root).Table? ==> DistinctDeep(BuildSystemData(root).entries)
    ensures LegacyAllEdit(doc, root, names, n, true, v) ==
      Success(if n == 0 then doc else MergedBuildSystem(doc, BuildSystemData(root)))
  {
    if n >= 1 {
      BuildEditOnce(BuildSystemData(root), n, doc);
    }
  }

  // ===========================================================================
  // _projects

  /** What `_projects` raises for an identifier `projects.dir` cannot place:
      the debug line before the check calls `absolute()` on `None`. */
  const NoAbsolute := "'" + "NoneType' object has no attribute 'absolute'"

  /** The error `_projects` means to raise for an identifier it cannot place;
      `listing` is the text of the identifiers given. */
  function NotFound(id: string, listing: string): (msg: string)
    ensures |msg| > 8 && msg[..8] == "Project " && msg != NoAbsolute
  {
    var msg := "Project " + id + " not found - sync_projects: " + listing;
    assert msg[0] == 'P' && NoAbsolute[0] != 'P';
    msg
  }

  /** `_projects` as written: with no identifiers, the root's members (the
      root itself is not among them); otherwise each identifier in turn, a
      project passing through and a name or path becoming a new project of
      the directory `locate` finds. An identifier with no directory fails at
      the debug line, before the `ValueError` check is reached. */
  method ResolveLegacyAsWritten(ids: seq<Sync.Target>, members: seq<Project>,
                                locate: string -> Option<Path>, load: Path -> Doc) returns (r: Result<seq<Project>>)
    ensures ids == [] ==> r == Success(members)
    ensures ids != [] ==> (r.Failure? <==> Sync.FirstUnresolved(ids, locate) < |ids|)
    ensures r.Failure? ==> r.error == NoAbsolute
    ensures r.Success? && ids != [] ==> |r.value| == |ids|
    ensures r.Success? && ids != [] ==> forall i :: 0 <= i < |ids| ==> Sync.Resolved(ids[i], r.value[i], locate, load)
  {
    if ids == [] {
      return Success(members);
    }
    var out: seq<Project> := [];
    for i := 0 to |ids|
      invariant |out| == i
      invariant Sync.FirstUnresolved(ids, locate) >= i
      invariant forall j :: 0 <= j < i ==> Sync.Resolved(ids[j], out[j], locate, load)
    {
      Sync.FirstUnresolvedStep(ids, locate, i);
      match ids[i] {
        case ProjectTarget(q) =>
          out := out + [q];
        case NamedTarget(id) =>
          var dir := locate(id);
          if dir.None? {
            return Failure(NoAbsolute);
          }
          var q := new Project(dir.value, load(dir.value));
          out := out + [q];
      }
    }
    return Success(out);
  }

  /** An identifier no directory matches makes `_projects` fail with the
      `AttributeError` rather than its `ValueError`. */
  lemma ResolveLegacyAsWrittenMissesNotFound(listing: string)
    ensures var ids := [Sync.NamedTarget("nope")];
      Sync.FirstUnresolved(ids, Nowhere) == 0 < |ids| && NotFound("nope", listing) != NoAbsolute
  {
    var ids := [Sync.NamedTarget("nope")];
    assert ids[0].NamedTarget? && Nowhere(ids[0].id).None?;
  }

  /** A workspace in which `projects.dir` places no identifier. */
  function Nowhere(id: string): Option<Path> {
    None
  }

  /** `_projects` as intended: an identifier with no directory raises
      `ValueError("Project … not found - sync_projects: …")`. */
  method ResolveLegacy(ids: seq<Sync.Target>, members: seq<Project>, listing: string,
                       locate: string -> Option<Path>, load: Path -> Doc) returns (r: Result<seq<Project>>)
    ensures ids == [] ==> r == Success(members)
    ensures ids != [] ==> (r.Failure? <==> Sync.FirstUnresolved(ids, locate) < |ids|)
    ensures ids != [] && r.Failure? ==> r.error == NotFound(ids[Sync.FirstUnresolved(ids, locate)].id, listing)
    ensures r.Success? && ids != [] ==> |r.value| == |ids|
    ensures r.Success? && ids != [] ==> forall i :: 0 <= i < |ids| ==> Sync.Resolved(ids[i], r.value[i], locate, load)
    ensures r.Success? && ids != [] ==> forall i :: 0 <= i < |ids| && ids[i].NamedTarget? ==> fresh(r.value[i])
  {
    if ids == [] {
      return Success(members);
    }
    var out: seq<Project> := [];
    for i := 0 to |ids|
      invariant |out| == i
      invariant Sync.FirstUnresolved(ids, locate) >= i
      invariant forall j :: 0 <= j < i ==> Sync.Resolved(ids[j], out[j], locate, load)
      invariant forall j :: 0 <= j < i && ids[j].NamedTarget? ==> fresh(out[j])
    {
      Sync.FirstUnresolvedStep(ids, locate, i);
      match ids[i] {
        case ProjectTarget(q) =>
          out := out + [q];
        case NamedTarget(id) =>
          var dir := locate(id);
          if dir.None? {
            return Failure(NotFound(id, listing));
          }
          var q := new Project(dir.value, load(dir.value));
          out := out + [q];
      }
    }
    return Success(out);
  }

  // ===========================================================================
  // _persist_projects

  /** `doc.clean(strings=False)` of a keypath dictionary when `prune` is set:
      the bottom-up prune, after which no None and no empty collection is
      left below the top. */
  function Cleaned(doc: Doc, prune: bool): (r: Doc)
    ensures !prune ==> r == doc
    ensures prune ==> PrunedEntries(r)
  {
    if prune then
      PruneDeepPrunes(Table(doc));
      PruneDeepEntries(doc).0
    else doc
  }

  /** Cleaning a cleaned manifest again changes nothing, so a project the
      loop reaches twice is written with the same text. */
  lemma CleanedIdempotent(doc: Doc, prune: bool)
    ensures Cleaned(Cleaned(doc, prune), prune) == Cleaned(doc, prune)
  {
    if prune {
      PruneDeepIdempotent(Table(doc));
    }
  }

  /** The (file, text) pairs of the loop, `docs` holding the manifests when
      it starts: the dump of the cleaned manifest, not stripped. */
  function LegacyWrites(targets: seq<Project>, docs: seq<Doc>, prune: bool, dump: Doc -> string): (ws: seq<(Path, string)>)
    requires |docs| == |targets|
    ensures |ws| == |targets|
    ensures forall i :: 0 <= i < |targets| ==> ws[i] == (targets[i].ManifestPath(), dump(Cleaned(docs[i], prune)))
  {
    seq(|targets|, i requires 0 <= i < |targets| => (targets[i].ManifestPath(), dump(Cleaned(docs[i], prune))))
  }

  /** `_persist_projects(projs, prune)`: each project's manifest is cleaned
      when `prune` is set, dumped as it is, and written unless the file
      already holds exactly that text. */
  method PersistLegacy(targets: seq<Project>, store: TextStore, dump: Doc -> string, prune: bool)
    modifies store, set p | p in targets
    ensures forall p :: p in targets ==> p.pyproject == Cleaned(old(p.pyproject), prune)
    ensures store.files == Sync.Persisted(old(store.files), LegacyWrites(targets, old(Sync.DocsOf(targets)), prune, dump), false).0
    ensures forall i :: 0 <= i < |targets| && Sync.LastFor(targets, i) ==>
      targets[i].ManifestPath() in store.files &&
      store.files[targets[i].ManifestPath()] == dump(Cleaned(old(targets[i].pyproject), prune))
    ensures forall q :: (forall i :: 0 <= i < |targets| ==> targets[i].ManifestPath() != q) ==>
      (q in store.files <==> q in old(store.files)) && (q in old(store.files) ==> store.files[q] == old(store.files)[q])
  {
    ghost var orig := map p | p in targets :: p.pyproject;
    ghost var ws := LegacyWrites(targets, Sync.DocsOf(targets), prune, dump);
    LegacyPersistedFiles(store.files, targets, Sync.DocsOf(targets), prune, dump);
    for i := 0 to |targets|
      invariant CleanedSoFar(targets, orig, prune, targets[..i])
      invariant store.files == Sync.Persisted(old(store.files), ws[..i], false).0
    {
      PersistLegacyNext(targets, i, store, dump, prune, orig, ws, old(store.files));
    }
    FullTake(ws);
    FullTake(targets);
    forall p | p in targets ensures p.pyproject == Cleaned(old(p.pyproject), prune) {
      assert orig[p] == old(p.pyproject);
    }
  }

  /** The projects the loop has reached, `done`, hold their cleaned
      manifests; the others still hold their manifests `orig`. */
  ghost predicate CleanedSoFar(targets: seq<Project>, orig: map<Project, Doc>, prune: bool, done: seq<Project>)
    reads set p | p in targets
  {
    forall p :: p in targets ==> p in orig && p.pyproject == (if p in done then Cleaned(orig[p], prune) else orig[p])
  }

  /** One turn of `_persist_projects` against the whole loop's writes `ws`. */
  method PersistLegacyNext(targets: seq<Project>, i: nat, store: TextStore, dump: Doc -> string, prune: bool,
                           ghost orig: map<Project, Doc>, ghost ws: seq<(Path, string)>, ghost files: map<Path, string>)
    requires i < |targets| == |ws|
    requires CleanedSoFar(targets, orig, prune, targets[..i])
    requires ws[i] == (targets[i].ManifestPath(), dump(Cleaned(orig[targets[i]], prune)))
    requires store.files == Sync.Persisted(files, ws[..i], false).0
    modifies targets[i], store
    ensures CleanedSoFar(targets, orig, prune, targets[..i + 1])
    ensures store.files == Sync.Persisted(files, ws[..i + 1], false).0
  {
    var p := targets[i];
    assert p in targets;
    CleanedIdempotent(orig[p], prune);
    if prune {
      p.pyproject := PruneDeepEntries(p.pyproject).0;
    }
    assert p.pyproject == Cleaned(orig[p], prune);
    var text := dump(p.pyproject);
    var path := p.ManifestPath();
    assert ws[..i + 1][..i] == ws[..i];
    if !(path in store.files && store.files[path] == text) {
      store.files := store.files[path := text];
    }
    assert targets[..i + 1] == targets[..i] + [p];
  }

  /** After the loop, the file of a target that no later target shares holds
      that target's cleaned dump, and a file no target names is untouched. */
  lemma LegacyPersistedFiles(files: map<Path, string>, targets: seq<Project>, docs: seq<Doc>, prune: bool,
                             dump: Doc -> string)
    requires |docs| == |targets|
    ensures var out := Sync.Persisted(files, LegacyWrites(targets, docs, prune, dump), false).0;
      forall i :: 0 <= i < |targets| && Sync.LastFor(targets, i) ==>
        targets[i].ManifestPath() in out && out[targets[i].ManifestPath()] == dump(Cleaned(docs[i], prune))
    ensures var out := Sync.Persisted(files, LegacyWrites(targets, docs, prune, dump), false).0;
      forall q :: (forall i :: 0 <= i < |targets| ==> targets[i].ManifestPath() != q) ==>
        (q in out <==> q in files) && (q in files ==> out[q] == files[q])
  {
    var ws := LegacyWrites(targets, docs, prune, dump);
    Sync.PersistedOverlay(files, ws, false);
    forall i | 0 <= i < |targets| && Sync.LastFor(targets, i) {
      Sync.OverlayLast(files, ws, i);
    }
    forall q | forall i :: 0 <= i < |targets| ==> targets[i].ManifestPath() != q {
      Sync.OverlayUntouched(files, ws, q);
    }
  }

  /** `sync all` as the command line runs it: `_sync_all`, then, when it
      raised nothing, the result callback `_persist_projects` on the same
      projects with pruning (the manifest being a keypath dictionary). A
      failure writes nothing; otherwise each file holds the dump of its
      last project's edited and cleaned manifest. */
  method SyncAllCommandLegacy(targets: seq<Project>, root: Project, names: seq<Value>,
                              git: Option<string>, scripts: Path, installed: bool, format: Result<Unit>,
                              store: TextStore, dump: Doc -> string) returns (r: Result<Unit>)
    requires root !in targets
    modifies store, set p | p in targets
    ensures r.Success? <==>
      && (forall p :: p in targets ==>
            LegacyAllEdit(old(p.pyproject), old(root.pyproject), names, multiset(targets)[p],
                          Skipped(p, false, scripts), Sync.ChosenVersion("", git)).Success?)
      && Sync.RuffOutcome(false, installed, format).Success?
    ensures r.Failure? ==> store.files == old(store.files)
    ensures r.Success? ==> forall i :: 0 <= i < |targets| && Sync.LastFor(targets, i) ==>
      targets[i].ManifestPath() in store.files &&
      store.files[targets[i].ManifestPath()] ==
        dump(Cleaned(LegacyAllEdit(old(targets[i].pyproject), old(root.pyproject), names, multiset(targets)[targets[i]],
                                   Skipped(targets[i], false, scripts), Sync.ChosenVersion("", git)).value, true))
    ensures r.Success? ==> forall q :: (forall i :: 0 <= i < |targets| ==> targets[i].ManifestPath() != q) ==>
      (q in store.files <==> q in old(store.files)) && (q in old(store.files) ==> store.files[q] == old(store.files)[q])
  {
    r := SyncAllLegacy(targets, root, names, git, scripts, installed, format);
    if r.Failure? {
      return;
    }
    PersistLegacy(targets, store, dump, true);
  }
}
