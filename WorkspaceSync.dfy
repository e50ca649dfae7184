/** `reggie_build.workspace_sync`: the `sync` command over a `PyProjectTree`.
    It brings the member manifests in line with the workspace root in a fixed
    order (version, build system, the root's `tool.member-project` table,
    dependencies on fellow projects), then persists the root and every member. */
module WorkspaceSync {
  import opened Wrappers
  import opened Toml
  import opened Utils
  import opened Files
  import opened Workspaces
  import opened Pyproject
  import Sync
  import opened Seqs

  // ===========================================================================
  // One edit over several manifests

  /** What a step's loop body does to one manifest: the `data` property loads
      the file on first use, then `edit` changes the document of the manifest
      at `path`. */
  function Step(data: Option<Doc>, files: map<Path, string>, path: Path, parse: string -> Result<Doc>,
                edit: (Path, Doc) -> Result<Doc>): Result<Doc>
  {
    var d :- Loaded(data, files, path, parse);
    edit(path, d)
  }

  /** The documents of the manifests, in order. */
  function DataOf(projs: seq<PyProject>): (ds: seq<Option<Doc>>)
    reads set p | p in projs
    ensures |ds| == |projs|
    ensures forall j :: 0 <= j < |projs| ==> ds[j] == projs[j].data
  {
    if projs == [] then [] else [projs[0].data] + DataOf(projs[1..])
  }

  /** The manifest paths, in order. */
  function PathsOf(projs: seq<PyProject>): (ps: seq<Path>)
    ensures |ps| == |projs|
    ensures forall j :: 0 <= j < |projs| ==> ps[j] == projs[j].path
  {
    if projs == [] then [] else [projs[0].path] + PathsOf(projs[1..])
  }

  /** A loop over the step's outcomes that stops at the first error: it
      fails exactly when one of them fails, with the first such error. */
  function Outcome(ws: seq<Result<Doc>>): (r: Result<Unit>)
    ensures r.Success? <==> forall j :: 0 <= j < |ws| ==> ws[j].Success?
    ensures r.Failure? ==> exists j :: 0 <= j < |ws| && ws[j] == Failure(r.error)
                                       && forall k :: 0 <= k < j ==> ws[k].Success?
  {
    if ws == [] then Success(Unit)
    else if ws[0].Failure? then Failure(ws[0].error)
    else
      var rest := Outcome(ws[1..]);
      if rest.Failure? then
        var j :| 0 <= j < |ws[1..]| && ws[1..][j] == Failure(rest.error) && forall k :: 0 <= k < j ==> ws[1..][k].Success?;
        assert ws[j + 1] == Failure(rest.error);
        rest
      else rest
  }

  /** What a loop applying the step to each manifest leaves behind: its
      result is the outcome over the steps, and when every step succeeds each
      manifest holds its step's document. */
  predicate Stepped(ws: seq<Result<Doc>>, after: seq<Option<Doc>>, r: Result<Unit>)
    requires |ws| == |after|
  {
    && r == Outcome(ws)
    && (r.Success? ==> forall j :: 0 <= j < |ws| ==> after[j] == Some(ws[j].value))
  }

  /** The step's outcome on each manifest, from the given documents. */
  function Steps(before: seq<Option<Doc>>, files: map<Path, string>, paths: seq<Path>, parse: string -> Result<Doc>,
                 edit: (Path, Doc) -> Result<Doc>): (ws: seq<Result<Doc>>)
    requires |before| == |paths|
    ensures |ws| == |paths|
    ensures forall j :: 0 <= j < |paths| ==> ws[j] == Step(before[j], files, paths[j], parse, edit)
  {
    if paths == [] then [] else [Step(before[0], files, paths[0], parse, edit)] + Steps(before[1..], files, paths[1..], parse, edit)
  }

  /** Every step succeeded and its document was stored: the loop's outcome. */
  lemma AllStepped(ws: seq<Result<Doc>>, after: seq<Option<Doc>>)
    requires |ws| == |after|
    requires forall j :: 0 <= j < |ws| ==> ws[j].Success? && after[j] == Some(ws[j].value)
    ensures Stepped(ws, after, Success(Unit))
  {
    var o := Outcome(ws);
    assert o.Success? && o.value == Unit;
  }

  /** One turn of the editing loop: the `i`-th manifest loaded and edited,
      the earlier ones done, the later ones untouched. */
  method EditNext(projs: seq<PyProject>, i: nat, ghost before: seq<Option<Doc>>, ghost ws: seq<Result<Doc>>,
                  edit: (Path, Doc) -> Result<Doc>, store: TextStore, parse: string -> Result<Doc>)
    returns (r: Result<Unit>)
    requires Distinct(projs) && i < |projs| && |before| == |projs| && |ws| == |projs|
    requires ws[i] == Step(before[i], store.files, projs[i].path, parse, edit)
    requires forall j :: 0 <= j < i ==> ws[j].Success? && projs[j].data == Some(ws[j].value)
    requires forall j :: i <= j < |projs| ==> projs[j].data == before[j]
    modifies projs[i]
    ensures r == (if ws[i].Success? then Success(Unit) else Failure(ws[i].error))
    ensures r.Success? ==> forall j :: 0 <= j <= i ==> ws[j].Success? && projs[j].data == Some(ws[j].value)
    ensures r.Success? ==> forall j :: i < j < |projs| ==> projs[j].data == before[j]
  {
    var p := projs[i];
    var loaded := p.Data(store, parse);
    if loaded.Failure? {
      return Failure(loaded.error);
    }
    var edited := edit(p.path, loaded.value);
    if edited.Failure? {
      return Failure(edited.error);
    }
    assert ws[i] == edited;
    p.data := Some(edited.value);
    forall j | 0 <= j <= i ensures ws[j].Success? && projs[j].data == Some(ws[j].value) {
      if j < i {
        DistinctAt(projs, j, i);
      }
    }
    forall j | i < j < |projs| ensures projs[j].data == before[j] {
      DistinctAt(projs, j, i);
    }
    r := Success(Unit);
  }

  /** `for proj in projs: <edit proj.data>`, over distinct manifests. */
  method EditEach(projs: seq<PyProject>, edit: (Path, Doc) -> Result<Doc>, store: TextStore,
                  parse: string -> Result<Doc>) returns (r: Result<Unit>)
    requires Distinct(projs)
    modifies set p | p in projs
    ensures Stepped(Steps(old(DataOf(projs)), store.files, PathsOf(projs), parse, edit), DataOf(projs), r)
  {
    ghost var before := DataOf(projs);
    ghost var ws := Steps(before, store.files, PathsOf(projs), parse, edit);
    var i := 0;
    while i < |projs|
      invariant 0 <= i <= |projs|
      invariant Outcome(ws) == Outcome(ws[i..])
      invariant forall j :: 0 <= j < i ==> ws[j].Success? && projs[j].data == Some(ws[j].value)
      invariant forall j :: i <= j < |projs| ==> projs[j].data == before[j]
    {
      var done := EditNext(projs, i, before, ws, edit, store, parse);
      assert Outcome(ws[i..]) == if ws[i].Failure? then Failure(ws[i].error) else Outcome(ws[i + 1..]) by {
        DropOne(ws, i);
      }
      if done.Failure? {
        return done;
      }
      i := i + 1;
    }
    assert Outcome(ws[i..]) == Success(Unit) by {
      assert ws[i..] == [];
    }
    r := Success(Unit);
    assert Stepped(ws, DataOf(projs), r) by {
      AllStepped(ws, DataOf(projs));
    }
  }

  // ===========================================================================
  // sync_version

  const ProjectKey := "project"
  const VersionKey := "version"

  /** The step on one manifest: a `project` table gets `version` assigned,
      unless it holds that version already; a manifest without `project` is
      skipped; a `project` that is not a table has no `.get` and raises. */
  function Versioned(doc: Doc, v: string): (r: Result<Doc>)
    ensures r.Failure? <==> Find(doc, ProjectKey).Some? && !Find(doc, ProjectKey).value.Table?
                            && !Find(doc, ProjectKey).value.Nil?
    ensures r.Failure? ==> r.error == Sync.NoGet
  {
    match Find(doc, ProjectKey)
    case None => Success(doc)
    case Some(Nil) => Success(doc)
    case Some(Table(t)) =>
      if Find(t, VersionKey) == Some(Str(v)) then Success(doc)
      else Success(Put(doc, ProjectKey, Table(Put(t, VersionKey, Str(v)))))
    case Some(_) => Failure(Sync.NoGet)
  }

  /** A `project` table ends up holding the version; the document changes
      exactly when it has a `project` table that does not hold it yet. */
  lemma VersionedMeaning(doc: Doc, v: string)
    requires Versioned(doc, v).Success?
    ensures IsTableAt(doc, [ProjectKey]) ==> Lookup(Versioned(doc, v).value, [ProjectKey, VersionKey]) == Some(Str(v))
    ensures Versioned(doc, v).value == doc <==>
              !IsTableAt(doc, [ProjectKey]) || Lookup(doc, [ProjectKey, VersionKey]) == Some(Str(v))
  {
    match Find(doc, ProjectKey)
    case None =>
    case Some(Nil) =>
    case Some(Table(t)) =>
      if Find(t, VersionKey) != Some(Str(v)) {
        var r := Put(doc, ProjectKey, Table(Put(t, VersionKey, Str(v))));
        assert Find(r, ProjectKey) != Find(doc, ProjectKey);
      }
  }

  /** Nothing but `project.version` changes. */
  lemma VersionedFrame(doc: Doc, v: string, k: string, q: seq<string>)
    requires Versioned(doc, v).Success?
    requires k != ProjectKey || (q != [] && q[0] != VersionKey)
    ensures Lookup(Versioned(doc, v).value, [k] + q) == Lookup(doc, [k] + q)
  {
    match Find(doc, ProjectKey)
    case None =>
    case Some(Nil) =>
    case Some(Table(t)) =>
      if Find(t, VersionKey) != Some(Str(v)) {
        var t' := Put(t, VersionKey, Str(v));
        if k != ProjectKey {
          LookupPutOther(doc, ProjectKey, Table(t'), [k] + q);
        } else {
          var path := [k] + q;
          assert path[0] == k && path[1..] == q && |path| > 1;
          assert Lookup(Put(doc, ProjectKey, Table(t')), path) == Lookup(t', q);
          assert Lookup(doc, path) == Lookup(t, q);
          LookupPutOther(t, VersionKey, Str(v), q);
        }
      }
  }

  /** A second version step changes nothing. */
  lemma VersionedSettles(doc: Doc, v: string)
    requires Versioned(doc, v).Success?
    ensures Versioned(Versioned(doc, v).value, v) == Versioned(doc, v)
  {
    var r := Versioned(doc, v).value;
    VersionedMeaning(doc, v);
    if IsTableAt(doc, [ProjectKey]) {
      assert Lookup(r, [ProjectKey, VersionKey]) == Some(Str(v));
      assert IsTableAt(r, [ProjectKey]);
    } else {
      assert r == doc;
    }
  }

  /** One manifest's step while the version may still have to come from
      `_version()`, whose outcome is `v`: it is consulted only when `project`
      is present and not None, before `project` is read, so its failure
      stops the step there; a successful outcome is the same for every
      manifest, as the source computes it once and keeps it. */
  function VersionedWith(doc: Doc, v: Result<string>): (r: Result<Doc>)
    ensures v.Success? ==> r == Versioned(doc, v.value)
    ensures r.Failure? <==> Find(doc, ProjectKey).Some? && !Find(doc, ProjectKey).value.Nil?
                            && (v.Failure? || !Find(doc, ProjectKey).value.Table?)
    ensures r.Failure? && v.Failure? ==> r.error == v.error
    ensures r.Success? && v.Failure? ==> r.value == doc
  {
    match Find(doc, ProjectKey)
    case None => Success(doc)
    case Some(Nil) => Success(doc)
    case Some(_) => if v.Failure? then Failure(v.error) else Versioned(doc, v.value)
  }

  /** The step as the loop applies it. */
  function VersionEdit(v: Result<string>): (Path, Doc) -> Result<Doc> {
    (p: Path, d: Doc) => VersionedWith(d, v)
  }

  /** The version `sync_version` uses: the requested one, else the outcome
      of `_version()`. */
  function VersionOf(version: Option<string>, computed: Result<string>): (v: Result<string>)
    ensures version.Some? ==> v == Success(version.value)
    ensures version.None? ==> v == computed
  {
    if version.Some? then Success(version.value) else computed
  }

  /** `sync_version(projs, version)`: one version for every manifest, the
      requested one or else `computed`, the outcome of `_version()`; a failed
      `_version()` stops the loop at the first manifest whose `project` is
      present and not None. */
  method SyncVersion(projs: seq<PyProject>, version: Option<string>, computed: Result<string>, store: TextStore,
                     parse: string -> Result<Doc>) returns (r: Result<Unit>)
    requires Distinct(projs)
    modifies set p | p in projs
    ensures Stepped(Steps(old(DataOf(projs)), store.files, PathsOf(projs), parse, VersionEdit(VersionOf(version, computed))),
                    DataOf(projs), r)
  {
    r := EditEach(projs, VersionEdit(VersionOf(version, computed)), store, parse);
  }

  // ===========================================================================
  // sync_build_system and sync_member_project_tool

  /** `root.data.get("build-system", {})` */
  function BuildSystemOf(root: Doc): (v: Value)
    ensures Find(root, Sync.BuildSystemKey).None? ==> !Truthy(v)
    ensures Find(root, Sync.BuildSystemKey).Some? ==> v == Find(root, Sync.BuildSystemKey).value
  {
    Find(root, Sync.BuildSystemKey).GetOr(Table([]))
  }

  /** `member.data["build-system"] = deepcopy(data)` */
  function BuildSystemEdit(data: Value): (Path, Doc) -> Result<Doc> {
    (p: Path, d: Doc) => Success(Sync.SetBuildSystem(d, data))
  }

  /** The members of the tree, in order. */
  function MembersOf(tree: PyProjectTree): (ms: seq<PyProject>)
    reads tree
    ensures ms == tree.Projects()[1..]
  {
    Items(tree.members)
  }

  lemma MembersDistinct(tree: PyProjectTree)
    requires tree.Valid()
    ensures Distinct(MembersOf(tree))
  {
    var xs := tree.Projects();
    forall a, b | 0 <= a < b < |MembersOf(tree)| ensures MembersOf(tree)[a] != MembersOf(tree)[b] {
      assert xs[a + 1] != xs[b + 1];
    }
  }

  /** `sync_build_system(tree)`: the root's manifest is loaded and read, never
      changed; a truthy `build-system` of it is copied into every member. */
  method SyncBuildSystem(tree: PyProjectTree, store: TextStore, parse: string -> Result<Doc>) returns (r: Result<Unit>)
    requires tree.Valid()
    modifies set p | p in tree.Projects()
    ensures var l := Loaded(old(tree.root.data), store.files, tree.root.path, parse);
      && (l.Failure? ==> r == Failure(l.error) && tree.root.data == old(tree.root.data))
      && (l.Success? ==> tree.root.data == Some(l.value))
      && (l.Failure? || !Truthy(BuildSystemOf(l.value)) ==>
            (l.Success? ==> r == Success(Unit)) && DataOf(MembersOf(tree)) == old(DataOf(MembersOf(tree))))
      && (l.Success? && Truthy(BuildSystemOf(l.value)) ==>
            Stepped(Steps(old(DataOf(MembersOf(tree))), store.files, PathsOf(MembersOf(tree)), parse, BuildSystemEdit(BuildSystemOf(l.value))),
                    DataOf(MembersOf(tree)), r))
  {
    var members := MembersOf(tree);
    ghost var before := DataOf(members);
    MembersDistinct(tree);
    var loaded := tree.root.Data(store, parse);
    assert DataOf(members) == before by {
      forall j | 0 <= j < |members| ensures members[j].data == before[j] {
        assert tree.Projects()[j + 1] != tree.Projects()[0];
      }
    }
    if loaded.Failure? {
      return Failure(loaded.error);
    }
    var data := BuildSystemOf(loaded.value);
    if !Truthy(data) {
      return Success(Unit);
    }
    ghost var rootData := tree.root.data;
    r := EditEach(members, BuildSystemEdit(data), store, parse);
    assert tree.root !in members by {
      forall j | 0 <= j < |members| ensures members[j] != tree.root {
        assert tree.Projects()[j + 1] != tree.Projects()[0];
      }
    }
  }

  const MemberProjectKey := "member-project"
  const NotAMapping := "object is not a mapping"

  /** `root.data.get("tool", {}).get("member-project", {})`: a `tool` that is
      not a table has no `.get` and raises. */
  function MemberProjectData(root: Doc): (r: Result<Value>)
    ensures r.Failure? <==> Find(root, "tool").Some? && !Find(root, "tool").value.Table?
    ensures r.Success? && Lookup(root, Sync.ToolPath).Some? ==> r.value == Lookup(root, Sync.ToolPath).value
    ensures r.Success? && Lookup(root, Sync.ToolPath).None? ==> r.value == Table([])
  {
    match Find(root, "tool")
    case None => Success(Table([]))
    case Some(Table(t)) => Success(Find(t, MemberProjectKey).GetOr(Table([])))
    case Some(_) => Failure(Sync.NoGet)
  }

  /** `merge(member.data, data)`: the root's table deep-merged into the
      member's top-level document; a value that is not a mapping cannot be
      merged and raises. */
  function Merged(doc: Doc, data: Value): (r: Result<Doc>)
    ensures r.Success? <==> data.Table?
  {
    if data.Table? then Success(Merge(doc, data.entries).0) else Failure(NotAMapping)
  }

  /** After the merge the member's document holds every entry of the root's
      table, at the top level, and keeps every key the table does not name. */
  lemma MergedMeaning(doc: Doc, data: Value, k: string)
    requires data.Table? && DistinctDeep(data.entries)
    ensures Absorbs(Merged(doc, data).value, data.entries)
    ensures k !in Keys(data.entries) ==> Find(Merged(doc, data).value, k) == Find(doc, k)
  {
    MergeAbsorbs(doc, data.entries);
    if k !in Keys(data.entries) {
      MergeFrame(doc, data.entries, k);
    }
  }

  /** A second merge of the same table changes nothing. */
  lemma MergedSettles(doc: Doc, data: Value)
    requires data.Table? && DistinctDeep(data.entries)
    ensures Merged(Merged(doc, data).value, data) == Merged(doc, data)
  {
    MergeIdempotent(doc, data.entries);
  }

  function ToolEdit(data: Value): (Path, Doc) -> Result<Doc> {
    (p: Path, d: Doc) => Merged(d, data)
  }

  /** `sync_member_project_tool(tree)`: the root's manifest is loaded and read,
      never changed; a truthy `tool.member-project` of it is merged into every
      member's document. */
  method SyncMemberProjectTool(tree: PyProjectTree, store: TextStore, parse: string -> Result<Doc>) returns (r: Result<Unit>)
    requires tree.Valid()
    modifies set p | p in tree.Projects()
    ensures var l := Loaded(old(tree.root.data), store.files, tree.root.path, parse);
      && (l.Failure? ==> r == Failure(l.error) && tree.root.data == old(tree.root.data))
      && (l.Success? ==> tree.root.data == Some(l.value))
      && (l.Success? && MemberProjectData(l.value).Failure? ==> r == Failure(Sync.NoGet))
      && (l.Failure? || MemberProjectData(l.value).Failure? || !Truthy(MemberProjectData(l.value).value) ==>
            (l.Success? && MemberProjectData(l.value).Success? ==> r == Success(Unit))
            && DataOf(MembersOf(tree)) == old(DataOf(MembersOf(tree))))
      && (l.Success? && MemberProjectData(l.value).Success? && Truthy(MemberProjectData(l.value).value) ==>
            Stepped(Steps(old(DataOf(MembersOf(tree))), store.files, PathsOf(MembersOf(tree)), parse, ToolEdit(MemberProjectData(l.value).value)),
                    DataOf(MembersOf(tree)), r))
  {
    var members := MembersOf(tree);
    ghost var before := DataOf(members);
    MembersDistinct(tree);
    var loaded := tree.root.Data(store, parse);
    assert DataOf(members) == before by {
      forall j | 0 <= j < |members| ensures members[j].data == before[j] {
        assert tree.Projects()[j + 1] != tree.Projects()[0];
      }
    }
    if loaded.Failure? {
      return Failure(loaded.error);
    }
    var data := MemberProjectData(loaded.value);
    if data.Failure? {
      return Failure(data.error);
    }
    if !Truthy(data.value) {
      return Success(Unit);
    }
    r := EditEach(members, ToolEdit(data.value), store, parse);
    assert tree.root !in members by {
      forall j | 0 <= j < |members| ensures members[j] != tree.root {
        assert tree.Projects()[j + 1] != tree.Projects()[0];
      }
    }
  }

  // ===========================================================================
  // sync_member_project_dependencies: resolving and rewriting dependencies

  /** What `_sync_member_project_dependencies` needs of the unfiltered tree
      it builds: the tree's name, the root's manifest path and each member's
      manifest path by name. */
  datatype Layout = Layout(name: string, root: Path, members: seq<Named<Path>>)

  /** The manifest path of each member directory. */
  function ManifestPaths(fs: FileSystem, ms: seq<Named<Path>>): (r: seq<Named<Path>>)
    ensures |r| == |ms|
    ensures forall j :: 0 <= j < |ms| ==> r[j] == Named(ms[j].name, FilePath(fs, ms[j].item))
  {
    if ms == [] then [] else [Named(ms[0].name, FilePath(fs, ms[0].item))] + ManifestPaths(fs, ms[1..])
  }

  /** `pyproject.tree()`, unfiltered, as far as resolution needs it. */
  function LayoutOf(fs: FileSystem, meta: Metadata, origin: Option<string>): (r: Result<Layout>)
    ensures r.Failure? <==> TreeNameAsWritten(fs, meta, origin).Failure?
    ensures r.Success? ==> r.value.name == TreeNameAsWritten(fs, meta, origin).value
  {
    var name :- TreeNameAsWritten(fs, meta, origin);
    Success(Layout(name, FilePath(fs, meta.workspaceRoot),
                   ManifestPaths(fs, TreeMembers(meta.members, meta.workspaceRoot))))
  }

  /** The manifest a dependency name refers to: the root under the tree's
      name, else the member of that name. */
  function ResolveDep(layout: Layout, dep: string): Option<Path> {
    if dep == layout.name then Some(layout.root) else FindNamed(layout.members, dep)
  }

  /** `_member_dependency`: the name, then a `file://` reference from the
      project's directory to the dependency's directory under the
      `${PROJECT_ROOT}` placeholder. */
  function MemberDependency(projPath: Path, dep: string, depPath: Path): string {
    dep + " @ file://" + Sync.RootPlaceholder + "/" + RelPath(Parent(depPath), Parent(projPath))
  }

  /** The reference is read back to the name it was made from. */
  lemma MemberDependencyParses(projPath: Path, dep: string, depPath: Path)
    requires Sync.IsDepName(dep)
    ensures Sync.ParseDepName(MemberDependency(projPath, dep, depPath)) == dep
  {
    var rel := RelPath(Parent(depPath), Parent(projPath));
    var rest := Sync.RootPlaceholder + "/" + rel;
    assert MemberDependency(projPath, dep, depPath) == dep + " @ file://" + rest by {
      ConcatTail(dep, " @ file://", Sync.RootPlaceholder, "/", rel);
    }
    Sync.ParseFileReference(dep, rest);
  }

  /** Between sibling member directories the reference is `../<directory>`:
      the form `reggie_build.sync` writes when the directory bears the
      member's name. */
  lemma MemberDependencySibling(parent: Path, a: string, b: string, dep: string)
    requires a != b
    ensures MemberDependency(parent + [a, FileName], dep, parent + [b, FileName])
            == dep + " @ file://" + Sync.RootPlaceholder + "/../" + b
    ensures MemberDependency(parent + [a, FileName], dep, parent + [dep, FileName]) == Sync.MemberReference(dep)
            || a == dep
  {
    var head := dep + " @ file://" + Sync.RootPlaceholder;
    ParentPair(parent, a, FileName);
    ParentPair(parent, b, FileName);
    RelPathSibling(parent, a, b);
    UpText(head, b);
    if a != dep {
      ParentPair(parent, dep, FileName);
      RelPathSibling(parent, a, dep);
      UpText(head, dep);
    }
  }

  lemma UpText(x: string, b: string)
    ensures x + "/" + ("../" + b) == x + "/../" + b
  {
    assert "/" + "../" == "/../";
    assert x + "/" + ("../" + b) == x + ("/" + "../") + b;
  }

  /** A project depending on its own directory refers to `.`. */
  lemma MemberDependencySelf(projPath: Path, dep: string)
    ensures MemberDependency(projPath, dep, projPath) == dep + " @ file://" + Sync.RootPlaceholder + "/."
  {
    RelPathSelf(Parent(projPath));
  }

  /** One dependency entry of the loop: a string is parsed to a name and, when
      that name resolves, replaced by the member reference and recorded; an
      entry that is not a string cannot be matched and raises. */
  function RewrittenDep(x: Value, layout: Layout, path: Path, parse: string -> string): (r: Result<(Value, seq<string>)>)
    ensures r.Failure? <==> !x.Str?
  {
    if !x.Str? then Failure(Sync.NotAString)
    else
      var dep := parse(x.s);
      match ResolveDep(layout, dep)
      case None => Success((x, []))
      case Some(depPath) => Success((Str(MemberDependency(path, dep, depPath)), [dep]))
  }

  /** The dependency list after the loop, and the member names found, in order. */
  function RewriteDeps(items: seq<Value>, layout: Layout, path: Path, parse: string -> string): Result<(seq<Value>, seq<string>)>
  {
    if items == [] then Success(([], []))
    else
      var pre :- RewriteDeps(items[..|items| - 1], layout, path, parse);
      var last :- RewrittenDep(items[|items| - 1], layout, path, parse);
      Success((pre.0 + [last.0], pre.1 + last.1))
  }

  /** The rewrite fails exactly when some entry is not a string, and then with
      the first such entry's error. */
  lemma {:induction false} RewriteDepsSucceeds(items: seq<Value>, layout: Layout, path: Path, parse: string -> string)
    ensures RewriteDeps(items, layout, path, parse).Success? <==> forall i :: 0 <= i < |items| ==> items[i].Str?
    ensures RewriteDeps(items, layout, path, parse).Failure? ==> RewriteDeps(items, layout, path, parse).error == Sync.NotAString
    decreases |items|
  {
    if items != [] {
      var pre := items[..|items| - 1];
      RewriteDepsSucceeds(pre, layout, path, parse);
      assert forall i :: 0 <= i < |pre| ==> pre[i] == items[i];
    }
  }

  /** The rewrite keeps the length and rewrites each entry on its own. */
  lemma {:induction false} RewriteDepsEntries(items: seq<Value>, layout: Layout, path: Path, parse: string -> string)
    requires RewriteDeps(items, layout, path, parse).Success?
    ensures var out := RewriteDeps(items, layout, path, parse).value.0;
      && |out| == |items|
      && forall i :: 0 <= i < |items| ==>
           RewrittenDep(items[i], layout, path, parse).Success?
           && out[i] == RewrittenDep(items[i], layout, path, parse).value.0
    decreases |items|
  {
    if items != [] {
      var n := |items|;
      var pre := items[..n - 1];
      RewriteDepsLast(items, layout, path, parse);
      RewriteDepsEntries(pre, layout, path, parse);
      var out := RewriteDeps(items, layout, path, parse).value.0;
      var p := RewriteDeps(pre, layout, path, parse).value.0;
      forall i | 0 <= i < n
        ensures RewrittenDep(items[i], layout, path, parse).Success?
        ensures out[i] == RewrittenDep(items[i], layout, path, parse).value.0
      {
        if i < n - 1 {
          assert items[i] == pre[i] && out[i] == p[i];
        }
      }
    }
  }

  /** The names recorded are exactly the names of the entries that resolve. */
  lemma {:induction false} RewriteDepsFound(items: seq<Value>, layout: Layout, path: Path, parse: string -> string, d: string)
    requires RewriteDeps(items, layout, path, parse).Success?
    ensures d in RewriteDeps(items, layout, path, parse).value.1 <==>
      exists i :: 0 <= i < |items| && items[i].Str? && parse(items[i].s) == d
                  && ResolveDep(layout, d).Some?
    decreases |items|
  {
    if items != [] {
      var n := |items|;
      var pre := items[..n - 1];
      var last := items[n - 1];
      RewriteDepsLast(items, layout, path, parse);
      RewriteDepsFound(pre, layout, path, parse, d);
      var names := RewriteDeps(pre, layout, path, parse).value.1;
      var found := RewrittenDep(last, layout, path, parse).value.1;
      assert RewriteDeps(items, layout, path, parse).value.1 == names + found;
      assert d in found <==> last.Str? && parse(last.s) == d && ResolveDep(layout, d).Some?;
      if d in names {
        var i :| 0 <= i < |pre| && pre[i].Str? && parse(pre[i].s) == d && ResolveDep(layout, d).Some?;
        assert items[i] == pre[i];
      } else if d in found {
        assert items[n - 1] == last;
      } else {
        forall i | 0 <= i < n
          ensures !(items[i].Str? && parse(items[i].s) == d && ResolveDep(layout, d).Some?)
        {
          if i < n - 1 {
            assert items[i] == pre[i];
          }
        }
      }
    }
  }

  /** One step of the rewrite: the prefix and the last entry both succeed, and
      the results are concatenated. */
  lemma RewriteDepsLast(items: seq<Value>, layout: Layout, path: Path, parse: string -> string)
    requires items != [] && RewriteDeps(items, layout, path, parse).Success?
    ensures RewriteDeps(items[..|items| - 1], layout, path, parse).Success?
    ensures RewrittenDep(items[|items| - 1], layout, path, parse).Success?
    ensures var pre := RewriteDeps(items[..|items| - 1], layout, path, parse).value;
      var last := RewrittenDep(items[|items| - 1], layout, path, parse).value;
      RewriteDeps(items, layout, path, parse).value == (pre.0 + [last.0], pre.1 + last.1)
  {
  }

  /** Every name the layout resolves is one the pattern captures whole. */
  predicate ParsableNames(layout: Layout) {
    Sync.IsDepName(layout.name) && forall j :: 0 <= j < |layout.members| ==> Sync.IsDepName(layout.members[j].name)
  }

  /** `parse` reads each reference made from `path` back to its name. */
  ghost predicate ReadsBack(layout: Layout, path: Path, parse: string -> string) {
    forall dep {:trigger ResolveDep(layout, dep)} :: ResolveDep(layout, dep).Some? ==>
      parse(MemberDependency(path, dep, ResolveDep(layout, dep).value)) == dep
  }

  /** `_parse_dependency_name` reads the references back when every name the
      layout resolves is one its pattern captures whole. */
  lemma ParsableReadsBack(layout: Layout, path: Path)
    requires ParsableNames(layout)
    ensures ReadsBack(layout, path, Sync.ParseDepName)
  {
    forall dep | ResolveDep(layout, dep).Some?
      ensures Sync.ParseDepName(MemberDependency(path, dep, ResolveDep(layout, dep).value)) == dep
    {
      if dep != layout.name {
        var k :| 0 <= k < |layout.members| && Names(layout.members)[k] == dep;
      }
      MemberDependencyParses(path, dep, ResolveDep(layout, dep).value);
    }
  }

  /** Rewriting a rewritten list changes nothing and records the same names. */
  lemma {:induction false} RewriteDepsIdempotent(items: seq<Value>, layout: Layout, path: Path, parse: string -> string)
    requires ReadsBack(layout, path, parse)
    requires RewriteDeps(items, layout, path, parse).Success?
    ensures RewriteDeps(RewriteDeps(items, layout, path, parse).value.0, layout, path, parse)
            == RewriteDeps(items, layout, path, parse)
    decreases |items|
  {
    if items != [] {
      var n := |items|;
      var pre := items[..n - 1];
      RewriteDepsIdempotent(pre, layout, path, parse);
      var r := RewriteDeps(items, layout, path, parse).value;
      var p := RewriteDeps(pre, layout, path, parse).value;
      var x := items[n - 1];
      var last := RewrittenDep(x, layout, path, parse).value;
      assert r.0 == p.0 + [last.0];
      assert r.0[..|r.0| - 1] == p.0;
      var dep := parse(x.s);
      if ResolveDep(layout, dep).Some? {
        assert parse(MemberDependency(path, dep, ResolveDep(layout, dep).value)) == dep;
      }
      assert RewrittenDep(last.0, layout, path, parse) == Success(last);
    }
  }

  /** One more entry of the loop: its rewrite is appended, and its name when
      it is a member. */
  lemma RewriteDepsNext(deps: seq<Value>, i: nat, layout: Layout, path: Path, parse: string -> string,
                        done: seq<Value>, found: seq<string>)
    requires i < |deps| && deps[i].Str?
    requires RewriteDeps(deps[..i], layout, path, parse) == Success((done, found))
    ensures var step := RewrittenDep(deps[i], layout, path, parse).value;
      RewriteDeps(deps[..i + 1], layout, path, parse) == Success((done + [step.0], found + step.1))
  {
    assert deps[..i + 1][..i] == deps[..i];
  }

  /** The index loop over the dependency list: each entry naming a fellow
      project is replaced in place by its reference and the name recorded. */
  method RewriteList(deps: seq<Value>, layout: Layout, path: Path, parse: string -> string) returns (r: Result<(seq<Value>, seq<string>)>)
    ensures r == RewriteDeps(deps, layout, path, parse)
  {
    var items := deps;
    var found: seq<string> := [];
    var i := 0;
    while i < |items|
      invariant 0 <= i <= |items| == |deps|
      invariant items[i..] == deps[i..]
      invariant RewriteDeps(deps[..i], layout, path, parse) == Success((items[..i], found))
    {
      assert items[i] == deps[i];
      if !items[i].Str? {
        RewriteDepsSucceeds(deps, layout, path, parse);
        return Failure(Sync.NotAString);
      }
      var dep := parse(items[i].s);
      var target := if dep == layout.name then Some(layout.root) else FindNamed(layout.members, dep);
      ghost var step := RewrittenDep(deps[i], layout, path, parse).value;
      RewriteDepsNext(deps, i, layout, path, parse, items[..i], found);
      ghost var done := items[..i];
      ghost var prev := items;
      if target.Some? {
        assert step == (Str(MemberDependency(path, dep, target.value)), [dep]);
        UpdateTake(items, i, Str(MemberDependency(path, dep, target.value)));
        items := items[i := Str(MemberDependency(path, dep, target.value))];
        found := found + [dep];
      } else {
        assert step == (items[i], []);
        assert found + step.1 == found;
        TakeSnoc(items, i);
      }
      assert items[..i + 1] == done + [step.0];
      assert items[i + 1..] == prev[i + 1..];
      i := i + 1;
    }
    assert deps[..|items|] == deps && items[..|items|] == items;
    return Success((items, found));
  }

  const NotIterable := "object is not iterable"

  /** The loop over a string: each character is taken for a dependency, and
      the first that resolves cannot be assigned back. */
  function ScanChars(s: string, layout: Layout, parse: string -> string): (r: Result<Unit>)
    ensures r.Failure? <==> exists i :: 0 <= i < |s| && ResolveDep(layout, parse([s[i]])).Some?
    ensures r.Failure? ==> r.error == Sync.NoItemAssignment
  {
    if s == [] then Success(Unit)
    else if ResolveDep(layout, parse([s[0]])).Some? then Failure(Sync.NoItemAssignment)
    else
      var rest := ScanChars(s[1..], layout, parse);
      assert forall i :: 1 <= i < |s| ==> s[i] == s[1..][i - 1];
      rest
  }

  /** `enumerate(dependencies)` with `dependencies[idx] = ...`, for whatever
      value `dependencies` holds: a list is rewritten; a string's characters
      are scanned; a table's first key is not an index; any other value is not
      iterable. */
  function RewriteValue(v: Value, layout: Layout, path: Path, parse: string -> string): (r: Result<(Value, seq<string>)>)
    requires Truthy(v)
    ensures r.Success? && !v.Array? ==> r.value == (v, [])
  {
    match v
    case Array(items) =>
      var rw :- RewriteDeps(items, layout, path, parse);
      Success((Array(rw.0), rw.1))
    case Str(s) =>
      var _ :- ScanChars(s, layout, parse);
      Success((v, []))
    case Table(_) => Failure(Sync.NoKeyZero)
    case _ => Failure(NotIterable)
  }

  /** The loop over whatever `project.dependencies` holds. */
  method RewriteDependencies(v: Value, layout: Layout, path: Path, parse: string -> string) returns (r: Result<(Value, seq<string>)>)
    requires Truthy(v)
    ensures r == RewriteValue(v, layout, path, parse)
  {
    match v
    case Array(items) =>
      var rw := RewriteList(items, layout, path, parse);
      if rw.Failure? {
        return Failure(rw.error);
      }
      return Success((Array(rw.value.0), rw.value.1));
    case Str(s) =>
      var i := 0;
      while i < |s|
        invariant 0 <= i <= |s|
        invariant ScanChars(s, layout, parse) == ScanChars(s[i..], layout, parse)
      {
        if ResolveDep(layout, parse([s[i]])).Some? {
          return Failure(Sync.NoItemAssignment);
        }
        assert s[i..][1..] == s[i + 1..];
        i := i + 1;
      }
      return Success((v, []));
    case Table(_) =>
      return Failure(Sync.NoKeyZero);
    case _ =>
      return Failure(NotIterable);
  }

  const DependenciesKey := "dependencies"

  /** The dependency part of `_sync_member_project_dependencies`:
      `proj.data.get("project", {}).get("dependencies", [])`, rewritten in
      place when truthy; a `project` that is not a table has no `.get`. */
  function DepsRewritten(doc: Doc, layout: Layout, path: Path, parse: string -> string): (r: Result<(Doc, seq<string>)>)
    ensures r.Success? && r.value.1 == [] ==> r.value.0 == doc
  {
    match Find(doc, ProjectKey)
    case None => Success((doc, []))
    case Some(Table(t)) =>
      var v := Find(t, DependenciesKey).GetOr(Array([]));
      if !Truthy(v) then Success((doc, []))
      else
        var rw :- RewriteValue(v, layout, path, parse);
        if rw.1 == [] then Success((doc, []))
        else Success((Put(doc, ProjectKey, Table(Put(t, DependenciesKey, rw.0))), rw.1))
    case Some(_) => Failure(Sync.NoGet)
  }

  /** A list of dependencies is rewritten entry by entry; nothing outside
      `project.dependencies` changes. */
  lemma DepsRewrittenMeaning(doc: Doc, layout: Layout, path: Path, parse: string -> string, k: string, q: seq<string>)
    requires DepsRewritten(doc, layout, path, parse).Success?
    requires Lookup(doc, Sync.DepsPath).Some? && Lookup(doc, Sync.DepsPath).value.Array?
    requires k != ProjectKey || (q != [] && q[0] != DependenciesKey)
    ensures var items := Lookup(doc, Sync.DepsPath).value.items;
      var d := DepsRewritten(doc, layout, path, parse).value;
      && RewriteDeps(items, layout, path, parse).Success?
      && Lookup(d.0, Sync.DepsPath) == Some(Array(RewriteDeps(items, layout, path, parse).value.0))
      && d.1 == RewriteDeps(items, layout, path, parse).value.1
      && Lookup(d.0, [k] + q) == Lookup(doc, [k] + q)
  {
    var t := Find(doc, ProjectKey).value.entries;
    assert Sync.DepsPath[1..] == [DependenciesKey];
    var v := Find(t, DependenciesKey).value;
    var items := v.items;
    if items == [] {
      assert RewriteDeps(items, layout, path, parse) == Success(([], []));
    } else {
      var rw := RewriteValue(v, layout, path, parse).value;
      if rw.1 != [] {
        var t' := Put(t, DependenciesKey, rw.0);
        if k != ProjectKey {
          LookupPutOther(doc, ProjectKey, Table(t'), [k] + q);
        } else {
          var p := [k] + q;
          assert p[0] == k && p[1..] == q && |p| > 1;
          assert Lookup(Put(doc, ProjectKey, Table(t')), p) == Lookup(t', q);
          LookupPutOther(t, DependenciesKey, rw.0, q);
        }
      } else {
        var found := RewriteDeps(items, layout, path, parse).value.1;
        RewriteDepsEntries(items, layout, path, parse);
        var out := RewriteDeps(items, layout, path, parse).value.0;
        forall i | 0 <= i < |items| ensures out[i] == items[i] {
          if ResolveDep(layout, parse(items[i].s)).Some? {
            RewriteDepsFound(items, layout, path, parse, parse(items[i].s));
            assert false;
          }
        }
        assert out == items;
      }
    }
  }

  // ===========================================================================
  // sync_member_project_dependencies: tool.uv.sources

  const WorkspaceKey := "workspace"

  /** `{"workspace": True}` */
  const WorkspaceTrue: Value := Table([Entry(WorkspaceKey, Bool(true))])

  /** What the clean-up loop keeps of one source: every source is read with
      `.get` first, so one that is not a table raises; a workspace source whose
      name is no longer a member dependency is removed. */
  function Kept(e: Entry, md: seq<string>): (r: Result<seq<Entry>>)
    ensures r.Success? <==> e.val.Table?
    ensures r.Failure? ==> r.error == Sync.NoGet
    ensures r.Success? ==> r.value == (if Sync.WorkspaceSource(e.val) && e.key !in md then [] else [e])
  {
    if !e.val.Table? then Failure(Sync.NoGet)
    else if Sync.WorkspaceSource(e.val) && e.key !in md then Success([])
    else Success([e])
  }

  /** The sources table after the clean-up loop. */
  function Cleared(es: seq<Entry>, md: seq<string>): Result<seq<Entry>>
  {
    if es == [] then Success([])
    else
      var pre :- Cleared(es[..|es| - 1], md);
      var last :- Kept(es[|es| - 1], md);
      Success(pre + last)
  }

  /** The clean-up fails exactly when some source is not a table. */
  lemma {:induction false} ClearedSucceeds(es: seq<Entry>, md: seq<string>)
    ensures Cleared(es, md).Success? <==> forall j :: 0 <= j < |es| ==> es[j].val.Table?
    ensures Cleared(es, md).Failure? ==> Cleared(es, md).error == Sync.NoGet
    decreases |es|
  {
    if es != [] {
      var pre := es[..|es| - 1];
      ClearedSucceeds(pre, md);
      assert forall j :: 0 <= j < |pre| ==> pre[j] == es[j];
    }
  }

  /** Looking a key up after the clean-up of a non-empty table, split at its
      last entry. */
  lemma ClearedFindLast(es: seq<Entry>, md: seq<string>, k: string)
    requires es != [] && Cleared(es, md).Success?
    ensures var p := Cleared(es[..|es| - 1], md).value;
      var e := es[|es| - 1];
      && Cleared(es[..|es| - 1], md).Success? && Kept(e, md).Success?
      && Cleared(es, md).value == p + Kept(e, md).value
      && Find(Cleared(es, md).value, k) ==
         (if Find(p, k).Some? || Kept(e, md).value == [] then Find(p, k)
          else if e.key == k then Some(e.val) else None)
  {
    var p := Cleared(es[..|es| - 1], md).value;
    var e := es[|es| - 1];
    if Kept(e, md).value == [] {
      assert p + [] == p;
    } else {
      FindSnoc(p, e, k);
    }
  }

  /** The clean-up adds no key. */
  lemma {:induction false} ClearedAbsent(es: seq<Entry>, md: seq<string>, k: string)
    requires Cleared(es, md).Success? && Find(es, k).None?
    ensures Find(Cleared(es, md).value, k).None?
    decreases |es|
  {
    if es != [] {
      ClearedFindLast(es, md, k);
      FindLast(es, k);
      ClearedAbsent(es[..|es| - 1], md, k);
    }
  }

  /** The sources of member dependencies, and every source that is not a
      workspace source, are kept as they are. */
  lemma {:induction false} ClearedKeeps(es: seq<Entry>, md: seq<string>, k: string)
    requires Cleared(es, md).Success?
    requires k in md || (Find(es, k).Some? && !Sync.WorkspaceSource(Find(es, k).value))
    ensures Find(Cleared(es, md).value, k) == Find(es, k)
    decreases |es|
  {
    if es != [] {
      ClearedFindLast(es, md, k);
      FindLast(es, k);
      var pre := es[..|es| - 1];
      if Find(pre, k).Some? {
        ClearedKeeps(pre, md, k);
      } else if pre != [] {
        ClearedAbsent(pre, md, k);
      }
    }
  }

  /** No other name is left a workspace source. */
  lemma {:induction false} ClearedDrops(es: seq<Entry>, md: seq<string>, k: string)
    requires Cleared(es, md).Success? && k !in md
    ensures Find(Cleared(es, md).value, k).None? || !Sync.WorkspaceSource(Find(Cleared(es, md).value, k).value)
    decreases |es|
  {
    if es != [] {
      ClearedFindLast(es, md, k);
      ClearedDrops(es[..|es| - 1], md, k);
    }
  }

  /** `source_table.update({dep: {"workspace": True}})` for each member
      dependency in turn: the whole source is replaced. */
  function Marked(es: seq<Entry>, md: seq<string>): seq<Entry>
  {
    if md == [] then es else Put(Marked(es, md[..|md| - 1]), md[|md| - 1], WorkspaceTrue)
  }

  /** Each member dependency's source is exactly `{workspace = true}`. */
  lemma {:induction false} MarkedSets(es: seq<Entry>, md: seq<string>, k: string)
    requires k in md
    ensures Find(Marked(es, md), k) == Some(WorkspaceTrue)
    decreases |md|
  {
    var pre := md[..|md| - 1];
    assert md == pre + [md[|md| - 1]];
    if k != md[|md| - 1] {
      MarkedSets(es, pre, k);
    }
  }

  /** The other sources are untouched. */
  lemma {:induction false} MarkedFrame(es: seq<Entry>, md: seq<string>, k: string)
    requires k !in md
    ensures Find(Marked(es, md), k) == Find(es, k)
    decreases |md|
  {
    if md != [] {
      var pre := md[..|md| - 1];
      assert md == pre + [md[|md| - 1]];
      MarkedFrame(es, pre, k);
    }
  }

  /** Each member dependency's source is exactly `{workspace = true}`; the
      other sources are untouched. */
  lemma MarkedMeaning(es: seq<Entry>, md: seq<string>, k: string)
    ensures k in md ==> Find(Marked(es, md), k) == Some(WorkspaceTrue)
    ensures k !in md ==> Find(Marked(es, md), k) == Find(es, k)
  {
    if k in md {
      MarkedSets(es, md, k);
    } else {
      MarkedFrame(es, md, k);
    }
  }

  /** Whether `table("tool", "uv", "sources", create=True)` keeps its node in
      the document: no value on the way is anything but a table. */
  predicate SourcesAttached(doc: Doc) {
    EnsuredAsWritten(doc, Sync.SourcesPath).1 == |Sync.SourcesPath|
  }

  /** The sources part of `_sync_member_project_dependencies`: the node is
      created when there are member dependencies, else read when present;
      then cleaned, marked and pruned. A node that `table` detached is a new
      empty table outside the document: the marks go into it and are lost,
      and pruning climbs to the last table still in the document. */
  function SourcesSynced(doc: Doc, md: seq<string>): (r: Result<Doc>)
    ensures r.Failure? ==> r.error == Sync.NoGet
  {
    if md == [] && !IsTableAt(doc, Sync.SourcesPath) then Success(doc)
    else if md != [] && !SourcesAttached(doc) then
      var (d, n) := EnsuredAsWritten(doc, Sync.SourcesPath);
      Success(PrunedAt(d, Sync.SourcesPath[..n]).0)
    else
      var d := if md != [] then EnsuredAsWritten(doc, Sync.SourcesPath).0 else doc;
      assert Sync.SourcesPath[..|Sync.SourcesPath|] == Sync.SourcesPath;
      SourcesMarked(d, md)
  }

  /** The clean-up, marks and prune on a sources table in the document. */
  function SourcesMarked(d: Doc, md: seq<string>): (r: Result<Doc>)
    requires IsTableAt(d, Sync.SourcesPath)
    ensures r.Failure? ==> r.error == Sync.NoGet
  {
    ClearedSucceeds(TableAt(d, Sync.SourcesPath), md);
    var kept :- Cleared(TableAt(d, Sync.SourcesPath), md);
    var d' := SetTableAt(d, Sync.SourcesPath, Marked(kept, md));
    SetTableAtStores(d, Sync.SourcesPath, Marked(kept, md));
    Success(PrunedAt(d', Sync.SourcesPath).0)
  }

  /** With member dependencies and a value on the way to the sources that is
      not a table, the step succeeds and the document has no sources at all:
      the marks are lost. */
  lemma SourcesSyncedDetached(doc: Doc, md: seq<string>)
    requires md != [] && !SourcesAttached(doc)
    ensures SourcesSynced(doc, md).Success?
    ensures Lookup(SourcesSynced(doc, md).value, Sync.SourcesPath) == None
  {
    var q := Sync.SourcesPath;
    var (d, n) := EnsuredAsWritten(doc, q);
    if n + 1 < |q| {
      assert q == q[..n + 1] + q[n + 1..];
      LookupAppend(d, q[..n + 1], q[n + 1..]);
    } else {
      assert q[..n + 1] == q;
    }
    PrunedAtAbsent(d, q[..n], q);
  }

  /** With member dependencies, the sources table is there afterwards, each
      member dependency's source is `{workspace = true}`, and any other
      source is not a workspace source, and is kept when it was not one. */
  lemma SourcesSyncedMarks(doc: Doc, md: seq<string>, k: string)
    requires md != [] && SourcesAttached(doc) && SourcesSynced(doc, md).Success?
    ensures var r := SourcesSynced(doc, md).value;
      && IsTableAt(r, Sync.SourcesPath)
      && (k in md ==> Find(TableAt(r, Sync.SourcesPath), k) == Some(WorkspaceTrue))
      && (k !in md ==> var v := Find(TableAt(r, Sync.SourcesPath), k); v.None? || !Sync.WorkspaceSource(v.value))
      && (IsTableAt(doc, Sync.SourcesPath) && Find(TableAt(doc, Sync.SourcesPath), k).Some?
          && !Sync.WorkspaceSource(Find(TableAt(doc, Sync.SourcesPath), k).value) && k !in md ==>
            Find(TableAt(r, Sync.SourcesPath), k) == Find(TableAt(doc, Sync.SourcesPath), k))
  {
    EnsuredAgrees(doc, Sync.SourcesPath);
    var d := Ensured(doc, Sync.SourcesPath);
    var t := TableAt(d, Sync.SourcesPath);
    var kept := Cleared(t, md).value;
    var m := Marked(kept, md);
    var d' := SetTableAt(d, Sync.SourcesPath, m);
    SetTableAtStores(d, Sync.SourcesPath, m);
    MarkedMeaning(kept, md, md[0]);
    assert m != [];
    PrunedAtFlag(d', Sync.SourcesPath);
    MarkedMeaning(kept, md, k);
    if k !in md {
      ClearedDrops(t, md, k);
    }
    if IsTableAt(doc, Sync.SourcesPath) {
      EnsuredPresent(doc, Sync.SourcesPath);
      if Find(t, k).Some? && !Sync.WorkspaceSource(Find(t, k).value) && k !in md {
        ClearedKeeps(t, md, k);
      }
    }
  }

  /** Without member dependencies a manifest with no sources table is left
      alone, and an existing one that keeps any source is cleaned of workspace
      sources. */
  lemma SourcesSyncedClears(doc: Doc, k: string)
    requires SourcesSynced(doc, []).Success?
    ensures !IsTableAt(doc, Sync.SourcesPath) ==> SourcesSynced(doc, []).value == doc
    ensures IsTableAt(doc, Sync.SourcesPath) && Cleared(TableAt(doc, Sync.SourcesPath), []).value != [] ==>
      && IsTableAt(SourcesSynced(doc, []).value, Sync.SourcesPath)
      && var v := Find(TableAt(SourcesSynced(doc, []).value, Sync.SourcesPath), k); v.None? || !Sync.WorkspaceSource(v.value)
  {
    if IsTableAt(doc, Sync.SourcesPath) {
      var t := TableAt(doc, Sync.SourcesPath);
      ClearedSucceeds(t, []);
      var kept := Cleared(t, []).value;
      var d' := SetTableAt(doc, Sync.SourcesPath, kept);
      SetTableAtStores(doc, Sync.SourcesPath, kept);
      assert Marked(kept, []) == kept;
      ClearedDrops(t, [], k);
      PrunedAtFlag(d', Sync.SourcesPath);
    }
  }

  /** `for dep in list(source_table.keys())`: the clean-up loop. */
  method ClearSources(es: seq<Entry>, md: seq<string>) returns (r: Result<seq<Entry>>)
    ensures r == Cleared(es, md)
  {
    var kept: seq<Entry> := [];
    for i := 0 to |es|
      invariant Cleared(es[..i], md) == Success(kept)
    {
      assert es[..i + 1][..i] == es[..i];
      var e := es[i];
      if !e.val.Table? {
        ClearedSucceeds(es, md);
        return Failure(Sync.NoGet);
      }
      if !(Sync.WorkspaceSource(e.val) && e.key !in md) {
        kept := kept + [e];
      } else {
        assert kept + [] == kept;
      }
    }
    assert es[..|es|] == es;
    return Success(kept);
  }

  /** `for member_dependency in member_dependencies: source_table.update(...)` */
  method MarkSources(es: seq<Entry>, md: seq<string>) returns (out: seq<Entry>)
    ensures out == Marked(es, md)
  {
    out := es;
    for i := 0 to |md|
      invariant out == Marked(es, md[..i])
    {
      assert md[..i + 1][..i] == md[..i];
      out := Put(out, md[i], WorkspaceTrue);
    }
    assert md[..|md|] == md;
  }

  /** `_sync_member_project_dependencies` on one document. */
  function DepsSynced(doc: Doc, layout: Layout, path: Path, parse: string -> string): (r: Result<Doc>)
  {
    var rw :- DepsRewritten(doc, layout, path, parse);
    SourcesSynced(rw.0, rw.1)
  }

  /** After the step, each dependency on a fellow project is listed in
      `tool.uv.sources` as `{workspace = true}` where the sources node stays
      in the document, and the sources are gone where it does not; without
      such dependencies the sources are left alone. */
  lemma DepsSyncedMeaning(doc: Doc, layout: Layout, path: Path, parse: string -> string, k: string)
    requires DepsSynced(doc, layout, path, parse).Success?
    ensures var rw := DepsRewritten(doc, layout, path, parse).value;
      var r := DepsSynced(doc, layout, path, parse).value;
      && (k in rw.1 && SourcesAttached(rw.0) ==> Lookup(r, Sync.SourcesPath + [k]) == Some(WorkspaceTrue))
      && (rw.1 != [] && !SourcesAttached(rw.0) ==> Lookup(r, Sync.SourcesPath) == None)
      && (rw.1 == [] && !IsTableAt(doc, Sync.SourcesPath) ==> r == doc)
  {
    var rw := DepsRewritten(doc, layout, path, parse).value;
    var r := DepsSynced(doc, layout, path, parse).value;
    if rw.1 != [] {
      if SourcesAttached(rw.0) {
        SourcesSyncedMarks(rw.0, rw.1, k);
        LookupStep(r, Sync.SourcesPath, k);
      } else {
        SourcesSyncedDetached(rw.0, rw.1);
      }
    } else {
      SourcesSyncedClears(rw.0, k);
    }
  }

  function DepsEdit(layout: Layout, parse: string -> string): (Path, Doc) -> Result<Doc> {
    (p: Path, d: Doc) => DepsSynced(d, layout, p, parse)
  }

  /** `edit` performs the dependency step. The loop over the manifests only
      passes the edit along, so the rewrite behind it is looked at only
      where a `DepsSynced` term is in sight. */
  ghost predicate IsDepsEdit(edit: (Path, Doc) -> Result<Doc>, layout: Layout, parse: string -> string) {
    forall p, d {:trigger DepsSynced(d, layout, p, parse)} :: edit(p, d) == DepsSynced(d, layout, p, parse)
  }

  lemma DepsEditIs(layout: Layout, parse: string -> string)
    ensures IsDepsEdit(DepsEdit(layout, parse), layout, parse)
  {
  }

  /** `_sync_member_project_dependencies(proj)`: the dependency list is
      rewritten in place, then the sources node is fetched (created when some
      dependency is a fellow project), cleaned, marked and pruned. */
  method SyncProjectDependencies(proj: PyProject, layout: Layout, store: TextStore, parse: string -> Result<Doc>,
                                 depName: string -> string, ghost edit: (Path, Doc) -> Result<Doc>)
    returns (r: Result<Unit>)
    requires IsDepsEdit(edit, layout, depName)
    modifies proj
    ensures var w := Step(old(proj.data), old(store.files), proj.path, parse, edit);
      && r == (if w.Success? then Success(Unit) else Failure(w.error))
      && (w.Success? ==> proj.data == Some(w.value))
  {
    var loaded := proj.Data(store, parse);
    if loaded.Failure? {
      return Failure(loaded.error);
    }
    var doc := loaded.value;
    assert edit(proj.path, doc) == DepsSynced(doc, layout, proj.path, depName);
    var d1 := doc;
    var md: seq<string> := [];
    match Find(doc, ProjectKey) {
      case None =>
      case Some(Table(t)) =>
        var v := Find(t, DependenciesKey).GetOr(Array([]));
        if Truthy(v) {
          var rw := RewriteDependencies(v, layout, proj.path, depName);
          if rw.Failure? {
            return Failure(rw.error);
          }
          if rw.value.1 != [] {
            d1 := Put(doc, ProjectKey, Table(Put(t, DependenciesKey, rw.value.0)));
            md := rw.value.1;
          }
        }
      case Some(_) =>
        return Failure(Sync.NoGet);
    }
    assert DepsRewritten(doc, layout, proj.path, depName) == Success((d1, md));
    proj.data := Some(d1);
    r := SyncSources(proj, md, store, parse);
  }

  /** The sources part of `_sync_member_project_dependencies(proj)` on the
      loaded document: `SourcesSynced`. */
  method SyncSources(proj: PyProject, md: seq<string>, store: TextStore, parse: string -> Result<Doc>)
    returns (r: Result<Unit>)
    requires proj.data.Some?
    modifies proj
    ensures var w := SourcesSynced(old(proj.data.value), md);
      && r == (if w.Success? then Success(Unit) else Failure(w.error))
      && (w.Success? ==> proj.data == Some(w.value))
  {
    ghost var doc := proj.data.value;
    var node := proj.Table(Sync.SourcesPath, md != [], store, parse);
    if node.value.None? {
      assert md == [] && !IsTableAt(doc, Sync.SourcesPath);
      return Success(Unit);
    }
    if node.value.value.Detached? {
      assert md != [] && !SourcesAttached(doc);
      r := PruneDetached(proj, node.value.value, md, doc);
      return;
    }
    SourcesSyncedAttached(doc, md);
    r := MarkSourcesIn(proj, md);
  }

  /** A node that `table` detached: the clean-up finds the new table empty,
      the marks go into it, and pruning climbs to the document. */
  method PruneDetached(proj: PyProject, node: TableNode, md: seq<string>, ghost doc: Doc) returns (r: Result<Unit>)
    requires md != [] && !SourcesAttached(doc)
    requires var (d, n) := EnsuredAsWritten(doc, Sync.SourcesPath);
      proj.data == Some(d) && node == Detached(Sync.SourcesPath[..n], Sync.SourcesPath[n..])
    modifies proj
    ensures r == Success(Unit) && proj.data == Some(SourcesSynced(doc, md).value)
  {
    var _ := proj.Prune(node);
    return Success(Unit);
  }

  /** When the sources node is in the document, the step is `SourcesMarked`
      on the document `table` leaves. */
  lemma SourcesSyncedAttached(doc: Doc, md: seq<string>)
    requires md == [] ==> IsTableAt(doc, Sync.SourcesPath)
    requires md != [] ==> SourcesAttached(doc)
    ensures var d := if md != [] then EnsuredAsWritten(doc, Sync.SourcesPath).0 else doc;
      IsTableAt(d, Sync.SourcesPath) && SourcesSynced(doc, md) == SourcesMarked(d, md)
  {
    assert Sync.SourcesPath[..|Sync.SourcesPath|] == Sync.SourcesPath;
  }

  /** The clean-up, marks and prune on the sources node of `proj`. */
  method MarkSourcesIn(proj: PyProject, md: seq<string>) returns (r: Result<Unit>)
    requires proj.data.Some? && IsTableAt(proj.data.value, Sync.SourcesPath)
    modifies proj
    ensures var w := SourcesMarked(old(proj.data.value), md);
      && r == (if w.Success? then Success(Unit) else Failure(w.error))
      && (w.Success? ==> proj.data == Some(w.value))
  {
    var d := proj.data.value;
    var kept := ClearSources(TableAt(d, Sync.SourcesPath), md);
    if kept.Failure? {
      return Failure(kept.error);
    }
    var marked := MarkSources(kept.value, md);
    proj.data := Some(SetTableAt(d, Sync.SourcesPath, marked));
    SetTableAtStores(d, Sync.SourcesPath, marked);
    var _ := proj.Prune(TableNode(Sync.SourcesPath));
    return Success(Unit);
  }

  /** One turn of the dependency loop: the step on the `i`-th manifest. */
  method SyncDependenciesNext(projs: seq<PyProject>, i: nat, ghost before: seq<Option<Doc>>, ghost ws: seq<Result<Doc>>,
                              layout: Layout, store: TextStore, parse: string -> Result<Doc>,
                              depName: string -> string, ghost edit: (Path, Doc) -> Result<Doc>)
    returns (r: Result<Unit>)
    requires IsDepsEdit(edit, layout, depName)
    requires Distinct(projs) && i < |projs| && |before| == |projs| && |ws| == |projs|
    requires ws[i] == Step(projs[i].data, store.files, projs[i].path, parse, edit)
    requires forall j :: 0 <= j < i ==> ws[j].Success? && projs[j].data == Some(ws[j].value)
    requires forall j :: i <= j < |projs| ==> projs[j].data == before[j]
    modifies projs[i]
    ensures r == (if ws[i].Success? then Success(Unit) else Failure(ws[i].error))
    ensures r.Success? ==> forall j :: 0 <= j <= i ==> ws[j].Success? && projs[j].data == Some(ws[j].value)
    ensures r.Success? ==> forall j :: i < j < |projs| ==> projs[j].data == before[j]
  {
    var p := projs[i];
    forall j | 0 <= j < |projs| && j != i ensures projs[j] != p {
      DistinctAt(projs, j, i);
    }
    r := SyncProjectDependencies(p, layout, store, parse, depName, edit);
  }

  /** The step on each of `projs`, in order, stopping at the first error. */
  method SyncDependenciesEach(projs: seq<PyProject>, layout: Layout, store: TextStore,
                              parse: string -> Result<Doc>, depName: string -> string,
                              ghost edit: (Path, Doc) -> Result<Doc>) returns (r: Result<Unit>)
    requires IsDepsEdit(edit, layout, depName)
    requires Distinct(projs)
    modifies set p | p in projs
    ensures Stepped(Steps(old(DataOf(projs)), store.files, PathsOf(projs), parse, edit), DataOf(projs), r)
  {
    ghost var before := DataOf(projs);
    ghost var ws := Steps(before, store.files, PathsOf(projs), parse, edit);
    var i := 0;
    while i < |projs|
      invariant 0 <= i <= |projs|
      invariant Outcome(ws) == Outcome(ws[i..])
      invariant forall j :: 0 <= j < i ==> ws[j].Success? && projs[j].data == Some(ws[j].value)
      invariant forall j :: i <= j < |projs| ==> projs[j].data == before[j]
    {
      var done := SyncDependenciesNext(projs, i, before, ws, layout, store, parse, depName, edit);
      assert Outcome(ws[i..]) == if ws[i].Failure? then Failure(ws[i].error) else Outcome(ws[i + 1..]) by {
        DropOne(ws, i);
      }
      if done.Failure? {
        return done;
      }
      i := i + 1;
    }
    assert Outcome(ws[i..]) == Success(Unit) by {
      assert ws[i..] == [];
    }
    r := Success(Unit);
    assert Stepped(ws, DataOf(projs), r) by {
      AllStepped(ws, DataOf(projs));
    }
  }

  /** `sync_member_project_dependencies`: the step on the root and every
      member. Every call resolves names against the same unfiltered
      workspace, `layout`. */
  method SyncMemberProjectDependencies(tree: PyProjectTree, layout: Layout, store: TextStore,
                                       parse: string -> Result<Doc>, depName: string -> string) returns (r: Result<Unit>)
    requires tree.Valid()
    modifies set p | p in tree.Projects()
    ensures Stepped(Steps(old(DataOf(tree.Projects())), store.files, PathsOf(tree.Projects()), parse, DepsEdit(layout, depName)),
                    DataOf(tree.Projects()), r)
  {
    DepsEditIs(layout, depName);
    r := SyncDependenciesEach(tree.Projects(), layout, store, parse, depName, DepsEdit(layout, depName));
  }

  // ===========================================================================
  // Persisting every manifest

  /** The text `persist` leaves in a manifest's file: the formatted dump of a
      loaded, non-empty document; with `force_format`, the formatted file;
      otherwise the file is not touched. */
  function Written(data: Option<Doc>, text: string, forceFormat: bool, dump: Doc -> string,
                   format: string -> string): Option<string>
  {
    if HasContent(data) then Some(format(dump(data.value)))
    else if forceFormat then Some(format(text))
    else None
  }

  /** Whether `persist` touches the file at all. */
  predicate Touches(data: Option<Doc>, forceFormat: bool) {
    HasContent(data) || forceFormat
  }

  /** The files after persisting the manifests in order; a manifest whose
      file has to be read and is missing raises. */
  function PersistFiles(datas: seq<Option<Doc>>, paths: seq<Path>, files: map<Path, string>, forceFormat: bool,
                        dump: Doc -> string, format: string -> string): Result<map<Path, string>>
    requires |datas| == |paths|
  {
    if paths == [] then Success(files)
    else
      var n := |paths| - 1;
      var fs :- PersistFiles(datas[..n], paths[..n], files, forceFormat, dump, format);
      PersistOne(datas[n], paths[n], fs, forceFormat, dump, format)
  }

  /** The files after persisting one manifest. */
  function PersistOne(data: Option<Doc>, path: Path, files: map<Path, string>, forceFormat: bool,
                      dump: Doc -> string, format: string -> string): Result<map<Path, string>>
  {
    if !Touches(data, forceFormat) then Success(files)
    else if path !in files then Failure(NoSuchFile)
    else Success(files[path := Written(data, files[path], forceFormat, dump, format).value])
  }

  /** Persisting writes only files that exist, so it succeeds exactly when the
      file of every manifest it has to touch is there; it never adds a file. */
  lemma {:induction false} PersistFilesSucceeds(datas: seq<Option<Doc>>, paths: seq<Path>, files: map<Path, string>,
                                               forceFormat: bool, dump: Doc -> string, format: string -> string)
    requires |datas| == |paths|
    ensures var r := PersistFiles(datas, paths, files, forceFormat, dump, format);
      && (r.Success? <==> forall j :: 0 <= j < |paths| && Touches(datas[j], forceFormat) ==> paths[j] in files)
      && (r.Failure? ==> r.error == NoSuchFile)
      && (r.Success? ==> r.value.Keys == files.Keys)
    decreases |paths|
  {
    if paths != [] {
      var n := |paths| - 1;
      PersistFilesSucceeds(datas[..n], paths[..n], files, forceFormat, dump, format);
      assert forall j :: 0 <= j < n ==> datas[..n][j] == datas[j] && paths[..n][j] == paths[j];
    }
  }

  /** With distinct files, each touched file ends up holding what `persist`
      wrote for its manifest, and every other file keeps its text. */
  lemma {:induction false} PersistFilesAt(datas: seq<Option<Doc>>, paths: seq<Path>, files: map<Path, string>,
                                         forceFormat: bool, dump: Doc -> string, format: string -> string, p: Path)
    requires |datas| == |paths| && Distinct(paths)
    requires PersistFiles(datas, paths, files, forceFormat, dump, format).Success? && p in files
    ensures var r := PersistFiles(datas, paths, files, forceFormat, dump, format).value;
      && r.Keys == files.Keys
      && (p !in paths ==> r[p] == files[p])
      && (forall j :: 0 <= j < |paths| && paths[j] == p ==>
            r[p] == Written(datas[j], files[p], forceFormat, dump, format).GetOr(files[p]))
    decreases |paths|
  {
    if paths != [] {
      var n := |paths| - 1;
      var pre := paths[..n];
      assert forall j :: 0 <= j < n ==> pre[j] == paths[j] && datas[..n][j] == datas[j];
      PersistFilesAt(datas[..n], pre, files, forceFormat, dump, format, p);
      PersistFilesSucceeds(datas[..n], pre, files, forceFormat, dump, format);
      PersistFilesSucceeds(datas, paths, files, forceFormat, dump, format);
      if paths[n] == p {
        assert p !in pre;
      }
    }
  }

  /** A failure of the first manifests is the failure of the whole loop. */
  lemma {:induction false} PersistFilesPrefix(datas: seq<Option<Doc>>, paths: seq<Path>, files: map<Path, string>,
                                             forceFormat: bool, dump: Doc -> string, format: string -> string, k: nat)
    requires |datas| == |paths| && k <= |paths|
    requires PersistFiles(datas[..k], paths[..k], files, forceFormat, dump, format).Failure?
    ensures PersistFiles(datas, paths, files, forceFormat, dump, format)
         == PersistFiles(datas[..k], paths[..k], files, forceFormat, dump, format)
    decreases |paths|
  {
    if k < |paths| {
      var n := |paths| - 1;
      assert datas[..n][..k] == datas[..k] && paths[..n][..k] == paths[..k];
      PersistFilesPrefix(datas[..n], paths[..n], files, forceFormat, dump, format, k);
    } else {
      assert datas[..k] == datas && paths[..k] == paths;
    }
  }

  /** One more manifest persisted. */
  lemma PersistFilesNext(datas: seq<Option<Doc>>, paths: seq<Path>, files: map<Path, string>, forceFormat: bool,
                         dump: Doc -> string, format: string -> string, i: nat, before: map<Path, string>)
    requires |datas| == |paths| && i < |paths|
    requires PersistFiles(datas[..i], paths[..i], files, forceFormat, dump, format) == Success(before)
    ensures PersistFiles(datas[..i + 1], paths[..i + 1], files, forceFormat, dump, format)
         == PersistOne(datas[i], paths[i], before, forceFormat, dump, format)
  {
    assert datas[..i + 1][..i] == datas[..i] && paths[..i + 1][..i] == paths[..i];
  }

  /** The loop stops at a manifest whose file is missing. */
  lemma PersistFilesStops(datas: seq<Option<Doc>>, paths: seq<Path>, files: map<Path, string>, forceFormat: bool,
                          dump: Doc -> string, format: string -> string, i: nat, before: map<Path, string>)
    requires |datas| == |paths| && i < |paths|
    requires PersistFiles(datas[..i], paths[..i], files, forceFormat, dump, format) == Success(before)
    requires PersistOne(datas[i], paths[i], before, forceFormat, dump, format) == Failure(NoSuchFile)
    ensures PersistFiles(datas, paths, files, forceFormat, dump, format) == Failure(NoSuchFile)
  {
    PersistFilesNext(datas, paths, files, forceFormat, dump, format, i, before);
    PersistFilesPrefix(datas, paths, files, forceFormat, dump, format, i + 1);
  }

  /** The documents after persisting: a written manifest drops its document. */
  function Dropped(datas: seq<Option<Doc>>): (r: seq<Option<Doc>>)
    ensures |r| == |datas|
    ensures forall j :: 0 <= j < |datas| ==> r[j] == (if HasContent(datas[j]) then None else datas[j])
    ensures forall j :: 0 <= j < |datas| ==> !HasContent(r[j])
  {
    if datas == [] then [] else [if HasContent(datas[0]) then None else datas[0]] + Dropped(datas[1..])
  }

  /** Documents that agree position by position with `Dropped(datas)` are it. */
  lemma DroppedFrom(after: seq<Option<Doc>>, datas: seq<Option<Doc>>)
    requires |after| == |datas|
    requires forall j :: 0 <= j < |datas| ==> after[j] == (if HasContent(datas[j]) then None else datas[j])
    ensures after == Dropped(datas)
  {
  }

  /** `proj.persist(force_format=format_pyproject)`, as `PersistOne` and
      `Dropped` describe it. */
  method PersistManifest(p: PyProject, store: TextStore, fs: FileSystem, forceFormat: bool,
                         dump: Doc -> string, format: string -> string) returns (r: Result<Unit>)
    modifies store, p
    ensures var s := PersistOne(old(p.data), p.path, old(store.files), forceFormat, dump, format);
      && (r.Success? <==> s.Success?)
      && (r.Failure? ==> r == Failure(NoSuchFile) && s == Failure(NoSuchFile))
      && (r.Success? ==> store.files == s.value && p.data == (if HasContent(old(p.data)) then None else old(p.data)))
  {
    var done := p.Persist(store, fs, None, forceFormat, dump, format);
    if done.Failure? {
      return Failure(NoSuchFile);
    }
    return Success(Unit);
  }

  /** One turn of the persisting loop: the `i`-th manifest persisted, all
      earlier ones already done. */
  method PersistNext(projs: seq<PyProject>, i: nat, ghost before: seq<Option<Doc>>, ghost paths: seq<Path>,
                     ghost files: map<Path, string>, store: TextStore, fs: FileSystem, forceFormat: bool,
                     dump: Doc -> string, format: string -> string) returns (r: Result<Unit>)
    requires Distinct(projs) && i < |projs| && |before| == |projs| && |paths| == |projs|
    requires forall j :: 0 <= j < |projs| ==> paths[j] == projs[j].path
    requires PersistFiles(before[..i], paths[..i], files, forceFormat, dump, format) == Success(store.files)
    requires forall j :: 0 <= j < i ==> projs[j].data == (if HasContent(before[j]) then None else before[j])
    requires forall j :: i <= j < |projs| ==> projs[j].data == before[j]
    modifies store, projs[i]
    ensures r.Failure? ==> PersistFiles(before, paths, files, forceFormat, dump, format) == Failure(NoSuchFile)
    ensures r.Success? ==> PersistFiles(before[..i + 1], paths[..i + 1], files, forceFormat, dump, format) == Success(store.files)
    ensures r.Success? ==> forall j :: 0 <= j <= i ==> projs[j].data == (if HasContent(before[j]) then None else before[j])
    ensures r.Success? ==> forall j :: i < j < |projs| ==> projs[j].data == before[j]
  {
    var p := projs[i];
    ghost var fs0 := store.files;
    r := PersistManifest(p, store, fs, forceFormat, dump, format);
    if r.Failure? {
      PersistFilesStops(before, paths, files, forceFormat, dump, format, i, fs0);
      return;
    }
    PersistFilesNext(before, paths, files, forceFormat, dump, format, i, fs0);
    forall j | 0 <= j < i ensures projs[j].data == (if HasContent(before[j]) then None else before[j]) {
      DistinctAt(projs, j, i);
    }
    forall j | i < j < |projs| ensures projs[j].data == before[j] {
      DistinctAt(projs, j, i);
    }
  }

  /** `for proj in ...: proj.persist(force_format=format_pyproject)` */
  method PersistEach(projs: seq<PyProject>, store: TextStore, fs: FileSystem, forceFormat: bool,
                     dump: Doc -> string, format: string -> string) returns (r: Result<Unit>)
    requires Distinct(projs)
    modifies store, set p | p in projs
    ensures var pf := PersistFiles(old(DataOf(projs)), PathsOf(projs), old(store.files), forceFormat, dump, format);
      && (r.Success? <==> pf.Success?)
      && (r.Failure? ==> r.error == pf.error)
      && (r.Success? ==> store.files == pf.value && DataOf(projs) == Dropped(old(DataOf(projs))))
  {
    ghost var before := DataOf(projs);
    ghost var paths := PathsOf(projs);
    ghost var files := store.files;
    var i := 0;
    while i < |projs|
      invariant 0 <= i <= |projs|
      invariant PersistFiles(before[..i], paths[..i], files, forceFormat, dump, format) == Success(store.files)
      invariant forall j :: 0 <= j < i ==> projs[j].data == (if HasContent(before[j]) then None else before[j])
      invariant forall j :: i <= j < |projs| ==> projs[j].data == before[j]
    {
      var done := PersistNext(projs, i, before, paths, files, store, fs, forceFormat, dump, format);
      if done.Failure? {
        return Failure(NoSuchFile);
      }
      i := i + 1;
    }
    FullTake(before);
    FullTake(paths);
    r := Success(Unit);
    assert DataOf(projs) == Dropped(before) by {
      DroppedFrom(DataOf(projs), before);
    }
  }

  // ===========================================================================
  // Which manifests are persisted

  /** `{**members}` unpacked into the dict `acc`, entry by entry. */
  function Unpacked<T>(acc: seq<Named<T>>, ms: seq<Named<T>>): seq<Named<T>>
    decreases |ms|
  {
    if ms == [] then acc else Unpacked(Assign(acc, ms[0].name, ms[0].item), ms[1..])
  }

  /** A name the dict lacks stays fresh-disjoint after appending an entry
      with another name. */
  lemma UnpackedFresh<T>(acc: seq<Named<T>>, ms: seq<Named<T>>)
    requires ms != [] && DistinctNames(ms)
    requires forall j :: 0 <= j < |ms| ==> ms[j].name !in Names(acc)
    ensures DistinctNames(ms[1..])
    ensures forall j :: 0 <= j < |ms[1..]| ==> ms[1..][j].name !in Names(acc + [ms[0]])
  {
    var acc' := acc + [ms[0]];
    assert Names(acc') == Names(acc) + [ms[0].name];
    forall j | 0 <= j < |ms[1..]| ensures ms[1..][j].name !in Names(acc') {
      assert ms[1..][j] == ms[j + 1];
    }
  }

  /** Unpacking names the dict does not hold appends their entries. */
  lemma {:induction false} UnpackedAppends<T>(acc: seq<Named<T>>, ms: seq<Named<T>>)
    requires DistinctNames(ms)
    requires forall j :: 0 <= j < |ms| ==> ms[j].name !in Names(acc)
    ensures Unpacked(acc, ms) == acc + ms
    decreases |ms|
  {
    if ms != [] {
      assert Unpacked(acc, ms) == Unpacked(acc + [ms[0]], ms[1..]) by {
        assert ms[0].name !in Names(acc);
      }
      UnpackedFresh(acc, ms);
      UnpackedAppends(acc + [ms[0]], ms[1..]);
      AppendFirst(acc, ms);
    }
  }

  /** The manifests the persist loop of `sync` visits, as written: the dict
      `{tree.name: root, **members}`, whose values are visited in order. */
  function PersistOrderAsWritten<T>(name: string, root: T, members: seq<Named<T>>): seq<T> {
    Items(Unpacked([Named(name, root)], members))
  }

  /** A member that bears the workspace's name takes the root's entry, so the
      root manifest is never persisted and its edits are lost. */
  lemma PersistOrderAsWrittenDropsRoot()
    ensures PersistOrderAsWritten("ws", 0, [Named("ws", 1), Named("a", 2)]) == [1, 2]
  {
    var acc := [Named("ws", 0)];
    assert Names(acc) == ["ws"];
    var a1 := Assign(acc, "ws", 1);
    assert a1 == [Named("ws", 1)];
    assert Names(a1) == ["ws"];
    var a2 := Assign(a1, "a", 2);
    assert a2 == [Named("ws", 1), Named("a", 2)];
    var ms := [Named("ws", 1), Named("a", 2)];
    assert ms[1..] == [Named("a", 2)];
    assert Unpacked(acc, ms) == Unpacked(a1, [Named("a", 2)]);
    assert Unpacked(a1, [Named("a", 2)]) == Unpacked(a2, []);
  }

  /** The manifests as intended: the root, then every member. */
  function PersistOrder<T>(root: T, members: seq<Named<T>>): (r: seq<T>)
    ensures |r| == |members| + 1 && r[0] == root
    ensures forall j :: 0 <= j < |members| ==> r[j + 1] == members[j].item
  {
    [root] + Items(members)
  }

  /** Without a name clash the dict visits exactly those manifests. */
  lemma PersistOrderAgrees<T>(name: string, root: T, members: seq<Named<T>>)
    requires DistinctNames(members) && name !in Names(members)
    ensures PersistOrderAsWritten(name, root, members) == PersistOrder(root, members)
  {
    var acc := [Named(name, root)];
    assert Names(acc) == [name];
    forall j | 0 <= j < |members| ensures members[j].name !in Names(acc) {
      assert members[j].name in Names(members);
    }
    UnpackedAppends(acc, members);
  }

  // ===========================================================================
  // sync

  /** The command's switches. `formatPython` (ruff) acts on Python sources,
      not on manifests: only the outcome of its runs is part of this model. */
  datatype Options = Options(names: seq<string>, version: bool, buildSystem: bool, memberProjectTool: bool,
                             memberProjectDependencies: bool, formatPython: bool, formatPyproject: bool)

  /** Filtering the members keeps manifests of the tree only. */
  lemma FilteredProjects<T>(root: T, ms: seq<Named<T>>, names: seq<string>, p: T)
    requires p in [root] + Items(OnlyNamed(ms, names))
    ensures p in [root] + Items(ms)
  {
    if p != root {
      var kept := OnlyNamed(ms, names);
      var k :| 0 <= k < |Items(kept)| && Items(kept)[k] == p;
      OnlyNamedMeaning(ms, names);
      assert kept[k] in ms;
      var m :| 0 <= m < |ms| && ms[m] == kept[k];
      assert ([root] + Items(ms))[m + 1] == p;
    }
  }

  /** The documents of steps that all succeeded. */
  function Stored(ws: seq<Result<Doc>>): (ds: seq<Option<Doc>>)
    requires forall j :: 0 <= j < |ws| ==> ws[j].Success?
    ensures |ds| == |ws| && forall j :: 0 <= j < |ws| ==> ds[j] == Some(ws[j].value)
  {
    if ws == [] then [] else [Some(ws[0].value)] + Stored(ws[1..])
  }

  /** The documents after a loop that applies `edit` to each manifest, or
      the loop's first error. */
  function EditedAll(ds: seq<Option<Doc>>, files: map<Path, string>, paths: seq<Path>, parse: string -> Result<Doc>,
                     edit: (Path, Doc) -> Result<Doc>): (r: Result<seq<Option<Doc>>>)
    requires |ds| == |paths|
    ensures r.Success? ==> |r.value| == |ds|
  {
    var ws := Steps(ds, files, paths, parse, edit);
    var o := Outcome(ws);
    if o.Failure? then Failure(o.error) else Success(Stored(ws))
  }

  /** A step ended as `e` says: it failed with `e`'s error, or it succeeded
      and the manifests hold `e`'s documents. */
  predicate Reached(e: Result<seq<Option<Doc>>>, after: seq<Option<Doc>>, r: Result<Unit>) {
    && (r.Success? <==> e.Success?)
    && (r.Failure? ==> r.error == e.error)
    && (r.Success? ==> after == e.value)
  }

  /** A loop over every manifest ends as `EditedAll` says. */
  lemma SteppedReached(ds: seq<Option<Doc>>, files: map<Path, string>, paths: seq<Path>, parse: string -> Result<Doc>,
                       edit: (Path, Doc) -> Result<Doc>, after: seq<Option<Doc>>, r: Result<Unit>)
    requires |ds| == |paths| == |after|
    requires Stepped(Steps(ds, files, paths, parse, edit), after, r)
    ensures Reached(EditedAll(ds, files, paths, parse, edit), after, r)
  {
    var ws := Steps(ds, files, paths, parse, edit);
    if r.Success? {
      assert after == Stored(ws);
    }
  }

  /** `sync_build_system` on the documents, the root's first: the root is
      loaded, and a truthy build system of it is given to every member. */
  function BuildSystemSynced(ds: seq<Option<Doc>>, files: map<Path, string>, paths: seq<Path>,
                             parse: string -> Result<Doc>): (r: Result<seq<Option<Doc>>>)
    requires |ds| == |paths| && ds != []
    ensures r.Success? ==> |r.value| == |ds|
  {
    var root :- Loaded(ds[0], files, paths[0], parse);
    var bs := BuildSystemOf(root);
    if !Truthy(bs) then Success([Some(root)] + ds[1..])
    else
      var ms :- EditedAll(ds[1..], files, paths[1..], parse, BuildSystemEdit(bs));
      Success([Some(root)] + ms)
  }

  /** `sync_member_project_tool` on the documents, the root's first: the
      root is loaded, and a truthy `tool.member-project` of it is merged into
      every member. */
  function ToolSynced(ds: seq<Option<Doc>>, files: map<Path, string>, paths: seq<Path>,
                      parse: string -> Result<Doc>): (r: Result<seq<Option<Doc>>>)
    requires |ds| == |paths| && ds != []
    ensures r.Success? ==> |r.value| == |ds|
  {
    var root :- Loaded(ds[0], files, paths[0], parse);
    var mp :- MemberProjectData(root);
    if !Truthy(mp) then Success([Some(root)] + ds[1..])
    else
      var ms :- EditedAll(ds[1..], files, paths[1..], parse, ToolEdit(mp));
      Success([Some(root)] + ms)
  }

  /** The documents of the tree's manifests, root first, after the
      switched-on steps of `sync` in their order, or the first error. */
  function SyncedDocs(ds: seq<Option<Doc>>, files: map<Path, string>, paths: seq<Path>, opts: Options,
                      layout: Layout, computed: Result<string>, parse: string -> Result<Doc>,
                      depName: string -> string): (r: Result<seq<Option<Doc>>>)
    requires |ds| == |paths| && ds != []
    ensures r.Success? ==> |r.value| == |ds|
  {
    var d1 :- if opts.version then EditedAll(ds, files, paths, parse, VersionEdit(computed)) else Success(ds);
    var d2 :- if opts.buildSystem then BuildSystemSynced(d1, files, paths, parse) else Success(d1);
    var d3 :- if opts.memberProjectTool then ToolSynced(d2, files, paths, parse) else Success(d2);
    if opts.memberProjectDependencies then EditedAll(d3, files, paths, parse, DepsEdit(layout, depName))
    else Success(d3)
  }

  /** The documents of the manifests after the first: those of the members. */
  lemma ProjectsSplit(tree: PyProjectTree)
    ensures DataOf(tree.Projects()) == [tree.root.data] + DataOf(MembersOf(tree))
    ensures PathsOf(tree.Projects()) == [tree.root.path] + PathsOf(MembersOf(tree))
  {
    var ps := tree.Projects();
    assert DataOf(ps) == [ps[0].data] + DataOf(ps[1..]);
    assert PathsOf(ps) == [ps[0].path] + PathsOf(ps[1..]);
  }

  /** What `SyncBuildSystem` promises, read as `BuildSystemSynced`. */
  lemma BuildSystemReached(ds: seq<Option<Doc>>, after: seq<Option<Doc>>, files: map<Path, string>, paths: seq<Path>,
                           parse: string -> Result<Doc>, r: Result<Unit>)
    requires |ds| == |paths| == |after| && ds != []
    requires var l := Loaded(ds[0], files, paths[0], parse);
      && (l.Failure? ==> r == Failure(l.error))
      && (l.Success? ==> after[0] == Some(l.value))
      && (l.Success? && !Truthy(BuildSystemOf(l.value)) ==> r == Success(Unit) && after[1..] == ds[1..])
      && (l.Success? && Truthy(BuildSystemOf(l.value)) ==>
            Stepped(Steps(ds[1..], files, paths[1..], parse, BuildSystemEdit(BuildSystemOf(l.value))), after[1..], r))
    ensures Reached(BuildSystemSynced(ds, files, paths, parse), after, r)
  {
    var l := Loaded(ds[0], files, paths[0], parse);
    if l.Success? {
      assert after == [after[0]] + after[1..];
      var bs := BuildSystemOf(l.value);
      if Truthy(bs) {
        SteppedReached(ds[1..], files, paths[1..], parse, BuildSystemEdit(bs), after[1..], r);
      }
    }
  }

  /** What `SyncMemberProjectTool` promises, read as `ToolSynced`. */
  lemma ToolReached(ds: seq<Option<Doc>>, after: seq<Option<Doc>>, files: map<Path, string>, paths: seq<Path>,
                    parse: string -> Result<Doc>, r: Result<Unit>)
    requires |ds| == |paths| == |after| && ds != []
    requires var l := Loaded(ds[0], files, paths[0], parse);
      && (l.Failure? ==> r == Failure(l.error))
      && (l.Success? ==> after[0] == Some(l.value))
      && (l.Success? && MemberProjectData(l.value).Failure? ==> r == Failure(Sync.NoGet))
      && (l.Success? && MemberProjectData(l.value).Success? && !Truthy(MemberProjectData(l.value).value) ==>
            r == Success(Unit) && after[1..] == ds[1..])
      && (l.Success? && MemberProjectData(l.value).Success? && Truthy(MemberProjectData(l.value).value) ==>
            Stepped(Steps(ds[1..], files, paths[1..], parse, ToolEdit(MemberProjectData(l.value).value)), after[1..], r))
    ensures Reached(ToolSynced(ds, files, paths, parse), after, r)
  {
    var l := Loaded(ds[0], files, paths[0], parse);
    if l.Success? {
      assert after == [after[0]] + after[1..];
      var mp := MemberProjectData(l.value);
      if mp.Success? && Truthy(mp.value) {
        SteppedReached(ds[1..], files, paths[1..], parse, ToolEdit(mp.value), after[1..], r);
      }
    }
  }

  /** `sync_version(tree.projects())` within `sync`. */
  method VersionStep(tree: PyProjectTree, computed: Result<string>, store: TextStore, parse: string -> Result<Doc>)
    returns (r: Result<Unit>)
    requires tree.Valid()
    modifies set p | p in tree.Projects()
    ensures Reached(EditedAll(old(DataOf(tree.Projects())), store.files, PathsOf(tree.Projects()), parse,
                              VersionEdit(computed)), DataOf(tree.Projects()), r)
  {
    ghost var before := DataOf(tree.Projects());
    r := SyncVersion(tree.Projects(), None, computed, store, parse);
    SteppedReached(before, store.files, PathsOf(tree.Projects()), parse, VersionEdit(computed), DataOf(tree.Projects()), r);
  }

  /** `sync_build_system(tree)` within `sync`. */
  method BuildSystemStep(tree: PyProjectTree, store: TextStore, parse: string -> Result<Doc>) returns (r: Result<Unit>)
    requires tree.Valid()
    modifies set p | p in tree.Projects()
    ensures Reached(BuildSystemSynced(old(DataOf(tree.Projects())), store.files, PathsOf(tree.Projects()), parse),
                    DataOf(tree.Projects()), r)
  {
    ghost var before := DataOf(tree.Projects());
    ProjectsSplit(tree);
    r := SyncBuildSystem(tree, store, parse);
    ProjectsSplit(tree);
    BuildSystemReached(before, DataOf(tree.Projects()), store.files, PathsOf(tree.Projects()), parse, r);
  }

  /** `sync_member_project_tool(tree)` within `sync`. */
  method ToolStep(tree: PyProjectTree, store: TextStore, parse: string -> Result<Doc>) returns (r: Result<Unit>)
    requires tree.Valid()
    modifies set p | p in tree.Projects()
    ensures Reached(ToolSynced(old(DataOf(tree.Projects())), store.files, PathsOf(tree.Projects()), parse),
                    DataOf(tree.Projects()), r)
  {
    ghost var before := DataOf(tree.Projects());
    ProjectsSplit(tree);
    r := SyncMemberProjectTool(tree, store, parse);
    ProjectsSplit(tree);
    ToolReached(before, DataOf(tree.Projects()), store.files, PathsOf(tree.Projects()), parse, r);
  }

  /** `sync_member_project_dependencies(tree)` within `sync`. */
  method DepsStep(tree: PyProjectTree, layout: Layout, store: TextStore, parse: string -> Result<Doc>,
                  depName: string -> string) returns (r: Result<Unit>)
    requires tree.Valid()
    modifies set p | p in tree.Projects()
    ensures Reached(EditedAll(old(DataOf(tree.Projects())), store.files, PathsOf(tree.Projects()), parse,
                              DepsEdit(layout, depName)), DataOf(tree.Projects()), r)
  {
    ghost var before := DataOf(tree.Projects());
    r := SyncMemberProjectDependencies(tree, layout, store, parse, depName);
    SteppedReached(before, store.files, PathsOf(tree.Projects()), parse, DepsEdit(layout, depName), DataOf(tree.Projects()), r);
  }

  /** The switched-on steps of `sync`, in order; the first error stops the
      command. They end as `SyncedDocs` says, and only read the files. */
  method RunSteps(tree: PyProjectTree, opts: Options, layout: Layout, computed: Result<string>, store: TextStore,
                  parse: string -> Result<Doc>, depName: string -> string) returns (r: Result<Unit>)
    requires tree.Valid()
    modifies set p | p in tree.Projects()
    ensures Reached(SyncedDocs(old(DataOf(tree.Projects())), store.files, PathsOf(tree.Projects()), opts, layout,
                               computed, parse, depName), DataOf(tree.Projects()), r)
  {
    ghost var ps := tree.Projects();
    ghost var files := store.files;
    ghost var paths := PathsOf(ps);
    ghost var d0 := DataOf(ps);
    ghost var e1 := if opts.version then EditedAll(d0, files, paths, parse, VersionEdit(computed)) else Success(d0);
    if opts.version {
      r := VersionStep(tree, computed, store, parse);
      if r.Failure? {
        return;
      }
    }
    ghost var d1 := DataOf(ps);
    assert e1 == Success(d1);
    ghost var e2 := if opts.buildSystem then BuildSystemSynced(d1, files, paths, parse) else Success(d1);
    if opts.buildSystem {
      r := BuildSystemStep(tree, store, parse);
      if r.Failure? {
        return;
      }
    }
    ghost var d2 := DataOf(ps);
    assert e2 == Success(d2);
    ghost var e3 := if opts.memberProjectTool then ToolSynced(d2, files, paths, parse) else Success(d2);
    if opts.memberProjectTool {
      r := ToolStep(tree, store, parse);
      if r.Failure? {
        return;
      }
    }
    ghost var d3 := DataOf(ps);
    assert e3 == Success(d3);
    if opts.memberProjectDependencies {
      r := DepsStep(tree, layout, store, parse, depName);
      return;
    }
    r := Success(Unit);
  }

  /** The items unpacked into the dict are its first entries' or members'. */
  lemma {:induction false} UnpackedWithin<T>(acc: seq<Named<T>>, ms: seq<Named<T>>, x: T)
    requires x in Items(Unpacked(acc, ms))
    ensures x in Items(acc) || x in Items(ms)
    decreases |ms|
  {
    if ms != [] {
      var acc' := Assign(acc, ms[0].name, ms[0].item);
      UnpackedWithin(acc', ms[1..], x);
      if x in Items(acc') {
        var j :| 0 <= j < |acc'| && Items(acc')[j] == x;
        if j < |acc| && acc'[j] == acc[j] {
          assert Items(acc)[j] == x;
        } else {
          assert Items(ms)[0] == x;
        }
      } else {
        var j :| 0 <= j < |ms[1..]| && Items(ms[1..])[j] == x;
        assert Items(ms)[j + 1] == x;
      }
    }
  }

  /** Unpacking manifests that differ from each other and from the dict's
      keeps the dict's manifests distinct. */
  lemma {:induction false} UnpackedDistinct<T>(acc: seq<Named<T>>, ms: seq<Named<T>>)
    requires DistinctNames(acc) && DistinctItems(acc) && DistinctItems(ms)
    requires forall a, j :: 0 <= a < |acc| && 0 <= j < |ms| ==> acc[a].item != ms[j].item
    ensures DistinctItems(Unpacked(acc, ms))
    decreases |ms|
  {
    if ms != [] {
      var v := ms[0].item;
      var acc' := Assign(acc, ms[0].name, v);
      AssignItems(acc, ms[0].name, v);
      AssignDistinct(acc, ms[0].name, v);
      var rest := ms[1..];
      forall a, j | 0 <= a < |acc'| && 0 <= j < |rest| ensures acc'[a].item != rest[j].item {
        assert rest[j] == ms[j + 1];
        if !(a < |acc| && acc'[a] == acc[a]) {
          assert acc'[a].item == v;
        }
      }
      forall a, b | 0 <= a < b < |rest| ensures rest[a].item != rest[b].item {
        assert rest[a] == ms[a + 1] && rest[b] == ms[b + 1];
      }
      UnpackedDistinct(acc', rest);
    }
  }

  /** The manifests the persist loop visits as written are manifests of the
      tree, each once. */
  lemma PersistOrderDistinct(tree: PyProjectTree)
    requires tree.Valid()
    ensures Distinct(PersistOrderAsWritten(tree.name, tree.root, tree.members))
    ensures forall p :: p in PersistOrderAsWritten(tree.name, tree.root, tree.members) ==> p in tree.Projects()
  {
    var acc := [Named(tree.name, tree.root)];
    var ms := tree.members;
    var all := tree.Projects();
    forall a, b | 0 <= a < b < |ms| ensures ms[a].item != ms[b].item {
      assert all[a + 1] == ms[a].item && all[b + 1] == ms[b].item;
    }
    forall j | 0 <= j < |ms| ensures acc[0].item != ms[j].item {
      assert all[j + 1] == ms[j].item;
    }
    UnpackedDistinct(acc, ms);
    var u := Unpacked(acc, ms);
    assert Distinct(Items(u)) by {
      forall a, b | 0 <= a < b < |u| ensures Items(u)[a] != Items(u)[b] {
        assert u[a].item != u[b].item;
      }
    }
    forall p | p in Items(u) ensures p in all {
      UnpackedWithin(acc, ms, p);
      assert Items(acc) == [tree.root];
    }
  }

  /** The persist loop of `sync`, over the dict `{tree.name: root, **members}`
      as written: when it succeeds, the files are as `PersistFiles` gives them
      for the manifests the dict holds, and none of those holds unsaved
      content. */
  method PersistTree(tree: PyProjectTree, store: TextStore, fs: FileSystem, forceFormat: bool,
                     dump: Doc -> string, format: string -> string) returns (r: Result<Unit>)
    requires tree.Valid()
    modifies store, set p | p in tree.Projects()
    ensures var order := PersistOrderAsWritten(tree.name, tree.root, tree.members);
      var pf := PersistFiles(old(DataOf(order)), PathsOf(order), old(store.files), forceFormat, dump, format);
      && (r.Success? <==> pf.Success?)
      && (r.Failure? ==> r.error == pf.error)
      && (r.Success? ==> store.files == pf.value)
    ensures r.Success? ==> forall p :: p in PersistOrderAsWritten(tree.name, tree.root, tree.members) ==> !HasContent(p.data)
  {
    var projs := PersistOrderAsWritten(tree.name, tree.root, tree.members);
    PersistOrderDistinct(tree);
    r := PersistEach(projs, store, fs, forceFormat, dump, format);
    if r.Success? {
      ghost var after := DataOf(projs);
      forall p | p in projs ensures !HasContent(p.data) {
        var k :| 0 <= k < |projs| && projs[k] == p;
        assert after[k] == p.data;
      }
    }
  }

  /** The documents of the manifests `order` picks out of `all`, when `all`
      hold `ds`. */
  function Picked(order: seq<PyProject>, all: seq<PyProject>, ds: seq<Option<Doc>>): (r: seq<Option<Doc>>)
    requires |ds| == |all| && forall p :: p in order ==> p in all
    ensures |r| == |order|
  {
    if order == [] then [] else [ds[Position(all, order[0])]] + Picked(order[1..], all, ds)
  }

  /** Reading the documents of some manifests is picking them out of all. */
  lemma {:induction false} PickedData(order: seq<PyProject>, all: seq<PyProject>)
    requires forall p :: p in order ==> p in all
    ensures DataOf(order) == Picked(order, all, DataOf(all))
    decreases |order|
  {
    if order != [] {
      assert forall p :: p in order[1..] ==> p in order;
      PickedData(order[1..], all);
    }
  }

  /** How `sync` over the manifests `ps`, holding `before` and with the files
      `files0`, ends with the files `files`: the first error of the steps,
      or else a failed ruff run, stops it with nothing written; otherwise the
      manifests `order` are persisted with the documents the steps left. */
  predicate SyncEnded(ps: seq<PyProject>, order: seq<PyProject>, before: seq<Option<Doc>>,
                      files0: map<Path, string>, files: map<Path, string>, opts: Options, layout: Layout,
                      computed: Result<string>, parse: string -> Result<Doc>, depName: string -> string,
                      dump: Doc -> string, format: string -> string, ruff: Result<Unit>, r: Result<Unit>)
  {
    && |before| == |ps| > 0
    && (forall p :: p in order ==> p in ps)
    && var s := SyncedDocs(before, files0, PathsOf(ps), opts, layout, computed, parse, depName);
       && (s.Failure? ==> r == Failure(s.error) && files == files0)
       && (s.Success? && opts.formatPython && ruff.Failure? ==> r == ruff && files == files0)
       && (s.Success? && !(opts.formatPython && ruff.Failure?) ==>
             var pf := PersistFiles(Picked(order, ps, s.value), PathsOf(order), files0, opts.formatPyproject, dump, format);
             && (r.Success? <==> pf.Success?)
             && (r.Failure? ==> r.error == pf.error)
             && (r.Success? ==> files == pf.value))
  }

  /** The end of `sync`, once the steps have left the manifests holding
      `ds`: a failed ruff run raises, or the dict's manifests are persisted. */
  method FormatAndPersist(tree: PyProjectTree, opts: Options, store: TextStore, fs: FileSystem,
                          dump: Doc -> string, format: string -> string, ruff: Result<Unit>,
                          ghost ds: seq<Option<Doc>>) returns (r: Result<Unit>)
    requires tree.Valid() && ds == DataOf(tree.Projects())
    modifies store, set p | p in tree.Projects()
    ensures opts.formatPython && ruff.Failure? ==> r == ruff && store.files == old(store.files)
    ensures !(opts.formatPython && ruff.Failure?) ==>
      var ps := tree.Projects();
      var order := PersistOrderAsWritten(tree.name, tree.root, tree.members);
      && (forall p :: p in order ==> p in ps)
      && var pf := PersistFiles(Picked(order, ps, ds), PathsOf(order), old(store.files),
                                opts.formatPyproject, dump, format);
         && (r.Success? <==> pf.Success?)
         && (r.Failure? ==> r.error == pf.error)
         && (r.Success? ==> store.files == pf.value)
    ensures r.Success? ==> forall p :: p in PersistOrderAsWritten(tree.name, tree.root, tree.members) ==> !HasContent(p.data)
  {
    if opts.formatPython && ruff.Failure? {
      return ruff;
    }
    PersistOrderDistinct(tree);
    PickedData(PersistOrderAsWritten(tree.name, tree.root, tree.members), tree.Projects());
    r := PersistTree(tree, store, fs, opts.formatPyproject, dump, format);
  }

  /** `sync` on a tree whose members are already narrowed: the switched-on
      steps run, ruff formats the Python sources when asked, and then the
      manifests of the dict `{tree.name: root, **members}` are persisted. A
      computed version stands for `_version()` and `ruff` for the outcome of
      the `ruff` runs, whose failure raises before anything is written. */
  method SyncNarrowed(tree: PyProjectTree, opts: Options, layout: Layout, computed: Result<string>, store: TextStore,
                      fs: FileSystem, parse: string -> Result<Doc>, depName: string -> string,
                      dump: Doc -> string, format: string -> string, ruff: Result<Unit>) returns (r: Result<Unit>)
    requires tree.Valid()
    modifies store, set p | p in tree.Projects()
    ensures var ps := tree.Projects();
      SyncEnded(ps, PersistOrderAsWritten(tree.name, tree.root, tree.members), old(DataOf(ps)), old(store.files),
                store.files, opts, layout, computed, parse, depName, dump, format, ruff, r)
    ensures r.Success? ==> forall p :: p in PersistOrderAsWritten(tree.name, tree.root, tree.members) ==> !HasContent(p.data)
  {
    PersistOrderDistinct(tree);
    r := RunSteps(tree, opts, layout, computed, store, parse, depName);
    if r.Failure? {
      return;
    }
    r := FormatAndPersist(tree, opts, store, fs, dump, format, ruff, DataOf(tree.Projects()));
  }

  /** `tree.filter_members(names, required=False)`, which cannot fail: the
      members are narrowed to the listed names, all manifests of the tree. */
  method Narrow(tree: PyProjectTree, names: seq<string>)
    requires tree.Valid()
    modifies tree
    ensures tree.Valid()
    ensures tree.members == (if names == [] then old(tree.members) else OnlyNamed(old(tree.members), names))
    ensures forall p :: p in tree.Projects() ==> p in old(tree.Projects())
  {
    ghost var all := tree.Projects();
    ghost var ms0 := tree.members;
    var filtered := tree.FilterMembers(names, false);
    assert filtered.Success?;
    forall p | p in tree.Projects() ensures p in all {
      if names != [] {
        FilteredProjects(tree.root, ms0, names, p);
      }
    }
  }

  /** `sync` on a tree: the members are narrowed to the listed names, and
      the rest is `SyncNarrowed`. */
  method SyncTree(tree: PyProjectTree, opts: Options, layout: Layout, computed: Result<string>, store: TextStore,
                  fs: FileSystem, parse: string -> Result<Doc>, depName: string -> string,
                  dump: Doc -> string, format: string -> string, ruff: Result<Unit>) returns (r: Result<Unit>)
    requires tree.Valid()
    modifies tree, store, set p | p in tree.Projects()
    ensures tree.Valid()
    ensures tree.members == (if opts.names == [] then old(tree.members) else OnlyNamed(old(tree.members), opts.names))
    ensures forall p :: p in tree.Projects() ==> p in old(tree.Projects())
    ensures var ps := tree.Projects();
      SyncEnded(ps, PersistOrderAsWritten(tree.name, tree.root, tree.members),
                Picked(ps, old(tree.Projects()), old(DataOf(tree.Projects()))), old(store.files), store.files, opts, layout, computed, parse, depName, dump, format, ruff, r)
    ensures r.Success? ==> forall p :: p in PersistOrderAsWritten(tree.name, tree.root, tree.members) ==> !HasContent(p.data)
  {
    ghost var all := tree.Projects();
    ghost var before := DataOf(all);
    Narrow(tree, opts.names);
    ghost var ps := tree.Projects();
    ghost var order := PersistOrderAsWritten(tree.name, tree.root, tree.members);
    ghost var picked := Picked(ps, all, before);
    PickedData(ps, all);
    assert DataOf(ps) == picked;
    ghost var files0 := store.files;
    r := SyncNarrowed(tree, opts, layout, computed, store, fs, parse, depName, dump, format, ruff);
    assert tree.Projects() == ps && PersistOrderAsWritten(tree.name, tree.root, tree.members) == order;
    assert SyncEnded(ps, order, picked, files0, store.files, opts, layout, computed, parse, depName, dump, format, ruff, r);
  }

  /** The documents of `n` manifests none of which is loaded yet. */
  function Unloaded(n: nat): (r: seq<Option<Doc>>)
    ensures |r| == n && forall i :: 0 <= i < n ==> r[i] == None
  {
    seq(n, _ => None)
  }

  /** Picking manifests out of unloaded ones gives unloaded ones. */
  lemma {:induction false} PickedUnloaded(order: seq<PyProject>, all: seq<PyProject>)
    requires forall p :: p in order ==> p in all
    ensures Picked(order, all, Unloaded(|all|)) == Unloaded(|order|)
    decreases |order|
  {
    if order != [] {
      assert forall p :: p in order[1..] ==> p in order;
      PickedUnloaded(order[1..], all);
    }
  }

  /** `sync` as the command line runs it: the tree of the workspace, with
      every manifest still unloaded, the same workspace unfiltered for
      resolving fellow projects, and the command's own dependency-name
      pattern. `tree` is the tree the command builds and works on. */
  method SyncWorkspace(fs: FileSystem, meta: Metadata, origin: Option<string>, opts: Options, computed: Result<string>,
                       store: TextStore, parse: string -> Result<Doc>, dump: Doc -> string,
                       format: string -> string, ruff: Result<Unit>) returns (r: Result<Unit>, ghost tree: Option<PyProjectTree>)
    modifies store
    ensures var n := TreeNameAsWritten(fs, meta, origin);
      n.Failure? ==> r == Failure(n.error) && tree == None && store.files == old(store.files)
    ensures var n := TreeNameAsWritten(fs, meta, origin);
      n.Success? ==>
        && tree.Some? && fresh(tree.value) && tree.value.Valid()
        && tree.value.name == n.value
        && tree.value.root.path == FilePath(fs, meta.workspaceRoot)
        && var ps := tree.value.Projects();
           SyncEnded(ps, PersistOrderAsWritten(tree.value.name, tree.value.root, tree.value.members), Unloaded(|ps|),
                     old(store.files), store.files, opts, LayoutOf(fs, meta, origin).value, computed, parse,
                     Sync.ParseDepName, dump, format, ruff, r)
  {
    var built := Tree(fs, meta, origin);
    if built.Failure? {
      return Failure(built.error), None;
    }
    var t := built.value;
    tree := Some(t);
    ghost var all := t.Projects();
    assert DataOf(all) == Unloaded(|all|);
    var layout := LayoutOf(fs, meta, origin).value;
    r := SyncTree(t, opts, layout, computed, store, fs, parse, Sync.ParseDepName, dump, format, ruff);
    PickedUnloaded(t.Projects(), all);
  }
}
