/** `reggie_build.pyproject`: a manifest loaded on demand and persisted only
    when its formatted text changes, navigation to nested tables with
    create-on-demand and upward pruning, and the tree of a workspace's
    manifests. A table node is the key path from the document to its table. */
module Pyproject {
  import opened Wrappers
  import opened Toml
  import opened Text
  import opened Utils
  import opened Files
  import opened Workspaces
  import opened Seqs

  const FileName := "pyproject.toml"
  const NoSuchFile := "No such file or directory"

  /** `_file_path`: a directory stands for the manifest inside it. Creating
      the parent directories is not part of this model. */
  function FilePath(fs: FileSystem, p: Path): Path {
    if fs.IsDir(p) then p + [FileName] else p
  }

  // ===========================================================================
  // Tables addressed by key paths

  predicate IsTableAt(doc: Doc, path: seq<string>) {
    Lookup(doc, path).Some? && Lookup(doc, path).value.Table?
  }

  function TableAt(doc: Doc, path: seq<string>): seq<Entry>
    requires IsTableAt(doc, path)
  {
    Lookup(doc, path).value.entries
  }

  /** The document with the table at `path` (the document itself for `[]`)
      replaced by `entries`. */
  function SetTableAt(doc: Doc, path: seq<string>, entries: seq<Entry>): Doc {
    if path == [] then entries else MappingSet(doc, path, Table(entries)).0
  }

  lemma SetTableAtStores(doc: Doc, path: seq<string>, entries: seq<Entry>)
    ensures IsTableAt(SetTableAt(doc, path, entries), path)
    ensures TableAt(SetTableAt(doc, path, entries), path) == entries
  {
    if path != [] {
      MappingSetStores(doc, path, Table(entries));
    }
  }

  /** Below a table, a one-key step is a lookup in that table. */
  lemma LookupStep(doc: Doc, p: seq<string>, k: string)
    requires IsTableAt(doc, p)
    ensures Lookup(doc, p + [k]) == Find(TableAt(doc, p), k)
  {
    LookupAppend(doc, p, [k]);
  }

  /** The parent of a table is a table holding it. */
  lemma ParentTable(doc: Doc, path: seq<string>)
    requires path != [] && Lookup(doc, path).Some?
    ensures IsTableAt(doc, Parent(path))
    ensures Find(TableAt(doc, Parent(path)), path[|path| - 1]) == Lookup(doc, path)
  {
    var p := Parent(path);
    assert path == p + [path[|path| - 1]];
    LookupAppend(doc, p, [path[|path| - 1]]);
  }

  /** `TableNode`: the table reached by `keys`; its parent entry is the node
      of `keys` without the last key, and that key. A `Detached` node is a new
      table outside the document: the table at `anchor` is the last one in the
      document, and `below` are the keys from there, the first of which the
      anchor no longer holds. */
  datatype TableNode = TableNode(keys: seq<string>) | Detached(anchor: seq<string>, below: seq<string>)

  /** `TableNode.remove`: pops the node's key from the parent's table. */
  function RemovedAt(doc: Doc, keys: seq<string>): (Doc, bool)
    requires keys == [] || IsTableAt(doc, Parent(keys))
  {
    if keys == [] then (doc, false)
    else
      var t := TableAt(doc, Parent(keys));
      var k := keys[|keys| - 1];
      if k in Keys(t) then (SetTableAt(doc, Parent(keys), Del(t, k)), true) else (doc, false)
  }

  /** A node is removed exactly when its parent holds its key; afterwards the
      key is gone, the parent is still a table, and the parent's other keys
      are unchanged. A node with no parent is never removed. */
  lemma RemovedAtMeaning(doc: Doc, keys: seq<string>, other: string)
    requires keys == [] || IsTableAt(doc, Parent(keys))
    ensures keys == [] ==> RemovedAt(doc, keys) == (doc, false)
    ensures keys != [] ==> (RemovedAt(doc, keys).1 <==> Lookup(doc, keys).Some?)
    ensures keys != [] ==> Lookup(RemovedAt(doc, keys).0, keys) == None
    ensures keys != [] ==> IsTableAt(RemovedAt(doc, keys).0, Parent(keys))
    ensures keys != [] && other != keys[|keys| - 1] ==>
      Find(TableAt(RemovedAt(doc, keys).0, Parent(keys)), other) == Find(TableAt(doc, Parent(keys)), other)
  {
    if keys != [] {
      var p := Parent(keys);
      var k := keys[|keys| - 1];
      assert keys == p + [k];
      var t := TableAt(doc, p);
      LookupStep(doc, p, k);
      var out := RemovedAt(doc, keys).0;
      FindKeys(t, k);
      if k in Keys(t) {
        SetTableAtStores(doc, p, Del(t, k));
      }
      LookupStep(out, p, k);
    }
  }

  /** `TableNode.prune`: removes the node when its table is empty, then prunes
      the parent in turn. */
  function PrunedAt(doc: Doc, keys: seq<string>): (Doc, bool)
    requires IsTableAt(doc, keys)
    decreases |keys|
  {
    var (d1, m1) :=
      if TableAt(doc, keys) == [] && keys != [] then ParentTable(doc, keys); RemovedAt(doc, keys)
      else (doc, false);
    if keys == [] then (d1, m1)
    else
      ParentTable(doc, keys);
      RemovedAtMeaning(doc, keys, "");
      var (d2, m2) := PrunedAt(d1, Parent(keys));
      (d2, m1 || m2)
  }

  /** Pruning removes something exactly when the node itself is an empty
      table below the document; otherwise it changes nothing, so a non-empty
      table is never removed and neither are its ancestors. */
  lemma {:induction false} PrunedAtFlag(doc: Doc, keys: seq<string>)
    requires IsTableAt(doc, keys)
    ensures PrunedAt(doc, keys).1 <==> keys != [] && TableAt(doc, keys) == []
    ensures !(keys != [] && TableAt(doc, keys) == []) ==> PrunedAt(doc, keys) == (doc, false)
    decreases |keys|
  {
    if keys != [] {
      ParentTable(doc, keys);
      RemovedAtMeaning(doc, keys, "");
      var p := Parent(keys);
      var k := keys[|keys| - 1];
      var d1 := if TableAt(doc, keys) == [] then RemovedAt(doc, keys).0 else doc;
      PrunedAtFlag(d1, p);
      if TableAt(doc, keys) != [] {
        assert Find(TableAt(doc, p), k).Some?;
        assert TableAt(doc, p) != [];
      }
    }
  }

  /** An empty node whose parent holds another key is removed and the
      pruning stops at the parent. */
  lemma PrunedAtStops(doc: Doc, keys: seq<string>, sibling: string)
    requires keys != [] && IsTableAt(doc, keys) && TableAt(doc, keys) == []
    requires IsTableAt(doc, Parent(keys)) && sibling != keys[|keys| - 1]
    requires Find(TableAt(doc, Parent(keys)), sibling).Some?
    ensures PrunedAt(doc, keys) == (RemovedAt(doc, keys).0, true)
    ensures Lookup(PrunedAt(doc, keys).0, keys) == None
  {
    ParentTable(doc, keys);
    RemovedAtMeaning(doc, keys, sibling);
    var d1 := RemovedAt(doc, keys).0;
    assert TableAt(d1, Parent(keys)) != [];
    PrunedAtFlag(d1, Parent(keys));
  }

  /** Pruning only removes: a path below the node that leads nowhere still
      leads nowhere afterwards. */
  lemma {:induction false} PrunedAtAbsent(doc: Doc, keys: seq<string>, q: seq<string>)
    requires IsTableAt(doc, keys) && |keys| < |q| && q[..|keys|] == keys
    requires Lookup(doc, q) == None
    ensures Lookup(PrunedAt(doc, keys).0, q) == None
    decreases |keys|
  {
    if keys != [] {
      ParentTable(doc, keys);
      RemovedAtMeaning(doc, keys, "");
      var p := Parent(keys);
      var d1 := if TableAt(doc, keys) == [] then RemovedAt(doc, keys).0 else doc;
      assert PrunedAt(doc, keys).0 == PrunedAt(d1, p).0;
      if TableAt(doc, keys) == [] {
        assert q == keys + q[|keys|..];
        LookupAppend(d1, keys, q[|keys|..]);
      }
      assert q[..|p|] == p;
      PrunedAtAbsent(d1, p, q);
    }
  }

  // ===========================================================================
  // PyProject.table(create=True)

  /** The document after `table(*keys, create=True)`, as intended: every key
      that does not lead to a table gets a new empty table in its place. */
  function Ensured(doc: Doc, keys: seq<string>): (r: Doc)
    ensures IsTableAt(r, keys)
    decreases |keys|
  {
    if keys == [] then doc
    else
      var p := Parent(keys);
      var k := keys[|keys| - 1];
      assert keys == p + [k];
      var d := Ensured(doc, p);
      var t := TableAt(d, p);
      LookupStep(d, p, k);
      if Find(t, k).Some? && Find(t, k).value.Table? then d
      else
        var d' := SetTableAt(d, p, Put(t, k, Table([])));
        SetTableAtStores(d, p, Put(t, k, Table([])));
        LookupStep(d', p, k);
        d'
  }

  /** One key more: the tables of the prefix, and at most one new table. */
  lemma EnsuredStep(doc: Doc, p: seq<string>, k: string)
    ensures IsTableAt(Ensured(doc, p), p)
    ensures var d := Ensured(doc, p); var t := TableAt(d, p);
      Ensured(doc, p + [k]) ==
        if Find(t, k).Some? && Find(t, k).value.Table? then d
        else SetTableAt(d, p, Put(t, k, Table([])))
  {
    var keys := p + [k];
    ParentSnoc(p, k);
    assert keys[|keys| - 1] == k;
  }

  /** Where the tables already exist, creating them changes nothing. */
  lemma {:induction false} EnsuredPresent(doc: Doc, keys: seq<string>)
    requires IsTableAt(doc, keys)
    ensures Ensured(doc, keys) == doc
    decreases |keys|
  {
    if keys != [] {
      ParentTable(doc, keys);
      EnsuredPresent(doc, Parent(keys));
    }
  }

  /** Creating the tables twice is creating them once. */
  lemma EnsuredIdempotent(doc: Doc, keys: seq<string>)
    ensures Ensured(Ensured(doc, keys), keys) == Ensured(doc, keys)
  {
    EnsuredPresent(Ensured(doc, keys), keys);
  }

  /** A table that was not there is created empty. */
  lemma {:induction false} EnsuredEmpty(doc: Doc, keys: seq<string>)
    requires !IsTableAt(doc, keys)
    ensures TableAt(Ensured(doc, keys), keys) == []
    decreases |keys|
  {
    var p := Parent(keys);
    var k := keys[|keys| - 1];
    assert keys == p + [k];
    var d := Ensured(doc, p);
    LookupStep(d, p, k);
    if IsTableAt(doc, p) {
      EnsuredPresent(doc, p);
      LookupStep(doc, p, k);
    } else {
      EnsuredEmpty(doc, p);
    }
    var t := TableAt(d, p);
    if !(Find(t, k).Some? && Find(t, k).value.Table?) {
      var d' := SetTableAt(d, p, Put(t, k, Table([])));
      SetTableAtStores(d, p, Put(t, k, Table([])));
      LookupStep(d', p, k);
    }
  }

  /** `table(*keys, create=True)` as written: an existing value that is not a
      table is removed and the new table is never inserted, so the node
      returned, and every table created below it, is detached from the
      document. The number is how many keys lead to the last table still in
      the document: all of them when nothing was detached; otherwise the key
      after them has lost its value. */
  function EnsuredAsWritten(doc: Doc, keys: seq<string>): (r: (Doc, nat))
    ensures r.1 <= |keys| && IsTableAt(r.0, keys[..r.1])
    ensures r.1 < |keys| ==> Lookup(r.0, keys[..r.1 + 1]) == None
    decreases |keys|
  {
    if keys == [] then (doc, 0)
    else
      var p := Parent(keys);
      var k := keys[|keys| - 1];
      assert keys == p + [k];
      var (d, n) := EnsuredAsWritten(doc, p);
      if n < |p| then
        assert keys[..n] == p[..n] && keys[..n + 1] == p[..n + 1];
        (d, n)
      else
        assert p[..n] == p;
        var t := TableAt(d, p);
        LookupStep(d, p, k);
        if Find(t, k).Some? && Find(t, k).value.Table? then
          assert keys[..|keys|] == keys;
          (d, |keys|)
        else if k in Keys(t) then
          var d' := SetTableAt(d, p, Del(t, k));
          SetTableAtStores(d, p, Del(t, k));
          LookupStep(d', p, k);
          assert keys[..|p|] == p && keys[..|p| + 1] == keys;
          (d', |p|)
        else
          var d' := SetTableAt(d, p, Put(t, k, Table([])));
          SetTableAtStores(d, p, Put(t, k, Table([])));
          LookupStep(d', p, k);
          assert keys[..|keys|] == keys;
          (d', |keys|)
  }

  /** One key more: below a detached table nothing changes; otherwise the key
      leads on, is removed, or gets a new table. */
  lemma EnsuredAsWrittenStep(doc: Doc, p: seq<string>, k: string)
    ensures var (d, n) := EnsuredAsWritten(doc, p);
      && (n < |p| ==> EnsuredAsWritten(doc, p + [k]) == (d, n))
      && (n == |p| ==>
            && IsTableAt(d, p)
            && var t := TableAt(d, p);
               EnsuredAsWritten(doc, p + [k]) ==
                 if Find(t, k).Some? && Find(t, k).value.Table? then (d, |p| + 1)
                 else if k in Keys(t) then (SetTableAt(d, p, Del(t, k)), |p|)
                 else (SetTableAt(d, p, Put(t, k, Table([]))), |p| + 1))
  {
    var keys := p + [k];
    ParentSnoc(p, k);
    assert keys[|keys| - 1] == k;
    var (d, n) := EnsuredAsWritten(doc, p);
    if n == |p| {
      assert p[..n] == p;
    }
  }

  /** Where the walk stays attached, it does what the corrected one does. */
  lemma {:induction false} EnsuredAgrees(doc: Doc, keys: seq<string>)
    requires EnsuredAsWritten(doc, keys).1 == |keys|
    ensures EnsuredAsWritten(doc, keys).0 == Ensured(doc, keys)
    decreases |keys|
  {
    if keys != [] {
      var p := Parent(keys);
      var k := keys[|keys| - 1];
      assert keys == p + [k];
      EnsuredAgrees(doc, p);
    }
  }

  /** With `tool = "x"`, `table("tool", create=True)` as written deletes the
      value and hands back a table that is not in the document; the intended
      behaviour puts an empty table there. */
  lemma EnsuredAsWrittenDetaches()
    ensures EnsuredAsWritten([Entry("tool", Str("x"))], ["tool"]) == ([], 0)
    ensures Ensured([Entry("tool", Str("x"))], ["tool"]) == [Entry("tool", Table([]))]
  {
    var doc := [Entry("tool", Str("x"))];
    assert Parent(["tool"]) == [];
    assert Keys(doc) == ["tool"];
  }

  // ===========================================================================
  // PyProject

  /** A loaded document that is not empty: a truthy `_data`. */
  predicate HasContent(data: Option<Doc>) {
    data.Some? && data.value != []
  }

  /** The document the `data` property yields: the loaded one, else the
      parsed file; a missing file raises. */
  function Loaded(data: Option<Doc>, files: map<Path, string>, path: Path, parse: string -> Result<Doc>): Result<Doc> {
    if data.Some? then Success(data.value)
    else if path !in files then Failure(NoSuchFile)
    else parse(files[path])
  }

  /** A manifest file and its document, loaded on first use (`_data`). */
  class PyProject {
    const path: Path
    var data: Option<Doc>

    constructor (fs: FileSystem, path: Path)
      ensures this.path == FilePath(fs, path) && data == None
    {
      this.path := FilePath(fs, path);
      data := None;
    }

    /** The `data` property: loads the file the first time. */
    method Data(store: TextStore, parse: string -> Result<Doc>) returns (r: Result<Doc>)
      modifies this
      ensures r == Loaded(old(data), store.files, path, parse)
      ensures data == if r.Success? then Some(r.value) else old(data)
    {
      if data.None? {
        if path !in store.files {
          return Failure(NoSuchFile);
        }
        var parsed := parse(store.files[path]);
        if parsed.Failure? {
          return parsed;
        }
        data := Some(parsed.value);
      }
      return Success(data.value);
    }

    /** `table(*keys, create)`: the node of the table `keys` lead to; without
        `create`, None when a key is missing or does not lead to a table; with
        `create`, the missing tables are made, and a value that is not a table
        is removed without its new table being inserted, so the node handed
        back from there on is detached from the document. */
    method Table(keys: seq<string>, create: bool, store: TextStore, parse: string -> Result<Doc>)
      returns (r: Result<Option<TableNode>>)
      modifies this
      ensures var l := Loaded(old(data), store.files, path, parse);
        && (l.Failure? ==> r == Failure(l.error) && data == old(data))
        && (l.Success? && !create ==>
              data == Some(l.value) && r == Success(if IsTableAt(l.value, keys) then Some(TableNode(keys)) else None))
        && (l.Success? && create ==>
              var (d, n) := EnsuredAsWritten(l.value, keys);
              data == Some(d)
              && r == Success(Some(if n == |keys| then TableNode(keys) else Detached(keys[..n], keys[n..]))))
    {
      var loaded := Data(store, parse);
      if loaded.Failure? {
        return Failure(loaded.error);
      }
      ghost var d0 := loaded.value;
      var cur: seq<string> := [];
      var n := 0;
      for i := 0 to |keys|
        invariant cur == keys[..i] && n <= i
        invariant create ==> data.Some? && EnsuredAsWritten(d0, cur) == (data.value, n)
        invariant !create ==> data == Some(d0) && IsTableAt(d0, cur) && n == i
      {
        var k := keys[i];
        TakeSnoc(keys, i);
        if create {
          EnsuredAsWrittenStep(d0, cur, k);
        }
        if n == i {
          var t := TableAt(data.value, cur);
          var value := FindOrNil(t, k);
          LookupStep(data.value, cur, k);
          if value.Table? {
            n := n + 1;
          } else if !create {
            NotTableBelow(d0, cur + [k], keys);
            return Success(None);
          } else if k in Keys(t) {
            data := Some(SetTableAt(data.value, cur, Del(t, k)));
          } else {
            data := Some(SetTableAt(data.value, cur, Put(t, k, Value.Table([]))));
            n := n + 1;
          }
        }
        cur := cur + [k];
      }
      assert keys[..|keys|] == keys;
      if n == |keys| {
        return Success(Some(TableNode(keys)));
      }
      return Success(Some(Detached(keys[..n], keys[n..])));
    }

    /** `TableNode.remove` on a node of this manifest. A detached node is
        popped from the new table that holds it, if any, and the document is
        not touched. */
    method Remove(node: TableNode) returns (removed: bool)
      requires data.Some?
      requires node.TableNode? ==> node.keys == [] || IsTableAt(data.value, Parent(node.keys))
      modifies this
      ensures node.TableNode? ==> data.Some? && (data.value, removed) == RemovedAt(old(data.value), node.keys)
      ensures node.Detached? ==> data == old(data)
    {
      if node.Detached? {
        return |node.below| > 1;
      }
      if node.keys == [] {
        return false;
      }
      var parent := Parent(node.keys);
      var key := node.keys[|node.keys| - 1];
      var t := TableAt(data.value, parent);
      if key in Keys(t) {
        data := Some(SetTableAt(data.value, parent, Del(t, key)));
        return true;
      }
      return false;
    }

    /** `TableNode.prune` on a node of this manifest. Pruning a detached node
        climbs the new tables to the anchor, which no longer holds the first
        of them, and prunes from the anchor on. */
    method Prune(node: TableNode) returns (mod: bool)
      requires data.Some? && IsTableAt(data.value, if node.TableNode? then node.keys else node.anchor)
      modifies this
      ensures node.TableNode? ==> data.Some? && (data.value, mod) == PrunedAt(old(data.value), node.keys)
      ensures node.Detached? ==> data.Some? && data.value == PrunedAt(old(data.value), node.anchor).0
      decreases if node.TableNode? then |node.keys| else |node.anchor| + 1
    {
      if node.Detached? {
        mod := Prune(TableNode(node.anchor));
        return;
      }
      ghost var d0 := data.value;
      mod := false;
      if TableAt(data.value, node.keys) == [] && node.keys != [] {
        ParentTable(data.value, node.keys);
        var removed := Remove(node);
        mod := removed;
      }
      if node.keys != [] {
        ParentTable(d0, node.keys);
        RemovedAtMeaning(d0, node.keys, "");
        var up := Prune(TableNode(Parent(node.keys)));
        mod := mod || up;
      }
    }

    /** `persist(destination, force_format)`: with a loaded, non-empty
        document, its dump formatted by `format` (taplo) replaces the
        destination file only when the texts differ, and the loaded document
        is dropped; otherwise, with `force_format`, the file is formatted in
        place and the result says whether its text changed. A missing
        destination file raises. */
    method Persist(store: TextStore, fs: FileSystem, dest: Option<Path>, forceFormat: bool,
                   dump: Doc -> string, format: string -> string) returns (r: Result<bool>)
      modifies this, store
      ensures var target := if dest.None? then path else FilePath(fs, dest.value);
        && (target !in old(store.files) && (HasContent(old(data)) || forceFormat) ==>
              r == Failure(NoSuchFile) && store.files == old(store.files) && data == old(data))
        && (target in old(store.files) && HasContent(old(data)) ==>
              var text := format(dump(old(data).value));
              r == Success(text != old(store.files)[target]) && data == None
              && store.files == old(store.files)[target := text])
        && (target in old(store.files) && !HasContent(old(data)) && forceFormat ==>
              var text := format(old(store.files)[target]);
              r == Success(text != old(store.files)[target]) && data == old(data)
              && store.files == old(store.files)[target := text])
        && (!HasContent(old(data)) && !forceFormat ==>
              r == Success(false) && store.files == old(store.files) && data == old(data))
    {
      var target := if dest.None? then path else FilePath(fs, dest.value);
      if data.Some? && data.value != [] {
        var text := format(dump(data.value));
        if target !in store.files {
          return Failure(NoSuchFile);
        }
        var mod := text != store.files[target];
        if mod {
          store.Write(target, text);
        } else {
          assert store.files[target := text] == store.files;
        }
        data := None;
        return Success(mod);
      } else if forceFormat {
        if target !in store.files {
          return Failure(NoSuchFile);
        }
        var before := store.files[target];
        store.Write(target, format(before));
        return Success(format(before) != before);
      }
      return Success(false);
    }
  }

  /** A path that stops at a non-table stops every longer path through it. */
  lemma NotTableBelow(doc: Doc, p: seq<string>, keys: seq<string>)
    requires p != [] && |p| <= |keys| && keys[..|p|] == p
    requires IsTableAt(doc, Parent(p)) && !(Find(TableAt(doc, Parent(p)), p[|p| - 1]).Some?
      && Find(TableAt(doc, Parent(p)), p[|p| - 1]).value.Table?)
    ensures !IsTableAt(doc, keys)
  {
    LookupStep(doc, Parent(p), p[|p| - 1]);
    assert Parent(p) + [p[|p| - 1]] == p;
    if |p| < |keys| {
      assert keys == p + keys[|p|..];
      LookupAppend(doc, p, keys[|p|..]);
    } else {
      assert keys == p;
    }
  }


  // ===========================================================================
  // Ordered name-keyed collections (a Python dict from names)

  /** One entry of a dict keyed by name. */
  datatype Named<T> = Named(name: string, item: T)

  /** A member of the tree: its name and its manifest. */
  type Member = Named<PyProject>

  function Names<T>(es: seq<Named<T>>): (r: seq<string>)
    ensures |r| == |es|
    ensures forall i :: 0 <= i < |es| ==> r[i] == es[i].name
  {
    if es == [] then [] else [es[0].name] + Names(es[1..])
  }

  predicate DistinctNames<T>(es: seq<Named<T>>) {
    forall i, j :: 0 <= i < j < |es| ==> es[i].name != es[j].name
  }

  /** `d.values()`, in order. */
  function Items<T>(es: seq<Named<T>>): (r: seq<T>)
    ensures |r| == |es|
    ensures forall i :: 0 <= i < |es| ==> r[i] == es[i].item
  {
    if es == [] then [] else [es[0].item] + Items(es[1..])
  }

  /** Entries with the same names, position by position, have the same list of names. */
  lemma NamesAgree<A, B>(a: seq<Named<A>>, b: seq<Named<B>>)
    requires |a| == |b| && forall j :: 0 <= j < |a| ==> a[j].name == b[j].name
    ensures Names(a) == Names(b)
  {
  }

  /** Assigning to the same name in two dicts with the same names, position
      by position, changes the same positions. */
  lemma AssignParallel<A, B>(a: seq<Named<A>>, b: seq<Named<B>>, n: string, x: A, y: B)
    requires |a| == |b| && forall j :: 0 <= j < |a| ==> a[j].name == b[j].name
    ensures |Assign(a, n, x)| == |Assign(b, n, y)|
    ensures forall j :: 0 <= j < |Assign(a, n, x)| && j < |Assign(b, n, y)| ==>
      || (j < |a| && Assign(a, n, x)[j] == a[j] && Assign(b, n, y)[j] == b[j])
      || (Assign(a, n, x)[j] == Named(n, x) && Assign(b, n, y)[j] == Named(n, y))
  {
    NamesAgree(a, b);
  }

  /** No element occurs twice. */
  predicate Distinct<T(==)>(xs: seq<T>) {
    forall a, b :: 0 <= a < b < |xs| ==> xs[a] != xs[b]
  }

  lemma DistinctAt<T>(xs: seq<T>, i: nat, j: nat)
    requires Distinct(xs) && i < |xs| && j < |xs| && i != j
    ensures xs[i] != xs[j]
  {
  }

  /** The items of the entries differ pairwise. */
  predicate DistinctItems<T(==)>(es: seq<Named<T>>) {
    forall a, b :: 0 <= a < b < |es| ==> es[a].item != es[b].item
  }

  /** Giving a name an item no entry holds keeps the items distinct. */
  lemma AssignItems<T>(es: seq<Named<T>>, n: string, v: T)
    requires DistinctNames(es) && DistinctItems(es)
    requires forall j :: 0 <= j < |es| ==> es[j].item != v
    ensures DistinctItems(Assign(es, n, v))
  {
    var r := Assign(es, n, v);
    if n !in Names(es) {
      forall a, b | 0 <= a < b < |r| ensures r[a].item != r[b].item {
        assert r[a] == es[a];
      }
    }
  }

  /** `d.get(name)`: the item under the name. */
  function FindNamed<T>(es: seq<Named<T>>, n: string): (r: Option<T>)
    ensures r.None? <==> n !in Names(es)
  {
    if es == [] then None else if es[0].name == n then Some(es[0].item) else FindNamed(es[1..], n)
  }

  /** `d[name] = item`: the entry keeps its place when the name is there,
      and is appended otherwise. */
  function Assign<T>(es: seq<Named<T>>, n: string, v: T): (r: seq<Named<T>>)
    ensures n in Names(es) ==> |r| == |es|
    ensures n in Names(es) ==>
      forall j :: 0 <= j < |es| ==> r[j] == (if es[j].name == n then Named(n, v) else es[j])
    ensures n !in Names(es) ==> r == es + [Named(n, v)]
  {
    if n in Names(es) then
      seq(|es|, j requires 0 <= j < |es| => if es[j].name == n then Named(n, v) else es[j])
    else es + [Named(n, v)]
  }

  /** In a dict with distinct names, the item under a name is the one of the
      entry carrying it. */
  lemma {:induction false} FindNamedAt<T>(es: seq<Named<T>>, n: string, k: nat)
    requires DistinctNames(es) && k < |es| && es[k].name == n
    ensures FindNamed(es, n) == Some(es[k].item)
  {
    if k > 0 {
      assert es[0].name != n;
      assert DistinctNames(es[1..]) by {
        forall i, j | 0 <= i < j < |es| - 1 ensures es[1..][i].name != es[1..][j].name {
          assert es[1..][i] == es[i + 1] && es[1..][j] == es[j + 1];
        }
      }
      assert es[1..][k - 1] == es[k];
      FindNamedAt(es[1..], n, k - 1);
    }
  }

  /** Assigning keeps the names of a dict distinct. */
  lemma AssignDistinct<T>(es: seq<Named<T>>, n: string, v: T)
    requires DistinctNames(es)
    ensures DistinctNames(Assign(es, n, v))
  {
    var r := Assign(es, n, v);
    if n in Names(es) {
      forall i, j | 0 <= i < j < |r| ensures r[i].name != r[j].name {
        assert r[i].name == es[i].name && r[j].name == es[j].name;
      }
    } else {
      forall i, j | 0 <= i < j < |r| ensures r[i].name != r[j].name {
        if j == |es| {
          assert Names(es)[i] == es[i].name;
        } else {
          assert r[i] == es[i] && r[j] == es[j];
        }
      }
    }
  }

  lemma AssignKeeps<T>(es: seq<Named<T>>, n: string, v: T, k: nat)
    requires DistinctNames(es) && k < |es| && es[k].name != n
    ensures FindNamed(Assign(es, n, v), es[k].name) == FindNamed(es, es[k].name)
  {
    AssignDistinct(es, n, v);
    var r := Assign(es, n, v);
    assert r[k] == es[k];
    FindNamedAt(r, es[k].name, k);
    FindNamedAt(es, es[k].name, k);
  }

  /** Assigning leaves every other name's item alone. */
  lemma AssignOther<T>(es: seq<Named<T>>, n: string, v: T, other: string)
    requires DistinctNames(es) && other != n
    ensures FindNamed(Assign(es, n, v), other) == FindNamed(es, other)
  {
    var r := Assign(es, n, v);
    if other in Names(es) {
      var k :| 0 <= k < |es| && Names(es)[k] == other;
      AssignKeeps(es, n, v, k);
    } else {
      forall j | 0 <= j < |r| ensures Names(r)[j] != other {
        if j < |es| {
          assert Names(es)[j] == es[j].name;
        }
      }
    }
  }

  /** Assigning stores the item under its name and leaves every other name's
      item alone. */
  lemma AssignMeaning<T>(es: seq<Named<T>>, n: string, v: T, other: string)
    requires DistinctNames(es)
    ensures DistinctNames(Assign(es, n, v))
    ensures FindNamed(Assign(es, n, v), n) == Some(v)
    ensures other != n ==> FindNamed(Assign(es, n, v), other) == FindNamed(es, other)
  {
    AssignDistinct(es, n, v);
    if n in Names(es) {
      var k :| 0 <= k < |es| && Names(es)[k] == n;
      FindNamedAt(Assign(es, n, v), n, k);
    } else {
      FindNamedAt(Assign(es, n, v), n, |es|);
    }
    if other != n {
      AssignOther(es, n, v, other);
    }
  }

  /** `d.pop(name)`: the dict without the entries under that name. */
  function Without<T>(es: seq<Named<T>>, n: string): seq<Named<T>>
  {
    if es == [] then [] else (if es[0].name == n then [] else [es[0]]) + Without(es[1..], n)
  }

  lemma {:induction false} WithoutAppend<T>(a: seq<Named<T>>, b: seq<Named<T>>, n: string)
    ensures Without(a + b, n) == Without(a, n) + Without(b, n)
  {
    if a == [] {
      assert a + b == b;
    } else {
      assert (a + b)[0] == a[0];
      assert (a + b)[1..] == a[1..] + b;
      WithoutAppend(a[1..], b, n);
    }
  }

  lemma {:induction false} WithoutAbsent<T>(es: seq<Named<T>>, n: string)
    requires n !in Names(es)
    ensures Without(es, n) == es
  {
    if es != [] {
      assert Names(es[1..]) == Names(es)[1..];
      WithoutAbsent(es[1..], n);
    }
  }

  /** Popping a name from a dict with distinct names removes its entry and
      keeps the others in order. */
  lemma WithoutMeaning<T>(a: seq<Named<T>>, b: seq<Named<T>>)
    requires b != [] && b[0].name !in Names(a) && b[0].name !in Names(b[1..])
    ensures Without(a + b, b[0].name) == a + b[1..]
  {
    var n := b[0].name;
    WithoutAppend(a, b, n);
    WithoutAbsent(a, n);
    WithoutAbsent(b[1..], n);
    assert Without(b, n) == b[1..];
  }

  /** The entries whose names are listed, in their order. */
  function OnlyNamed<T>(es: seq<Named<T>>, names: seq<string>): seq<Named<T>>
  {
    if es == [] then []
    else OnlyNamed(es[..|es| - 1], names) + (if es[|es| - 1].name in names then [es[|es| - 1]] else [])
  }

  /** Filtering keeps exactly the listed entries, in order, and filtering
      again changes nothing. */
  lemma {:induction false} OnlyNamedMeaning<T>(es: seq<Named<T>>, names: seq<string>)
    ensures forall x :: x in OnlyNamed(es, names) <==> x in es && x.name in names
    ensures OnlyNamed(OnlyNamed(es, names), names) == OnlyNamed(es, names)
  {
    if es != [] {
      var pre := es[..|es| - 1];
      var last := es[|es| - 1];
      assert es == pre + [last];
      OnlyNamedMeaning(pre, names);
      var r := OnlyNamed(es, names);
      if last.name in names {
        assert r == OnlyNamed(pre, names) + [last];
        assert r[..|r| - 1] == OnlyNamed(pre, names);
      } else {
        assert r == OnlyNamed(pre, names);
      }
    }
  }

  lemma ItemsSnoc<T>(es: seq<Named<T>>, e: Named<T>)
    ensures Items(es + [e]) == Items(es) + [e.item]
  {
    assert forall i :: 0 <= i < |es| ==> (es + [e])[i] == es[i];
  }

  /** A sequence extended at the end stays distinct exactly when the new
      element is not already in it. */
  lemma DistinctSnoc<T>(xs: seq<T>, y: T)
    ensures Distinct(xs + [y]) <==> Distinct(xs) && y !in xs
  {
    var ys := xs + [y];
    assert forall i :: 0 <= i < |xs| ==> ys[i] == xs[i];
    if Distinct(ys) {
      forall i | 0 <= i < |xs| ensures xs[i] != y {
        assert ys[i] != ys[|xs|];
      }
    }
  }

  /** An item no entry holds is not held by an entry the filter keeps. */
  lemma {:induction false} OnlyNamedLacksItem<T>(es: seq<Named<T>>, names: seq<string>, y: T)
    requires y !in Items(es)
    ensures y !in Items(OnlyNamed(es, names))
  {
    if es != [] {
      var pre := es[..|es| - 1];
      var last := es[|es| - 1];
      assert es == pre + [last];
      ItemsSnoc(pre, last);
      OnlyNamedLacksItem(pre, names, y);
      var k := OnlyNamed(pre, names);
      if last.name in names {
        assert OnlyNamed(es, names) == k + [last];
        ItemsSnoc(k, last);
      }
    }
  }

  /** Filtering keeps a first element and the items distinct. */
  lemma {:induction false} OnlyNamedItems<T>(first: T, ms: seq<Named<T>>, names: seq<string>)
    requires Distinct([first] + Items(ms))
    ensures Distinct([first] + Items(OnlyNamed(ms, names)))
  {
    if ms != [] {
      var pre := ms[..|ms| - 1];
      var last := ms[|ms| - 1];
      assert ms == pre + [last];
      ItemsSnoc(pre, last);
      assert [first] + Items(ms) == ([first] + Items(pre)) + [last.item];
      DistinctSnoc([first] + Items(pre), last.item);
      OnlyNamedItems(first, pre, names);
      var k := OnlyNamed(pre, names);
      if last.name in names {
        assert OnlyNamed(ms, names) == k + [last];
        ItemsSnoc(k, last);
        assert [first] + Items(k + [last]) == ([first] + Items(k)) + [last.item];
        OnlyNamedLacksItem(pre, names, last.item);
        DistinctSnoc([first] + Items(k), last.item);
      } else {
        assert OnlyNamed(ms, names) == k;
      }
    }
  }

  /** A name the dict lacks is lacking after filtering. */
  lemma {:induction false} OnlyNamedLacks<T>(es: seq<Named<T>>, names: seq<string>, n: string)
    requires n !in Names(es)
    ensures n !in Names(OnlyNamed(es, names))
  {
    if es != [] {
      var pre := es[..|es| - 1];
      assert Names(pre) == Names(es)[..|es| - 1];
      OnlyNamedLacks(pre, names, n);
      var kp := OnlyNamed(pre, names);
      assert Names(kp + [es[|es| - 1]]) == Names(kp) + [es[|es| - 1].name];
    }
  }

  /** Filtering keeps the names distinct. */
  lemma {:induction false} OnlyNamedDistinct<T>(es: seq<Named<T>>, names: seq<string>)
    requires DistinctNames(es)
    ensures DistinctNames(OnlyNamed(es, names))
  {
    if es != [] {
      var pre := es[..|es| - 1];
      var last := es[|es| - 1];
      assert DistinctNames(pre);
      OnlyNamedDistinct(pre, names);
      assert last.name !in Names(pre) by {
        forall j | 0 <= j < |pre| ensures Names(pre)[j] != last.name {
          assert pre[j] == es[j];
        }
      }
      OnlyNamedLacks(pre, names, last.name);
      var kp := OnlyNamed(pre, names);
      if last.name in names {
        var r := kp + [last];
        forall a, b | 0 <= a < b < |r| ensures r[a].name != r[b].name {
          assert r[a] == kp[a];
          if b < |kp| {
            assert r[b] == kp[b];
          } else {
            assert Names(kp)[a] == kp[a].name;
          }
        }
      }
    }
  }

  /** In a dict with distinct names, an entry's name occurs neither before
      nor after it. */
  lemma NameOnlyAt<T>(ms: seq<Named<T>>, i: nat)
    requires DistinctNames(ms) && i < |ms|
    ensures ms[i].name !in Names(ms[..i])
    ensures ms[i].name !in Names(ms[i..][1..])
  {
    var n := ms[i].name;
    forall j | 0 <= j < i ensures Names(ms[..i])[j] != n {
      assert ms[..i][j] == ms[j];
    }
    forall j | 0 <= j < |ms| - (i + 1) ensures Names(ms[i..][1..])[j] != n {
      assert ms[i..][1..][j] == ms[i + 1 + j];
    }
  }

  /** Popping the `i`-th name of a dict from the partly filtered dict drops
      that entry alone. */
  lemma PopKept<T>(ms: seq<Named<T>>, names: seq<string>, i: nat)
    requires DistinctNames(ms) && i < |ms| && ms[i].name !in names
    ensures Without(OnlyNamed(ms[..i], names) + ms[i..], ms[i].name) == OnlyNamed(ms[..i + 1], names) + ms[i + 1..]
  {
    var a := OnlyNamed(ms[..i], names);
    var b := ms[i..];
    NameOnlyAt(ms, i);
    OnlyNamedLacks(ms[..i], names, ms[i].name);
    assert b[0] == ms[i] && b[1..] == ms[i + 1..];
    WithoutMeaning(a, b);
    assert ms[..i + 1][..i] == ms[..i];
    assert OnlyNamed(ms[..i + 1], names) == a;
  }

  /** A listed entry stays where it is. */
  lemma KeepListed<T>(ms: seq<Named<T>>, names: seq<string>, i: nat)
    requires i < |ms| && ms[i].name in names
    ensures OnlyNamed(ms[..i], names) + ms[i..] == OnlyNamed(ms[..i + 1], names) + ms[i + 1..]
  {
    assert ms[..i + 1][..i] == ms[..i];
    assert OnlyNamed(ms[..i + 1], names) == OnlyNamed(ms[..i], names) + [ms[i]];
    assert ms[i..] == [ms[i]] + ms[i + 1..];
  }

  /** The first listed name that the dict lacks. */
  function FirstMissing(names: seq<string>, present: seq<string>): Option<string>
  {
    if names == [] then None
    else if names[0] !in present then Some(names[0])
    else FirstMissing(names[1..], present)
  }

  /** Nothing is missing exactly when every listed name is present, and what
      is missing is a listed name that is absent. */
  lemma {:induction false} FirstMissingMeaning(names: seq<string>, present: seq<string>)
    ensures FirstMissing(names, present).None? <==> forall x :: x in names ==> x in present
    ensures FirstMissing(names, present).Some? ==>
      FirstMissing(names, present).value in names && FirstMissing(names, present).value !in present
  {
    if names != [] {
      FirstMissingMeaning(names[1..], present);
      assert forall x :: x in names ==> x == names[0] || x in names[1..];
    }
  }

  /** The `required` check of `filter_members`: the names in order, the
      first that is not present is reported. */
  method MissingName(names: seq<string>, present: seq<string>) returns (missing: Option<string>)
    ensures missing == FirstMissing(names, present)
  {
    for i := 0 to |names|
      invariant FirstMissing(names, present) == FirstMissing(names[i..], present)
    {
      assert names[i..][1..] == names[i + 1..];
      if names[i] !in present {
        return Some(names[i]);
      }
    }
    assert names[|names|..] == [];
    return None;
  }

  /** The removal loop of `filter_members`: over a snapshot of the names,
      every member whose name is not listed is popped. */
  method KeepNamed<T>(ms: seq<Named<T>>, names: seq<string>) returns (kept: seq<Named<T>>)
    requires DistinctNames(ms)
    ensures kept == OnlyNamed(ms, names)
  {
    var keys := Names(ms);
    kept := ms;
    assert ms[..0] == [] && ms[0..] == ms;
    for i := 0 to |keys|
      invariant kept == OnlyNamed(ms[..i], names) + ms[i..]
    {
      assert keys[i] == ms[i].name;
      if keys[i] !in names {
        PopKept(ms, names, i);
        kept := Without(kept, keys[i]);
      } else {
        KeepListed(ms, names, i);
      }
    }
    assert ms[..|keys|] == ms;
  }

  // ===========================================================================
  // PyProjectTree

  const NotFoundPrefix := "Member "
  const NotFoundSuffix := " not found"

  /** The workspace's manifests: the root and the members by name. */
  class PyProjectTree {
    const name: string
    const root: PyProject
    var members: seq<Member>

    /** A dict holds each name once; the root and the members are distinct
        manifests. */
    predicate Valid()
      reads this
    {
      DistinctNames(members) && Distinct([root] + Items(members))
    }

    constructor (name: string, root: PyProject, members: seq<Member>)
      requires DistinctNames(members) && Distinct([root] + Items(members))
      ensures this.name == name && this.root == root && this.members == members && Valid()
    {
      this.name := name;
      this.root := root;
      this.members := members;
    }

    /** `projects()`: the root first, then the members in their order. */
    function Projects(): (r: seq<PyProject>)
      reads this
      ensures |r| == |members| + 1 && r[0] == root
      ensures forall i :: 0 <= i < |members| ==> r[i + 1] == members[i].item
    {
      [root] + Items(members)
    }

    /** `filter_members(names, required)`: no names keep everything; with
        `required`, the first listed name that is not a member raises before
        anything is removed; otherwise exactly the listed members remain. */
    method FilterMembers(names: seq<string>, required: bool) returns (r: Result<Unit>)
      requires Valid()
      modifies this
      ensures Valid()
      ensures r.Failure? <==> names != [] && required && FirstMissing(names, Names(old(members))).Some?
      ensures r.Failure? ==> members == old(members)
      ensures r.Failure? ==>
        r.error == NotFoundPrefix + FirstMissing(names, Names(old(members))).value + NotFoundSuffix
      ensures r.Success? ==> members == (if names == [] then old(members) else OnlyNamed(old(members), names))
    {
      if names == [] {
        return Success(Unit);
      }
      if required {
        var missing := MissingName(names, Names(members));
        if missing.Some? {
          return Failure(NotFoundPrefix + missing.value + NotFoundSuffix);
        }
      }
      var kept := KeepNamed(members, names);
      OnlyNamedDistinct(members, names);
      OnlyNamedItems(root, members, names);
      members := kept;
      return Success(Unit);
    }
  }

  // ===========================================================================
  // tree()

  /** `_git_repo_name`, given what `git remote get-url origin` printed (None
      when it exited non-zero): the output is stripped, and an origin that
      `urlparse` rejects raises, since nothing here catches it. */
  function PyGitRepoName(origin: Option<string>): (r: Result<Option<string>>)
    ensures r.Success? && r.value.Some? ==> r.value.value != "" && '/' !in r.value.value
  {
    match origin
    case None => Success(None)
    case Some(o) =>
      var url := Strip(o);
      if url == "" then Success(None)
      else
        match UrlParse(NormaliseOrigin(url))
        case Failure(e) => Failure(e)
        case Success(parsed) => Success(RepoNameFromPath(parsed.path))
  }

  /** The raising variant agrees with the workspace lookup wherever `urlparse`
      accepts the stripped origin. */
  lemma PyGitRepoNameAgrees(origin: Option<string>)
    requires origin.Some? ==> UrlParse(NormaliseOrigin(Strip(origin.value))).Success?
    ensures PyGitRepoName(origin) == Success(GitRepoName(if origin.None? then None else Some(Strip(origin.value))))
  {
  }

  /** The printed SSH origin `git@host:owner/repo.git` and its newline name
      the repository `repo`. */
  lemma PyGitRepoNameSsh(host: string, owner: string, repo: string)
    requires PlainSegment(host) && PlainSegment(owner) && PlainSegment(repo) && repo != ""
    ensures PyGitRepoName(Some("git@" + host + ":" + owner + "/" + repo + ".git" + "\n")) == Success(Some(repo))
  {
    var o := "git@" + host + ":" + owner + "/" + repo + ".git";
    assert o[0] == 'g' && o[|o| - 1] == 't';
    StripTerminated(o);
    GitRepoNameSsh(host, owner, repo);
  }

  /** `root_proj_name`: the name of the last metadata member at the root. */
  function LastAtRoot(ms: seq<MemberData>, rootPath: Path): Option<string>
  {
    if ms == [] then None
    else if ms[|ms| - 1].path == rootPath then Some(ms[|ms| - 1].name)
    else LastAtRoot(ms[..|ms| - 1], rootPath)
  }

  /** `member_projs`: the dict of the members away from the root, by name. */
  function TreeMembers(ms: seq<MemberData>, rootPath: Path): seq<Named<Path>>
  {
    if ms == [] then []
    else
      var pre := TreeMembers(ms[..|ms| - 1], rootPath);
      var m := ms[|ms| - 1];
      if m.path == rootPath then pre else Assign(pre, m.name, m.path)
  }

  /** Reference for the dict: the path of the last member away from the
      root with that name. */
  function LastPathNamed(ms: seq<MemberData>, rootPath: Path, n: string): Option<Path>
  {
    if ms == [] then None
    else if ms[|ms| - 1].path != rootPath && ms[|ms| - 1].name == n then Some(ms[|ms| - 1].path)
    else LastPathNamed(ms[..|ms| - 1], rootPath, n)
  }

  /** The members' dict holds each name once, maps a name to the path of the
      last member so named, and never holds the root. */
  lemma {:induction false} TreeMembersMeaning(ms: seq<MemberData>, rootPath: Path, n: string)
    ensures DistinctNames(TreeMembers(ms, rootPath))
    ensures FindNamed(TreeMembers(ms, rootPath), n) == LastPathNamed(ms, rootPath, n)
    ensures forall j :: 0 <= j < |TreeMembers(ms, rootPath)| ==> TreeMembers(ms, rootPath)[j].item != rootPath
  {
    if ms != [] {
      var pre := ms[..|ms| - 1];
      var m := ms[|ms| - 1];
      TreeMembersMeaning(pre, rootPath, n);
      if m.path != rootPath {
        AssignMeaning(TreeMembers(pre, rootPath), m.name, m.path, n);
      }
    }
  }

  /** The tree's name: the root member's, else the git repository's, else
      the base name of the workspace root. */
  function TreeName(meta: Metadata, origin: Option<string>): Result<string>
  {
    var rootName := LastAtRoot(meta.members, meta.workspaceRoot);
    if rootName.Some? && rootName.value != "" then Success(rootName.value)
    else
      match PyGitRepoName(origin)
      case Failure(e) => Failure(e)
      case Success(Some(repo)) => Success(repo)
      case Success(None) => Success(Name(meta.workspaceRoot))
  }

  /** The name as written: the last resort is the base name of the root
      manifest's path, which names the file rather than the workspace. */
  function TreeNameAsWritten(fs: FileSystem, meta: Metadata, origin: Option<string>): Result<string>
  {
    var rootName := LastAtRoot(meta.members, meta.workspaceRoot);
    if rootName.Some? && rootName.value != "" then Success(rootName.value)
    else
      match PyGitRepoName(origin)
      case Failure(e) => Failure(e)
      case Success(Some(repo)) => Success(repo)
      case Success(None) => Success(Name(FilePath(fs, meta.workspaceRoot)))
  }

  /** A workspace directory `ws` with no root member and no git origin is
      named `pyproject.toml` as written, `ws` as intended. */
  lemma TreeNameAsWrittenCounterexample()
    ensures TreeNameAsWritten(FileSystem({["ws"]}, {}), Metadata(["ws"], []), None) == Success(FileName)
    ensures TreeName(Metadata(["ws"], []), None) == Success("ws")
  {
    assert FileSystem({["ws"]}, {}).IsDir(["ws"]);
    assert FilePath(FileSystem({["ws"]}, {}), ["ws"]) == ["ws", FileName];
  }

  /** A non-empty root member name wins; otherwise the name fails exactly
      when the git origin does not parse; a name found is never empty while
      the root directory has a name. */
  lemma TreeNameMeaning(meta: Metadata, origin: Option<string>)
    ensures var rootName := LastAtRoot(meta.members, meta.workspaceRoot);
      rootName.Some? && rootName.value != "" ==> TreeName(meta, origin) == Success(rootName.value)
    ensures TreeName(meta, origin).Failure? ==> PyGitRepoName(origin).Failure?
    ensures TreeName(meta, origin).Success? && Name(meta.workspaceRoot) != "" ==> TreeName(meta, origin).value != ""
  {
  }

  /** The name as written differs from the intended one only in the last
      resort, and only when the workspace root is a directory. */
  lemma TreeNameAgrees(fs: FileSystem, meta: Metadata, origin: Option<string>)
    ensures TreeNameAsWritten(fs, meta, origin).Failure? <==> TreeName(meta, origin).Failure?
    ensures TreeNameAsWritten(fs, meta, origin).Failure? ==> TreeNameAsWritten(fs, meta, origin) == TreeName(meta, origin)
    ensures !fs.IsDir(meta.workspaceRoot) ==> TreeNameAsWritten(fs, meta, origin) == TreeName(meta, origin)
    ensures TreeNameAsWritten(fs, meta, origin) != TreeName(meta, origin) ==>
      TreeNameAsWritten(fs, meta, origin) == Success(FileName)
  {
  }

  /** The loop of `tree`: the name of the member at the root, and one fresh
      manifest per other member, by name. */
  method MemberProjects(fs: FileSystem, ms: seq<MemberData>, rootPath: Path)
    returns (rootName: Option<string>, acc: seq<Member>)
    ensures rootName == LastAtRoot(ms, rootPath)
    ensures |acc| == |TreeMembers(ms, rootPath)|
    ensures DistinctNames(acc) && Distinct(Items(acc))
    ensures var t := TreeMembers(ms, rootPath);
      forall j :: 0 <= j < |t| ==>
        acc[j].name == t[j].name && acc[j].item.path == FilePath(fs, t[j].item)
        && acc[j].item.data == None && fresh(acc[j].item)
  {
    rootName := None;
    acc := [];
    ghost var t: seq<Named<Path>> := [];
    for i := 0 to |ms|
      invariant rootName == LastAtRoot(ms[..i], rootPath)
      invariant t == TreeMembers(ms[..i], rootPath)
      invariant |acc| == |t|
      invariant DistinctNames(acc) && DistinctItems(acc)
      invariant forall j :: 0 <= j < |t| ==>
        acc[j].name == t[j].name && acc[j].item.path == FilePath(fs, t[j].item)
        && acc[j].item.data == None && fresh(acc[j].item)
    {
      var m := ms[i];
      TakeTake(ms, i);
      if m.path == rootPath {
        rootName := Some(m.name);
      } else {
        var p := new PyProject(fs, m.path);
        assert forall j :: 0 <= j < |acc| ==> acc[j].item != p;
        AssignItems(acc, m.name, p);
        AssignDistinct(acc, m.name, p);
        AssignParallel(acc, t, m.name, p, m.path);
        ghost var acc0, t0 := acc, t;
        acc := Assign(acc, m.name, p);
        t := Assign(t, m.name, m.path);
        forall j | 0 <= j < |t|
          ensures acc[j].name == t[j].name && acc[j].item.path == FilePath(fs, t[j].item)
            && acc[j].item.data == None && fresh(acc[j].item)
        {
          if !(j < |acc0| && acc[j] == acc0[j] && t[j] == t0[j]) {
            assert acc[j] == Named(m.name, p) && t[j] == Named(m.name, m.path);
          }
        }
      }
    }
    FullTake(ms);
    assert Distinct(Items(acc)) by {
      var xs := Items(acc);
      forall a, b | 0 <= a < b < |xs| ensures xs[a] != xs[b] {
        assert acc[a].item != acc[b].item;
      }
    }
  }

  /** `tree(metadata)`: one manifest per member away from the root, by name,
      and the root's manifest; the name as `TreeNameAsWritten` gives it; nothing is
      loaded yet. */
  method Tree(fs: FileSystem, meta: Metadata, origin: Option<string>) returns (r: Result<PyProjectTree>)
    ensures r.Failure? <==> TreeNameAsWritten(fs, meta, origin).Failure?
    ensures r.Failure? ==> r.error == TreeNameAsWritten(fs, meta, origin).error
    ensures r.Success? ==> fresh(r.value) && fresh(r.value.root) && r.value.Valid()
    ensures r.Success? ==> r.value.name == TreeNameAsWritten(fs, meta, origin).value
    ensures r.Success? ==> r.value.root.path == FilePath(fs, meta.workspaceRoot) && r.value.root.data == None
    ensures r.Success? ==> |r.value.members| == |TreeMembers(meta.members, meta.workspaceRoot)|
    ensures r.Success? ==> var t := TreeMembers(meta.members, meta.workspaceRoot);
      forall j :: 0 <= j < |t| ==>
        r.value.members[j].name == t[j].name && r.value.members[j].item.path == FilePath(fs, t[j].item)
        && r.value.members[j].item.data == None && fresh(r.value.members[j].item)
  {
    var rootPath := meta.workspaceRoot;
    var rootName, acc := MemberProjects(fs, meta.members, rootPath);
    var root := new PyProject(fs, rootPath);
    assert Distinct([root] + Items(acc)) by {
      var xs := [root] + Items(acc);
      forall a, b | 0 <= a < b < |xs| ensures xs[a] != xs[b] {
        assert xs[b] == Items(acc)[b - 1];
      }
    }
    var name: string;
    if rootName.Some? && rootName.value != "" {
      name := rootName.value;
    } else {
      var repo := PyGitRepoName(origin);
      if repo.Failure? {
        return Failure(repo.error);
      }
      name := if repo.value.Some? then repo.value.value else Name(root.path);
    }
    var tree := new PyProjectTree(name, root, acc);
    return Success(tree);
  }
}
