/** The manifest document as the synchronisation engine sees it: an ordered tree
    of tables, arrays and scalars. A table is an association list kept in
    insertion order; assigning to an existing key keeps its position, assigning
    to a new key appends it, exactly like a Python dict or a tomlkit table.
    `Nil` stands for Python's `None`, which plain dicts handed to the mapping
    helpers may hold. */
module Toml {
  import opened Wrappers

  datatype Value =
    | Table(entries: seq<Entry>)
    | Array(items: seq<Value>)
    | Str(s: string)
    | Int(i: int)
    | Bool(b: bool)
    | Nil

  datatype Entry = Entry(key: string, val: Value)

  /** A whole manifest: the entries of its top-level table. */
  type Doc = seq<Entry>

  // ---------------------------------------------------------------------------
  // Sizes, used as termination measures for recursion through nested tables.

  function ValueSize(v: Value): (n: nat)
    ensures n >= 1
  {
    match v
    case Table(es) => 1 + EntriesSize(es)
    case Array(xs) => 1 + ItemsSize(xs)
    case _ => 1
  }

  function EntriesSize(es: seq<Entry>): nat
  {
    if es == [] then 0 else ValueSize(es[0].val) + EntriesSize(es[1..])
  }

  function ItemsSize(xs: seq<Value>): nat
  {
    if xs == [] then 0 else ValueSize(xs[0]) + ItemsSize(xs[1..])
  }

  lemma {:induction false} EntriesSizeAppend(a: seq<Entry>, b: seq<Entry>)
    ensures EntriesSize(a + b) == EntriesSize(a) + EntriesSize(b)
  {
    if a == [] {
      assert a + b == b;
    } else {
      assert (a + b)[1..] == a[1..] + b;
      EntriesSizeAppend(a[1..], b);
    }
  }

  lemma {:induction false} ItemsSizeAppend(a: seq<Value>, b: seq<Value>)
    ensures ItemsSize(a + b) == ItemsSize(a) + ItemsSize(b)
  {
    if a == [] {
      assert a + b == b;
    } else {
      assert (a + b)[1..] == a[1..] + b;
      ItemsSizeAppend(a[1..], b);
    }
  }

  // ---------------------------------------------------------------------------
  // Table primitives.

  function Keys(es: seq<Entry>): (ks: seq<string>)
    ensures |ks| == |es|
    ensures forall i :: 0 <= i < |es| ==> ks[i] == es[i].key
  {
    if es == [] then [] else [es[0].key] + Keys(es[1..])
  }

  predicate DistinctKeys(es: seq<Entry>) {
    forall i, j :: 0 <= i < j < |es| ==> es[i].key != es[j].key
  }

  /** `table.get(key)`: the value of the first entry with that key. */
  function Find(es: seq<Entry>, k: string): Option<Value> {
    if es == [] then None
    else if es[0].key == k then Some(es[0].val)
    else Find(es[1..], k)
  }

  /** A key is found exactly when some entry carries it. */
  lemma {:induction false} FindKeys(es: seq<Entry>, k: string)
    ensures Find(es, k).None? <==> k !in Keys(es)
  {
    if es != [] {
      FindKeys(es[1..], k);
      assert Keys(es) == [es[0].key] + Keys(es[1..]);
    }
  }

  /** `table.get(key, None)`, with an absent key read as `None`. */
  function FindOrNil(es: seq<Entry>, k: string): Value {
    Find(es, k).GetOr(Nil)
  }

  /** `table[key] = v`: replaces the first entry with that key in place, or appends. */
  function Put(es: seq<Entry>, k: string, v: Value): (r: seq<Entry>)
    ensures Find(r, k) == Some(v)
    ensures forall k' :: k' != k ==> Find(r, k') == Find(es, k')
    ensures Find(es, k).Some? ==> |r| == |es|
    ensures Find(es, k).None? ==> r == es + [Entry(k, v)]
  {
    if es == [] then [Entry(k, v)]
    else if es[0].key == k then
      var r := [Entry(k, v)] + es[1..];
      assert r[0] == Entry(k, v) && r[1..] == es[1..];
      r
    else
      var rest := Put(es[1..], k, v);
      var r := [es[0]] + rest;
      assert r[0] == es[0] && r[1..] == rest;
      assert Find(es, k).None? ==> r == es + [Entry(k, v)] by {
        if Find(es, k).None? {
          assert es == [es[0]] + es[1..];
          assert [es[0]] + (es[1..] + [Entry(k, v)]) == es + [Entry(k, v)];
        }
      }
      assert Find(r, k) == Find(rest, k);
      assert forall k' :: k' != k ==> Find(r, k') == Find(es, k') by {
        forall k' | k' != k && k' != es[0].key
          ensures Find(r, k') == Find(es, k')
        {
          assert Find(r, k') == Find(rest, k');
        }
      }
      r
  }

  /** `del table[key]` / `table.pop(key)`: removes the entries with that key. */
  function Del(es: seq<Entry>, k: string): (r: seq<Entry>)
    ensures Find(r, k) == None
    ensures forall k' :: k' != k ==> Find(r, k') == Find(es, k')
    ensures |r| <= |es|
    ensures k !in Keys(es) ==> r == es
  {
    if es == [] then []
    else if es[0].key == k then Del(es[1..], k)
    else [es[0]] + Del(es[1..], k)
  }

  lemma {:induction false} PutExisting(es: seq<Entry>, k: string, v: Value)
    requires Find(es, k) == Some(v)
    ensures Put(es, k, v) == es
  {
    if es[0].key != k {
      PutExisting(es[1..], k, v);
    }
  }

  lemma {:induction false} PutKeys(es: seq<Entry>, k: string, v: Value)
    requires k in Keys(es)
    ensures Keys(Put(es, k, v)) == Keys(es)
  {
    if es[0].key != k {
      PutKeys(es[1..], k, v);
    }
  }

  lemma {:induction false} FindIn(es: seq<Entry>, k: string)
    requires Find(es, k).Some?
    ensures exists i :: 0 <= i < |es| && es[i] == Entry(k, Find(es, k).value)
  {
    if es[0].key != k {
      FindIn(es[1..], k);
      var i :| 0 <= i < |es[1..]| && es[1..][i] == Entry(k, Find(es, k).value);
      assert es[i + 1] == es[1..][i];
    } else {
      assert es[0] == Entry(k, Find(es, k).value);
    }
  }

  lemma {:induction false} FindSizeBound(es: seq<Entry>, k: string)
    requires Find(es, k).Some?
    ensures ValueSize(Find(es, k).value) <= EntriesSize(es)
  {
    if es[0].key != k {
      FindSizeBound(es[1..], k);
    }
  }

  /** Two tables with the same lookups and the same key order are the same table. */
  lemma {:induction false} FindExtensional(a: seq<Entry>, b: seq<Entry>)
    requires DistinctKeys(a) && DistinctKeys(b)
    requires Keys(a) == Keys(b)
    requires forall k :: Find(a, k) == Find(b, k)
    ensures a == b
  {
    if a != [] {
      assert Find(a, a[0].key) == Some(a[0].val);
      assert b[0].key == a[0].key;
      assert Find(b, b[0].key) == Some(b[0].val);
      forall k ensures Find(a[1..], k) == Find(b[1..], k) {
        if k == a[0].key {
          forall i | 0 <= i < |a| - 1 ensures Keys(a[1..])[i] != k {
            assert a[1..][i] == a[i + 1];
          }
          forall i | 0 <= i < |b| - 1 ensures Keys(b[1..])[i] != k {
            assert b[1..][i] == b[i + 1];
          }
          assert k !in Keys(a[1..]);
          assert k !in Keys(b[1..]);
          FindKeys(a[1..], k);
          FindKeys(b[1..], k);
        } else {
          assert Find(a, k) == Find(a[1..], k);
          assert Find(b, k) == Find(b[1..], k);
        }
      }
      assert Keys(a[1..]) == Keys(a)[1..];
      assert Keys(b[1..]) == Keys(b)[1..];
      FindExtensional(a[1..], b[1..]);
    }
  }

  /** Looking a key up in a table extended at the end. */
  lemma {:induction false} FindSnoc(es: seq<Entry>, e: Entry, k: string)
    ensures Find(es + [e], k) ==
      (if Find(es, k).Some? then Find(es, k) else if e.key == k then Some(e.val) else None)
  {
    if es == [] {
      assert es + [e] == [e];
    } else {
      assert (es + [e])[1..] == es[1..] + [e];
      if es[0].key != k {
        FindSnoc(es[1..], e, k);
      }
    }
  }

  /** Looking a key up in a non-empty table, split at its last entry. */
  lemma FindLast(es: seq<Entry>, k: string)
    requires es != []
    ensures Find(es, k) ==
      (if Find(es[..|es| - 1], k).Some? then Find(es[..|es| - 1], k)
       else if es[|es| - 1].key == k then Some(es[|es| - 1].val) else None)
  {
    assert es == es[..|es| - 1] + [es[|es| - 1]];
    FindSnoc(es[..|es| - 1], es[|es| - 1], k);
  }

  // ---------------------------------------------------------------------------
  // Python truthiness and "empty collection", as `if data:` and
  // `mapping_prune` read them.

  predicate Truthy(v: Value) {
    match v
    case Table(es) => es != []
    case Array(xs) => xs != []
    case Str(s) => s != ""
    case Int(i) => i != 0
    case Bool(b) => b
    case Nil => false
  }

  /** `value is None or (_is_collection(value) and len(value) == 0)` */
  predicate IsEmptyCollection(v: Value) {
    v.Nil? || v == Table([]) || v == Array([])
  }

  // ---------------------------------------------------------------------------
  // Path lookup: the raw answer to "what is stored under this key path".

  /** The value reached by following `path` through nested tables from `es`;
      None when a segment is missing or an intermediate value is not a table. */
  function Lookup(es: seq<Entry>, path: seq<string>): Option<Value>
    decreases |path|
  {
    if path == [] then Some(Table(es))
    else
      match Find(es, path[0])
      case None => None
      case Some(v) =>
        if |path| == 1 then Some(v)
        else if v.Table? then Lookup(v.entries, path[1..])
        else None
  }

  /** The leaf under `path`, with "not there" read as `None`. */
  function LookupOrNil(es: seq<Entry>, path: seq<string>): Value {
    Lookup(es, path).GetOr(Nil)
  }

  /** Following `p + q` is following `p`, then `q` inside the table reached. */
  lemma {:induction false} LookupAppend(es: seq<Entry>, p: seq<string>, q: seq<string>)
    requires q != []
    ensures Lookup(es, p + q) ==
      (match Lookup(es, p)
       case Some(Table(sub)) => Lookup(sub, q)
       case _ => None)
    decreases |p|
  {
    if p == [] {
      assert p + q == q;
    } else {
      assert (p + q)[0] == p[0];
      assert (p + q)[1..] == p[1..] + q;
      match Find(es, p[0])
      case None =>
      case Some(v) =>
        if |p| == 1 {
          assert p[1..] + q == q;
        } else if v.Table? {
          LookupAppend(v.entries, p[1..], q);
        }
    }
  }

  /** `p` and `q` name different keys at some level below a common prefix:
      neither is a prefix of the other. */
  predicate Diverges(p: seq<string>, q: seq<string>)
    decreases |p|
  {
    |p| > 0 && |q| > 0 && (p[0] != q[0] || Diverges(p[1..], q[1..]))
  }

  /** Writing a value at a top-level key changes no lookup under another key. */
  lemma LookupPutOther(es: seq<Entry>, k: string, v: Value, q: seq<string>)
    requires q != [] && q[0] != k
    ensures Lookup(Put(es, k, v), q) == Lookup(es, q)
  {
    assert Find(Put(es, k, v), q[0]) == Find(es, q[0]);
  }
}
