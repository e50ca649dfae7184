/** Paths, the parts of the file system the engine inspects, and the text
    store that manifests are read from and written to. A path is the sequence
    of its components below the file-system root, so `[]` is `/`. */
module Files {
  import opened Wrappers

  type Path = seq<string>

  /** `path.name`: the last component, empty for the root. */
  function Name(p: Path): string {
    if p == [] then "" else p[|p| - 1]
  }

  /** `path.parent`: the root is its own parent. */
  function Parent(p: Path): Path {
    if p == [] then [] else p[..|p| - 1]
  }

  lemma ParentSnoc(p: Path, k: string)
    ensures Parent(p + [k]) == p
  {
    assert (p + [k])[..|p|] == p;
  }

  lemma ParentPair(p: Path, k: string, f: string)
    ensures Parent(p + [k, f]) == p + [k]
  {
    assert p + [k, f] == (p + [k]) + [f];
    ParentSnoc(p + [k], f);
  }

  predicate IsPrefix(p: Path, q: Path) {
    |p| <= |q| && q[..|p|] == p
  }

  /** Directories and regular files that exist. */
  datatype FileSystem = FileSystem(dirs: set<Path>, files: set<Path>) {
    predicate IsDir(p: Path) {
      p in dirs
    }

    predicate IsFile(p: Path) {
      p in files && p !in dirs
    }

    /** The directories at or below `p`. */
    function DirsUnder(p: Path): set<Path> {
      set d | d in dirs && IsPrefix(p, d)
    }
  }

  // ---------------------------------------------------------------------------
  // os.path.relpath over resolved, absolute paths.

  /** A component of a resolved path: never empty, `.` or `..`. */
  predicate PlainComponents(p: Path) {
    forall i :: 0 <= i < |p| ==> p[i] != "" && p[i] != "." && p[i] != ".."
  }

  function CommonPrefixLength(p: Path, q: Path): (n: nat)
    ensures n <= |p| && n <= |q| && p[..n] == q[..n]
    ensures n < |p| && n < |q| ==> p[n] != q[n]
  {
    if p == [] || q == [] || p[0] != q[0] then 0
    else
      var n := 1 + CommonPrefixLength(p[1..], q[1..]);
      assert p[..n] == [p[0]] + p[1..][..n - 1];
      assert q[..n] == [q[0]] + q[1..][..n - 1];
      n
  }

  function Ups(n: nat): (r: seq<string>)
    ensures |r| == n && forall i :: 0 <= i < n ==> r[i] == ".."
  {
    if n == 0 then [] else [".."] + Ups(n - 1)
  }

  /** The components of `os.path.relpath(target, start)`: one `..` per
      component of `start` below the common prefix, then the rest of `target`. */
  function RelParts(target: Path, start: Path): seq<string>
  {
    var n := CommonPrefixLength(target, start);
    Ups(|start| - n) + target[n..]
  }

  /** `"/".join(parts)` */
  function JoinPath(parts: seq<string>): string
  {
    if parts == [] then ""
    else if |parts| == 1 then parts[0]
    else parts[0] + "/" + JoinPath(parts[1..])
  }

  /** `os.path.relpath(target, start)`, `.` when both are the same directory. */
  function RelPath(target: Path, start: Path): string
  {
    var parts := RelParts(target, start);
    if parts == [] then "." else JoinPath(parts)
  }

  /** Following relative components from a directory: `..` climbs to the parent. */
  function Follow(base: Path, parts: seq<string>): Path
    decreases |parts|
  {
    if parts == [] then base
    else if parts[0] == ".." then Follow(Parent(base), parts[1..])
    else if parts[0] == "." then Follow(base, parts[1..])
    else Follow(base + [parts[0]], parts[1..])
  }

  lemma {:induction false} FollowUps(base: Path, n: nat, rest: seq<string>)
    requires n <= |base|
    ensures Follow(base, Ups(n) + rest) == Follow(base[..|base| - n], rest)
    decreases n
  {
    if n > 0 {
      assert Ups(n) + rest == [".."] + (Ups(n - 1) + rest);
      assert (Ups(n) + rest)[0] == "..";
      assert (Ups(n) + rest)[1..] == Ups(n - 1) + rest;
      assert Parent(base)[..|Parent(base)| - (n - 1)] == base[..|base| - n];
      assert Follow(base, Ups(n) + rest) == Follow(Parent(base), Ups(n - 1) + rest);
      FollowUps(Parent(base), n - 1, rest);
    } else {
      assert Ups(n) + rest == rest;
      assert base[..|base|] == base;
    }
  }

  lemma {:induction false} FollowPlain(base: Path, rest: seq<string>)
    requires PlainComponents(rest)
    ensures Follow(base, rest) == base + rest
    decreases |rest|
  {
    if rest != [] {
      assert base + [rest[0]] + rest[1..] == base + rest;
      FollowPlain(base + [rest[0]], rest[1..]);
    }
  }

  /** The relative path leads from `start` back to `target`. */
  lemma RelPathFollows(target: Path, start: Path)
    requires PlainComponents(target)
    ensures Follow(start, RelParts(target, start)) == target
  {
    var n := CommonPrefixLength(target, start);
    FollowUps(start, |start| - n, target[n..]);
    assert start[..n] == target[..n];
    FollowPlain(target[..n], target[n..]);
    assert target[..n] + target[n..] == target;
  }

  /** Between two sibling directories the relative path is `../name`. */
  lemma RelPathSibling(parent: Path, a: string, b: string)
    requires a != b
    ensures RelPath(parent + [b], parent + [a]) == "../" + b
  {
    SiblingPrefix(parent, a, b);
    assert RelParts(parent + [b], parent + [a]) == ["..", b];
    assert JoinPath(["..", b]) == ".." + "/" + JoinPath([b]);
  }

  lemma {:induction false} SiblingPrefix(parent: Path, a: string, b: string)
    requires a != b
    ensures CommonPrefixLength(parent + [b], parent + [a]) == |parent|
    decreases |parent|
  {
    if parent != [] {
      assert (parent + [b])[1..] == parent[1..] + [b];
      assert (parent + [a])[1..] == parent[1..] + [a];
      SiblingPrefix(parent[1..], a, b);
    }
  }

  /** A directory relative to itself is `.`. */
  lemma RelPathSelf(p: Path)
    ensures RelPath(p, p) == "."
  {
    assert RelParts(p, p) == [];
  }

  // ---------------------------------------------------------------------------
  // The text of files on disk.

  /** The contents of the manifest files, by path. */
  class TextStore {
    var files: map<Path, string>

    constructor (files: map<Path, string>)
      ensures this.files == files
    {
      this.files := files;
    }

    /** `file.read_text() if file.exists() else None` */
    function Read(p: Path): Option<string>
      reads this
    {
      if p in files then Some(files[p]) else None
    }

    /** `file.write_text(text)` */
    method Write(p: Path, text: string)
      modifies this
      ensures files == old(files)[p := text]
      ensures Read(p) == Some(text)
    {
      files := files[p := text];
    }
  }
}
