/** `reggie_build.projects`: telling whether a manifest declares a workspace,
    a project's name, the tidying of manifest text before it is written
    (`PyProject._clean_yaml`), locating a project directory from a path or a
    name (`dir`), and the workspace members a root declares (`member_dirs`). */
module Projects {
  import opened Wrappers
  import opened Toml
  import opened Text
  import opened Utils
  import opened Files

  const PyprojectFileName := "pyproject.toml"

  // ===========================================================================
  // PyProject._clean_yaml

  /** A line holding nothing but whitespace: `not line.strip()`. */
  predicate Blank(line: string) {
    SkipSpace(line, 0) == |line|
  }

  lemma BlankAllSpace(line: string)
    ensures Blank(line) <==> forall i :: 0 <= i < |line| ==> IsSpace(line[i])
  {
    SkipSpaceSpaces(line, 0);
  }

  lemma BlankStrip(line: string)
    ensures Blank(line) <==> Strip(line) == ""
  {
    BlankAllSpace(line);
    StripEmpty(line);
  }

  /** The lines the loop keeps: a blank line is dropped when the input line
      before it was blank too; every other line is kept as it is. */
  function KeptLines(ls: seq<string>): seq<string>
  {
    if ls == [] then []
    else
      var n := |ls|;
      KeptLines(ls[..n - 1])
      + (if n > 1 && Blank(ls[n - 1]) && Blank(ls[n - 2]) then [] else [ls[n - 1]])
  }

  /** The non-blank lines, in order. */
  function NonBlankLines(ls: seq<string>): seq<string>
  {
    if ls == [] then []
    else NonBlankLines(ls[..|ls| - 1]) + (if Blank(ls[|ls| - 1]) then [] else [ls[|ls| - 1]])
  }

  /** No blank line directly follows another. */
  predicate NoBlankRun(ls: seq<string>) {
    forall i :: 0 < i < |ls| ==> !Blank(ls[i - 1]) || !Blank(ls[i])
  }

  /** The value `_clean_yaml` returns. */
  function CleanedYaml(yaml: string): Option<string>
  {
    var t := Strip(yaml);
    if t == "" then None
    else
      var j := Strip(JoinLines(KeptLines(SplitLines(t))));
      Some(if j != "" then j + "\n" else "")
  }

  /** The loop of `_clean_yaml` that drops each blank line following a blank
      line. */
  method SqueezeBlankLines(lines: seq<string>) returns (out: seq<string>)
    ensures out == KeptLines(lines)
  {
    out := [];
    var prevBlank := false;
    for i := 0 to |lines|
      invariant out == KeptLines(lines[..i])
      invariant prevBlank == (i > 0 && Blank(lines[i - 1]))
    {
      var line := lines[i];
      var blank := Strip(line) == "";
      BlankStrip(line);
      assert lines[..i + 1][..i] == lines[..i];
      if blank && prevBlank {
        continue;
      }
      out := out + [line];
      prevBlank := blank;
    }
    assert lines[..|lines|] == lines;
  }

  /** `_clean_yaml`: strips the text, squeezes every run of blank lines to its
      first line, and ends the result in one newline; blank input gives None. */
  method CleanYaml(yaml: string) returns (r: Option<string>)
    ensures r == CleanedYaml(yaml)
  {
    var text := yaml;
    if text != "" {
      text := Strip(text);
    }
    if text == "" {
      return None;
    }
    var out := SqueezeBlankLines(SplitLines(text));
    var joined := Strip(JoinLines(out));
    return Some(if joined != "" then joined + "\n" else "");
  }

  /** The first line is always kept, the last one when it is not blank, and
      nothing new appears. */
  lemma {:induction false} KeptLinesEnds(ls: seq<string>)
    ensures |KeptLines(ls)| <= |ls|
    ensures ls != [] ==> KeptLines(ls) != [] && KeptLines(ls)[0] == ls[0]
    ensures ls != [] && !Blank(ls[|ls| - 1]) ==>
      KeptLines(ls) != [] && KeptLines(ls)[|KeptLines(ls)| - 1] == ls[|ls| - 1]
    ensures forall x :: x in KeptLines(ls) ==> x in ls
    decreases |ls|
  {
    if ls != [] {
      var pre := ls[..|ls| - 1];
      KeptLinesEnds(pre);
      assert forall x :: x in pre ==> x in ls;
      if |ls| > 1 {
        assert pre[0] == ls[0];
      }
    }
  }

  /** Squeezing leaves no blank run. */
  lemma {:induction false} KeptLinesNoRun(ls: seq<string>)
    ensures NoBlankRun(KeptLines(ls))
    decreases |ls|
  {
    if ls != [] {
      var n := |ls|;
      var pre := ls[..n - 1];
      KeptLinesNoRun(pre);
      KeptLinesEnds(pre);
      var k := KeptLines(pre);
      if !(n > 1 && Blank(ls[n - 1]) && Blank(ls[n - 2])) {
        var r := k + [ls[n - 1]];
        if Blank(ls[n - 1]) && n > 1 {
          assert !Blank(pre[|pre| - 1]);
        }
        assert forall i :: 0 <= i < |k| ==> r[i] == k[i];
      }
    }
  }

  /** Squeezing loses no non-blank line. */
  lemma {:induction false} KeptLinesNonBlank(ls: seq<string>)
    ensures NonBlankLines(KeptLines(ls)) == NonBlankLines(ls)
    decreases |ls|
  {
    if ls != [] {
      var n := |ls|;
      var pre := ls[..n - 1];
      KeptLinesNonBlank(pre);
      var k := KeptLines(pre);
      var tail := if Blank(ls[n - 1]) then [] else [ls[n - 1]];
      if !(n > 1 && Blank(ls[n - 1]) && Blank(ls[n - 2])) {
        var r := k + [ls[n - 1]];
        assert r[..|r| - 1] == k && r[|r| - 1] == ls[n - 1];
        assert NonBlankLines(r) == NonBlankLines(k) + tail;
        assert KeptLines(ls) == r;
      } else {
        assert KeptLines(ls) == k + [];
        assert k + [] == k;
        assert tail == [];
        assert NonBlankLines(pre) + tail == NonBlankLines(pre);
      }
      assert NonBlankLines(ls) == NonBlankLines(pre) + tail;
    }
  }

  /** Lines without a blank run are kept as they are. */
  lemma {:induction false} KeptLinesFixed(ls: seq<string>)
    requires NoBlankRun(ls)
    ensures KeptLines(ls) == ls
    decreases |ls|
  {
    if ls != [] {
      var pre := ls[..|ls| - 1];
      assert NoBlankRun(pre) by {
        assert forall i :: 0 <= i < |pre| ==> pre[i] == ls[i];
      }
      KeptLinesFixed(pre);
      if |ls| > 1 {
        assert !Blank(ls[|ls| - 2]) || !Blank(ls[|ls| - 1]);
      }
      assert pre + [ls[|ls| - 1]] == ls;
    }
  }

  lemma StripEmpty(s: string)
    ensures Strip(s) == "" <==> forall i :: 0 <= i < |s| ==> IsSpace(s[i])
  {
    var l := LStrip(s);
    if l != "" {
      RStripFirst(l);
      assert l[0] == s[|s| - |l|];
    } else {
      LStripRemoved(s);
    }
  }

  /** The kept lines of a stripped, non-empty text start and end with its
      first and last characters. */
  lemma KeptLinesOfStripped(t: string)
    requires t != "" && !IsSpace(t[0]) && !IsSpace(t[|t| - 1])
    ensures var k := KeptLines(SplitLines(t));
      k != [] && NoLineBreaks(k) && k[0] != "" && k[0][0] == t[0]
      && k[|k| - 1] != "" && k[|k| - 1][|k[|k| - 1]| - 1] == t[|t| - 1]
  {
    var ls := SplitLines(t);
    SplitLinesNoBreaks(t);
    assert !IsLineBreak(t[0]) && !IsLineBreak(t[|t| - 1]);
    SplitLinesFirst(t);
    SplitLinesLast(t);
    var last := LastLine(ls);
    assert !Blank(last) by {
      assert !IsSpace(last[|last| - 1]);
      BlankAllSpace(last);
    }
    KeptLinesEnds(ls);
    var k := KeptLines(ls);
    assert forall i :: 0 <= i < |k| ==> k[i] in ls;
  }

  /** The kept lines of a non-blank text: at least one, none holding a line
      boundary, no blank run, and the text's first and last characters at
      their ends. */
  lemma KeptLinesShape(yaml: string)
    requires Strip(yaml) != ""
    ensures var k := KeptLines(SplitLines(Strip(yaml)));
      && k != [] && NoLineBreaks(k) && NoBlankRun(k)
      && k[0] != "" && !IsSpace(k[0][0]) && k[|k| - 1] != "" && !IsSpace(k[|k| - 1][|k[|k| - 1]| - 1])
  {
    KeptLinesOfStripped(Strip(yaml));
    KeptLinesNoRun(SplitLines(Strip(yaml)));
  }

  /** What `_clean_yaml` returns for a non-blank text: its kept lines, each
      ended by a newline. */
  lemma CleanedYamlIsLines(yaml: string)
    requires Strip(yaml) != ""
    ensures var k := KeptLines(SplitLines(Strip(yaml)));
      CleanedYaml(yaml) == Some(JoinLines(k) + "\n") && SplitLines(JoinLines(k) + "\n") == k
  {
    var k := KeptLines(SplitLines(Strip(yaml)));
    KeptLinesShape(yaml);
    JoinedStripped(k);
    CleanedYamlOf(yaml, Strip(yaml), k);
    SplitJoinTerminated(k);
  }

  lemma JoinedStripped(k: seq<string>)
    requires k != [] && k[0] != "" && !IsSpace(k[0][0])
    requires k[|k| - 1] != "" && !IsSpace(k[|k| - 1][|k[|k| - 1]| - 1])
    ensures Strip(JoinLines(k)) == JoinLines(k) != ""
    ensures !IsSpace(JoinLines(k)[0]) && !IsSpace(JoinLines(k)[|JoinLines(k)| - 1])
  {
    var j := JoinLines(k);
    JoinLinesFirst(k);
    JoinLinesLast(k);
    StripNoOuterSpace(j);
  }

  /** Cleaning a cleaned text changes nothing. */
  lemma CleanYamlFixed(k: seq<string>)
    requires k != [] && NoLineBreaks(k) && NoBlankRun(k)
    requires k[0] != "" && !IsSpace(k[0][0])
    requires k[|k| - 1] != "" && !IsSpace(k[|k| - 1][|k[|k| - 1]| - 1])
    ensures var s := JoinLines(k) + "\n";
      Strip(s) == JoinLines(k) != "" && SplitLines(s) == k && CleanedYaml(s) == Some(s)
  {
    var j := JoinLines(k);
    var s := j + "\n";
    JoinedStripped(k);
    StrippedTerminated(j);
    JoinedLinesKept(k);
    SplitJoinTerminated(k);
    CleanedYamlOf(s, j, k);
  }

  /** Cleaned lines joined and split again keep every line. */
  lemma JoinedLinesKept(k: seq<string>)
    requires k != [] && NoLineBreaks(k) && NoBlankRun(k) && k[|k| - 1] != ""
    ensures KeptLines(SplitLines(JoinLines(k))) == k
  {
    SplitJoin(k);
    KeptLinesFixed(k);
  }

  /** `_clean_yaml` read off its intermediate values. */
  lemma CleanedYamlOf(yaml: string, t: string, k: seq<string>)
    requires Strip(yaml) == t != "" && KeptLines(SplitLines(t)) == k
    ensures CleanedYaml(yaml) == Some(if Strip(JoinLines(k)) != "" then Strip(JoinLines(k)) + "\n" else "")
  {
  }

  /** `_clean_yaml` returns None exactly for empty or whitespace-only text. */
  lemma CleanYamlNone(yaml: string)
    ensures CleanedYaml(yaml).None? <==> forall i :: 0 <= i < |yaml| ==> IsSpace(yaml[i])
  {
    StripEmpty(yaml);
  }

  /** For any other text the result is stripped apart from one final newline,
      holds no two blank lines in a row, and keeps every non-blank line of the
      input in order; cleaning it again changes nothing. */
  lemma CleanYamlShape(yaml: string)
    requires CleanedYaml(yaml).Some?
    ensures var s := CleanedYaml(yaml).value;
      var ls := SplitLines(s);
      && s != "" && Strip(s) != "" && Strip(s) + "\n" == s
      && NoBlankRun(ls)
      && NonBlankLines(ls) == NonBlankLines(SplitLines(Strip(yaml)))
      && CleanedYaml(s) == Some(s)
  {
    CleanYamlText(yaml);
    CleanYamlLines(yaml);
  }

  /** The cleaned text is stripped but for one final newline, and cleaning it
      again changes nothing. */
  lemma CleanYamlText(yaml: string)
    requires CleanedYaml(yaml).Some?
    ensures var s := CleanedYaml(yaml).value;
      && s != "" && Strip(s) != "" && Strip(s) + "\n" == s
      && CleanedYaml(s) == Some(s)
  {
    CleanedYamlIsLines(yaml);
    KeptLinesTerminatedFixed(yaml);
  }

  /** The kept lines of a non-blank text, joined and ended by a newline, are
      left as they are by a second cleaning. */
  lemma KeptLinesTerminatedFixed(yaml: string)
    requires Strip(yaml) != ""
    ensures var s := JoinLines(KeptLines(SplitLines(Strip(yaml)))) + "\n";
      s != "" && Strip(s) != "" && Strip(s) + "\n" == s && CleanedYaml(s) == Some(s)
  {
    KeptLinesShape(yaml);
    CleanYamlFixed(KeptLines(SplitLines(Strip(yaml))));
  }

  /** The lines of the cleaned text hold no blank run and keep the non-blank
      lines of the input in order. */
  lemma CleanYamlLines(yaml: string)
    requires CleanedYaml(yaml).Some?
    ensures var ls := SplitLines(CleanedYaml(yaml).value);
      && NoBlankRun(ls)
      && NonBlankLines(ls) == NonBlankLines(SplitLines(Strip(yaml)))
  {
    var t := Strip(yaml);
    CleanedYamlIsLines(yaml);
    var k := KeptLines(SplitLines(t));
    KeptLinesNoRun(SplitLines(t));
    KeptLinesNonBlank(SplitLines(t));
    assert SplitLines(CleanedYaml(yaml).value) == k;
  }

  // ===========================================================================
  // PyProject.is_workspace and Project.name

  /** Something stored under `path` that is not a table. */
  predicate NonTableAt(doc: Doc, path: seq<string>) {
    Lookup(doc, path).Some? && !Lookup(doc, path).value.Table?
  }

  /** `is_workspace`: reads `tool`, then `uv`, then `workspace` with `.get`, an
      absent table read as `{}`; a `tool` or `uv` value that is not a table
      has no `.get`, which raises. */
  function IsWorkspace(doc: Doc): (r: Result<bool>)
    ensures r.Failure? <==> NonTableAt(doc, ["tool"]) || NonTableAt(doc, ["tool", "uv"])
    ensures r.Success? ==> (r.value <==> Truthy(LookupOrNil(doc, ["tool", "uv", "workspace"])))
  {
    var tool := Find(doc, "tool").GetOr(Table([]));
    if !tool.Table? then Failure("'tool' has no attribute 'get'")
    else
      var uv := Find(tool.entries, "uv").GetOr(Table([]));
      if !uv.Table? then Failure("'uv' has no attribute 'get'")
      else Success(Truthy(FindOrNil(uv.entries, "workspace")))
  }

  /** `Project.name`: `project.name` when it is set to something truthy,
      otherwise the name of the project directory. The value is returned as
      stored, so a non-string name stays a non-string. */
  function ProjectName(doc: Doc, dir: Path): (r: Value)
    ensures Truthy(LookupOrNil(doc, ["project", "name"])) ==> r == LookupOrNil(doc, ["project", "name"])
    ensures !Truthy(LookupOrNil(doc, ["project", "name"])) ==> r == Str(Name(dir))
    ensures Truthy(r) || r == Str("")
  {
    var name := Get(doc, ["project", "name"], Nil);
    if Truthy(name) then name else Str(Name(dir))
  }

  // ===========================================================================
  // dir: the pyproject.toml walk

  /** The order the walk descends into: first any path not named
      `pyproject.toml` (by length, as it climbs), then paths named
      `pyproject.toml` (by the directories below them, as it descends). */
  function WalkRank(fs: FileSystem, p: Path): nat {
    if Name(p) == PyprojectFileName then 0 else 1
  }

  function WalkSize(fs: FileSystem, p: Path): nat {
    if Name(p) == PyprojectFileName then |fs.DirsUnder(p)| else |p|
  }

  lemma DirsUnderShrinks(fs: FileSystem, p: Path, x: string)
    requires fs.IsDir(p)
    ensures |fs.DirsUnder(p + [x])| < |fs.DirsUnder(p)|
  {
    var a := fs.DirsUnder(p + [x]);
    var b := fs.DirsUnder(p);
    forall d | d in a ensures d in b {
      assert d[..|p|] == (p + [x])[..|p|];
    }
    assert p in b && p !in a;
    assert a + {p} <= b;
    assert |a + {p}| == |a| + 1;
    SubsetCard(a + {p}, b);
  }

  lemma {:induction false} SubsetCard<T>(a: set<T>, b: set<T>)
    requires a <= b
    ensures |a| <= |b|
    decreases |a|
  {
    if a != {} {
      var x :| x in a;
      SubsetCard(a - {x}, b - {x});
    }
  }

  /** `_pyproject_file`: a directory is replaced by the `pyproject.toml` inside
      it, any other path not named `pyproject.toml` by its parent, and a path
      named `pyproject.toml` is the answer when it is a file. A path with an
      empty name (the root, or `.`) ends the walk with None. */
  function PyprojectFile(fs: FileSystem, p: Path): (r: Option<Path>)
    ensures r.Some? ==> fs.IsFile(r.value) && Name(r.value) == PyprojectFileName
    ensures Name(p) == "" ==> r.None?
    decreases WalkRank(fs, p), WalkSize(fs, p)
  {
    if Name(p) == "" then None
    else if fs.IsDir(p) then
      DirsUnderShrinks(fs, p, PyprojectFileName);
      PyprojectFile(fs, p + [PyprojectFileName])
    else if Name(p) != PyprojectFileName then
      PyprojectFile(fs, Parent(p))
    else if fs.IsFile(p) then Some(p)
    else None
  }

  /** A project directory resolves to its own manifest. */
  lemma PyprojectFileOfDir(fs: FileSystem, d: Path)
    requires fs.IsDir(d) && Name(d) != ""
    requires fs.IsFile(d + [PyprojectFileName])
    ensures PyprojectFile(fs, d) == Some(d + [PyprojectFileName])
  {
  }

  /** A file or a missing path inside a project directory resolves, by way of
      its parent, to that directory's manifest. */
  lemma PyprojectFileInside(fs: FileSystem, d: Path, x: string)
    requires fs.IsDir(d) && Name(d) != ""
    requires fs.IsFile(d + [PyprojectFileName])
    requires x != "" && x != PyprojectFileName && !fs.IsDir(d + [x])
    ensures PyprojectFile(fs, d + [x]) == Some(d + [PyprojectFileName])
  {
    assert Parent(d + [x]) == d;
    PyprojectFileOfDir(fs, d);
  }

  // ===========================================================================
  // dir: the name lookup

  /** What `dir` is given: a path, or a string that may be a path or a name. */
  datatype DirInput = PathInput(path: Path) | StrInput(s: string)

  /** A project of the workspace as the lookup sees it. */
  datatype ProjectRef = ProjectRef(name: Value, dir: Path)

  /** The directory of the first project, in order, whose name equals `name`. */
  function FirstNamed(projects: seq<ProjectRef>, name: Value): (r: Option<Path>)
    ensures r.None? <==> forall i :: 0 <= i < |projects| ==> projects[i].name != name
    ensures r.Some? ==> exists i :: (0 <= i < |projects| && projects[i].name == name
      && r.value == projects[i].dir
      && forall j :: 0 <= j < i ==> projects[j].name != name)
  {
    if projects == [] then None
    else if projects[0].name == name then Some(projects[0].dir)
    else
      var r := FirstNamed(projects[1..], name);
      assert forall i :: 1 <= i < |projects| ==> projects[i] == projects[1..][i - 1];
      r
  }

  /** `dir(input, match_member)`: the parent of the manifest the walk reaches;
      failing that, when `match_member` is set and the input is a string, the
      directory of the first of the root and then its members whose name
      equals the input. `pathOf` turns a string into the path `pathlib.Path`
      makes of it. */
  method Dir(fs: FileSystem, input: DirInput, pathOf: string -> Path, matchMember: bool,
             root: ProjectRef, members: seq<ProjectRef>) returns (r: Option<Path>)
    ensures var walk := PyprojectFile(fs, if input.PathInput? then input.path else pathOf(input.s));
      && (walk.Some? ==> r == Some(Parent(walk.value)))
      && (walk.None? && matchMember && input.StrInput? ==> r == FirstNamed([root] + members, Str(input.s)))
      && (walk.None? && !(matchMember && input.StrInput?) ==> r == None)
  {
    var path := if input.PathInput? then input.path else pathOf(input.s);
    var f := PyprojectFile(fs, path);
    if f.Some? {
      return Some(Parent(f.value));
    }
    if matchMember && input.StrInput? {
      var candidates := [root] + members;
      var i := 0;
      while i < |candidates|
        invariant 0 <= i <= |candidates|
        invariant FirstNamed(candidates, Str(input.s)) == FirstNamed(candidates[i..], Str(input.s))
      {
        if candidates[i].name == Str(input.s) {
          return Some(candidates[i].dir);
        }
        assert candidates[i..][1..] == candidates[i + 1..];
        i := i + 1;
      }
    }
    return None;
  }

  // ===========================================================================
  // Project.member_dirs

  /** What `for pat in patterns` visits: the items of an array, the characters
      of a string, the keys of a table; anything else is not iterable. */
  function Iterated(v: Value): (r: Result<seq<Value>>)
    ensures v.Array? ==> r == Success(v.items)
    ensures v.Table? || v.Array? || v.Str? <==> r.Success?
  {
    match v
    case Array(xs) => Success(xs)
    case Str(s) => Success(seq(|s|, i requires 0 <= i < |s| => Str([s[i]])))
    case Table(es) => Success(seq(|es|, i requires 0 <= i < |es| => Str(es[i].key)))
    case _ => Failure("object is not iterable")
  }

  /** `any(fnmatch(name, pat) for pat in patterns)` over the visited patterns,
      stopping at the first match; a pattern that is not a string raises. */
  function MatchItems(name: string, pats: seq<Value>, glob: (string, string) -> bool): (r: Result<bool>)
    ensures r == Success(true) <==> exists i :: (0 <= i < |pats| && pats[i].Str? && glob(name, pats[i].s)
      && forall j :: 0 <= j < i ==> pats[j].Str?)
    ensures r == Success(false) <==> forall i :: 0 <= i < |pats| ==> pats[i].Str? && !glob(name, pats[i].s)
  {
    if pats == [] then Success(false)
    else if !pats[0].Str? then Failure("expected str, bytes or os.PathLike object")
    else if glob(name, pats[0].s) then Success(true)
    else
      var r := MatchItems(name, pats[1..], glob);
      assert forall i :: 1 <= i < |pats| ==> pats[i] == pats[1..][i - 1];
      r
  }

  function MatchAny(name: string, patterns: Value, glob: (string, string) -> bool): Result<bool>
  {
    var pats :- Iterated(patterns);
    MatchItems(name, pats, glob)
  }

  /** A workspace glob list as `member_dirs` reads it from the manifest. */
  function Patterns(doc: Doc, key: string): Value {
    Get(doc, ["tool", "uv", "workspace", key], Array([]))
  }

  /** What one entry of the directory listing contributes: nothing unless it
      is a directory whose name matches a `members` pattern and no `exclude`
      pattern (the exclusions are not consulted when no member pattern
      matches), and then the project directory its own walk reaches. */
  function MemberDirOf(fs: FileSystem, dir: Path, doc: Doc, child: string,
                       glob: (string, string) -> bool): Result<Option<Path>>
  {
    var path := dir + [child];
    if !fs.IsDir(path) then Success(None)
    else
      var included :- MatchAny(child, Patterns(doc, "members"), glob);
      if !included then Success(None)
      else
        var excluded :- MatchAny(child, Patterns(doc, "exclude"), glob);
        if excluded then Success(None)
        else
          var f := PyprojectFile(fs, path);
          Success(if f.Some? then Some(Parent(f.value)) else None)
  }

  /** A directory entry is yielded as a member exactly when it qualifies. */
  predicate Yields(fs: FileSystem, dir: Path, doc: Doc, child: string,
                   glob: (string, string) -> bool, d: Path) {
    && fs.IsDir(dir + [child])
    && MatchAny(child, Patterns(doc, "members"), glob) == Success(true)
    && MatchAny(child, Patterns(doc, "exclude"), glob) == Success(false)
    && PyprojectFile(fs, dir + [child]).Some?
    && d == Parent(PyprojectFile(fs, dir + [child]).value)
  }

  lemma MemberDirOfYields(fs: FileSystem, dir: Path, doc: Doc, child: string,
                          glob: (string, string) -> bool, d: Path)
    ensures MemberDirOf(fs, dir, doc, child, glob).Success? ==>
      (MemberDirOf(fs, dir, doc, child, glob) == Success(Some(d)) <==> Yields(fs, dir, doc, child, glob, d))
  {
  }

  /** The directories `member_dirs` yields for the listing `children`, in
      order, or the error the first raising pattern reports. */
  function MemberDirList(fs: FileSystem, dir: Path, doc: Doc, children: seq<string>,
                         glob: (string, string) -> bool): Result<seq<Path>>
  {
    if children == [] then Success([])
    else
      var pre :- MemberDirList(fs, dir, doc, children[..|children| - 1], glob);
      var last :- MemberDirOf(fs, dir, doc, children[|children| - 1], glob);
      Success(pre + (if last.Some? then [last.value] else []))
  }

  /** `member_dirs`: scans the listing of `dir`, in the order given. */
  method MemberDirs(fs: FileSystem, dir: Path, doc: Doc, children: seq<string>,
                    glob: (string, string) -> bool) returns (r: Result<seq<Path>>)
    ensures r == MemberDirList(fs, dir, doc, children, glob)
  {
    var out: seq<Path> := [];
    var i := 0;
    while i < |children|
      invariant 0 <= i <= |children|
      invariant MemberDirList(fs, dir, doc, children[..i], glob) == Success(out)
    {
      assert children[..i + 1][..i] == children[..i];
      var step := MemberDirOf(fs, dir, doc, children[i], glob);
      if step.Failure? {
        MemberDirListFails(fs, dir, doc, children, glob, i);
        return Failure(step.error);
      }
      assert MemberDirList(fs, dir, doc, children[..i + 1], glob)
        == Success(out + (if step.value.Some? then [step.value.value] else []));
      if step.value.Some? {
        out := out + [step.value.value];
      } else {
        assert out + [] == out;
      }
      i := i + 1;
    }
    assert children[..|children|] == children;
    return Success(out);
  }

  /** Once an entry raises, so does the whole scan. */
  lemma {:induction false} MemberDirListFails(fs: FileSystem, dir: Path, doc: Doc, children: seq<string>,
                                              glob: (string, string) -> bool, i: nat)
    requires i < |children| && MemberDirList(fs, dir, doc, children[..i], glob).Success?
    requires MemberDirOf(fs, dir, doc, children[i], glob).Failure?
    ensures MemberDirList(fs, dir, doc, children, glob) ==
      Failure(MemberDirOf(fs, dir, doc, children[i], glob).error)
    decreases |children|
  {
    if i < |children| - 1 {
      var pre := children[..|children| - 1];
      assert pre[..i] == children[..i] && pre[i] == children[i];
      MemberDirListFails(fs, dir, doc, pre, glob, i);
    } else {
      assert children[..|children| - 1] == children[..i];
    }
  }

  /** The scan fails exactly when some entry's pattern match raises. */
  lemma {:induction false} MemberDirListFailure(fs: FileSystem, dir: Path, doc: Doc, children: seq<string>,
                                                glob: (string, string) -> bool)
    ensures MemberDirList(fs, dir, doc, children, glob).Failure? <==>
      exists i :: 0 <= i < |children| && MemberDirOf(fs, dir, doc, children[i], glob).Failure?
    decreases |children|
  {
    if children != [] {
      var n := |children|;
      var pre := children[..n - 1];
      MemberDirListFailure(fs, dir, doc, pre, glob);
      assert forall i :: 0 <= i < n - 1 ==> pre[i] == children[i];
    }
  }

  /** A scan that succeeds yields exactly the directories of the qualifying
      entries. */
  lemma {:induction false} MemberDirListYields(fs: FileSystem, dir: Path, doc: Doc, children: seq<string>,
                                               glob: (string, string) -> bool, d: Path)
    requires MemberDirList(fs, dir, doc, children, glob).Success?
    ensures d in MemberDirList(fs, dir, doc, children, glob).value <==>
      exists i :: 0 <= i < |children| && Yields(fs, dir, doc, children[i], glob, d)
    decreases |children|
  {
    if children != [] {
      var n := |children|;
      var pre := children[..n - 1];
      var c := children[n - 1];
      MemberDirListYields(fs, dir, doc, pre, glob, d);
      MemberDirOfYields(fs, dir, doc, c, glob, d);
      var ds := MemberDirList(fs, dir, doc, pre, glob).value;
      var last := MemberDirOf(fs, dir, doc, c, glob).value;
      var tail := if last.Some? then [last.value] else [];
      assert MemberDirList(fs, dir, doc, children, glob).value == ds + tail;
      assert d in ds + tail <==> d in ds || last == Some(d);
      var hit := (x: string) => Yields(fs, dir, doc, x, glob, d);
      ExistsSplit(children, pre, hit);
    }
  }

  /** Some element of a non-empty sequence satisfies `p` exactly when one
      before the last does or the last does. */
  lemma ExistsSplit<T>(xs: seq<T>, pre: seq<T>, p: T -> bool)
    requires xs != [] && pre == xs[..|xs| - 1]
    ensures (exists i :: 0 <= i < |xs| && p(xs[i])) <==>
      (exists i :: 0 <= i < |pre| && p(pre[i])) || p(xs[|xs| - 1])
  {
    var n := |xs|;
    if exists i :: 0 <= i < n && p(xs[i]) {
      var i :| 0 <= i < n && p(xs[i]);
      if i < n - 1 {
        assert pre[i] == xs[i];
      }
    }
    if exists i :: 0 <= i < n - 1 && p(pre[i]) {
      var i :| 0 <= i < n - 1 && p(pre[i]);
      assert pre[i] == xs[i];
    }
  }

  /** A listed sub-directory with its own manifest, matching a member pattern
      and no exclusion, is a member in its own right. */
  lemma MemberDirOfProject(fs: FileSystem, dir: Path, doc: Doc, child: string,
                           glob: (string, string) -> bool)
    requires Name(dir + [child]) != "" && fs.IsDir(dir + [child])
    requires fs.IsFile(dir + [child] + [PyprojectFileName])
    requires MatchAny(child, Patterns(doc, "members"), glob) == Success(true)
    requires MatchAny(child, Patterns(doc, "exclude"), glob) == Success(false)
    ensures Yields(fs, dir, doc, child, glob, dir + [child])
  {
    PyprojectFileOfDir(fs, dir + [child]);
    assert Parent(dir + [child] + [PyprojectFileName]) == dir + [child];
  }

  // ===========================================================================
  // Project

  /** A project: its directory and its manifest document, which the
      synchronisers edit in place before it is persisted. */
  class Project {
    const dir: Path
    var pyproject: Doc

    constructor (dir: Path, pyproject: Doc)
      ensures this.dir == dir && this.pyproject == pyproject
    {
      this.dir := dir;
      this.pyproject := pyproject;
    }

    function Name(): Value
      reads this
    {
      ProjectName(pyproject, dir)
    }

    function ManifestPath(): Path {
      dir + [PyprojectFileName]
    }
  }
}
