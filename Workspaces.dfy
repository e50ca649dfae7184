/** `reggie_build.workspaces`: the workspace as `uv workspace metadata`
    describes it, a root node holding its member nodes, and the lookup of a
    node by name or path. The metadata arrive parsed; running `uv` and `git`
    is not part of this model. */
module Workspaces {
  import opened Wrappers
  import opened Files
  import opened Utils

  /** `WorkspaceNode`: a project of the workspace. */
  datatype Node = Node(name: string, path: Path, root: bool, members: seq<Node>)

  const NonRootMembers := "Non root nodes must not have members"
  const RootMember := "Member nodes must not be root"
  const MultipleRoots := "Multiple workspace roots found"

  /** What `__post_init__` accepts: only a root has members, and none of them is a root. */
  predicate WellFormed(n: Node) {
    n.members == [] || (n.root && forall i :: 0 <= i < |n.members| ==> !n.members[i].root)
  }

  /** The dataclass constructor followed by `__post_init__`'s validation. */
  method NewNode(name: string, path: Path, root: bool, members: seq<Node>) returns (r: Result<Node>)
    ensures r.Success? <==> WellFormed(Node(name, path, root, members))
    ensures r.Success? ==> r.value == Node(name, path, root, members)
    ensures r.Failure? ==> r.error == (if root then RootMember else NonRootMembers)
  {
    if members != [] {
      if !root {
        return Failure(NonRootMembers);
      }
      for i := 0 to |members|
        invariant forall j :: 0 <= j < i ==> !members[j].root
      {
        if members[i].root {
          return Failure(RootMember);
        }
      }
    }
    return Success(Node(name, path, root, members));
  }

  /** `nodes()`: the node, then its members in order. */
  function Nodes(n: Node): seq<Node> {
    [n] + n.members
  }

  // ===========================================================================
  // _root_node

  /** One entry of the metadata's `members` list. */
  datatype MemberData = MemberData(name: string, path: Path)

  /** The parsed output of `uv workspace metadata`. */
  datatype Metadata = Metadata(workspaceRoot: Path, members: seq<MemberData>)

  /** The node of a metadata member that is not the root. */
  function MemberNode(m: MemberData): Node {
    Node(m.name, m.path, false, [])
  }

  /** How many metadata members sit at `rootPath`. */
  function CountAtRoot(ms: seq<MemberData>, rootPath: Path): nat {
    if ms == [] then 0
    else (if ms[0].path == rootPath then 1 else 0) + CountAtRoot(ms[1..], rootPath)
  }

  /** The name of the first metadata member at `rootPath`. */
  function FirstAtRoot(ms: seq<MemberData>, rootPath: Path): Option<string> {
    if ms == [] then None
    else if ms[0].path == rootPath then Some(ms[0].name)
    else FirstAtRoot(ms[1..], rootPath)
  }

  /** The nodes of the metadata members away from `rootPath`, in order. */
  function OtherNodes(ms: seq<MemberData>, rootPath: Path): seq<Node> {
    if ms == [] then []
    else (if ms[0].path == rootPath then [] else [MemberNode(ms[0])]) + OtherNodes(ms[1..], rootPath)
  }

  /** The state of `_root_node`'s loop after the first members: the root name
      found so far and the member nodes; a second member at the root raises. */
  function Scan(ms: seq<MemberData>, rootPath: Path): Result<(Option<string>, seq<Node>)>
  {
    if ms == [] then Success((None, []))
    else
      var (rootName, nodes) :- Scan(ms[..|ms| - 1], rootPath);
      var m := ms[|ms| - 1];
      if m.path == rootPath then
        if rootName.None? then Success((Some(m.name), nodes)) else Failure(MultipleRoots)
      else Success((rootName, nodes + [MemberNode(m)]))
  }

  lemma {:induction false} CountAtRootSnoc(ms: seq<MemberData>, m: MemberData, rootPath: Path)
    ensures CountAtRoot(ms + [m], rootPath) == CountAtRoot(ms, rootPath) + (if m.path == rootPath then 1 else 0)
    ensures FirstAtRoot(ms + [m], rootPath) ==
      (if FirstAtRoot(ms, rootPath).Some? then FirstAtRoot(ms, rootPath)
       else if m.path == rootPath then Some(m.name) else None)
    ensures OtherNodes(ms + [m], rootPath) == OtherNodes(ms, rootPath) + (if m.path == rootPath then [] else [MemberNode(m)])
    decreases |ms|
  {
    if ms == [] {
      assert ms + [m] == [m];
    } else {
      assert (ms + [m])[1..] == ms[1..] + [m];
      CountAtRootSnoc(ms[1..], m, rootPath);
    }
  }

  lemma {:induction false} FirstAtRootCount(ms: seq<MemberData>, rootPath: Path)
    ensures FirstAtRoot(ms, rootPath).None? <==> CountAtRoot(ms, rootPath) == 0
  {
    if ms != [] {
      FirstAtRootCount(ms[1..], rootPath);
    }
  }

  /** The loop raises exactly when two members sit at the root; otherwise it
      has found the first root member's name and every other member, in
      metadata order. */
  lemma {:induction false} ScanMeaning(ms: seq<MemberData>, rootPath: Path)
    ensures Scan(ms, rootPath).Success? <==> CountAtRoot(ms, rootPath) <= 1
    ensures Scan(ms, rootPath).Failure? ==> Scan(ms, rootPath).error == MultipleRoots
    ensures Scan(ms, rootPath).Success? ==>
      Scan(ms, rootPath).value == (FirstAtRoot(ms, rootPath), OtherNodes(ms, rootPath))
    decreases |ms|
  {
    if ms != [] {
      var pre := ms[..|ms| - 1];
      var m := ms[|ms| - 1];
      assert ms == pre + [m];
      ScanMeaning(pre, rootPath);
      CountAtRootSnoc(pre, m, rootPath);
      FirstAtRootCount(pre, rootPath);
      assert OtherNodes(pre, rootPath) + [] == OtherNodes(pre, rootPath);
    }
  }

  /** The member nodes are never roots and never have members. */
  lemma {:induction false} OtherNodesPlain(ms: seq<MemberData>, rootPath: Path)
    ensures forall i :: 0 <= i < |OtherNodes(ms, rootPath)| ==>
      !OtherNodes(ms, rootPath)[i].root && OtherNodes(ms, rootPath)[i].members == []
      && OtherNodes(ms, rootPath)[i].path != rootPath
  {
    if ms != [] {
      OtherNodesPlain(ms[1..], rootPath);
    }
  }

  /** The root's name when the metadata list none at the root: the git
      repository name, else the base name of the root directory. */
  function FallbackName(rootPath: Path, origin: Option<string>): string {
    var repo := GitRepoName(origin);
    if repo.Some? then repo.value else Name(rootPath)
  }

  /** `_root_node` over parsed metadata; `origin` is what `git remote get-url
      origin` printed, None when git is missing or failed. */
  method RootNode(meta: Metadata, origin: Option<string>) returns (r: Result<Node>)
    ensures r.Success? <==> CountAtRoot(meta.members, meta.workspaceRoot) <= 1
    ensures r.Failure? ==> r.error == MultipleRoots
    ensures r.Success? ==> r.value.path == meta.workspaceRoot && r.value.root
    ensures r.Success? ==> r.value.members == OtherNodes(meta.members, meta.workspaceRoot)
    ensures r.Success? && FirstAtRoot(meta.members, meta.workspaceRoot).Some? ==>
      r.value.name == FirstAtRoot(meta.members, meta.workspaceRoot).value
    ensures r.Success? && FirstAtRoot(meta.members, meta.workspaceRoot).None? ==>
      r.value.name == FallbackName(meta.workspaceRoot, origin)
    ensures r.Success? ==> WellFormed(r.value)
  {
    var rootPath := meta.workspaceRoot;
    var ms := meta.members;
    var rootName: Option<string> := None;
    var memberNodes: seq<Node> := [];
    for i := 0 to |ms|
      invariant Scan(ms[..i], rootPath) == Success((rootName, memberNodes))
    {
      var m := ms[i];
      assert ms[..i + 1][..i] == ms[..i];
      if m.path == rootPath {
        if rootName.None? {
          rootName := Some(m.name);
        } else {
          ScanFailsAfter(ms, rootPath, i + 1);
          ScanMeaning(ms, rootPath);
          return Failure(MultipleRoots);
        }
      } else {
        var node := NewNode(m.name, m.path, false, []);
        memberNodes := memberNodes + [node.value];
      }
    }
    assert ms[..|ms|] == ms;
    ScanMeaning(ms, rootPath);
    OtherNodesPlain(ms, rootPath);
    var name := if rootName.Some? then rootName.value else "";
    if rootName.None? {
      var repo := GitRepoName(origin);
      name := if repo.Some? then repo.value else Name(rootPath);
    }
    r := NewNode(name, rootPath, true, memberNodes);
  }

  /** Once the loop has failed on a prefix it fails on the whole list. */
  lemma {:induction false} ScanFailsAfter(ms: seq<MemberData>, rootPath: Path, i: nat)
    requires i <= |ms| && Scan(ms[..i], rootPath).Failure?
    ensures Scan(ms, rootPath).Failure?
    decreases |ms| - i
  {
    if i < |ms| {
      assert ms[..i + 1][..i] == ms[..i];
      ScanFailsAfter(ms, rootPath, i + 1);
    } else {
      assert ms[..i] == ms;
    }
  }

  // ===========================================================================
  // node

  /** The first of `ns` named `source` or located at `path`. */
  function FirstMatch(ns: seq<Node>, source: string, path: Path): (r: Option<Node>)
    ensures r.None? <==> forall i :: 0 <= i < |ns| ==> ns[i].name != source && ns[i].path != path
    ensures r.Some? ==> exists i :: (0 <= i < |ns| && r.value == ns[i]
      && (ns[i].name == source || ns[i].path == path)
      && forall j :: 0 <= j < i ==> ns[j].name != source && ns[j].path != path)
  {
    if ns == [] then None
    else if ns[0].name == source || ns[0].path == path then Some(ns[0])
    else
      var r := FirstMatch(ns[1..], source, path);
      assert forall i :: 1 <= i < |ns| ==> ns[i] == ns[1..][i - 1];
      r
  }

  /** `node(source)` on the root node `rnode`: the root for an empty source,
      else the first node, root first, whose name is `source` or whose path is
      `pathOf(source)`, the path `pathlib.Path` makes of it. */
  method FindNode(rnode: Node, source: string, pathOf: string -> Path) returns (r: Option<Node>)
    ensures source == "" ==> r == Some(rnode)
    ensures source != "" ==> r == FirstMatch(Nodes(rnode), source, pathOf(source))
  {
    if source == "" {
      return Some(rnode);
    }
    var ns := Nodes(rnode);
    var i := 0;
    while i < |ns|
      invariant 0 <= i <= |ns|
      invariant FirstMatch(ns, source, pathOf(source)) == FirstMatch(ns[i..], source, pathOf(source))
    {
      var n := ns[i];
      if n.name == source {
        return Some(n);
      }
      if pathOf(source) == n.path {
        return Some(n);
      }
      assert ns[i..][1..] == ns[i + 1..];
      i := i + 1;
    }
    return None;
  }

  /** Looking up the root's own name finds the root. */
  lemma FindRootByName(rnode: Node, path: Path)
    requires rnode.name != ""
    ensures FirstMatch(Nodes(rnode), rnode.name, path) == Some(rnode)
  {
  }

  /** In a workspace whose names differ from one another and from the root's,
      and whose paths differ from the looked-up path, a member's name finds
      that member. */
  lemma FindMemberByName(rnode: Node, k: nat, path: Path)
    requires k < |rnode.members|
    requires forall i :: 0 <= i < |Nodes(rnode)| && i != k + 1 ==> Nodes(rnode)[i].name != rnode.members[k].name
    requires forall i :: 0 <= i < |Nodes(rnode)| ==> Nodes(rnode)[i].path != path
    ensures FirstMatch(Nodes(rnode), rnode.members[k].name, path) == Some(rnode.members[k])
  {
    var ns := Nodes(rnode);
    var r := FirstMatch(ns, rnode.members[k].name, path);
    assert ns[k + 1] == rnode.members[k];
    var i :| 0 <= i < |ns| && r.value == ns[i] && (ns[i].name == rnode.members[k].name || ns[i].path == path)
      && forall j :: 0 <= j < i ==> ns[j].name != rnode.members[k].name && ns[j].path != path;
    assert i == k + 1;
  }
}
