# reggie-build workspace synchronisation, modelled in Dafny

`reggie_build` keeps the `pyproject.toml` manifests of a uv workspace in step
with its root project. It copies the root's `[build-system]` and
`[tool.member-project]` tables into the members and stamps one version on
every project. It also rewrites dependencies on fellow members into
`name @ file://${PROJECT_ROOT}/…` references and keeps `tool.uv.sources` in
agreement with those references. The edited manifests are then written back
only where their text changed.

There are three generations of this engine:
- `reggie_build.sync` works on `projects.Project` objects;
- `reggie_build.workspace_sync` works on a `pyproject.PyProjectTree` built from `uv workspace metadata`;
- the legacy `reggie_build.workspace` Typer app.

This project models all three, together with the helpers they are built from.

A manifest is a closed TOML tree, `Toml.Value`
(`Table | Array | Str | Int | Bool | Nil`). Its tables are ordered association
lists: assignment replaces an entry in place or appends one, as a Python dict
does. Paths are component sequences (`Files.Path`). The file contents a run
reads and writes live in the `Files.TextStore` class.

Code that mutates state in the source is modelled as methods with `modifies`
clauses and loops with invariants. Each such method is proved equal to, or
bounded by, a specification function, and the promised properties are lemmas
about that function. The modules follow the source files:

| module | models |
|---|---|
| `Wrappers`, `Toml`, `Text`, `Files` | Result/Option, the document tree, Python string methods, paths, `os.path.relpath`, the text store |
| `Utils` | `utils.py`: `clean_text`, `mapping_get`, `mapping_set`, `mapping_merge`, `mapping_prune`, the URL step of `git_repo_name` |
| `Projects` | `projects.py`: `_clean_yaml`, `is_workspace`, `Project.name`, `member_dirs`, `dir`, the `Project` class |
| `Sync` | `sync.py`: `parse_dep_name`, the `_set` closures, `_update_projects`, `_persist_projects`, `_projects`, `all` |
| `Workspaces` | `workspaces.py`: `WorkspaceNode`, `_root_node`, `node` |
| `Pyproject` | `pyproject.py`: `TableNode.remove`/`prune`, the `PyProject` class, `PyProjectTree`, `tree`, `_git_repo_name` |
| `WorkspaceSync` | `workspace_sync.py`: `sync` and its steps |
| `LegacyWorkspace` | `workspace.py`: the legacy `sync` commands, `_update_projects`, `_persist_projects`, `_projects` |

Inputs the engine gets from outside are parameters:
- the TOML parser and dumper (`parse`, `dump`);
- the taplo formatter (`format`);
- `fnmatch` (`glob`) and `pathlib.Path(str)` (`pathOf`);
- what `git remote get-url origin` printed (`origin`), the git-derived version (`git`), the outcome of `workspace_sync._version()`, a version or its error (`computed`);
- the parsed `uv workspace metadata` (`Metadata`);
- the directory-name resolver `projects.dir` (`locate`) and manifest loading (`load`).

The dependency-name pattern of `workspace_sync` is `Sync.ParseDepName`, the same regular expression as `sync.parse_dep_name`. `WorkspaceSync.SyncWorkspace` passes it; the steps below it take it as the `depName` parameter.

## Model

| member | source | states |
|---|---|---|
| Utils.CleanText | src/reggie_build/utils.py:161-170 | The loop computes `CleanedText`: strip, right-strip each line, keep a blank line only after a non-blank one, end a non-empty result with one newline. |
| Utils.CleanTextShape | src/reggie_build/utils.py:161-170 | The result is "" exactly for blank input. Otherwise it ends in one newline, no line has trailing whitespace, no two lines in a row are blank, the first and last lines are not blank, and the non-blank lines of the input survive in order. |
| Utils.CleanedTextIsLines | src/reggie_build/utils.py:169-170 | The output is its cleaned lines joined, plus one newline, and is empty exactly when the input is blank. |
| Utils.CleanTextIdempotent | src/reggie_build/utils.py:161-170 | Cleaning cleaned text changes nothing. |
| Utils.CollapseShape | src/reggie_build/utils.py:165-168 | The kept lines never start with a blank line and never hold two blank lines in a row. |
| Utils.CollapseNonBlank | src/reggie_build/utils.py:165-168 | The squeeze drops only blank lines: the non-blank lines are the same, in order. |
| Utils.MappingGet | src/reggie_build/utils.py:191-203 | The walking loop returns `default` for None or empty data or an empty path. Otherwise it returns the value under the path, or `default` when a key is missing, an intermediate value is not a table, or the leaf is None. |
| Utils.MappingSetStores | src/reggie_build/utils.py:229-242 | After setting with a non-empty path, the path leads to the value, and every proper prefix of the path leads to a table. |
| Utils.MappingSetFrame | src/reggie_build/utils.py:229-242 | Every lookup under a path that diverges from the written one is unchanged. |
| Utils.MappingSetPresent | src/reggie_build/utils.py:233-234 | Setting a value that is already stored at the path changes nothing and reports no modification. |
| Utils.MappingSetFlag | src/reggie_build/utils.py:226-243 | The corrected flag is true exactly when the document changed; an empty path changes nothing. |
| Utils.MappingSetAsWrittenFlag | src/reggie_build/utils.py:232-237 | The as-written code writes the same document as the corrected one, but its flag only reports whether the old leaf differed from the new value. |
| Utils.MappingSetNoneCounterexample | src/reggie_build/utils.py:239-242 | Setting None under a missing intermediate key creates `{"a": {}}`, yet as written it reports False. |
| Utils.MappingMerge | src/reggie_build/utils.py:266-281 | An empty or None right side leaves `left` alone and reports no modification. Otherwise the result is the recursive merge `Merge`. |
| Utils.MergeEntries | src/reggie_build/utils.py:268-280 | The loop over the items of the right mapping computes `Merge`, descending into nested tables. |
| Utils.MergeFrame | src/reggie_build/utils.py:266-281 | A key of `left` that `right` does not name keeps its value. |
| Utils.MergeAbsorbs | src/reggie_build/utils.py:268-280 | Afterwards `left` holds every entry of `right`: nested tables merged into, every other value replaced. |
| Utils.MergeAbsorbed | src/reggie_build/utils.py:278-280 | Merging into a mapping that already holds the right-hand entries changes nothing and reports no modification, so an equal overwrite does not count. |
| Utils.MergeIdempotent | src/reggie_build/utils.py:266-281 | Merging the same mapping twice is merging it once. |
| Utils.MergeFlag | src/reggie_build/utils.py:266-281 | The merge flag is true exactly when the left mapping changed. |
| Utils.MappingPrune | src/reggie_build/utils.py:284-335 | `mapping_prune` as written, on a mapping or None, computes `PruneValue`. |
| Utils.Prune | src/reggie_build/utils.py:312-333 | `_prune` (a snapshot of mapping keys, lists walked from the last index down) computes `PruneValue`. |
| Utils.PruneTable | src/reggie_build/utils.py:317-324 | The key loop computes the entry-level prune of a table. |
| Utils.PruneArray | src/reggie_build/utils.py:325-332 | The reversed index loop computes the item-level prune of a list. |
| Utils.PruneValueShrinks | src/reggie_build/utils.py:312-333 | A reported change strictly shrinks the value, and no reported change means the value is unchanged. |
| Utils.MappingPruneFlag | src/reggie_build/utils.py:312-335 | The as-written flag is true exactly when something was removed. |
| Utils.PruneEntriesFind | src/reggie_build/utils.py:317-324 | As written, an entry is removed exactly when its value was None or an empty collection BEFORE pruning. Every other entry stays, pruned. |
| Utils.MappingPruneCounterexample | src/reggie_build/utils.py:320-323 | `{"a": {"b": {}}}` prunes to `{"a": {}}`, which is not pruned; a second pass removes `a`. |
| Utils.MappingPruneDeep | src/reggie_build/utils.py:284-335 | The bottom-up prune the documentation describes: the result holds no None and no empty collection below the top, and the flag is true exactly when the data changed. |
| Utils.PruneDeepPrunes | src/reggie_build/utils.py:288-289 | After the corrected prune no None and no empty collection is left anywhere below the top. |
| Utils.PruneDeepFind | src/reggie_build/utils.py:308-333 | An entry is removed exactly when it is None or prunes down to an empty collection; every other entry stays, pruned. |
| Utils.PruneDeepKeepsScalars | src/reggie_build/utils.py:308-310 | Scalars are never removed, empty strings, zero and false included. |
| Utils.PruneDeepFixed | src/reggie_build/utils.py:312-333 | A value with nothing to prune is returned as it is, with no modification reported. |
| Utils.PruneDeepIdempotent | src/reggie_build/utils.py:312-333 | Pruning twice is pruning once. |
| Utils.PruneDeepFlag | src/reggie_build/utils.py:312-335 | The corrected flag is true exactly when something was removed. |
| Utils.RepoNameFromPath | src/reggie_build/utils.py:450-451 | A name found is non-empty and holds no `/`. |
| Utils.GitRepoName | src/reggie_build/utils.py:438-451 | No origin, or an empty one, gives None; any name found is non-empty and has no `/`. |
| Utils.GitRepoNameSsh | src/reggie_build/utils.py:442-444 | `git@host:owner/repo.git` is normalised to an `ssh://` URL and names the repository `repo`. |
| Utils.GitRepoNameHttps | src/reggie_build/utils.py:446-451 | `https://host/owner/repo.git` names the repository `repo`: last path segment, `.git` removed. |
| Files.RelPathFollows | src/reggie_build/workspace_sync.py:266 | Following the relative path from `start` leads back to `target`. |
| Files.RelPathSibling | src/reggie_build/workspace_sync.py:266 | Between two sibling directories the relative path is `../name`. |
| Files.RelPathSelf | src/reggie_build/workspace_sync.py:266 | A directory relative to itself is `.`. |
| Files.TextStore.Write | src/reggie_build/sync.py:103 | Writing a file sets that file's text and leaves every other file alone. |
| Projects.SqueezeBlankLines | src/reggie_build/projects.py:297-302 | The `prev_blank` loop computes `KeptLines`, which drops each blank line that follows a blank line. |
| Projects.CleanYaml | src/reggie_build/projects.py:288-305 | The method computes `CleanedYaml`. |
| Projects.CleanYamlNone | src/reggie_build/projects.py:289-292 | The result is None exactly for empty or whitespace-only text. |
| Projects.CleanYamlShape | src/reggie_build/projects.py:293-305 | Any other text gives a result that is stripped apart from one final newline, holds no two blank lines in a row, and keeps every non-blank input line in order. |
| Projects.CleanYamlFixed | src/reggie_build/projects.py:288-305 | Cleaning a cleaned text changes nothing. |
| Projects.KeptLinesEnds | src/reggie_build/projects.py:297-302 | The first line is always kept, the last one when it is not blank, and no new line appears. |
| Projects.KeptLinesNoRun | src/reggie_build/projects.py:298-300 | After the squeeze no two lines in a row are blank. |
| Projects.KeptLinesNonBlank | src/reggie_build/projects.py:297-302 | Every non-blank line is kept, in order. |
| Projects.KeptLinesFixed | src/reggie_build/projects.py:297-302 | Lines without a blank run are kept as they are. |
| Projects.IsWorkspace | src/reggie_build/projects.py:233-236 | The result is True exactly when `tool.uv.workspace` is truthy. It raises exactly when `tool` or `tool.uv` holds a value that is not a table. |
| Projects.ProjectName | src/reggie_build/projects.py:378-379 | `project.name` when it is truthy, otherwise the directory name. |
| Projects.PyprojectFile | src/reggie_build/projects.py:105-113 | Whatever the walk finds is an existing file named `pyproject.toml`, and a path with an empty name yields None. |
| Projects.PyprojectFileOfDir | src/reggie_build/projects.py:106-107 | A project directory resolves to its own manifest. |
| Projects.PyprojectFileInside | src/reggie_build/projects.py:108-110 | A file or missing path inside a project directory resolves, through its parent, to that directory's manifest. |
| Projects.FirstNamed | src/reggie_build/projects.py:123-126 | Returns the directory of the first project with an equal name, and None exactly when no project has that name. |
| Projects.Dir | src/reggie_build/projects.py:115-126 | When the walk finds a manifest, the answer is its parent. Otherwise, only for a string input with `match_member`, it is the first of root-then-members with that name. In every other case it is None. |
| Projects.MatchItems | src/reggie_build/projects.py:423-434 | Gives True exactly when some pattern matches and every pattern before it is a string, and False exactly when every pattern is a string that does not match. A non-string pattern encountered raises. |
| Projects.Iterated | src/reggie_build/projects.py:434 | Arrays give their items. Only tables, arrays and strings can be iterated. |
| Projects.MemberDirs | src/reggie_build/projects.py:436-443 | The `iterdir` loop computes `MemberDirList` over the listing, in order. |
| Projects.MemberDirListYields | src/reggie_build/projects.py:436-443 | A scan that succeeds yields exactly the directories of the entries that match a member pattern, match no exclusion and resolve to a project directory. |
| Projects.MemberDirListFailure | src/reggie_build/projects.py:441 | The scan fails exactly when some entry's pattern match raises. |
| Projects.MemberDirListFails | src/reggie_build/projects.py:436-443 | Once an entry raises, the whole scan fails. |
| Projects.MemberDirOfProject | src/reggie_build/projects.py:437-443 | A listed sub-directory with its own manifest, matching a member pattern and no exclusion, is a member directory. |
| Projects.Project.constructor | src/reggie_build/projects.py:351-360 | A project holds its directory and its parsed manifest. |
| Sync.ParseDepName | src/reggie_build/sync.py:215-216 | This is the regular expression's longest-run match: the captured name for `name @ file://…`, otherwise the whole input. |
| Sync.ParseFileReference | src/reggie_build/sync.py:215-216 | A name made of name characters followed by ` @ file://` parses back to that name. |
| Sync.ParseMemberReference | src/reggie_build/sync.py:230 | The rewritten reference `name @ file://${PROJECT_ROOT}/../name` parses back to `name`. |
| Sync.RewriteDependencies | src/reggie_build/sync.py:225-231 | The index loop computes `RewriteItems`. |
| Sync.RewriteAny | src/reggie_build/sync.py:222-231 | The index loop over whatever `project.dependencies` holds: a list is rewritten; a string succeeds, unchanged, exactly when no one-character name is a member; a table succeeds exactly when empty; a number, boolean or None has no length. Only a list yields member dependencies. |
| Sync.RewriteAnyDependencies | src/reggie_build/sync.py:222-231 | The loop computes `RewriteAny`. |
| Sync.ScanNames | src/reggie_build/sync.py:226-231 | Walking a string fails, with the item-assignment error, exactly when some one-character name parsed from it is a member. |
| Sync.RewriteItemsEntries | src/reggie_build/sync.py:225-231 | The rewrite keeps the list length. Each entry whose parsed name is a member becomes that member's reference; every other entry is unchanged. |
| Sync.RewriteItemsFound | src/reggie_build/sync.py:227-231 | The member dependencies recorded are exactly the parsed names that are members. |
| Sync.RewriteItemsSucceeds | src/reggie_build/sync.py:226 | The rewrite raises exactly when some entry is not a string. |
| Sync.RewriteItemsIdempotent | src/reggie_build/sync.py:215-231 | For member names the pattern reads back, rewriting a rewritten list changes nothing and finds the same members. |
| Sync.RewriteItemsNothingFound | src/reggie_build/sync.py:225-231 | When no member dependency is found, the list is unchanged. |
| Sync.DropStaleSources | src/reggie_build/sync.py:235-237 | The clean-up loop computes `DropStale`. |
| Sync.DropStaleKeeps | src/reggie_build/sync.py:236 | Sources for names among the member dependencies are untouched. |
| Sync.DropStaleClears | src/reggie_build/sync.py:236-237 | No source outside the member dependencies is left with `workspace = true`. |
| Sync.DropStaleKeepsOthers | src/reggie_build/sync.py:236 | A source that is not a workspace source is kept as it is. |
| Sync.DropStaleClearsAbsent | src/reggie_build/sync.py:235-237 | The clean-up adds no key. |
| Sync.MarkWorkspaceSources | src/reggie_build/sync.py:239-244 | The closing `mapping_set` loop computes `SetWorkspaceSources`. |
| Sync.SetWorkspaceSourcesStores | src/reggie_build/sync.py:241-244 | Every member dependency ends with `tool.uv.sources.<n>.workspace == true`. |
| Sync.SetWorkspaceSourcesFrame | src/reggie_build/sync.py:241-244 | Lookups under the source of a name that is not a member dependency are unchanged. |
| Sync.MemberDependencies | src/reggie_build/sync.py:218-244 | The `_set` closure of `member_project_dependencies` computes `SyncDependencies` on one manifest. |
| Sync.SyncDependenciesList | src/reggie_build/sync.py:222-231 | Afterwards `project.dependencies` is the rewritten list, and the reported member dependencies are the ones found. |
| Sync.SyncDependenciesSources | src/reggie_build/sync.py:232-244 | Afterwards every member dependency has a workspace source and no other name has one. |
| Sync.SyncDependenciesKeepsSources | src/reggie_build/sync.py:236 | A source with `workspace` absent or false, of a name that is not a member dependency, survives unchanged. |
| Sync.SyncDependenciesFrame | src/reggie_build/sync.py:218-244 | The edit changes nothing outside `project.dependencies` and `tool.uv.sources`. |
| Sync.CleanSourcesClears | src/reggie_build/sync.py:232-237 | After the clean-up no source of a name outside the member dependencies is a workspace source. |
| Sync.CleanSourcesKeeps | src/reggie_build/sync.py:232-237 | The clean-up keeps every other source that is not a workspace source. |
| Sync.CleanSourcesOutside | src/reggie_build/sync.py:232-237 | The clean-up changes nothing outside `tool`. |
| Sync.SetBuildSystem | src/reggie_build/sync.py:186 | The manifest's `build-system` becomes a copy of the root's, and no other key changes. |
| Sync.SetMemberTool | src/reggie_build/sync.py:262-266 | A truthy `tool.member-project` is stored at the same path of the target; a falsy one changes nothing. |
| Sync.SetVersionStores | src/reggie_build/sync.py:334-337 | Afterwards `project.version` is the version, and the manifest was left alone exactly when it already held it. |
| Sync.ChosenVersion | src/reggie_build/sync.py:328-329 | The requested version when it is non-empty; otherwise the git-derived version; otherwise `0.0.1`. |
| Sync.SetBuildSystemRoot | src/reggie_build/sync.py:179-186 | Copying the root's own build system into the root changes nothing. |
| Sync.SetMemberToolRoot | src/reggie_build/sync.py:262-266 | Copying the root's own `tool.member-project` into the root changes nothing. |
| Sync.SetBuildSystemIdempotent | src/reggie_build/sync.py:186 | A second build-system copy changes nothing. |
| Sync.SetMemberToolIdempotent | src/reggie_build/sync.py:263-266 | A second member-tool copy changes nothing. |
| Sync.SetVersionIdempotent | src/reggie_build/sync.py:335-336 | A second version assignment changes nothing. |
| Sync.IterateIdempotent | src/reggie_build/sync.py:357-358 | An edit that always succeeds and leaves its own result alone acts once, however often a project is listed. |
| Sync.UpdateProjects | src/reggie_build/sync.py:357-358 | Succeeds exactly when each target's edit, repeated as many times as the target is listed, succeeds; each target is then that repeated edit of its old manifest. |
| Sync.BuildSystem | src/reggie_build/sync.py:178-188 | Warns exactly when the root has no truthy `build-system`, and then changes no target. Otherwise every target's `build-system` becomes the root's. |
| Sync.MemberProjectTool | src/reggie_build/sync.py:260-268 | Every target becomes `SetMemberTool` of its old manifest with the root's `tool.member-project`, including the root when it is listed. |
| Sync.Version | src/reggie_build/sync.py:328-339 | The version applied is `ChosenVersion`, and every target's manifest becomes `SetVersion` of the old one. |
| Sync.MemberProjectDependencies | src/reggie_build/sync.py:201-246 | Every target is rewritten against the member names taken before the loop. It succeeds exactly when every rewrite does. |
| Sync.SyncEditOnce | src/reggie_build/sync.py:218-246 | A target listed once is rewritten once. |
| Sync.Serialised | src/reggie_build/sync.py:97 | The text written ends in a newline, and what precedes it has no leading or trailing whitespace. |
| Sync.PersistOne | src/reggie_build/sync.py:92-105 | One turn of the loop: prune if asked, then write the file unless `force` is off and the file already holds the text. It reports whether it wrote. |
| Sync.PersistProjects | src/reggie_build/sync.py:90-107 | Every target is pruned when asked. Files and flag are the compare-then-write `Persisted` of the targets' texts. |
| Sync.PersistedOverlay | src/reggie_build/sync.py:98-103 | Skipping a write whose text is already there changes no file's final content. |
| Sync.PersistedForce | src/reggie_build/sync.py:98-104 | With `force` the flag is raised exactly when there is a target to write. |
| Sync.PersistedUnchanged | src/reggie_build/sync.py:98-101 | Without `force`, when every text equals its file's content nothing is written and the flag stays down. |
| Sync.PersistedFlag | src/reggie_build/sync.py:98-106 | Without `force`, with one target per file, the flag is raised exactly when some text differs from its file's content or the file is missing. |
| Sync.OverlayUntouched | src/reggie_build/sync.py:103 | A file no write names keeps its content. |
| Sync.OverlayLast | src/reggie_build/sync.py:103 | The last write to a file decides its content. |
| Sync.FirstUnresolved | src/reggie_build/sync.py:382-390 | Returns the index of the first identifier `dir` cannot place, or the number of identifiers. |
| Sync.FirstUnresolvedStep | src/reggie_build/sync.py:382-390 | The first unresolved index is `i` exactly when every earlier identifier resolves and `i` does not. |
| Sync.ResolveProjects | src/reggie_build/sync.py:375-391 | With no identifiers: the members, plus the root when its `project` table is truthy. Otherwise it fails exactly when some identifier does not resolve, with `Project <id> not found` for the first such one. On success it returns one project per identifier: projects pass through, names become fresh projects at their directory. |
| Sync.IterateFrame | src/reggie_build/sync.py:357-358 | An edit that keeps the value under a path keeps it however often it is applied. |
| Sync.RunCommands | src/reggie_build/sync.py:151-155 | The registered commands run in order: build system, dependencies, member tool, ruff, version. The run succeeds exactly when every target's `AllEdit` does and `RuffOutcome` (ruff required, since the list is passed) does; each target then ends as its `AllEdit`. When the edits succeed but ruff fails, the run fails with ruff's error and the versions are not yet set. |
| Sync.AllEditSettles | src/reggie_build/sync.py:151-155 | After `all`, every manifest carries the root's build system (when the root has one), the root's `tool.member-project` (when truthy) and the chosen version. |
| Sync.AllRootTool | src/reggie_build/sync.py:151-155 | The root, when it is a target, still holds its own `tool.member-project` after the first two commands. |
| Sync.All | src/reggie_build/sync.py:138-157 | The commands run, ruff included, then (when `persist` is set) pruning and a forced write of every target. The run succeeds exactly when every edit and ruff do; files change only then, and only when `persist` is set. |
| Sync.Ruff | src/reggie_build/sync.py:271-297 | Without ruff installed: fails with the missing-executable error exactly when required, else does nothing. With ruff: the outcome of `ruff format`, the same as the function `RuffOutcome`. |
| Workspaces.NewNode | src/reggie_build/workspaces.py:56-63 | Construction succeeds exactly when the node is well formed: only a root node has members, and no member is a root. Each failure carries its own error. |
| Workspaces.RootNode | src/reggie_build/workspaces.py:102-122 | Fails with "Multiple workspace roots found" exactly when two members sit at the workspace root. Otherwise the node is a well-formed root at the workspace root, its members are the other members in order, and its name is the root member's name, else the git repo name, else the directory name. |
| Workspaces.ScanMeaning | src/reggie_build/workspaces.py:106-115 | The loop raises exactly on a second root member; otherwise it finds the first root member's name and all other members, in order. |
| Workspaces.ScanFailsAfter | src/reggie_build/workspaces.py:106-115 | Once the loop has failed on a prefix it fails on the whole list. |
| Workspaces.OtherNodesPlain | src/reggie_build/workspaces.py:115 | Member nodes are never roots and never have members. |
| Workspaces.FirstMatch | src/reggie_build/workspaces.py:153-158 | The first node named `source` or located at its path, and None exactly when no node matches. |
| Workspaces.FindNode | src/reggie_build/workspaces.py:150-158 | An empty source gives the root. Otherwise the result is the first match in `nodes()` order: the root, then the members. |
| Workspaces.FindRootByName | src/reggie_build/workspaces.py:153-155 | Looking up the root's own name finds the root. |
| Workspaces.FindMemberByName | src/reggie_build/workspaces.py:153-157 | When names are distinct and paths do not collide, a member's name finds that member. |
| Pyproject.RemovedAtMeaning | src/reggie_build/pyproject.py:42-51 | A node is removed exactly when it has a parent that holds its key. Afterwards the key is gone and every other key of the parent is unchanged. A parentless node is never removed. |
| Pyproject.PrunedAtFlag | src/reggie_build/pyproject.py:53-63 | Pruning removes something exactly when the node is an empty table below the document. Otherwise nothing changes, so a non-empty table and its ancestors stay. |
| Pyproject.PrunedAtStops | src/reggie_build/pyproject.py:57-62 | An empty node whose parent holds another key is removed, and pruning stops at the parent. |
| Pyproject.PyProject.Remove | src/reggie_build/pyproject.py:42-51 | On a node in the document, `TableNode.remove` is `RemovedAt`. On a node that `table` detached, the document is untouched. |
| Pyproject.PyProject.Prune | src/reggie_build/pyproject.py:53-63 | On a node in the document, `TableNode.prune` is `PrunedAt`. On a detached node the climb reaches the last table still in the document and prunes from there. |
| Pyproject.Ensured | src/reggie_build/pyproject.py:141-147 | The corrected create-on-demand: afterwards the keys lead to a table. |
| Pyproject.EnsuredPresent | src/reggie_build/pyproject.py:138-150 | Where the tables already exist, creating them changes nothing. |
| Pyproject.EnsuredIdempotent | src/reggie_build/pyproject.py:138-150 | Creating the tables twice is creating them once. |
| Pyproject.EnsuredEmpty | src/reggie_build/pyproject.py:143-147 | A table that was missing is created empty. |
| Pyproject.EnsuredAsWritten | src/reggie_build/pyproject.py:138-150 | The create walk as written, with how many keys stay attached: those keys lead to a table, and when the walk detaches, the next key holds nothing in the new document. |
| Pyproject.EnsuredAsWrittenStep | src/reggie_build/pyproject.py:141-147 | One more key: once detached the walk stays detached; otherwise an existing table is entered, a non-table value is deleted and the walk detaches, and a missing key gets a new empty table. |
| Pyproject.EnsuredAgrees | src/reggie_build/pyproject.py:141-147 | Where the walk as written stays attached to the end, it makes the same document as the corrected `Ensured`. |
| Pyproject.PrunedAtAbsent | src/reggie_build/pyproject.py:53-63 | Pruning from a table never brings back a key path below it that was absent. |
| Pyproject.EnsuredAsWrittenDetaches | src/reggie_build/pyproject.py:144-145 | With `tool = "x"`, `table("tool", create=True)` deletes the value and returns a table that is not in the document. |
| Pyproject.PyProject.constructor | src/reggie_build/pyproject.py:74-79 | The path is normalised to a manifest file, and nothing is loaded. |
| Pyproject.PyProject.Data | src/reggie_build/pyproject.py:81-90 | The first read loads and keeps the parsed file; later reads return the loaded document; a missing file raises. |
| Pyproject.PyProject.Table | src/reggie_build/pyproject.py:131-151 | Without `create`: a node exactly when the keys lead to a table, else None. With `create`: the document becomes that of `EnsuredAsWritten`, and the node is in the document when every key stayed attached, else detached below the last attached table. A load error is passed on. |
| Pyproject.PyProject.Persist | src/reggie_build/pyproject.py:92-129 | With loaded content: the formatted dump replaces the file, the data is dropped, and it reports whether the text differed. With `force_format` only: the file is reformatted in place. Otherwise it returns False and writes nothing. A missing destination raises. |
| Pyproject.PyProjectTree.Projects | src/reggie_build/pyproject.py:173-177 | The root first, then the members in insertion order. |
| Pyproject.PyProjectTree.FilterMembers | src/reggie_build/pyproject.py:179-195 | No names: nothing changes. With `required`: the first listed name that is not a member raises before anything is removed. Otherwise exactly the listed members remain, unchanged, and the root is untouched. |
| Pyproject.MissingName | src/reggie_build/pyproject.py:189-192 | The `required` loop finds the first listed name that is not a member. |
| Pyproject.FirstMissingMeaning | src/reggie_build/pyproject.py:189-192 | Nothing is missing exactly when every listed name is present, and what is missing is a listed, absent name. |
| Pyproject.KeepNamed | src/reggie_build/pyproject.py:193-195 | The pop loop over a snapshot of the keys keeps exactly the listed members, in order. |
| Pyproject.OnlyNamedMeaning | src/reggie_build/pyproject.py:193-195 | Filtering keeps exactly the listed entries, in order, and filtering again changes nothing. |
| Pyproject.WithoutMeaning | src/reggie_build/pyproject.py:195 | Popping a name removes its entry and keeps the others in order. |
| Pyproject.AssignMeaning | src/reggie_build/pyproject.py:213 | `d[name] = item` stores the item under its name and leaves every other name's item alone. |
| Pyproject.Assign | src/reggie_build/pyproject.py:213 | An existing name keeps its place; a new name is appended. |
| Pyproject.TreeMembersMeaning | src/reggie_build/pyproject.py:209-213 | Each name appears once in the members dict, maps to the path of the last member with that name, and the dict never holds the root. |
| Pyproject.MemberProjects | src/reggie_build/pyproject.py:209-213 | The loop returns the name of the last member at the root and one fresh, unloaded manifest per other member, by name. |
| Pyproject.TreeNameMeaning | src/reggie_build/pyproject.py:216 | With the corrected root path: a non-empty root member name wins. Otherwise the name fails exactly when the git origin does not parse, and a name found is never empty while the root directory has a name. |
| Pyproject.TreeNameAsWrittenCounterexample | src/reggie_build/pyproject.py:214-216 | As written, a workspace `ws` with no root member and no git origin is named `pyproject.toml`; as intended it is named `ws`. |
| Pyproject.TreeNameAgrees | src/reggie_build/pyproject.py:214-216 | The name as written fails exactly when the intended one does, with the same error. The two differ only in the fallback, where the written one is the manifest's file name; without a root directory they agree. |
| Pyproject.Tree | src/reggie_build/pyproject.py:198-219 | Fails exactly when the name as written fails. On success the tree carries that name and is valid and fresh, with an unloaded root manifest at the workspace root and one unloaded manifest per member away from the root. |
| Pyproject.PyGitRepoName | src/reggie_build/pyproject.py:238-254 | A name found is non-empty and has no `/`. |
| Pyproject.PyGitRepoNameAgrees | src/reggie_build/pyproject.py:238-250 | Wherever `urlparse` accepts the stripped origin, this variant agrees with `utils.git_repo_name`. |
| Pyproject.PyGitRepoNameSsh | src/reggie_build/pyproject.py:241-250 | The printed `git@host:owner/repo.git` plus its newline names the repository `repo`. |
| WorkspaceSync.Outcome | src/reggie_build/workspace_sync.py:121-131 | A loop that stops at the first error fails exactly when one step fails, with the first such error. |
| WorkspaceSync.EditEach | src/reggie_build/workspace_sync.py:121-131 | Over distinct manifests, each one is loaded and edited in order, and the first error stops the loop. |
| WorkspaceSync.Versioned | src/reggie_build/workspace_sync.py:122-131 | The step raises exactly when `project` is present, not None and not a table; the error is the missing `.get`. |
| WorkspaceSync.VersionedMeaning | src/reggie_build/workspace_sync.py:122-131 | A `project` table ends up holding the version. The document changes exactly when it has a `project` table that does not hold it yet. |
| WorkspaceSync.VersionedFrame | src/reggie_build/workspace_sync.py:131 | Nothing but `project.version` changes. |
| WorkspaceSync.VersionedSettles | src/reggie_build/workspace_sync.py:128-131 | A second version step changes nothing. |
| WorkspaceSync.VersionedWith | src/reggie_build/workspace_sync.py:122-127 | `_version()` is consulted only for a manifest whose `project` is present and not None, before `project` is read. The step fails exactly there, when `_version()` failed or `project` is not a table; the error of `_version()` comes first. With a version in hand, the step is `Versioned`. |
| WorkspaceSync.VersionOf | src/reggie_build/workspace_sync.py:126-127 | The requested version when there is one, else the outcome of `_version()`. |
| WorkspaceSync.SyncVersion | src/reggie_build/workspace_sync.py:115-138 | Every manifest gets the version step with one version value, the requested one or else the outcome of `_version()`. A failed `_version()` stops the loop at the first manifest whose `project` is present and not None. |
| WorkspaceSync.SyncBuildSystem | src/reggie_build/workspace_sync.py:172-181 | The root is loaded and never changed. Without a truthy `build-system`, no member changes. Otherwise every member (never the root) gets a copy. |
| WorkspaceSync.MemberProjectData | src/reggie_build/workspace_sync.py:188-190 | A `tool` that is not a table raises; otherwise the result is `tool.member-project`, or `{}`. |
| WorkspaceSync.Merged | src/reggie_build/workspace_sync.py:194 | A value that is not a mapping cannot be merged and raises. |
| WorkspaceSync.MergedMeaning | src/reggie_build/workspace_sync.py:194 | After the merge, the member's top-level document holds every entry of the root's table and keeps every key the table does not name. |
| WorkspaceSync.MergedSettles | src/reggie_build/workspace_sync.py:194 | A second merge of the same table changes nothing. |
| WorkspaceSync.SyncMemberProjectTool | src/reggie_build/workspace_sync.py:184-194 | The root is loaded and never changed. A `tool` that is not a table raises. A falsy table changes no member. Otherwise it is merged into every member's top-level document. |
| WorkspaceSync.LayoutOf | src/reggie_build/workspace_sync.py:212-222 | The unfiltered tree used for resolution fails exactly when its name as written fails, and otherwise carries that name. |
| WorkspaceSync.MemberDependencyParses | src/reggie_build/workspace_sync.py:256-267 | The reference parses back to the name it was made from. |
| WorkspaceSync.MemberDependencySibling | src/reggie_build/workspace_sync.py:264-267 | Between sibling member directories the reference is `name @ file://${PROJECT_ROOT}/../<dir>`. |
| WorkspaceSync.MemberDependencySelf | src/reggie_build/workspace_sync.py:264-267 | A project depending on its own directory refers to `.`. |
| WorkspaceSync.RewrittenDep | src/reggie_build/workspace_sync.py:217-225 | A string whose parsed name is the unfiltered root's name, or a member's, is replaced by the reference and recorded. Other strings are unchanged. A non-string raises. |
| WorkspaceSync.RewriteDepsSucceeds | src/reggie_build/workspace_sync.py:216-217 | The rewrite fails exactly when some entry is not a string, with the first such entry's error. |
| WorkspaceSync.RewriteDepsEntries | src/reggie_build/workspace_sync.py:216-225 | The rewrite keeps the length, and each entry is rewritten on its own. |
| WorkspaceSync.RewriteDepsFound | src/reggie_build/workspace_sync.py:223-225 | The names recorded are exactly those of the entries that resolve. |
| WorkspaceSync.RewriteDepsIdempotent | src/reggie_build/workspace_sync.py:216-225 | When references read back, rewriting a rewritten list changes nothing and records the same names. |
| WorkspaceSync.RewriteList | src/reggie_build/workspace_sync.py:216-225 | The enumerate loop computes `RewriteDeps`. |
| WorkspaceSync.RewriteDependencies | src/reggie_build/workspace_sync.py:215-225 | The loop over whatever `project.dependencies` holds computes `RewriteValue`. |
| WorkspaceSync.RewriteValue | src/reggie_build/workspace_sync.py:214-225 | The enumerate loop over whatever truthy value `project.dependencies` holds: a value other than a list, when indexing it succeeds, comes back unchanged with no member dependency found. |
| WorkspaceSync.DepsRewrittenMeaning | src/reggie_build/workspace_sync.py:214-225 | A dependency list is rewritten entry by entry, and nothing outside `project.dependencies` changes. |
| WorkspaceSync.Kept | src/reggie_build/workspace_sync.py:231-234 | Reading a source that is not a table raises. A workspace source of a name that is not a member dependency is dropped. |
| WorkspaceSync.ClearSources | src/reggie_build/workspace_sync.py:231-240 | The clean-up loop computes `Cleared`. |
| WorkspaceSync.ClearedSucceeds | src/reggie_build/workspace_sync.py:232 | The clean-up fails exactly when some source is not a table. |
| WorkspaceSync.ClearedKeeps | src/reggie_build/workspace_sync.py:231-234 | Member dependencies' sources, and every source that is not a workspace source, are kept as they are. |
| WorkspaceSync.ClearedDrops | src/reggie_build/workspace_sync.py:233-234 | No other name is left a workspace source. |
| WorkspaceSync.ClearedAbsent | src/reggie_build/workspace_sync.py:231-234 | The clean-up adds no key. |
| WorkspaceSync.MarkSources | src/reggie_build/workspace_sync.py:241-243 | The update loop computes `Marked`. |
| WorkspaceSync.MarkedMeaning | src/reggie_build/workspace_sync.py:241-243 | Each member dependency's source is exactly `{workspace = true}`, and the other sources are untouched. |
| WorkspaceSync.SourcesSyncedMarks | src/reggie_build/workspace_sync.py:227-244 | With member dependencies, and nothing but tables on the way to `tool.uv.sources`: the sources table exists, each member dependency's source is `{workspace = true}`, and no other source is a workspace source. Other sources that were not workspace sources are kept. |
| WorkspaceSync.SourcesSyncedClears | src/reggie_build/workspace_sync.py:227-244 | Without member dependencies: a manifest with no sources table is left alone. An existing table that still holds a source after the clean-up stays, and no source in it is a workspace source. |
| WorkspaceSync.DepsSyncedMeaning | src/reggie_build/workspace_sync.py:208-249 | When the sources stay attached, each dependency on a fellow project is listed in `tool.uv.sources` as `{workspace = true}`. When a non-table value lies on the way, the document ends with no sources at all. Without such dependencies and without a sources table, the manifest is left exactly as it was. |
| WorkspaceSync.SyncProjectDependencies | src/reggie_build/workspace_sync.py:208-249 | The in-place step, with `table` creating as written, equals the `DepsEdit` of the loaded manifest, and its error is passed on. |
| WorkspaceSync.SourcesSynced | src/reggie_build/workspace_sync.py:227-244 | The only error is the missing `.get` of a source that is not a table. |
| WorkspaceSync.SourcesSyncedDetached | src/reggie_build/workspace_sync.py:227-244 | With member dependencies and a non-table value on the way to the sources, the step succeeds and the manifest ends with no `tool.uv.sources`: the marks are lost. |
| WorkspaceSync.SyncSources | src/reggie_build/workspace_sync.py:227-249 | The node, clean-up, marks and prune on the loaded document compute `SourcesSynced`, with its error. |
| WorkspaceSync.SourcesMarked | src/reggie_build/workspace_sync.py:229-249 | On a sources table in the document, the clean-up, marks and prune can fail only with the missing `.get` of a source that is not a table. |
| WorkspaceSync.SourcesSyncedAttached | src/reggie_build/workspace_sync.py:227-249 | When `table` keeps the sources node in the document, the step is `SourcesMarked` on the document `table` leaves, which holds the sources table. |
| WorkspaceSync.MarkSourcesIn | src/reggie_build/workspace_sync.py:229-249 | The in-place clean-up, marks and prune compute `SourcesMarked`, with its error. |
| WorkspaceSync.PruneDetached | src/reggie_build/workspace_sync.py:245-249 | On a detached node the marks are lost and the prune climbs to the document: the step succeeds with `SourcesSynced`. |
| WorkspaceSync.SyncDependenciesEach | src/reggie_build/workspace_sync.py:204-205 | The step runs on each project in order, stopping at the first error. |
| WorkspaceSync.SyncMemberProjectDependencies | src/reggie_build/workspace_sync.py:197-205 | The step runs on the root and every member, each resolved against the same unfiltered workspace. |
| WorkspaceSync.PersistManifest | src/reggie_build/workspace_sync.py:103-107 | One `persist` call: the files become `PersistOne`'s result, and a written manifest drops its document. A missing file raises. |
| WorkspaceSync.PersistEach | src/reggie_build/workspace_sync.py:99-112 | The loop succeeds exactly when `PersistFiles` does, with its files. Written manifests drop their documents. |
| WorkspaceSync.PersistFilesSucceeds | src/reggie_build/workspace_sync.py:99-107 | Persisting succeeds exactly when every manifest it has to touch has an existing file. It never adds a file. |
| WorkspaceSync.PersistFilesAt | src/reggie_build/workspace_sync.py:99-107 | With distinct files, each touched file holds what `persist` wrote for its manifest, and every other file keeps its text. |
| WorkspaceSync.PersistOrderAsWrittenDropsRoot | src/reggie_build/workspace_sync.py:99-102 | A member bearing the workspace's name replaces the root in the persist dict, so the root manifest is never persisted. |
| WorkspaceSync.PersistOrder | src/reggie_build/workspace_sync.py:99-102 | As intended: the root, then every member. |
| WorkspaceSync.PersistOrderAgrees | src/reggie_build/workspace_sync.py:99-102 | Without a name clash the as-written dict visits exactly the root and every member. |
| WorkspaceSync.PersistTree | src/reggie_build/workspace_sync.py:99-112 | The manifests of the dict `{tree.name: root, **members}` are persisted in its order. The loop succeeds exactly when `PersistFiles` of their documents does, with its error or its files, and then none of them holds unsaved content. |
| WorkspaceSync.PersistOrderDistinct | src/reggie_build/workspace_sync.py:99-102 | The dict visits manifests of the tree only, each once. |
| WorkspaceSync.EditedAll | src/reggie_build/workspace_sync.py:121-131 | Editing every manifest in order, stopping at the first error, yields one document per manifest. |
| WorkspaceSync.SteppedReached | src/reggie_build/workspace_sync.py:121-131 | A loop whose outcome is `Stepped` ends as `EditedAll` says: it fails with the first error, or the manifests hold the edited documents. |
| WorkspaceSync.BuildSystemSynced | src/reggie_build/workspace_sync.py:172-181 | `sync_build_system` over the documents keeps their number. |
| WorkspaceSync.ToolSynced | src/reggie_build/workspace_sync.py:184-194 | `sync_member_project_tool` over the documents keeps their number. |
| WorkspaceSync.SyncedDocs | src/reggie_build/workspace_sync.py:89-96 | The switched-on steps in order keep the number of documents. |
| WorkspaceSync.BuildSystemReached | src/reggie_build/workspace_sync.py:172-181 | What `SyncBuildSystem` promises is `BuildSystemSynced` reached. |
| WorkspaceSync.ToolReached | src/reggie_build/workspace_sync.py:184-194 | What `SyncMemberProjectTool` promises is `ToolSynced` reached. |
| WorkspaceSync.VersionStep | src/reggie_build/workspace_sync.py:89-90 | `sync_version(tree.projects())` ends as the version edit of every manifest says. |
| WorkspaceSync.BuildSystemStep | src/reggie_build/workspace_sync.py:91-92 | `sync_build_system(tree)` ends as `BuildSystemSynced` says. |
| WorkspaceSync.ToolStep | src/reggie_build/workspace_sync.py:93-94 | `sync_member_project_tool(tree)` ends as `ToolSynced` says. |
| WorkspaceSync.DepsStep | src/reggie_build/workspace_sync.py:95-96 | `sync_member_project_dependencies(tree)` ends as the dependency edit of every manifest says. |
| WorkspaceSync.RunSteps | src/reggie_build/workspace_sync.py:89-96 | The switched-on steps end as `SyncedDocs` says: the first error stops the command, otherwise the manifests hold the documents of the steps composed in order. |
| WorkspaceSync.Picked | src/reggie_build/workspace_sync.py:99-102 | Picking some manifests' documents out of all gives one document per picked manifest. |
| WorkspaceSync.PickedData | src/reggie_build/workspace_sync.py:99-102 | Reading the documents of the dict's manifests is picking them out of the tree's documents. |
| WorkspaceSync.FormatAndPersist | src/reggie_build/workspace_sync.py:97-112 | A failed ruff run, when asked for, raises with no file written; otherwise the dict's manifests are persisted as `PersistFiles` says. |
| WorkspaceSync.SyncNarrowed | src/reggie_build/workspace_sync.py:89-112 | On a narrowed tree, `sync` ends as `SyncEnded` says. |
| WorkspaceSync.Narrow | src/reggie_build/workspace_sync.py:87 | `filter_members(names)` keeps the tree valid: no names keeps every member, otherwise the members are those listed, and no manifest is added. |
| WorkspaceSync.SyncTree | src/reggie_build/workspace_sync.py:86-112 | The members are narrowed to the listed names, and `sync` ends as `SyncEnded` says: the first error of the steps, or a failed ruff run, stops it with no file written; otherwise the files are `PersistFiles` of the stepped documents of the dict's manifests. |
| WorkspaceSync.SyncWorkspace | src/reggie_build/workspace_sync.py:82-112 | A tree whose name cannot be found makes `sync` fail with that error and write nothing. Otherwise the command works on a fresh, valid tree with that name and the root manifest at the workspace root, every manifest unloaded, and ends as `SyncEnded` says: the first error of the steps, or a failed ruff run, with no file written; otherwise `PersistFiles` of the stepped documents of the dict's manifests, with dependencies resolved against the unfiltered workspace and parsed by `_parse_dependency_name`. |
| WorkspaceSync.PickedUnloaded | src/reggie_build/workspace_sync.py:86-87 | Narrowing a tree whose manifests are all unloaded leaves manifests that are all unloaded. |
| LegacyWorkspace.MergeOneTable | src/reggie_build/workspace.py:124 | Merging `{k: table}` merges into the table already under `k`, or puts the table there. |
| LegacyWorkspace.MergeOneValue | src/reggie_build/workspace.py:144 | Merging `{k: v}`, for a non-table `v`, assigns it. |
| LegacyWorkspace.MergedBuildSystemFrame | src/reggie_build/workspace.py:119-124 | Nothing but `build-system` changes, and a falsy root table changes nothing. |
| LegacyWorkspace.MergedBuildSystemHolds | src/reggie_build/workspace.py:124 | The member's `build-system` holds every entry of the root's and keeps its own other keys: merged, not copied. |
| LegacyWorkspace.MergedBuildSystemAgrees | src/reggie_build/workspace.py:124 | Where the member has no `build-system` table, or the root's is not a table, the merge is the plain copy that `sync.py` makes. |
| LegacyWorkspace.MergedBuildSystemSettles | src/reggie_build/workspace.py:124 | Merging the same build system twice is merging it once. |
| LegacyWorkspace.MergedVersionMeaning | src/reggie_build/workspace.py:142-144 | Afterwards `project.version` is the version. A `project` table keeps its other keys, and no other top-level key changes. |
| LegacyWorkspace.MergedVersionSettles | src/reggie_build/workspace.py:142-144 | Merging the version twice is merging it once. |
| LegacyWorkspace.MergedMemberTool | src/reggie_build/workspace.py:154-157 | Fails exactly when the root's data is truthy and not a mapping. Falsy data changes nothing. |
| LegacyWorkspace.MergedMemberToolMeaning | src/reggie_build/workspace.py:157 | Every entry of the root's table ends at the top level of the member, and every top-level key the table does not name is kept. |
| LegacyWorkspace.StaleKeys | src/reggie_build/workspace.py:204-207 | A failure carries the missing-`.get` error of a source that is not a table. |
| LegacyWorkspace.StaleKeysMeaning | src/reggie_build/workspace.py:205-207 | A name is collected exactly when it is not a member dependency and one of its sources is a workspace source. |
| LegacyWorkspace.StaleKeysSucceeds | src/reggie_build/workspace.py:206 | The collection raises exactly when a source of a name that is not a member dependency is not a table. |
| LegacyWorkspace.CollectStale | src/reggie_build/workspace.py:204-207 | The collecting loop computes `StaleKeys`. |
| LegacyWorkspace.DeleteKeys | src/reggie_build/workspace.py:209-210 | The deleting loop computes `Deleted`. |
| LegacyWorkspace.DeletedMeaning | src/reggie_build/workspace.py:209-210 | A deleted name is gone, and every other lookup is unchanged. |
| LegacyWorkspace.CleanedSources | src/reggie_build/workspace.py:200-210 | A failure carries the missing-`.get` error of a source that is not a table. |
| LegacyWorkspace.CleanedSourcesClears | src/reggie_build/workspace.py:200-210 | After the clean-up, no source of a name outside the member dependencies is a workspace source. |
| LegacyWorkspace.CleanedSourcesKeeps | src/reggie_build/workspace.py:200-210 | Every source of such a name that is not a workspace source is kept. |
| LegacyWorkspace.CleanedSourcesOutside | src/reggie_build/workspace.py:200-210 | The clean-up changes nothing outside `tool`. |
| LegacyWorkspace.BuildWorkspaceData | src/reggie_build/workspace.py:212-218 | The `setdefault` chain builds `{tool: {uv: {sources: {n: {workspace: true}}}}}` for the member dependencies, and nothing for none. |
| LegacyWorkspace.MarkedFlags | src/reggie_build/workspace.py:214-218 | Every source of the built mapping is `{workspace = true}`. |
| LegacyWorkspace.MergeWorkspaceDataSources | src/reggie_build/workspace.py:219 | After the merge `tool.uv.sources` is a table: the old one merged with the new sources, or the new sources. |
| LegacyWorkspace.MergeWorkspaceDataFlags | src/reggie_build/workspace.py:219 | After the merge every member dependency is a workspace source. |
| LegacyWorkspace.MergeWorkspaceDataFrame | src/reggie_build/workspace.py:219 | Everything under the source of a name that is not a member dependency is as before. |
| LegacyWorkspace.MergeWorkspaceDataOutside | src/reggie_build/workspace.py:219 | The merge changes nothing outside `tool`. |
| LegacyWorkspace.MemberDependenciesLegacy | src/reggie_build/workspace.py:186-219 | The `_set` closure, step by step, computes `LegacyDependencies`. |
| LegacyWorkspace.LegacyDependenciesList | src/reggie_build/workspace.py:188-198 | Afterwards `project.dependencies` is the rewritten list, and the reported member dependencies are those found. |
| LegacyWorkspace.LegacyDependenciesSources | src/reggie_build/workspace.py:200-219 | Afterwards every member dependency found has a workspace source, and no other name has one. |
| LegacyWorkspace.LegacyDependenciesKeepsSources | src/reggie_build/workspace.py:206 | A source that is not a workspace source, of a name that is not a member dependency, survives unchanged. |
| LegacyWorkspace.LegacyDependenciesOutside | src/reggie_build/workspace.py:186-219 | Nothing outside `project` and `tool` changes, and without member dependencies the list is kept. |
| LegacyWorkspace.LegacyDependenciesDoc | src/reggie_build/workspace.py:186-219 | The edit of the manifest alone fails exactly when the closure would raise. |
| LegacyWorkspace.UpdateLegacy | src/reggie_build/workspace.py:358-361 | The scripts project is passed over unless `include_scripts`, and left unchanged. It succeeds exactly when each other target's repeated edit succeeds, and each such target is then that repeated edit. |
| LegacyWorkspace.IterateAlwaysFails | src/reggie_build/workspace.py:358-361 | An edit that always fails fails however often it is applied, once applied at all. |
| LegacyWorkspace.BuildEditOnce | src/reggie_build/workspace.py:119-124 | A target listed any number of times is merged with the root's build system once in effect. |
| LegacyWorkspace.ToolEditOnce | src/reggie_build/workspace.py:154-157 | The member-tool edit fails exactly when the root's table is truthy but not a mapping; otherwise it acts once. |
| LegacyWorkspace.SyncBuildSystemLegacy | src/reggie_build/workspace.py:118-126 | Every target, the scripts project included, gets the root's `build-system` merged in once (when that table names each key once). The root is not a target. |
| LegacyWorkspace.SyncVersionLegacy | src/reggie_build/workspace.py:133-146 | The version is the requested, else the git, else the default one. Every target but the scripts project carries it in `project.version`, and the scripts project is unchanged. |
| LegacyWorkspace.SyncMemberProjectToolLegacy | src/reggie_build/workspace.py:153-159 | Fails exactly when the root's table is truthy, not a mapping, and some target is not the scripts project. Otherwise every other target gets the table merged into its top level, and the scripts project is unchanged. |
| LegacyWorkspace.SyncMemberProjectDependenciesLegacy | src/reggie_build/workspace.py:166-221 | Every target but the scripts project is rewritten against the member names taken before the loop. |
| LegacyWorkspace.DependenciesEditOnce | src/reggie_build/workspace.py:186-219 | A target listed once is rewritten once. |
| LegacyWorkspace.SyncAllLegacy | src/reggie_build/workspace.py:105-111 | The commands `sync.registered_commands` holds (build system, version, member tool, dependencies, ruff) run in order on one list; the version is the git-derived one or the default, as `sync_version` gets none. The run succeeds exactly when every target's `LegacyAllEdit` and ruff succeed. When the edits succeed, each target ends as its `LegacyAllEdit` and the result is ruff's outcome, not required here. |
| LegacyWorkspace.LegacyAllBuildSystem | src/reggie_build/workspace.py:105-111 | After `all`, every target's `build-system` is the root's merged in once (when the member-tool table carries no `build-system`). |
| LegacyWorkspace.LegacyAllVersion | src/reggie_build/workspace.py:105-111 | After `all`, every target but the scripts project carries the chosen version (when the member-tool table carries no `project`). |
| LegacyWorkspace.LegacyAllScripts | src/reggie_build/workspace.py:105-111 | The scripts project receives only the build system. |
| LegacyWorkspace.Cleaned | src/reggie_build/workspace.py:381-382 | With `prune`, `clean(strings=False)` leaves no None and no empty collection below the top; without it the manifest is unchanged. |
| LegacyWorkspace.CleanedIdempotent | src/reggie_build/workspace.py:381-382 | Cleaning a cleaned manifest changes nothing. |
| LegacyWorkspace.LegacyWrites | src/reggie_build/workspace.py:379-388 | One (file, text) pair per project: its manifest file and the dump of its cleaned manifest, not stripped. |
| LegacyWorkspace.PersistLegacy | src/reggie_build/workspace.py:364-388 | Every project is cleaned when asked, and the files are the compare-then-write `Persisted` of the unstripped dumps: the file of a project no later project shares holds its cleaned dump, and a file no project names is untouched. |
| LegacyWorkspace.LegacyPersistedFiles | src/reggie_build/workspace.py:379-388 | The last write to a file decides its content, and files no project names keep theirs. |
| LegacyWorkspace.SyncAllCommandLegacy | src/reggie_build/workspace.py:48-62 | `sync all` then the persisting callback: a failure writes nothing; success leaves each file holding the unstripped dump of its last project's edited and cleaned manifest. |
| LegacyWorkspace.NotFound | src/reggie_build/workspace.py:415-416 | The message starts `Project ` and differs from the `AttributeError` text. |
| LegacyWorkspace.ResolveLegacyAsWritten | src/reggie_build/workspace.py:408-418 | With no identifiers: the members only, never the root. Otherwise it fails exactly when some identifier does not resolve, with the `.absolute()` `AttributeError`; on success each identifier is resolved in order. |
| LegacyWorkspace.ResolveLegacyAsWrittenMissesNotFound | src/reggie_build/workspace.py:413-416 | An unknown identifier fails with the `AttributeError`, not the intended `ValueError`. |
| LegacyWorkspace.ResolveLegacy | src/reggie_build/workspace.py:391-418 | The same as the as-written version, except that the error is `Project <id> not found - sync_projects: …` for the first unresolved identifier. |

## Left out

- Subprocesses are inputs, not models: `git` (version, `remote get-url`, `ls-files`), `uv workspace metadata`, taplo and ruff. Whether ruff is installed and the outcome of `ruff format` are parameters; `workspace_sync.sync`'s `format_python` step (`ruff_format`), `sync.ruff` and the legacy `sync_ruff` are modelled by that outcome alone.
- File and network I/O are replaced by the `TextStore` and `FileSystem` values. This covers `Project.__init__` reading, `PyProject.reload` with its `urlopen` branch, temporary files and `shutil.move` in `persist`, the `mkdir` in `_file_path`, and `os.chdir`/`output_dir` in `sync`.
- tomlkit parsing and dumping are `parse`/`dump` parameters. Comments and whitespace are not part of the document model.
- benedict's `merge(..., overwrite=True)` in the legacy app is modelled as the deep merge of `Utils.Merge`. Its keypath `get` is modelled as `Toml.Lookup`. Its `clean(strings=False)` is modelled as the bottom-up prune (`LegacyWorkspace.Cleaned`, used by `LegacyWorkspace.PersistLegacy`), and `isinstance(doc, benedict)` is the `prune` argument of `Sync.PersistProjects` and `LegacyWorkspace.PersistLegacy`.
- The legacy app expects `Project.pyproject` to be a benedict and `Project.is_scripts` to exist. The `Project` of `projects.py` offers neither. The model takes the scripts project's directory as the `scripts` parameter, and `is_scripts` is `dir == scripts`.
- `Sync.All`: requires a non-empty target list. With an empty list, each command re-resolves the workspace and gets fresh member objects, so no edit of one command is seen by the next. That path is not modelled.
- `Sync.ResolveProjects`: the default target set is a Python `set` with arbitrary order. It is modelled as the members followed by the root.
- `_projects` is a generator interleaved with the edits. The model resolves all identifiers first, as the Typer option callback does.
- The legacy commands require that the root is not among their targets: `_projects` never yields the cached root object. Edits of a target that is the root object are not modelled.
- `LegacyWorkspace.SyncBuildSystemLegacy`: the merged value is stated only when the root's `build-system` names each key once. Without that, only the repeated-edit form is stated.
- `LegacyWorkspace.StaleKeys`: `del sources[dep]` with a name listed twice in the table would raise `KeyError` on the second delete. Table keys are modelled as unique, and `Deleted` removes every entry with the name.
- A legacy `project.dependencies` that is not a list follows `range(len(deps))` through `Sync.RewriteAny`: a string or an empty table can succeed unchanged, and the failures are three errors (no length, no key 0, no item assignment) standing for Python's exceptions, whose texts are only approximated.
- Pyproject.PyProject.Persist: with `force_format` and nothing loaded, the source reports a change when taplo's run changes the file's modification time; the model reports one when the formatted text differs from the file. The file contents are the same either way; only the returned flag, used for logging, can differ.
- `mapping_set`, `mapping_merge` and `mapping_prune` write through aliases of nested tables. The model edits values, so sharing between tables is not modelled.
- `mapping_set` compares with identity (`is`); the model compares with equality.
- Pyproject.PyProject.Table: an inline table (`a = {b = 1}`) counts as a table, like a standard one. tomlkit's `InlineTable` is not a `Table`, so the source treats it as a non-table value: `table(...)` without `create` finds nothing there, and with `create` deletes it. The model keeps only values and does not tell the two apart.
- WorkspaceSync.SourcesSynced: `tool.uv.sources` written as an inline table counts as a table, as for `Pyproject.PyProject.Table`; the source would detach the new sources table and lose the marks.
- WorkspaceSync.SourcesSyncedMarks: the marks are promised only when nothing but tables lies on the way to `tool.uv.sources` (`SourcesAttached`). Otherwise the `create` walk detaches, and `WorkspaceSync.SourcesSyncedDetached` states that the sources are lost. An inline table on the way counts as a table here, where the source deletes it and loses the marks.
- WorkspaceSync.SourcesSyncedClears: an inline `tool.uv.sources` table is cleaned here like a standard one. In the source, `table(..., create=False)` does not find an inline table, and the clean-up is skipped.
- WorkspaceSync.DepsSyncedMeaning: the workspace marks are stated only when the sources stay attached; when they detach, only the absence of `tool.uv.sources` is stated. Inline tables on the way to the sources count as tables, as for `WorkspaceSync.SourcesSynced`.
- Pyproject.PyProject.Prune: on a detached node, the empty tables it would remove inside the detached tables are not modelled; those tables are not in the document.
- Pyproject.PyProject.Remove: on a detached node only the untouched document is stated, not the returned flag (in the source, whether the detached parent table held the key).
- Sync.IsNameChar: the pattern's `\w` is read as ASCII letters, digits and `_`; Python's `\w` also matches other Unicode word characters.
- `workspace_sync._version()` is the `computed` parameter: its version, or the error its `git` calls raise (no `git`, not a repository, no `HEAD~1`). The source calls it at most once, so every manifest sees the same outcome. `utils.git_version` is the `git` parameter.
- Toml.Value: TOML floats, dates and times have no variant. Such values, and the falsy `0.0` among them in the `if data:` tests, are not modelled.
- Not modelled, because they walk or create directories, spawn threads or are CLI glue:
  - `create_member`, `clean_build_artifacts`, `workspace_create.py`, `create.py`, `clean.py`, `openapi.py`, `readme.py`;
  - `watch_file`, `process_start`, `process_run`, `run_catching`, `which`, `git_files`;
  - `command_meta_cache`, the logger, the Typer callbacks, and the `inspect.signature` dispatch.
- Caching (`functools.cache` on `root()`/`root_dir()`) is replaced by passing the root explicitly.
- `projects.PyProject` (the dict subclass) is not modelled except for `_clean_yaml` and `is_workspace`: its `reload` and `persist` are I/O.

## Findings

The workflows follow the code as written: `table(..., create=True)` is `EnsuredAsWritten`, the tree's name is `TreeNameAsWritten`, and the persist loop walks the dict. Each corrected definition stands beside its as-written one, with a lemma stating where the two agree.

| source | as written | input that shows it | evidently intended | confidence | as-written member | corrected member |
|---|---|---|---|---|---|---|
| src/reggie_build/utils.py:320-323 | `_prune` tests a value for emptiness before pruning inside it, so a table emptied only by pruning its children survives | `{"a": {"b": {}}}` gives `{"a": {}}` | remove collections that are empty after pruning, as the docstring says | high, not executed | Utils.MappingPruneCounterexample | Utils.MappingPruneDeep |
| src/reggie_build/utils.py:239-242 | a missing intermediate table is created, yet the flag only compares the leaf | `mapping_set({}, "a", "b", value=None)` leaves `{"a": {}}` and returns False | return True whenever the mapping was modified | high, not executed | Utils.MappingSetNoneCounterexample | Utils.MappingSetFlag |
| src/reggie_build/pyproject.py:144-147 | with `create=True`, an existing non-table value is removed and the new table is never inserted, so writes to the returned node are lost | manifest `tool = "x"`, `table("tool", create=True)` | replace the value with the new table | high, not executed | Pyproject.EnsuredAsWrittenDetaches | Pyproject.EnsuredEmpty |
| src/reggie_build/workspace_sync.py:99-102 | the persist loop runs over the dict `{tree.name: root, **members}`, where a member named like the workspace replaces the root | a workspace named `ws` with a member named `ws` away from the root | persist the root and every member | medium, not executed | WorkspaceSync.PersistOrderAsWrittenDropsRoot | WorkspaceSync.PersistOrderAgrees |
| src/reggie_build/pyproject.py:214-216 | the fallback name is `root_proj.path.name`, and `path` is already the manifest file | workspace `ws` with no root member and no git origin is named `pyproject.toml` | the root directory's name, as `workspaces._root_node` uses | high, not executed | Pyproject.TreeNameAsWrittenCounterexample | Pyproject.TreeNameMeaning |
| src/reggie_build/workspace.py:413-416 | `project_dir.absolute()` is logged before the None check, so an unknown identifier raises `AttributeError` | `_projects(["nope"])` where no directory or project is named `nope` | raise `ValueError("Project nope not found …")` | high, not executed | LegacyWorkspace.ResolveLegacyAsWrittenMissesNotFound | LegacyWorkspace.ResolveLegacy |
