# githubFs: the flat tree-entry model

This project models the core of `githubFs`, an afero filesystem backed by one
branch of a GitHub repository (githubfs.go). The adapter keeps one local
snapshot of the branch's head tree, fetched recursively. That snapshot is a
flat list of tree entries (path, type, SHA, mode), and everything that looks
like a directory is made from that list:

- `findEntry` looks up an exact path, after stripping one leading slash, and
  returns the first match in list order (module `Entries`).
- `Mkdir` and `MkdirAll` only append `tree` markers to the local list. They
  never contact the remote, and they never check for a duplicate
  (module `Directories`).
- `open` fetches a blob, or builds a one-level directory. The directory
  holds a child for every blob or tree whose `path.Dir` equals the opened
  name. Children are keyed by name, so a later entry replaces an earlier one
  with the same name (module `Listing`).
- `RemoveAll` selects every non-`tree` entry under `path + "/"`. It then runs
  `remove`, a remote delete followed by a snapshot refresh, on each selected
  entry in order, and it stops at the first error (module `Removal`).
- `Rename` refreshes branch and tree. It rewrites the entries whose path is
  exactly the old name and submits the result as a new tree. It then refreshes
  again and commits (module `Renaming`).
- The remote steps appear as oracle functions of an `Api` record: the
  constructor, `updateTree`, `updateBranch`, `remove` and `commit`
  (module `Remote`).

Go's `strings.TrimPrefix`, `strings.Split` and `strings.Join` are modelled
exactly, and so are `path.Dir` and `path.Clean` (module `Paths`).
`filepath.Dir` is taken to be `path.Dir`, and `FilePathSeparator` is taken to
be "/". Module `Findings` holds two defects of the code as written, each with
a corrected definition.

## Model

| member | source | states |
|---|---|---|
| Entries.Position | githubfs.go:127-131 | The index returned holds the path and no earlier index does; None exactly when no entry has the path |
| Entries.FindEntry | githubfs.go:125-133 | Strips one leading slash; None exactly when no entry has the normalised path; otherwise the first entry in list order with that path |
| Entries.PositionIsFirst | githubfs.go:127-131 | Any index holding the path with no earlier match is the index the lookup returns (first match wins) |
| Entries.HasGrows | githubfs.go:93-97 | Appending entries keeps every present path present |
| Entries.PositionGrows | githubfs.go:93-97 | Appending entries never changes the result of a lookup that already succeeded |
| Paths.JoinSplit | githubfs.go:105-113 | Joining the split pieces of a path with the separator gives the path back |
| Paths.SplitJoin | githubfs.go:105-113 | Splitting a join of slash-free pieces gives the pieces back |
| Paths.SplitConcat | githubfs.go:105 | Splitting `a/b` splits `a` and `b` separately |
| Paths.DirOfName | githubfs.go:88 | path.Dir of a slash-free name is "." |
| Paths.DirOfClean | githubfs.go:88 | For a clean relative path, path.Dir is "." iff the path has no slash, and otherwise it is the join of all elements but the last |
| Paths.DirIsParent | githubfs.go:167 | For clean paths, path.Dir(p) == t iff p is t, a slash and one more slash-free element |
| Paths.ChildNameOfClean | githubfs.go:170 | The name a listed child receives is the last element of its path and holds no slash |
| Directories.Mkdir | githubfs.go:84-99 | Fails with NotFound iff the normalised name is non-empty and no entry is at its path.Dir; otherwise appends exactly one tree marker whose path is the normalised name |
| Directories.MkdirMissing | githubfs.go:113-120 | One loop round: a present prefix leaves the list unchanged, and this is the only case where it does; otherwise the round fails with NotFound or adds markers that make the prefix present |
| Directories.MkdirParents | githubfs.go:110-121 | The loop only adds markers; when it succeeds, every prefix of the parent chain is present; when all are present already, it changes nothing; its only error is NotFound |
| Directories.MkdirAll | githubfs.go:103-123 | Only adds markers and always ends with one whose path is the normalised name; every prefix of path.Dir(name) is then present; its only error is NotFound |
| Directories.MissingExact | githubfs.go:113-120 | One loop round exactly: a prefix findEntry finds is skipped; a missing one gets one marker when its parent is present or it is the root ""; otherwise the round fails with NotFound |
| Directories.MkdirParentsPlan | githubfs.go:110-121 | The loop's result equals Walk over the parent prefixes it visits: it succeeds iff each missing prefix can be created when its turn comes, and it then appends exactly one marker per prefix findEntry misses, in walk order |
| Directories.PlanStep | githubfs.go:110-121 | One round of the loop (look the prefix up, create it if missing) matches one step of the walk: a failed round is NotFound, otherwise the walk continues from the entries the round left |
| Directories.WalkStep | githubfs.go:113-120 | One step of the walk keeps the entries when the name is present, appends its marker when its parent is present or the name is "", and fails otherwise |
| Directories.MkdirAllPlan | githubfs.go:103-123 | MkdirAll succeeds iff that walk is feasible and the name's parent is present after it (or the name is ""); it then appends the walk's markers followed by one marker for the name |
| Directories.DirOfPrefix | githubfs.go:111-112 | A prefix of clean elements is a clean unrooted path whose path.Dir is the prefix one element shorter, or "." for one element |
| Directories.ChainFeasible | githubfs.go:110-121 | Along clean elements, once a prefix is present the walk over the longer prefixes is feasible and ends with the whole chain present |
| Directories.MkdirAllBelowExisting | githubfs.go:103-123 | For a clean path of two or more elements whose first element is present, MkdirAll succeeds, appending a marker per missing parent prefix, left to right, then one for the path |
| Directories.MkdirAgain | githubfs.go:84-99 | No duplicate check: a Mkdir that succeeded succeeds again and appends a second identical marker |
| Directories.MkdirKeepsEarlierLookups | githubfs.go:93-97 | After Mkdir, a lookup of an already-present path, and of any path other than the new name, returns what it returned before |
| Directories.MkdirThenFound | githubfs.go:84-99 | After a successful Mkdir, findEntry finds the name |
| Directories.MkdirAllOnExisting | githubfs.go:103-123 | With every parent prefix present, MkdirAll appends exactly one marker, for the full name |
| Directories.MkdirAllAgain | githubfs.go:103-123 | Repeating a successful MkdirAll succeeds and appends exactly one more duplicate marker |
| Listing.ChildOf | githubfs.go:171-183 | An entry yields a child iff it is a blob or a tree |
| Listing.ListingCons | githubfs.go:166-184 | Putting one entry in front of already-listed entries keeps the result a listing: its child is added only when no later entry holds the name |
| Listing.LastShift | githubfs.go:166-180 | The last entry contributing a name stays the last one when another entry is put in front |
| Listing.LastFirst | githubfs.go:166-180 | A front entry whose child's name no later entry contributes is that name's last contributor |
| Listing.ListDir | githubfs.go:166-184 | Every child a blob or tree with path.Dir equal to the target yields is present under its name, and each name holds the child of the last entry yielding that name |
| Listing.Open | githubfs.go:135-186 | NotFound iff no entry has the normalised name; a blob opens as a 0644 file holding the fetched bytes; a failed fetch of a blob is exactly when it fails with a remote error, and that error carries the fetch's own reason; any other entry opens as a directory named by the name as given, holding the children of the normalised name keyed by name, last entry winning, with "" listed as "." |
| Listing.ListDirAppend | githubfs.go:166-184 | Later entries win: the directory built from a concatenation is that of the first part overridden, name by name, by that of the second |
| Listing.AddFirstUnion | githubfs.go:166-180 | Adding an earlier entry commutes with overriding by later entries |
| Listing.ListedUnderClean | githubfs.go:166-184 | For clean paths, a directory lists an entry iff the entry is exactly one level below it; the entry is listed under the last element of its path |
| Listing.ListedAtTop | githubfs.go:163-170 | For clean paths, "." lists exactly the slash-free entries, each under its own path |
| Removal.Targets | githubfs.go:247-251 | An entry is selected iff it is in the list, is not a tree, and its path starts with the directory and a slash |
| Removal.PathsOf | githubfs.go:252 | The paths handed to remove are the selected entries' paths, index for index |
| Removal.StatesStep | githubfs.go:252 | Each state of a run of remove is the state remove leaves on the one before, with the next path |
| Removal.RanInTurnCons | githubfs.go:252-255 | A successful first remove followed by a run that stops at its first error is such a run |
| Removal.RanInTurnOne | githubfs.go:252-255 | A single remove, whatever its result, is a run that stops at its first error |
| Removal.RemoveEach | githubfs.go:247-257 | The paths attempted are a prefix of the selection, all of it when the loop ends without error; each attempt but the last returned success on the state the one before left; the loop reports the last attempt's result, error included, and keeps its state; a failing loop attempted at least one path |
| Removal.RemoveAll | githubfs.go:235-259 | NotFound with nothing attempted iff findEntry finds nothing; a blob goes to remove alone and RemoveAll returns its result and state; otherwise the attempts are a prefix of the selection made from the snapshot taken on entry, all of it on success, each but the last succeeded, and the last one's result is RemoveAll's |
| Removal.TargetsAppend | githubfs.go:247-257 | The selection keeps list order |
| Removal.SelectedPaths | githubfs.go:247-252 | A path is selected iff it is the path of a non-tree entry under the directory and a slash |
| Removal.RemoveAllCoversSubtree | githubfs.go:235-259 | A directory RemoveAll that succeeds has asked to remove every non-tree path below the directory and nothing else |
| Renaming.RenameEntries | githubfs.go:275-284 | Keeps length and order; entries at exactly the old path move to the new path; all other paths are kept, descendants of the old path included; type, SHA and mode are kept; content, URL and size are cleared |
| Renaming.Rename | githubfs.go:262-292 | A tree is submitted iff both refreshes succeed, and it is the rewrite of the freshly fetched entries; each failed refresh is reported with that call's own error; once the new tree is fetched, the state holds the fresh branch and that tree and the result is exactly the commit's, so a failed commit leaves the new tree beside the old branch head; a failed fetch of the new tree keeps the fresh branch and the tree fetched before it; a failed branch lookup leaves the state as it was |
| Renaming.RenameInSnapshot | githubfs.go:262-292 | When the server stores the submitted list as given, the commit decides the outcome, and the snapshot Rename leaves finds the old entry under the new name at its old position and nothing under the old name |
| Renaming.RenameRoundTrip | githubfs.go:275-284 | When no entry was at the new path, renaming there and back restores every entry up to the cleared read-only fields |
| Renaming.RenameClearsSource | githubfs.go:277-279 | With distinct names, no entry remains at the old path |
| Renaming.RenameMovesLookup | githubfs.go:275-284 | With the new path free, a lookup of the new path finds, at the same index, the entry the old lookup found, renamed and otherwise unchanged |
| Renaming.RenameKeepsOtherLookups | githubfs.go:275-284 | A lookup of any third path returns the same index as before |
| Renaming.RenameIgnoresStaleSnapshot | githubfs.go:267-274 | The local snapshot plays no part: the outcome and the submitted tree do not depend on it |
| Remote.New | githubfs.go:51-69 | Succeeds iff the branch and then its head tree are fetched; the state holds exactly those answers; a failed branch lookup or tree fetch is returned with that call's own error |
| Remote.UpdateTree | githubfs.go:71-74 | Replaces the snapshot wholesale with the listing of the SHA; the branch is untouched; a failure changes nothing and carries GetTree's own error |
| Remote.UpdateBranch | githubfs.go:294-297 | Replaces the branch with a fresh fetch by name; the tree is untouched; a failure changes nothing and carries GetBranch's own error |
| Remote.Remove | githubfs.go:215-231 | NotFound iff findEntry finds nothing; for a found entry it succeeds iff the delete (with the entry's SHA, the "automatic commit" message and the branch name) and the fetch of the tree it produced both succeed, and the snapshot is then that tree; a failed delete carries the delete's error and a failed refresh the fetch's; a failure changes nothing |
| Remote.Commit | githubfs.go:299-317 | Succeeds iff the commit of the snapshot's tree on the branch head is created and the ref "heads/<branch>" then moves to it without forcing; a failed CreateCommit is reported with its own error, and a failed UpdateRef after it with UpdateRef's |
| Findings.MkdirRejectsTopLevel | githubfs.go:87-91 | As written: Mkdir of a top-level name fails with NotFound on every tree with no entry "." |
| Findings.MkdirAllRejectsSlashFree | githubfs.go:87-91 | As written: on a tree without ".", MkdirAll of any slash-free name fails with NotFound, even when the name is already present, because its parent walk creates "." and Mkdir of "." needs "." |
| Findings.MkdirAllRejectsNewTopLevel | githubfs.go:103-123 | As written: on a tree without ".", MkdirAll of a clean path fails with NotFound when it has one element, or when its top-level directory is missing |
| Findings.MkdirAllFailsOnFreshTree | githubfs.go:103-123 | As written: MkdirAll("x/y") on a tree holding only README.md fails with NotFound |
| Findings.MkdirFixed | githubfs.go:84-99 | Corrected Mkdir: fails iff the name is non-empty, its parent is not the root ".", and the parent is absent; otherwise appends one marker for the name |
| Findings.MkdirParentsFixed | githubfs.go:110-121 | Corrected loop: only adds markers; on clean elements whose shorter prefixes are present, it succeeds and leaves every prefix present |
| Findings.MkdirAllFixed | githubfs.go:103-123 | Corrected MkdirAll: only adds markers and ends with a marker for the normalised name |
| Findings.MkdirAllFixedBuildsChain | githubfs.go:103-123 | Corrected MkdirAll on any clean path succeeds and leaves every prefix of the path present |
| Findings.MkdirAllFixedOrder | githubfs.go:103-123 | Corrected MkdirAll with every proper prefix missing appends exactly one marker per prefix, shortest first, ending with the full path |
| Findings.OpenRootFails | githubfs.go:145-147 | As written: opening "" or "/" fails with NotFound whenever no entry has the empty path |
| Findings.OpenFixed | githubfs.go:162-185 | Corrected open: the root always opens as a directory; every other name opens as before |
| Findings.TopChild | githubfs.go:163-183 | A name in the top-level directory of a clean tree has no slash and holds the child of the last blob or tree with that path |
| Findings.TopEntry | githubfs.go:163-183 | Every top-level blob or tree of a clean tree is in the top-level directory |
| Findings.OpenFixedRootListsTopLevel | githubfs.go:162-185 | The corrected root directory of a clean tree has exactly the paths of the top-level blobs and trees as names, each holding the child of the last entry with that path |

## Left out

- Locking: the mutex `mu` and its use are not modelled. Each operation is one atomic function on the state.
- RemoveAll on a blob calls the locking `Remove` while it already holds `mu` (githubfs.go:244), which would deadlock in Go. The model treats that branch as a plain `remove`.
- The remote API is a record of stateless oracle functions. Two identical calls give the same answer, and the user and repository the client is bound to are implicit.
- When `GetTree` or `GetBranch` fails, Go stores nil into `fs.tree` or `fs.branch`. The model keeps the previous value. Only the reported error is faithful; the state after a failed refresh is not.
- Remote.UpdateTree: does not model the nil snapshot a failed refresh leaves in Go, for the reason above.
- Remote.UpdateBranch: a failed GetBranch leaves `fs.branch` nil in Go (githubfs.go:295), so a later remove would send an empty branch name. The model keeps the old branch.
- Remote.Remove: when the delete succeeds but the refresh fails, the model keeps the old snapshot, which still lists the deleted file. Go holds nil there.
- Directories.MkdirAll: on failure the model returns only NotFound. Go keeps the markers that earlier rounds already appended (githubfs.go:93), so `MkdirAll("//a/b")` on a tree without "", "." or "a" leaves a marker for "" behind. MkdirParentsPlan gives the markers of every round that succeeds, but the model does not return the partial list.
- Directories.MkdirParents: like MkdirAll, a failed round returns only NotFound; the markers that earlier rounds appended are kept in Go but not returned here.
- Renaming.Rename: after a failed refresh Go holds a nil branch or tree; the model keeps the value held before, as UpdateBranch and UpdateTree do.
- Rename drops the error of `CreateTree` (githubfs.go:285-286). The model's `createTree` oracle therefore returns only a SHA, and a nil tree reports "".
- Renaming.Rename: a failed final refresh leaves the fetched, un-rewritten tree rather than nil. Also not modelled: Go mutates the fetched entries in place.
- `MkdirAll`'s branch for an empty split (githubfs.go:106-108) is dead, because `strings.Split` never returns an empty list. The model has no such branch.
- Base64 decoding of blob contents (githubfs.go:156) is out: the `getBlob` oracle yields the decoded bytes. In-memory file and directory handles (mem.FileData) become the `Handle` datatype.
- `Create`, `OpenFile`, `Stat`, `Name`, `Chmod` and `Chtimes` (githubfs.go:76-80, 197-205, 321-343) are outside the modelled core. They either delegate to `open` or do nothing.
- The demo program (demo/main.go) and the GitHub client library are not part of this model.
- Permission bits passed to `Mkdir`/`MkdirAll` are ignored by the code, so they are not parameters.
- `RemoveAll` on a missing path: its doc comment (githubfs.go:233-234) says it returns nil. The code returns NotFound (githubfs.go:240-242). The model follows the code.
- The listing's file and directory modes are kept as integers: 0644 and 040000 (octal).
- The helpers `CreateFile`, `CreateDir`, `AddToMemDir` and `NewFileHandle` are called by githubfs.go but are not part of this model. The directory open builds with `CreateDir` and `AddToMemDir` (githubfs.go:162-180) is taken to behave as afero's `mem.DirMap`: one child per name, and a later addition replaces an earlier one. The order in which a directory's children are later read back is not modelled.

## Findings

| source | as written | input that shows it | evidently intended | confidence | as-written member | corrected member |
|---|---|---|---|---|---|---|
| githubfs.go:87-91, 103-123 | Mkdir looks up path.Dir of the name even for a top-level name, whose parent is "." and is never an entry; MkdirAll starts its parent walk with "." or a top-level name and so fails, and on a slash-free name it fails even when the name is already present, so repeating MkdirAll of a top-level name never succeeds | MkdirAll("x/y") on a tree holding only a blob README.md returns NotFound | A top-level name's parent is the root, which always exists; MkdirAll creates x and then x/y | not executed | Findings.MkdirAllFailsOnFreshTree | Findings.MkdirAllFixedBuildsChain |
| githubfs.go:145-147, 163-165 | open returns NotFound before it reaches the branch that lists "" as "." | open("") on any tree without an entry of empty path returns NotFound | Opening the root lists the top-level entries | not executed | Findings.OpenRootFails | Findings.OpenFixedRootListsTopLevel |
