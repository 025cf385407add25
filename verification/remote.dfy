/** The adapter's snapshot of one branch and the remote protocol steps that
    refresh it: construction, updateTree, updateBranch, remove and commit
    (githubfs.go:51-74, 207-231, 294-317). The GitHub client is a record of
    oracle functions bound to one user and repository. */
module Remote {
  import opened Results
  import opened Paths
  import opened Entries

  /** A branch head: its name, its head commit and that commit's tree. */
  datatype Branch = Branch(name: string, commitSha: string, treeSha: string)

  /** One recursive tree listing. */
  datatype Snapshot = Snapshot(sha: string, entries: seq<Entry>)

  /** What a githubFs value holds besides its client and lock. */
  datatype Fs = Fs(branch: Branch, tree: Snapshot)

  /** The GitHub API calls the adapter makes, as oracles. `createTree`
      yields only a SHA: the adapter drops that call's error, and the nil
      tree it then holds reports "" as its SHA. */
  datatype Api = Api(
    getBranch: string -> Reply<Branch>,
    getTree: string -> Reply<Snapshot>,
    getBlob: string -> Reply<seq<bv8>>,
    deleteFile: (string, string, string, string) -> Reply<string>,
    createTree: seq<Entry> -> string,
    createCommit: (string, string, string) -> Reply<string>,
    updateRef: (string, string, bool) -> Reply<()>)

  /** The state after a step and how the step ended. */
  datatype Step = Step(fs: Fs, status: Status)

  /** Commit message of the per-file delete issued by remove. */
  const DeleteMessage: string := "automatic commit"

  /** Commit message of the commit that follows a rename. */
  const CommitMessage: string := "auto commit from git"

  /** NewGithubfs: look the branch up, then fetch its head tree. */
  function New(api: Api, branch: string): (r: Result<Fs>)
    ensures r.Ok? <==>
      api.getBranch(branch).Reply? && api.getTree(api.getBranch(branch).value.treeSha).Reply?
    ensures r.Ok? ==>
      Reply(r.value.branch) == api.getBranch(branch) &&
      Reply(r.value.tree) == api.getTree(r.value.branch.treeSha)
    ensures r.Err? ==> r.error.RemoteFailure?
    ensures api.getBranch(branch).Refused? ==> r == Err(RemoteFailure(api.getBranch(branch).reason))
    ensures api.getBranch(branch).Reply? && api.getTree(api.getBranch(branch).value.treeSha).Refused? ==>
      r == Err(RemoteFailure(api.getTree(api.getBranch(branch).value.treeSha).reason))
  {
    match api.getBranch(branch)
    case Refused(why) => Err(RemoteFailure(why))
    case Reply(b) =>
      var s := UpdateTree(Fs(b, Snapshot("", [])), api, b.treeSha);
      if s.status.Failed? then Err(s.status.error) else Ok(s.fs)
  }

  /** updateTree: replace the snapshot wholesale with the listing of `sha`;
      the branch is untouched. */
  function UpdateTree(fs: Fs, api: Api, sha: string): (r: Step)
    ensures r.fs.branch == fs.branch
    ensures r.status.Done? <==> api.getTree(sha).Reply?
    ensures r.status.Done? ==> Reply(r.fs.tree) == api.getTree(sha)
    ensures r.status.Failed? ==> r.status.error.RemoteFailure? && r.fs == fs
    ensures api.getTree(sha).Refused? ==> r.status == Failed(RemoteFailure(api.getTree(sha).reason))
  {
    match api.getTree(sha)
    case Refused(why) => Step(fs, Failed(RemoteFailure(why)))
    case Reply(t) => Step(fs.(tree := t), Done)
  }

  /** updateBranch: fetch the current head of the branch by its name; the
      tree snapshot is untouched. */
  function UpdateBranch(fs: Fs, api: Api): (r: Step)
    ensures r.fs.tree == fs.tree
    ensures r.status.Done? <==> api.getBranch(fs.branch.name).Reply?
    ensures r.status.Done? ==> Reply(r.fs.branch) == api.getBranch(fs.branch.name)
    ensures r.status.Failed? ==> r.status.error.RemoteFailure? && r.fs == fs
    ensures api.getBranch(fs.branch.name).Refused? ==>
      r.status == Failed(RemoteFailure(api.getBranch(fs.branch.name).reason))
  {
    match api.getBranch(fs.branch.name)
    case Refused(why) => Step(fs, Failed(RemoteFailure(why)))
    case Reply(b) => Step(fs.(branch := b), Done)
  }

  /** remove: look the entry up, delete it remotely with its SHA as the
      precondition, then refresh the snapshot from the tree the delete
      produced. */
  function Remove(fs: Fs, api: Api, name: string): (r: Step)
    ensures r.fs.branch == fs.branch
    ensures r.status == Failed(NotFound) <==> !Has(fs.tree.entries, TrimLeadingSlash(name))
    ensures r.status == Failed(NotFound) ==> r.fs == fs
    ensures Has(fs.tree.entries, TrimLeadingSlash(name)) ==>
      var e := FindEntry(fs.tree.entries, name).value;
      var d := api.deleteFile(TrimLeadingSlash(name), DeleteMessage, e.sha, fs.branch.name);
      (r.status.Done? <==> d.Reply? && api.getTree(d.value).Reply?) &&
      (r.status.Done? ==> Reply(r.fs.tree) == api.getTree(d.value)) &&
      (d.Refused? ==> r.status == Failed(RemoteFailure(d.reason))) &&
      (d.Reply? && api.getTree(d.value).Refused? ==>
        r.status == Failed(RemoteFailure(api.getTree(d.value).reason)))
    ensures r.status.Failed? ==> r.fs == fs
  {
    var normal := TrimLeadingSlash(name);
    match FindEntry(fs.tree.entries, name)
    case None => Step(fs, Failed(NotFound))
    case Some(e) =>
      match api.deleteFile(normal, DeleteMessage, e.sha, fs.branch.name)
      case Refused(why) => Step(fs, Failed(RemoteFailure(why)))
      case Reply(treeSha) => UpdateTree(fs, api, treeSha)
  }

  /** commit: create a commit of the current snapshot's tree on top of the
      branch head, then move the branch ref to it without forcing. */
  function Commit(fs: Fs, api: Api): (r: Status)
    ensures r.Done? <==>
      var c := api.createCommit(CommitMessage, fs.tree.sha, fs.branch.commitSha);
      c.Reply? && api.updateRef("heads/" + fs.branch.name, c.value, false).Reply?
    ensures r.Failed? ==> r.error.RemoteFailure?
    ensures
      var c := api.createCommit(CommitMessage, fs.tree.sha, fs.branch.commitSha);
      c.Refused? ==> r == Failed(RemoteFailure(c.reason))
    ensures
      var c := api.createCommit(CommitMessage, fs.tree.sha, fs.branch.commitSha);
      c.Reply? ==>
        var u := api.updateRef("heads/" + fs.branch.name, c.value, false);
        u.Refused? ==> r == Failed(RemoteFailure(u.reason))
  {
    match api.createCommit(CommitMessage, fs.tree.sha, fs.branch.commitSha)
    case Refused(why) => Failed(RemoteFailure(why))
    case Reply(commit) =>
      match api.updateRef("heads/" + fs.branch.name, commit, false)
      case Refused(why) => Failed(RemoteFailure(why))
      case Reply(_) => Done
  }
}
