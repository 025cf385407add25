/** RemoveAll: which entries it selects and how it drives one remote
    delete per selected entry (githubfs.go:233-259). */
module Removal {
  import opened Results
  import opened Paths
  import opened Entries
  import opened Remote

  /** The state after a RemoveAll, how it ended, and the paths it handed to
      remove, in call order. */
  datatype Sweep = Sweep(fs: Fs, status: Status, attempted: seq<string>)

  /** The entries the RemoveAll loop deletes: every entry that is not a
      tree marker and whose path starts with `dir` and a slash, in list
      order. */
  function Targets(entries: seq<Entry>, dir: string): (r: seq<Entry>)
    ensures |r| <= |entries|
    ensures forall e :: e in r <==> e in entries && e.kind != Tree && dir + "/" <= e.path
    decreases |entries|
  {
    if |entries| == 0 then []
    else
      var rest := Targets(entries[1..], dir);
      var e := entries[0];
      if e.kind != Tree && dir + "/" <= e.path then [e] + rest else rest
  }

  /** The paths of a list of entries. */
  function PathsOf(entries: seq<Entry>): (r: seq<string>)
    ensures |r| == |entries|
    ensures forall i :: 0 <= i < |entries| ==> r[i] == entries[i].path
  {
    seq(|entries|, i requires 0 <= i < |entries| => entries[i].path)
  }

  /** The states a run of remove over `paths` passes through, whatever
      each call answers: the first is `fs`, each next one is the state the
      call before it left. */
  function States(fs: Fs, api: Api, paths: seq<string>): (r: seq<Fs>)
    ensures |r| == |paths| + 1 && r[0] == fs
    decreases |paths|
  {
    if |paths| == 0 then [fs]
    else [fs] + States(Remove(fs, api, paths[0]).fs, api, paths[1..])
  }

  /** Each state of the run is the one remove leaves on the state before
      it, with the next path. */
  lemma {:induction false} StatesStep(fs: Fs, api: Api, paths: seq<string>)
    ensures forall k :: 0 <= k < |paths| ==>
      States(fs, api, paths)[k + 1] == Remove(States(fs, api, paths)[k], api, paths[k]).fs
    decreases |paths|
  {
    if |paths| > 0 {
      var next := Remove(fs, api, paths[0]).fs;
      StatesStep(next, api, paths[1..]);
      var st := States(fs, api, paths);
      var tail := States(next, api, paths[1..]);
      assert st == [fs] + tail;
      forall k | 1 <= k < |paths|
        ensures st[k + 1] == Remove(st[k], api, paths[k]).fs
      {
        assert st[k + 1] == tail[k] && st[k] == tail[k - 1] && paths[k] == paths[1..][k - 1];
      }
    }
  }

  /** `s` is what calling remove on `s.attempted` in turn, starting from
      `fs`, reports when it stops at the first error: every call but the
      last returned success, the last call's result is the overall result,
      and the final state is the one the last call left. */
  predicate RanInTurn(fs: Fs, api: Api, s: Sweep) {
    var st := States(fs, api, s.attempted);
    var m := |s.attempted|;
    s.fs == st[m] &&
    (forall k :: 0 <= k < m - 1 ==> Remove(st[k], api, s.attempted[k]).status.Done?) &&
    (m > 0 ==> Remove(st[m - 1], api, s.attempted[m - 1]).status == s.status)
  }

  /** The run over a non-empty list starts with the first call. */
  lemma StatesCons(fs: Fs, api: Api, p: string, rest: seq<string>)
    ensures States(fs, api, [p] + rest) == [fs] + States(Remove(fs, api, p).fs, api, rest)
  {
    assert ([p] + rest)[0] == p && ([p] + rest)[1..] == rest;
  }

  /** A single call is a run in turn. */
  lemma RanInTurnOne(fs: Fs, api: Api, p: string)
    ensures RanInTurn(fs, api, Sweep(Remove(fs, api, p).fs, Remove(fs, api, p).status, [p]))
  {
    StatesCons(fs, api, p, []);
    assert [p] + [] == [p];
  }

  /** A successful first call followed by a run in turn is a run in turn. */
  lemma RanInTurnCons(fs: Fs, api: Api, p: string, rest: Sweep)
    requires Remove(fs, api, p).status.Done?
    requires RanInTurn(Remove(fs, api, p).fs, api, rest)
    requires rest.attempted == [] ==> rest.status.Done?
    ensures RanInTurn(fs, api, Sweep(rest.fs, rest.status, [p] + rest.attempted))
  {
    var attempted := [p] + rest.attempted;
    var tail := States(Remove(fs, api, p).fs, api, rest.attempted);
    var st := States(fs, api, attempted);
    var m := |attempted|;
    StatesCons(fs, api, p, rest.attempted);
    assert st == [fs] + tail;
    assert rest.fs == st[m];
    forall k | 0 <= k < m - 1
      ensures Remove(st[k], api, attempted[k]).status.Done?
    {
      if k > 0 {
        assert st[k] == tail[k - 1] && attempted[k] == rest.attempted[k - 1];
      }
    }
    if m > 1 {
      assert st[m - 1] == tail[m - 2] && attempted[m - 1] == rest.attempted[m - 2];
    }
  }

  /** RemoveEach's list bounds carry over from the rest of the list to the
      whole list after a successful first call. */
  lemma EachCons(paths: seq<string>, rest: seq<string>, done: bool)
    requires |paths| > 0 && rest <= paths[1..]
    requires done ==> rest == paths[1..]
    ensures [paths[0]] + rest <= paths
    ensures done ==> [paths[0]] + rest == paths
  {
    assert paths == [paths[0]] + paths[1..];
    assert rest == paths[1..][..|rest|];
  }

  /** The loop body run over a fixed list of paths: remove each in turn,
      each on the state the previous one left, and stop at the first
      error. */
  function RemoveEach(fs: Fs, api: Api, paths: seq<string>): (r: Sweep)
    ensures r.fs.branch == fs.branch
    ensures r.attempted <= paths
    ensures r.status.Done? ==> r.attempted == paths
    ensures r.status.Failed? ==> |r.attempted| > 0
    ensures RanInTurn(fs, api, r)
    decreases |paths|
  {
    if |paths| == 0 then Sweep(fs, Done, [])
    else
      var s := Remove(fs, api, paths[0]);
      if s.status.Failed? then
        RanInTurnOne(fs, api, paths[0]);
        Sweep(s.fs, s.status, [paths[0]])
      else
        var rest := RemoveEach(s.fs, api, paths[1..]);
        EachCons(paths, rest.attempted, rest.status.Done?);
        RanInTurnCons(fs, api, paths[0], rest);
        Sweep(rest.fs, rest.status, [paths[0]] + rest.attempted)
  }

  /** The name RemoveAll matches descendants against: one leading and one
      trailing slash removed. */
  function SweepRoot(path: string): (root: string) {
    TrimTrailingSlash(TrimLeadingSlash(path))
  }

  /** RemoveAll: NotFound when findEntry finds nothing (although its doc
      comment promises success); a blob goes to remove; otherwise every
      selected entry of the snapshot taken on entry is removed in order. */
  function RemoveAll(fs: Fs, api: Api, path: string): (r: Sweep)
    ensures r.fs.branch == fs.branch
    ensures (r.status == Failed(NotFound) && r.attempted == []) <==>
      !Has(fs.tree.entries, TrimLeadingSlash(path))
    ensures r.attempted == [] && r.status.Failed? ==> r.fs == fs
    ensures r.status.Failed? && r.attempted == [] ==> r.status == Failed(NotFound)
    ensures FindEntry(fs.tree.entries, path).Some? && FindEntry(fs.tree.entries, path).value.kind == Blob ==>
      r.attempted == [path] && r.status == Remove(fs, api, path).status && r.fs == Remove(fs, api, path).fs
    ensures FindEntry(fs.tree.entries, path).Some? && FindEntry(fs.tree.entries, path).value.kind != Blob ==>
      var selected := PathsOf(Targets(fs.tree.entries, SweepRoot(path)));
      r.attempted <= selected && (r.status.Done? ==> r.attempted == selected)
    ensures RanInTurn(fs, api, r)
  {
    match FindEntry(fs.tree.entries, path)
    case None => Sweep(fs, Failed(NotFound), [])
    case Some(e) =>
      if e.kind == Blob then
        var s := Remove(fs, api, path);
        RanInTurnOne(fs, api, path);
        Sweep(s.fs, s.status, [path])
      else RemoveEach(fs, api, PathsOf(Targets(fs.tree.entries, SweepRoot(path))))
  }

  // ---------------------------------------------------------------------
  // Properties

  /** Selection keeps list order: selecting from a concatenation selects
      from each part in turn. */
  lemma {:induction false} TargetsAppend(a: seq<Entry>, b: seq<Entry>, dir: string)
    ensures Targets(a + b, dir) == Targets(a, dir) + Targets(b, dir)
    decreases |a|
  {
    if |a| > 0 {
      assert (a + b)[0] == a[0];
      assert (a + b)[1..] == a[1..] + b;
      TargetsAppend(a[1..], b, dir);
    } else {
      assert a + b == b;
    }
  }

  /** The selected paths are exactly the paths of the non-marker entries
      below `dir`. */
  lemma SelectedPaths(entries: seq<Entry>, dir: string)
    ensures forall i :: 0 <= i < |entries| && entries[i].kind != Tree && dir + "/" <= entries[i].path ==>
      entries[i].path in PathsOf(Targets(entries, dir))
    ensures forall p :: p in PathsOf(Targets(entries, dir)) ==>
      exists i :: 0 <= i < |entries| && entries[i].path == p && entries[i].kind != Tree && dir + "/" <= p
  {
    var chosen := Targets(entries, dir);
    var paths := PathsOf(chosen);
    forall i | 0 <= i < |entries| && entries[i].kind != Tree && dir + "/" <= entries[i].path
      ensures entries[i].path in paths
    {
      assert entries[i] in entries;
      var j :| 0 <= j < |chosen| && chosen[j] == entries[i];
      assert paths[j] == entries[i].path;
    }
    forall p | p in paths
      ensures exists i :: 0 <= i < |entries| && entries[i].path == p && entries[i].kind != Tree && dir + "/" <= p
    {
      var j :| 0 <= j < |paths| && paths[j] == p;
      assert chosen[j] in chosen;
      var i :| 0 <= i < |entries| && entries[i] == chosen[j];
      assert entries[i].path == p;
    }
  }

  /** A RemoveAll of a directory that completes has asked to remove the path
      of every non-marker entry under it, and nothing else; tree markers
      under it are never asked for (unless a blob shares their path). */
  lemma RemoveAllCoversSubtree(fs: Fs, api: Api, path: string)
    requires FindEntry(fs.tree.entries, path).Some?
    requires FindEntry(fs.tree.entries, path).value.kind != Blob
    requires RemoveAll(fs, api, path).status.Done?
    ensures forall i :: 0 <= i < |fs.tree.entries| ==>
      var e := fs.tree.entries[i];
      (e.kind != Tree && SweepRoot(path) + "/" <= e.path ==> e.path in RemoveAll(fs, api, path).attempted)
    ensures forall p :: p in RemoveAll(fs, api, path).attempted ==>
      exists i :: 0 <= i < |fs.tree.entries| && fs.tree.entries[i].path == p &&
        fs.tree.entries[i].kind != Tree && SweepRoot(path) + "/" <= p
  {
    assert RemoveAll(fs, api, path).attempted == PathsOf(Targets(fs.tree.entries, SweepRoot(path)));
    SelectedPaths(fs.tree.entries, SweepRoot(path));
  }
}
