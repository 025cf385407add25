/** Rename: refresh branch and tree, rewrite the entry list, submit it as a
    brand-new tree, then commit and move the branch (githubfs.go:261-292). */
module Renaming {
  import opened Results
  import opened Paths
  import opened Entries
  import opened Remote

  /** An entry with the fields that only read responses carry cleared. */
  function Stripped(e: Entry): (r: Entry) {
    e.(content := None, url := None, size := None)
  }

  /** The rewrite of a single entry: renamed if its path is exactly `src`. */
  function Rewrite(e: Entry, src: string, dst: string): (r: Entry) {
    if e.path == src then Stripped(e).(path := dst) else Stripped(e)
  }

  /** The entry rewrite of Rename: the list keeps its length and order;
      each entry at exactly `src` (duplicates included) moves to `dst`,
      every other path stays, including paths below `src`; kind, SHA and
      mode are kept and the read-only fields are cleared everywhere. */
  function RenameEntries(entries: seq<Entry>, src: string, dst: string): (r: seq<Entry>)
    ensures |r| == |entries|
    ensures forall i :: 0 <= i < |entries| && entries[i].path == src ==> r[i].path == dst
    ensures forall i :: 0 <= i < |entries| && entries[i].path != src ==> r[i].path == entries[i].path
    ensures forall i :: 0 <= i < |entries| && src + "/" <= entries[i].path ==> r[i].path == entries[i].path
    ensures forall i :: 0 <= i < |entries| ==>
      r[i].kind == entries[i].kind && r[i].sha == entries[i].sha && r[i].mode == entries[i].mode
    ensures forall i :: 0 <= i < |entries| ==>
      r[i].content.None? && r[i].url.None? && r[i].size.None?
    decreases |entries|
  {
    if |entries| == 0 then []
    else [Rewrite(entries[0], src, dst)] + RenameEntries(entries[1..], src, dst)
  }

  /** The result of a Rename, with the entry list it submitted as the new
      tree (None when it failed before getting that far). */
  datatype Renamed = Renamed(fs: Fs, status: Status, submitted: Option<seq<Entry>>)

  /** Rename: fetch the branch head and its tree, rewrite the fresh entries,
      build a tree from them with no base tree, refresh from that tree and
      commit. The local snapshot it starts from plays no part. */
  function Rename(fs: Fs, api: Api, oldname: string, newname: string): (r: Renamed)
    ensures r.submitted.Some? <==>
      api.getBranch(fs.branch.name).Reply? &&
      api.getTree(api.getBranch(fs.branch.name).value.treeSha).Reply?
    ensures r.submitted.Some? ==>
      var latest := api.getTree(api.getBranch(fs.branch.name).value.treeSha).value;
      r.submitted.value == RenameEntries(latest.entries, TrimLeadingSlash(oldname), TrimLeadingSlash(newname))
    ensures r.submitted.None? ==> r.status.Failed?
    ensures r.status.Failed? ==> r.status.error.RemoteFailure?
    ensures r.submitted.Some? ==>
      (r.status.Done? <==> api.getTree(api.createTree(r.submitted.value)).Reply? && Commit(r.fs, api).Done?)
    ensures r.status.Done? ==>
      Reply(r.fs.branch) == api.getBranch(fs.branch.name) &&
      Reply(r.fs.tree) == api.getTree(api.createTree(r.submitted.value)) &&
      Commit(r.fs, api).Done?
    ensures r.submitted.Some? && api.getTree(api.createTree(r.submitted.value)).Reply? ==>
      Reply(r.fs.branch) == api.getBranch(fs.branch.name) &&
      Reply(r.fs.tree) == api.getTree(api.createTree(r.submitted.value)) &&
      r.status == Commit(r.fs, api)
    ensures r.submitted.Some? && api.getTree(api.createTree(r.submitted.value)).Refused? ==>
      Reply(r.fs.branch) == api.getBranch(fs.branch.name) &&
      Reply(r.fs.tree) == api.getTree(api.getBranch(fs.branch.name).value.treeSha)
    ensures api.getBranch(fs.branch.name).Refused? ==> r.fs == fs
    ensures api.getBranch(fs.branch.name).Reply? && r.submitted.None? ==>
      Reply(r.fs.branch) == api.getBranch(fs.branch.name) && r.fs.tree == fs.tree
    ensures api.getBranch(fs.branch.name).Refused? ==>
      r.status == Failed(RemoteFailure(api.getBranch(fs.branch.name).reason))
    ensures
      (api.getBranch(fs.branch.name).Reply? &&
       api.getTree(api.getBranch(fs.branch.name).value.treeSha).Refused?) ==>
      r.status == Failed(RemoteFailure(api.getTree(api.getBranch(fs.branch.name).value.treeSha).reason))
    ensures r.submitted.Some? && api.getTree(api.createTree(r.submitted.value)).Refused? ==>
      r.status == Failed(RemoteFailure(api.getTree(api.createTree(r.submitted.value)).reason))
  {
    var normalOld := TrimLeadingSlash(oldname);
    var normalNew := TrimLeadingSlash(newname);
    var b := UpdateBranch(fs, api);
    if b.status.Failed? then Renamed(b.fs, b.status, None)
    else
      var t := UpdateTree(b.fs, api, b.fs.branch.treeSha);
      if t.status.Failed? then Renamed(t.fs, t.status, None)
      else
        var entries := RenameEntries(t.fs.tree.entries, normalOld, normalNew);
        var s := UpdateTree(t.fs, api, api.createTree(entries));
        if s.status.Failed? then Renamed(s.fs, s.status, Some(entries))
        else Renamed(s.fs, Commit(s.fs, api), Some(entries))
  }

  // ---------------------------------------------------------------------
  // Properties

  /** Renaming `src` to `dst` and back restores every path when no entry was
      at `dst` beforehand; only the read-only fields are lost. */
  lemma RenameRoundTrip(entries: seq<Entry>, src: string, dst: string)
    requires !Has(entries, dst)
    ensures
      var back := RenameEntries(RenameEntries(entries, src, dst), dst, src);
      |back| == |entries| && forall i :: 0 <= i < |entries| ==> back[i] == Stripped(entries[i])
  {
    var there := RenameEntries(entries, src, dst);
    var back := RenameEntries(there, dst, src);
    forall i | 0 <= i < |entries|
      ensures back[i] == Stripped(entries[i])
    {
      assert entries[i].path != dst;
    }
  }

  /** After the rewrite no entry is left at `src` (when `src` and `dst`
      differ). */
  lemma RenameClearsSource(entries: seq<Entry>, src: string, dst: string)
    requires src != dst
    ensures !Has(RenameEntries(entries, src, dst), src)
  {
    var r := RenameEntries(entries, src, dst);
    forall j | 0 <= j < |r|
      ensures r[j].path != src
    {
    }
  }

  /** Content identity: when `dst` was free, the lookup of `dst` after the
      rewrite finds the entry the lookup of `src` found before, at the same
      position, renamed and otherwise unchanged. */
  lemma RenameMovesLookup(entries: seq<Entry>, src: string, dst: string)
    requires Has(entries, src) && !Has(entries, dst)
    ensures
      var r := RenameEntries(entries, src, dst);
      var k := Position(entries, src).value;
      Position(r, dst) == Some(k) && r[k] == Stripped(entries[k]).(path := dst)
  {
    var r := RenameEntries(entries, src, dst);
    var k := Position(entries, src).value;
    forall j | 0 <= j < k
      ensures r[j].path != dst
    {
      assert entries[j].path != dst;
    }
    PositionIsFirst(r, dst, k);
  }

  /** Every lookup of a path other than `src` and `dst` is unaffected. */
  lemma {:induction false} RenameKeepsOtherLookups(entries: seq<Entry>, src: string, dst: string, p: string)
    requires p != src && p != dst
    ensures Position(RenameEntries(entries, src, dst), p) == Position(entries, p)
    decreases |entries|
  {
    if |entries| > 0 {
      var r := RenameEntries(entries, src, dst);
      assert r[1..] == RenameEntries(entries[1..], src, dst);
      RenameKeepsOtherLookups(entries[1..], src, dst, p);
    }
  }

  /** The local snapshot a Rename starts from does not matter: it always
      works on the tree it fetches itself, and it only shows up in the
      state a Rename that failed early leaves behind. */
  lemma RenameIgnoresStaleSnapshot(fs: Fs, api: Api, stale: Snapshot, oldname: string, newname: string)
    ensures
      var r1 := Rename(fs.(tree := stale), api, oldname, newname);
      var r2 := Rename(fs, api, oldname, newname);
      r1.status == r2.status && r1.submitted == r2.submitted &&
      (r2.submitted.Some? ==> r1.fs == r2.fs)
  {
  }

  /** Rename end to end, when the server stores the submitted list as
      given: the commit decides the outcome, and the snapshot Rename leaves
      finds the old entry under the new name, at the position it had in the
      fetched tree, and nothing under the old name. */
  lemma RenameInSnapshot(fs: Fs, api: Api, oldname: string, newname: string)
    requires api.getBranch(fs.branch.name).Reply?
    requires api.getTree(api.getBranch(fs.branch.name).value.treeSha).Reply?
    requires
      var latest := api.getTree(api.getBranch(fs.branch.name).value.treeSha).value.entries;
      Has(latest, TrimLeadingSlash(oldname)) && !Has(latest, TrimLeadingSlash(newname))
    requires
      var latest := api.getTree(api.getBranch(fs.branch.name).value.treeSha).value.entries;
      var entries := RenameEntries(latest, TrimLeadingSlash(oldname), TrimLeadingSlash(newname));
      api.getTree(api.createTree(entries)).Reply? && api.getTree(api.createTree(entries)).value.entries == entries
    ensures
      var latest := api.getTree(api.getBranch(fs.branch.name).value.treeSha).value.entries;
      var r := Rename(fs, api, oldname, newname);
      var k := Position(latest, TrimLeadingSlash(oldname)).value;
      r.status == Commit(r.fs, api) &&
      FindEntry(r.fs.tree.entries, newname) == Some(Stripped(latest[k]).(path := TrimLeadingSlash(newname))) &&
      FindEntry(r.fs.tree.entries, oldname).None?
  {
    var src := TrimLeadingSlash(oldname);
    var dst := TrimLeadingSlash(newname);
    var latest := api.getTree(api.getBranch(fs.branch.name).value.treeSha).value.entries;
    var entries := RenameEntries(latest, src, dst);
    var r := Rename(fs, api, oldname, newname);
    assert r.fs.tree.entries == entries;
    RenameMovesLookup(latest, src, dst);
    RenameClearsSource(latest, src, dst);
  }
}
