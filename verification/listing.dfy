/** Opening a path: the exact-path lookup, the blob fetch for files, and the
    single-level directory listing synthesised from the flat entry list
    (githubfs.go:135-186). */
module Listing {
  import opened Results
  import opened Paths
  import opened Entries

  /** Modes the listing gives its children: 0644 (octal) for files and
      040000 (octal) for directories. */
  const FileMode: int := 0x1A4
  const DirMode: int := 0x4000

  /** One element of a synthesised directory. */
  datatype Child = Child(name: string, isDir: bool, mode: int)

  /** What open hands back: a file holding the blob's bytes, or a directory
      holding its children by name (afero's mem.DirMap). */
  datatype Handle =
    | File(name: string, mode: int, data: seq<bv8>)
    | Directory(name: string, children: map<string, Child>)

  /** How the listing loop classifies one entry: blobs become files, trees
      become directories, any other type is skipped. */
  function ChildOf(e: Entry): (r: Option<Child>)
    ensures r.Some? <==> !e.kind.Other?
  {
    match e.kind
    case Blob => Some(Child(ChildName(e.path), false, FileMode))
    case Tree => Some(Child(ChildName(e.path), true, DirMode))
    case Other(_) => None
  }

  /** The entry contributes `c` to the listing of directory `target`. */
  predicate Lists(e: Entry, target: string, c: Child) {
    Dir(e.path) == target && ChildOf(e) == Some(c)
  }

  /** Entry `i` contributes `c`, and no later entry contributes a child
      of the same name. */
  ghost predicate LastLists(entries: seq<Entry>, target: string, i: nat, c: Child)
    requires i < |entries|
  {
    Lists(entries[i], target, c) &&
    forall j, d :: i < j < |entries| && Lists(entries[j], target, d) ==> d.name != c.name
  }

  /** `m` is the directory `target` as the listing loop fills it from
      `entries`: every child an entry contributes is present under its
      name, and each name holds the child of the last entry contributing
      that name, since adding to a DirMap replaces an earlier child of the
      same name. */
  ghost predicate IsListing(entries: seq<Entry>, target: string, m: map<string, Child>) {
    (forall i, c :: 0 <= i < |entries| && Lists(entries[i], target, c) ==> c.name in m) &&
    (forall n :: n in m ==>
      (m[n].name == n && exists i :: 0 <= i < |entries| && LastLists(entries, target, i, m[n])))
  }

  /** The listing with one more entry in front of those already added: its
      child joins only when no later entry already holds its name. */
  function AddFirst(e: Entry, target: string, m: map<string, Child>): (r: map<string, Child>) {
    match ChildOf(e)
    case Some(c) => if Dir(e.path) == target && c.name !in m then m[c.name := c] else m
    case None => m
  }

  /** Putting an entry in front of a listed sequence keeps it a listing. */
  lemma ListingCons(e: Entry, rest: seq<Entry>, target: string, m: map<string, Child>)
    requires IsListing(rest, target, m)
    ensures IsListing([e] + rest, target, AddFirst(e, target, m))
  {
    ConsKeys(e, rest, target, m);
    var m' := AddFirst(e, target, m);
    forall n | n in m'
      ensures m'[n].name == n
      ensures exists i :: 0 <= i < |[e] + rest| && LastLists([e] + rest, target, i, m'[n])
    {
      ConsValue(e, rest, target, m, n);
    }
  }

  /** Every child the longer list contributes is a key of the new map. */
  lemma ConsKeys(e: Entry, rest: seq<Entry>, target: string, m: map<string, Child>)
    requires IsListing(rest, target, m)
    ensures forall i, c :: 0 <= i < |[e] + rest| && Lists(([e] + rest)[i], target, c) ==>
      c.name in AddFirst(e, target, m)
  {
    var es := [e] + rest;
    forall i, c | 0 <= i < |es| && Lists(es[i], target, c)
      ensures c.name in AddFirst(e, target, m)
    {
      if i > 0 {
        assert es[i] == rest[i - 1];
      }
    }
  }

  /** Each key of the new map holds the child of the last entry that
      contributes its name. */
  lemma ConsValue(e: Entry, rest: seq<Entry>, target: string, m: map<string, Child>, n: string)
    requires IsListing(rest, target, m)
    requires n in AddFirst(e, target, m)
    ensures AddFirst(e, target, m)[n].name == n
    ensures exists i :: 0 <= i < |[e] + rest| && LastLists([e] + rest, target, i, AddFirst(e, target, m)[n])
  {
    AddFirstKeys(e, target, m, n);
    if n in m {
      var i :| 0 <= i < |rest| && LastLists(rest, target, i, m[n]);
      LastShift(e, rest, target, i, m[n]);
      assert LastLists([e] + rest, target, i + 1, AddFirst(e, target, m)[n]);
    } else {
      var c := ChildOf(e).value;
      LastFirst(e, rest, target, m, c);
    }
  }

  /** AddFirst adds a key only for the front entry's own child, and keeps
      every existing key. */
  lemma AddFirstKeys(e: Entry, target: string, m: map<string, Child>, n: string)
    requires n in AddFirst(e, target, m)
    ensures n in m ==> AddFirst(e, target, m)[n] == m[n]
    ensures n !in m ==> ChildOf(e).Some? && Lists(e, target, ChildOf(e).value)
    ensures n !in m ==> ChildOf(e).value.name == n && AddFirst(e, target, m)[n] == ChildOf(e).value
  {
  }

  /** The last contributor of a name in the rest stays the last one after
      an entry is put in front. */
  lemma LastShift(e: Entry, rest: seq<Entry>, target: string, i: nat, c: Child)
    requires i < |rest| && LastLists(rest, target, i, c)
    ensures LastLists([e] + rest, target, i + 1, c)
  {
    var es := [e] + rest;
    assert es[i + 1] == rest[i];
    forall j, d | i + 1 < j < |es| && Lists(es[j], target, d)
      ensures d.name != c.name
    {
      assert es[j] == rest[j - 1];
    }
  }

  /** A front entry whose child's name the rest never contributes is its
      last contributor. */
  lemma LastFirst(e: Entry, rest: seq<Entry>, target: string, m: map<string, Child>, c: Child)
    requires IsListing(rest, target, m)
    requires Lists(e, target, c) && c.name !in m
    ensures LastLists([e] + rest, target, 0, c)
  {
    var es := [e] + rest;
    forall j, d | 0 < j < |es| && Lists(es[j], target, d)
      ensures d.name != c.name
    {
      assert es[j] == rest[j - 1];
    }
  }

  /** The directory `target` built from the entries whose path.Dir is
      `target`, by name. */
  function ListDir(entries: seq<Entry>, target: string): (r: map<string, Child>)
    ensures IsListing(entries, target, r)
    decreases |entries|
  {
    if |entries| == 0 then map[]
    else
      var rest := ListDir(entries[1..], target);
      ListingCons(entries[0], entries[1..], target, rest);
      assert [entries[0]] + entries[1..] == entries;
      AddFirst(entries[0], target, rest)
  }

  /** The directory open lists for a normalised name: the root "" is listed
      as ".", the value path.Dir gives top-level paths. */
  function ListTarget(normal: string): (target: string) {
    if normal == "" then "." else normal
  }

  /** open: find the first entry at the normalised name (NotFound if none);
      a blob is fetched by its SHA into a file of mode 0644; anything else
      is listed as a directory named by the name as given. */
  function Open(entries: seq<Entry>, getBlob: string -> Reply<seq<bv8>>, name: string): (r: Result<Handle>)
    ensures r == Err(NotFound) <==> !Has(entries, TrimLeadingSlash(name))
    ensures r.Ok? ==> Has(entries, TrimLeadingSlash(name))
    ensures r.Ok? && r.value.File? ==>
      var e := FindEntry(entries, name).value;
      e.kind == Blob && r.value.name == TrimLeadingSlash(name) && r.value.mode == FileMode &&
      getBlob(e.sha) == Reply(r.value.data)
    ensures r.Ok? && r.value.Directory? ==>
      FindEntry(entries, name).value.kind != Blob && r.value.name == name &&
      IsListing(entries, ListTarget(TrimLeadingSlash(name)), r.value.children)
    ensures r.Err? && r.error.RemoteFailure? <==>
      FindEntry(entries, name).Some? && FindEntry(entries, name).value.kind == Blob &&
      getBlob(FindEntry(entries, name).value.sha).Refused?
    ensures
      (FindEntry(entries, name).Some? && FindEntry(entries, name).value.kind == Blob &&
       getBlob(FindEntry(entries, name).value.sha).Refused?) ==>
      r == Err(RemoteFailure(getBlob(FindEntry(entries, name).value.sha).reason))
  {
    var normal := TrimLeadingSlash(name);
    match FindEntry(entries, name)
    case None => Err(NotFound)
    case Some(e) =>
      if e.kind == Blob then
        match getBlob(e.sha)
        case Refused(why) => Err(RemoteFailure(why))
        case Reply(data) => Ok(File(normal, FileMode, data))
      else Ok(Directory(name, ListDir(entries, ListTarget(normal))))
  }

  // ---------------------------------------------------------------------
  // Properties

  /** Later entries win: the listing of a concatenation is the listing of
      the first part overridden, name by name, by that of the second. */
  lemma {:induction false} ListDirAppend(a: seq<Entry>, b: seq<Entry>, target: string)
    ensures ListDir(a + b, target) == ListDir(a, target) + ListDir(b, target)
    decreases |a|
  {
    if |a| > 0 {
      assert (a + b)[0] == a[0];
      assert (a + b)[1..] == a[1..] + b;
      ListDirAppend(a[1..], b, target);
      var m1 := ListDir(a[1..], target);
      var m2 := ListDir(b, target);
      AddFirstUnion(a[0], target, m1, m2);
    } else {
      assert a + b == b;
      assert ListDir(a, target) + ListDir(b, target) == ListDir(b, target);
    }
  }

  /** Adding an entry in front commutes with overriding by a later part. */
  lemma AddFirstUnion(e: Entry, target: string, m1: map<string, Child>, m2: map<string, Child>)
    ensures AddFirst(e, target, m1 + m2) == AddFirst(e, target, m1) + m2
  {
  }

  /** For clean paths, a directory lists exactly its immediate children,
      named by their last element: `p` is listed under clean `t` when it is
      `t`, a slash and one more element, and deeper descendants are not. */
  lemma ListedUnderClean(e: Entry, t: string)
    requires IsCleanRel(e.path) && IsCleanRel(t)
    requires !e.kind.Other?
    ensures (exists c :: Lists(e, t, c)) <==> (t + "/" <= e.path && '/' !in e.path[|t| + 1..])
    ensures ChildOf(e).Some? && ChildOf(e).value.name == Split(e.path)[|Split(e.path)| - 1]
  {
    DirIsParent(e.path, t);
    ChildNameOfClean(e.path);
    if Dir(e.path) == t {
      assert Lists(e, t, ChildOf(e).value);
    }
  }

  /** For clean paths, the top-level directory "." lists exactly the
      entries whose path has no slash, under their own path as name. */
  lemma ListedAtTop(e: Entry)
    requires IsCleanRel(e.path)
    requires !e.kind.Other?
    ensures (exists c :: Lists(e, ".", c)) <==> '/' !in e.path
    ensures '/' !in e.path ==> ChildOf(e).value.name == e.path
  {
    DirOfClean(e.path);
    ChildNameOfClean(e.path);
    if '/' !in e.path {
      SplitNoSlash(e.path);
      assert Lists(e, ".", ChildOf(e).value);
    }
  }
}
