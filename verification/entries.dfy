/** The flat tree-entry model: one row of a remote tree listing, and the
    exact-path lookup `findEntry` (githubfs.go:125-133). */
module Entries {
  import opened Results
  import opened Paths

  /** The `type` tag of a tree entry. Entries other than blobs and trees
      (submodule commits, say) keep their tag. The adapter compares the tag
      as a string against "blob" and "tree", so an Other never carries
      either of those two (see EntryKind). */
  datatype Kind = Blob | Tree | Other(tag: string)

  /** A Kind the adapter's string comparisons can produce. */
  predicate WellTagged(k: Kind) {
    k.Other? ==> k.tag != "blob" && k.tag != "tree"
  }

  /** The kinds an entry can carry: an Other never has tag "blob" or
      "tree". */
  type EntryKind = k: Kind | WellTagged(k) witness Blob

  /** One tree entry. `sha` is the content hash ("" when unset, as Go's
      GetSHA() reports a nil field); `content`, `url` and `size` are the
      fields that only read responses carry. */
  datatype Entry = Entry(
    path: string,
    kind: EntryKind,
    sha: string,
    mode: string,
    content: Option<string>,
    url: Option<string>,
    size: Option<int>)

  /** Some entry has exactly path `p`. */
  predicate Has(entries: seq<Entry>, p: string) {
    exists i :: 0 <= i < |entries| && entries[i].path == p
  }

  /** Index of the first entry whose path is exactly `p`. */
  function Position(entries: seq<Entry>, p: string): (r: Option<nat>)
    ensures r.Some? ==> r.value < |entries| && entries[r.value].path == p
    ensures r.Some? ==> forall j :: 0 <= j < r.value ==> entries[j].path != p
    ensures r.None? <==> !Has(entries, p)
    decreases |entries|
  {
    if |entries| == 0 then None
    else if entries[0].path == p then Some(0)
    else
      match Position(entries[1..], p)
      case None => None
      case Some(k) => Some(k + 1)
  }

  /** findEntry: strips one leading slash from `name` and returns the first
      entry, in list order, whose path equals the result. */
  function FindEntry(entries: seq<Entry>, name: string): (r: Option<Entry>)
    ensures r.None? <==> !Has(entries, TrimLeadingSlash(name))
    ensures r.Some? ==> r.value.path == TrimLeadingSlash(name)
    ensures r.Some? ==>
      exists i :: 0 <= i < |entries| && entries[i] == r.value &&
        forall j :: 0 <= j < i ==> entries[j].path != TrimLeadingSlash(name)
  {
    match Position(entries, TrimLeadingSlash(name))
    case None => None
    case Some(i) => Some(entries[i])
  }

  /** Position is the first match: an index holding `p` with no earlier
      index holding it is the position of `p`. */
  lemma {:induction false} PositionIsFirst(entries: seq<Entry>, p: string, k: nat)
    requires k < |entries| && entries[k].path == p
    requires forall j :: 0 <= j < k ==> entries[j].path != p
    ensures Position(entries, p) == Some(k)
    decreases k
  {
    if k > 0 {
      PositionIsFirst(entries[1..], p, k - 1);
    }
  }

  /** A path present in a list stays present when the list grows at the end. */
  lemma HasGrows(a: seq<Entry>, b: seq<Entry>, p: string)
    requires a <= b
    requires Has(a, p)
    ensures Has(b, p)
  {
    var i :| 0 <= i < |a| && a[i].path == p;
    assert b[i] == a[i];
  }

  /** Appending entries never changes what a lookup that already succeeded
      finds: the first match stays the first match. */
  lemma {:induction false} PositionGrows(a: seq<Entry>, b: seq<Entry>, p: string)
    requires Has(a, p)
    ensures Position(a + b, p) == Position(a, p)
    decreases |a|
  {
    if a[0].path != p {
      assert (a + b)[1..] == a[1..] + b;
      assert Has(a[1..], p) by {
        var i :| 0 <= i < |a| && a[i].path == p;
        assert a[1..][i - 1] == a[i];
      }
      PositionGrows(a[1..], b, p);
    }
  }
}
