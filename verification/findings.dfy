/** Two places where the code as written does not do what its design
    evidently intends, each exhibited on the as-written model and paired
    with a corrected definition whose intended property is proved.

    1. Mkdir looks up path.Dir of the name even for a top-level name, whose
       parent is "." and is never an entry; so Mkdir of a top-level name, and
       with it every MkdirAll on a tree lacking the top-level directory,
       fails with NotFound. The corrected Mkdir treats "." as the root, which
       always exists.
    2. open looks the name up before it special-cases the root "", so
       opening the root fails with NotFound. The corrected open lists the
       root directly. */
module Findings {
  import opened Results
  import opened Paths
  import opened Entries
  import opened Directories
  import opened Listing

  // ---------------------------------------------------------------------
  // 1. Top-level directories

  /** As written: a top-level name is refused whenever no entry is at ".". */
  lemma MkdirRejectsTopLevel(entries: seq<Entry>, name: string)
    requires TrimLeadingSlash(name) != "" && '/' !in TrimLeadingSlash(name)
    requires !Has(entries, ".")
    ensures Mkdir(entries, name) == Err(NotFound)
  {
    DirOfName(TrimLeadingSlash(name));
  }

  /** As written: MkdirAll of a name without a slash fails with NotFound on
      any tree without an entry ".", even when the name itself is present:
      its parent walk visits "." and Mkdir of "." looks up "." again. So a
      repeated MkdirAll of a top-level name never reaches its second call
      successfully. */
  lemma MkdirAllRejectsSlashFree(entries: seq<Entry>, path: string)
    requires '/' !in TrimLeadingSlash(path)
    requires !Has(entries, ".")
    ensures MkdirAll(entries, path) == Err(NotFound)
  {
    var normal := TrimLeadingSlash(path);
    var parents := Ancestors(normal);
    DirOfName(normal);
    SplitHead(".");
    assert parents[..1] == ["."];
    assert Prefix(parents, 1) == ".";
    MkdirRejectsTopLevel(entries, ".");
  }

  /** As written: MkdirAll of a clean path whose top-level directory does
      not exist yet fails with NotFound, on any tree without an entry ".";
      for a one-element path the top-level directory may even exist. */
  lemma MkdirAllRejectsNewTopLevel(entries: seq<Entry>, path: string)
    requires IsCleanRel(TrimLeadingSlash(path))
    requires !Has(entries, ".")
    requires '/' in TrimLeadingSlash(path) ==> !Has(entries, Split(TrimLeadingSlash(path))[0])
    ensures MkdirAll(entries, path) == Err(NotFound)
  {
    var normal := TrimLeadingSlash(path);
    var segs := Split(normal);
    var parents := Ancestors(normal);
    var first := Prefix(parents, 1);
    assert parents[..1] == [parents[0]];
    if '/' in normal {
      DirOfNested(normal);
      SplitJoin(segs[..|segs| - 1]);
      assert first == segs[0];
      assert segs[0][0] != '/' by {
        assert Plain(segs[0]);
        assert segs[0][0] in segs[0];
      }
    } else {
      DirOfName(normal);
      SplitHead(".");
      assert first == ".";
    }
    MkdirRejectsTopLevel(entries, first);
  }

  /** As written, on the smallest example: a tree holding one file, then
      MkdirAll("x/y"). */
  lemma MkdirAllFailsOnFreshTree()
    ensures
      var readme := Entry("README.md", Blob, "abc", "100644", None, None, None);
      MkdirAll([readme], "x/y") == Err(NotFound)
  {
    var readme := Entry("README.md", Blob, "abc", "100644", None, None, None);
    var p: string := "x/y";
    assert p == "x" + "/" + "y";
    SplitConcat("x", "y");
    SplitNoSlash("x");
    SplitNoSlash("y");
    assert Split(p) == ["x", "y"];
    assert IsCleanRel(p);
    assert !Has([readme], "x") && !Has([readme], ".");
    MkdirAllRejectsNewTopLevel([readme], p);
  }

  /** Corrected Mkdir: the parent "." is the root and always exists. */
  function MkdirFixed(entries: seq<Entry>, name: string): (r: Result<seq<Entry>>)
    ensures r.Err? <==>
      var normal := TrimLeadingSlash(name);
      normal != "" && Dir(normal) != "." && !Has(entries, TrimLeadingSlash(Dir(normal)))
    ensures r.Err? ==> r.error == NotFound
    ensures r.Ok? ==> |r.value| == |entries| + 1 && GrowsByMarkers(entries, r.value)
    ensures r.Ok? ==> r.value[|entries|].path == TrimLeadingSlash(name)
  {
    var normal := TrimLeadingSlash(name);
    var parent := Dir(normal);
    if normal != "" && parent != "." && FindEntry(entries, parent).None? then Err(NotFound)
    else Ok(entries + [Marker(normal)])
  }

  /** Corrected MkdirAll loop: as written, but creating with MkdirFixed.
      On clean elements whose first `i` prefixes are present it succeeds
      and leaves every prefix present. */
  function MkdirParentsFixed(entries: seq<Entry>, parents: seq<string>, i: nat): (r: Result<seq<Entry>>)
    ensures r.Err? ==> r.error == NotFound
    ensures r.Ok? ==> GrowsByMarkers(entries, r.value)
    ensures Elements(parents) && i <= |parents| && ShortPrefixesPresent(entries, parents, i) ==>
      r.Ok? && ShortPrefixesPresent(r.value, parents, |parents|)
    decreases |parents| - i
  {
    if i >= |parents| then Ok(entries)
    else
      MissingFixedAccepts(entries, parents, i);
      match MissingFixed(entries, Prefix(parents, i + 1))
      case Err(e) => Err(e)
      case Ok(grown) =>
        var r := MkdirParentsFixed(grown, parents, i + 1);
        FixedLoopStep(entries, grown, r, parents, i);
        r
  }

  /** What one round of the corrected loop adds to what the rest of the
      loop guarantees. */
  lemma FixedLoopStep(entries: seq<Entry>, grown: seq<Entry>, r: Result<seq<Entry>>, parents: seq<string>, i: nat)
    requires i < |parents|
    requires MissingFixed(entries, Prefix(parents, i + 1)) == Ok(grown)
    requires r.Ok? ==> GrowsByMarkers(grown, r.value)
    requires Elements(parents) && ShortPrefixesPresent(grown, parents, i + 1) ==>
      r.Ok? && ShortPrefixesPresent(r.value, parents, |parents|)
    ensures r.Ok? ==> GrowsByMarkers(entries, r.value)
    ensures Elements(parents) && ShortPrefixesPresent(entries, parents, i) ==>
      r.Ok? && ShortPrefixesPresent(r.value, parents, |parents|)
  {
    if r.Ok? {
      MarkersCompose(entries, grown, r.value, "");
    }
    if Elements(parents) && ShortPrefixesPresent(entries, parents, i) {
      PrefixUnrooted(parents, i + 1);
      ShortPrefixesGrow(entries, grown, parents, i);
    }
  }

  /** One round of the corrected loop: a prefix that findEntry finds is
      left alone, any other is created with MkdirFixed. */
  function MissingFixed(entries: seq<Entry>, p: string): (r: Result<seq<Entry>>)
    ensures r.Err? ==> r.error == NotFound
    ensures r.Ok? ==> GrowsByMarkers(entries, r.value) && Has(r.value, TrimLeadingSlash(p))
    ensures Has(entries, TrimLeadingSlash(p)) <==> r == Ok(entries)
  {
    if FindEntry(entries, p).Some? then Ok(entries)
    else
      var r := MkdirFixed(entries, p);
      if r.Ok? then
        assert r.value[|entries|].path == TrimLeadingSlash(p);
        r
      else r
  }

  /** The parent chain of a name: no parents when it is top-level. */
  function AncestorsFixed(normal: string): (parents: seq<string>) {
    if Dir(normal) == "." then [] else Split(Dir(normal))
  }

  /** Corrected MkdirAll: walks only real parents and creates with
      MkdirFixed. */
  function MkdirAllFixed(entries: seq<Entry>, path: string): (r: Result<seq<Entry>>)
    ensures r.Err? ==> r.error == NotFound
    ensures r.Ok? ==> |r.value| > |entries| && GrowsByMarkers(entries, r.value)
    ensures r.Ok? ==> r.value[|r.value| - 1].path == TrimLeadingSlash(path)
  {
    var normal := TrimLeadingSlash(path);
    match MkdirParentsFixed(entries, AncestorsFixed(normal), 0)
    case Err(e) => Err(e)
    case Ok(grown) => MkdirFixed(grown, path)
  }

  /** Every prefix of at most `i` elements is present. */
  predicate ShortPrefixesPresent(entries: seq<Entry>, parents: seq<string>, i: nat)
    requires i <= |parents|
  {
    forall k :: 1 <= k <= i ==> Has(entries, Prefix(parents, k))
  }

  /** With clean elements and the shorter prefixes present, a round of
      the corrected loop succeeds. */
  lemma MissingFixedAccepts(entries: seq<Entry>, parents: seq<string>, i: nat)
    requires i < |parents|
    ensures Elements(parents) && ShortPrefixesPresent(entries, parents, i) ==>
      MissingFixed(entries, Prefix(parents, i + 1)).Ok?
  {
    if Elements(parents) && ShortPrefixesPresent(entries, parents, i) {
      DirOfPrefix(parents, i + 1);
      if i > 0 {
        DirOfPrefix(parents, i);
        assert Has(entries, Prefix(parents, i));
      }
    }
  }

  /** A prefix of clean elements is not rooted. */
  lemma PrefixUnrooted(parents: seq<string>, k: nat)
    requires Elements(parents)
    requires 1 <= k <= |parents|
    ensures TrimLeadingSlash(Prefix(parents, k)) == Prefix(parents, k)
  {
    DirOfPrefix(parents, k);
  }

  /** A list that grows keeps the prefixes present so far, and with the
      next one present holds one more. */
  lemma ShortPrefixesGrow(entries: seq<Entry>, next: seq<Entry>, parents: seq<string>, i: nat)
    requires i < |parents|
    requires entries <= next
    requires ShortPrefixesPresent(entries, parents, i)
    requires Has(next, Prefix(parents, i + 1))
    ensures ShortPrefixesPresent(next, parents, i + 1)
  {
    PrefixKeepsPaths(entries, next);
  }

  /** The elements of a clean path and the parent chain of its name. */
  lemma CleanChain(normal: string)
    requires IsCleanRel(normal)
    ensures Elements(Split(normal))
    ensures AncestorsFixed(normal) == Split(normal)[..|Split(normal)| - 1]
    ensures Prefix(Split(normal), |Split(normal)|) == normal
    ensures |Split(normal)| > 1 ==> Dir(normal) == Prefix(Split(normal), |Split(normal)| - 1)
    ensures |Split(normal)| == 1 ==> Dir(normal) == "."
  {
    CleanElements(normal);
    if '/' in normal {
      NestedChain(normal);
    } else {
      SplitNoSlash(normal);
      DirOfName(normal);
    }
  }

  /** The corrected Mkdir accepts a clean name whose parent is present
      (a top-level name needs nothing). */
  lemma MkdirFixedAccepts(entries: seq<Entry>, name: string)
    requires IsCleanRel(TrimLeadingSlash(name))
    requires '/' in TrimLeadingSlash(name) ==> Has(entries, Dir(TrimLeadingSlash(name)))
    ensures MkdirFixed(entries, name).Ok?
  {
    var normal := TrimLeadingSlash(name);
    DirOfClean(normal);
    if '/' in normal {
      CleanRelShape(Dir(normal));
    }
  }

  /** The corrected loop, run over the parents of a clean name, leaves
      every proper prefix of the name present. */
  lemma ParentsOfCleanPresent(entries: seq<Entry>, normal: string)
    requires IsCleanRel(normal)
    ensures MkdirParentsFixed(entries, AncestorsFixed(normal), 0).Ok?
    ensures
      var segs := Split(normal);
      var grown := MkdirParentsFixed(entries, AncestorsFixed(normal), 0).value;
      forall k :: 1 <= k < |segs| ==> Has(grown, Prefix(segs, k))
  {
    var segs := Split(normal);
    var n := |segs|;
    CleanChain(normal);
    var parents := AncestorsFixed(normal);
    assert Elements(parents);
    var grown := MkdirParentsFixed(entries, parents, 0).value;
    assert ShortPrefixesPresent(grown, parents, n - 1);
    forall k | 1 <= k < n
      ensures Has(grown, Prefix(segs, k))
    {
      assert parents[..k] == segs[..k];
      assert Prefix(parents, k) == Prefix(segs, k);
    }
  }

  /** The last step of the corrected MkdirAll: once the proper prefixes
      are present, the full name is accepted and then every prefix is. */
  lemma FinalMkdirFixed(grown: seq<Entry>, path: string)
    requires IsCleanRel(TrimLeadingSlash(path))
    requires
      var segs := Split(TrimLeadingSlash(path));
      forall k :: 1 <= k < |segs| ==> Has(grown, Prefix(segs, k))
    ensures MkdirFixed(grown, path).Ok?
    ensures
      var segs := Split(TrimLeadingSlash(path));
      forall k :: 1 <= k <= |segs| ==> Has(MkdirFixed(grown, path).value, Prefix(segs, k))
  {
    var normal := TrimLeadingSlash(path);
    var segs := Split(normal);
    var n := |segs|;
    CleanChain(normal);
    DirOfClean(normal);
    if n > 1 {
      assert Has(grown, Prefix(segs, n - 1));
    }
    MkdirFixedAccepts(grown, path);
    var done := MkdirFixed(grown, path).value;
    assert done[|grown|].path == normal;
    forall k | 1 <= k <= n
      ensures Has(done, Prefix(segs, k))
    {
      if k < n {
        HasGrows(grown, done, Prefix(segs, k));
      }
    }
  }

  /** Corrected MkdirAll on a clean path always succeeds and leaves every
      prefix of the path present: "a", "a/b" and "a/b/c" for "a/b/c". */
  lemma MkdirAllFixedBuildsChain(entries: seq<Entry>, path: string)
    requires IsCleanRel(TrimLeadingSlash(path))
    ensures MkdirAllFixed(entries, path).Ok?
    ensures
      var segs := Split(TrimLeadingSlash(path));
      forall k :: 1 <= k <= |segs| ==> Has(MkdirAllFixed(entries, path).value, Prefix(segs, k))
  {
    var normal := TrimLeadingSlash(path);
    ParentsOfCleanPresent(entries, normal);
    var grown := MkdirParentsFixed(entries, AncestorsFixed(normal), 0).value;
    FinalMkdirFixed(grown, path);
    assert MkdirAllFixed(entries, path) == MkdirFixed(grown, path);
  }

  /** The markers for the first `i` prefixes, shortest first. */
  function Chain(parents: seq<string>, i: nat): (markers: seq<Entry>)
    requires i <= |parents|
  {
    seq(i, k requires 0 <= k < i => Marker(Prefix(parents, k + 1)))
  }

  /** Longer prefixes of clean elements are longer paths. */
  lemma {:induction false} PrefixGrows(parents: seq<string>, k: nat, j: nat)
    requires Elements(parents)
    requires 1 <= k < j <= |parents|
    ensures |Prefix(parents, k)| < |Prefix(parents, j)|
    decreases j - k
  {
    assert parents[..j] == parents[..j - 1] + [parents[j - 1]];
    JoinSnoc(parents[..j - 1], parents[j - 1]);
    if k < j - 1 {
      PrefixGrows(parents, k, j - 1);
    }
  }

  /** One more prefix adds one more marker at the end. */
  lemma ChainSnoc(parents: seq<string>, i: nat)
    requires i < |parents|
    ensures Chain(parents, i + 1) == Chain(parents, i) + [Marker(Prefix(parents, i + 1))]
  {
  }

  /** The next prefix is in neither the base nor the markers made so far. */
  lemma NextPrefixMissing(base: seq<Entry>, parents: seq<string>, i: nat)
    requires Elements(parents)
    requires i < |parents|
    requires !Has(base, Prefix(parents, i + 1))
    ensures !Has(base + Chain(parents, i), Prefix(parents, i + 1))
  {
    var entries := base + Chain(parents, i);
    var p := Prefix(parents, i + 1);
    forall j | 0 <= j < |entries|
      ensures entries[j].path != p
    {
      if j >= |base| {
        var k := j - |base|;
        assert entries[j] == Marker(Prefix(parents, k + 1));
        PrefixGrows(parents, k + 1, i + 1);
      } else {
        assert entries[j] == base[j];
      }
    }
  }

  /** Once the shorter prefixes have their markers, the corrected Mkdir
      of the next prefix appends its marker. */
  lemma AppendStep(base: seq<Entry>, parents: seq<string>, i: nat)
    requires Elements(parents)
    requires i < |parents|
    ensures MkdirFixed(base + Chain(parents, i), Prefix(parents, i + 1)) == Ok(base + Chain(parents, i + 1))
  {
    var entries := base + Chain(parents, i);
    var p := Prefix(parents, i + 1);
    DirOfPrefix(parents, i + 1);
    if i > 0 {
      DirOfPrefix(parents, i);
      assert entries[|base| + i - 1] == Marker(Prefix(parents, i));
      assert Has(entries, Prefix(parents, i));
    }
    assert MkdirFixed(entries, p) == Ok(entries + [Marker(p)]);
    ChainSnoc(parents, i);
    assert entries + [Marker(p)] == base + (Chain(parents, i) + [Marker(p)]);
  }

  /** One round of the corrected loop on a fresh prefix appends its marker. */
  lemma FreshStep(base: seq<Entry>, parents: seq<string>, i: nat)
    requires Elements(parents)
    requires i < |parents|
    requires !Has(base, Prefix(parents, i + 1))
    ensures
      var entries := base + Chain(parents, i);
      FindEntry(entries, Prefix(parents, i + 1)).None? &&
      MkdirFixed(entries, Prefix(parents, i + 1)) == Ok(base + Chain(parents, i + 1))
  {
    DirOfPrefix(parents, i + 1);
    NextPrefixMissing(base, parents, i);
    AppendStep(base, parents, i);
  }

  /** On a tree holding none of the prefixes, the corrected loop appends
      one marker per prefix, shortest first. */
  lemma {:induction false} MkdirParentsFixedFresh(base: seq<Entry>, parents: seq<string>, i: nat)
    requires Elements(parents)
    requires i <= |parents|
    requires forall k :: 1 <= k <= |parents| ==> !Has(base, Prefix(parents, k))
    ensures MkdirParentsFixed(base + Chain(parents, i), parents, i) == Ok(base + Chain(parents, |parents|))
    decreases |parents| - i
  {
    if i < |parents| {
      FreshStep(base, parents, i);
      MkdirParentsFixedFresh(base, parents, i + 1);
    }
  }

  /** The corrected loop over the parents of a clean name whose proper
      prefixes are all missing appends their markers, shortest first. */
  lemma ParentsFresh(entries: seq<Entry>, normal: string)
    requires IsCleanRel(normal)
    requires forall k :: 1 <= k < |Split(normal)| ==> !Has(entries, Prefix(Split(normal), k))
    ensures
      var segs := Split(normal);
      MkdirParentsFixed(entries, AncestorsFixed(normal), 0) == Ok(entries + Chain(segs, |segs| - 1))
  {
    var segs := Split(normal);
    CleanChain(normal);
    var parents := AncestorsFixed(normal);
    forall k | 1 <= k <= |parents|
      ensures !Has(entries, Prefix(parents, k))
    {
      assert parents[..k] == segs[..k];
      assert Prefix(parents, k) == Prefix(segs, k) && k < |segs|;
    }
    assert entries + Chain(parents, 0) == entries;
    MkdirParentsFixedFresh(entries, parents, 0);
    ChainOfPrefix(parents, segs);
  }

  /** The chain of a list's first elements is the same chain as the
      list's. */
  lemma ChainOfPrefix(a: seq<string>, b: seq<string>)
    requires |a| <= |b| && a == b[..|a|]
    ensures Chain(a, |a|) == Chain(b, |a|)
  {
    forall k | 1 <= k <= |a|
      ensures Prefix(a, k) == Prefix(b, k)
    {
      assert a[..k] == b[..k];
    }
  }

  /** Corrected MkdirAll on a clean path whose proper prefixes are all
      missing appends exactly one marker per prefix, left to right, ending
      with the full path. */
  lemma MkdirAllFixedOrder(entries: seq<Entry>, path: string)
    requires IsCleanRel(TrimLeadingSlash(path))
    requires
      var segs := Split(TrimLeadingSlash(path));
      forall k :: 1 <= k < |segs| ==> !Has(entries, Prefix(segs, k))
    ensures
      var segs := Split(TrimLeadingSlash(path));
      MkdirAllFixed(entries, path) == Ok(entries + Chain(segs, |segs|))
  {
    var normal := TrimLeadingSlash(path);
    var segs := Split(normal);
    var n := |segs|;
    var grown := entries + Chain(segs, n - 1);
    var full := Ok(entries + Chain(segs, n));
    assert MkdirParentsFixed(entries, AncestorsFixed(normal), 0) == Ok(grown) by {
      ParentsFresh(entries, normal);
    }
    assert MkdirFixed(grown, path) == full by {
      LastMarker(entries, path);
    }
    ThenMkdirFixed(entries, path, grown, full);
  }

  /** The corrected MkdirAll is its loop followed by the corrected Mkdir. */
  lemma ThenMkdirFixed(entries: seq<Entry>, path: string, grown: seq<Entry>, r: Result<seq<Entry>>)
    requires MkdirParentsFixed(entries, AncestorsFixed(TrimLeadingSlash(path)), 0) == Ok(grown)
    requires MkdirFixed(grown, path) == r
    ensures MkdirAllFixed(entries, path) == r
  {
  }

  /** The corrected Mkdir of a clean name after the markers of its proper
      prefixes appends the name's own marker. */
  lemma LastMarker(entries: seq<Entry>, path: string)
    requires IsCleanRel(TrimLeadingSlash(path))
    ensures
      var segs := Split(TrimLeadingSlash(path));
      MkdirFixed(entries + Chain(segs, |segs| - 1), path) == Ok(entries + Chain(segs, |segs|))
  {
    var normal := TrimLeadingSlash(path);
    var segs := Split(normal);
    var n := |segs|;
    var grown := entries + Chain(segs, n - 1);
    var p := Prefix(segs, n);
    FullPrefix(path);
    assert MkdirFixed(grown, p) == Ok(entries + Chain(segs, n)) by {
      AppendStep(entries, segs, n - 1);
    }
    assert MkdirFixed(grown, path) == MkdirFixed(grown, p) by {
      SameName(grown, path, p);
    }
  }

  /** The full chain of a clean path names the path itself. */
  lemma FullPrefix(path: string)
    requires IsCleanRel(TrimLeadingSlash(path))
    ensures
      var segs := Split(TrimLeadingSlash(path));
      Elements(segs) && |segs| >= 1 &&
      TrimLeadingSlash(Prefix(segs, |segs|)) == TrimLeadingSlash(path)
  {
    var normal := TrimLeadingSlash(path);
    CleanChain(normal);
    CleanRelShape(normal);
  }

  /** The corrected Mkdir only looks at the name with its leading slash
      removed. */
  lemma SameName(entries: seq<Entry>, a: string, b: string)
    requires TrimLeadingSlash(a) == TrimLeadingSlash(b)
    ensures MkdirFixed(entries, a) == MkdirFixed(entries, b)
  {
  }

  // ---------------------------------------------------------------------
  // 2. Opening the root

  /** As written: the root "" (or "/") is looked up like any path, so
      opening it fails whenever no entry has the empty path, although the
      code goes on to list "" as ".". */
  lemma OpenRootFails(entries: seq<Entry>, getBlob: string -> Reply<seq<bv8>>)
    requires !Has(entries, "")
    ensures Open(entries, getBlob, "") == Err(NotFound)
    ensures Open(entries, getBlob, "/") == Err(NotFound)
  {
    assert TrimLeadingSlash("/") == "";
  }

  /** Corrected open: the root is always a directory, listed as ".". */
  function OpenFixed(entries: seq<Entry>, getBlob: string -> Reply<seq<bv8>>, name: string): (r: Result<Handle>)
    ensures TrimLeadingSlash(name) == "" ==> r.Ok? && r.value.Directory?
    ensures TrimLeadingSlash(name) != "" ==> r == Open(entries, getBlob, name)
  {
    if TrimLeadingSlash(name) == "" then Ok(Directory(name, ListDir(entries, ".")))
    else Open(entries, getBlob, name)
  }

  /** Entry `i` has path `n`, and no later blob or tree has it. */
  predicate LastAt(entries: seq<Entry>, i: nat, n: string)
    requires i < |entries|
  {
    entries[i].path == n &&
    forall j :: i < j < |entries| && !entries[j].kind.Other? ==> entries[j].path != n
  }

  /** A name in the top-level listing of clean paths is the path of the
      last blob or tree with that path, which holds no slash. */
  lemma TopChild(entries: seq<Entry>, m: map<string, Child>, n: string)
    requires forall i :: 0 <= i < |entries| ==> IsCleanRel(entries[i].path)
    requires IsListing(entries, ".", m) && n in m
    ensures '/' !in n
    ensures exists i :: 0 <= i < |entries| && !entries[i].kind.Other? && entries[i].path == n
    ensures
      exists i :: 0 <= i < |entries| && !entries[i].kind.Other? && LastAt(entries, i, n) &&
        m[n] == ChildOf(entries[i]).value
  {
    var i :| 0 <= i < |entries| && LastLists(entries, ".", i, m[n]);
    ListedAtTop(entries[i]);
    forall j | i < j < |entries| && !entries[j].kind.Other?
      ensures entries[j].path != n
    {
      ListedAtTop(entries[j]);
      if '/' !in entries[j].path {
        assert Lists(entries[j], ".", ChildOf(entries[j]).value);
      }
    }
    assert LastAt(entries, i, n);
  }

  /** A top-level blob or tree of clean path is in the top-level listing. */
  lemma TopEntry(entries: seq<Entry>, m: map<string, Child>, i: nat)
    requires forall k :: 0 <= k < |entries| ==> IsCleanRel(entries[k].path)
    requires IsListing(entries, ".", m)
    requires i < |entries| && !entries[i].kind.Other? && '/' !in entries[i].path
    ensures entries[i].path in m
  {
    ListedAtTop(entries[i]);
    assert Lists(entries[i], ".", ChildOf(entries[i]).value);
  }

  /** Corrected open of the root lists, for a tree of clean paths, exactly
      the blobs and trees whose path has no slash, each under its own path
      and holding the child of the last entry with that path. */
  lemma OpenFixedRootListsTopLevel(entries: seq<Entry>, getBlob: string -> Reply<seq<bv8>>)
    requires forall i :: 0 <= i < |entries| ==> IsCleanRel(entries[i].path)
    ensures
      var root := OpenFixed(entries, getBlob, "").value;
      forall n :: n in root.children <==>
        exists i :: 0 <= i < |entries| && !entries[i].kind.Other? && entries[i].path == n && '/' !in n
    ensures
      var root := OpenFixed(entries, getBlob, "").value;
      forall n :: n in root.children ==>
        exists i :: 0 <= i < |entries| && !entries[i].kind.Other? && LastAt(entries, i, n) &&
          root.children[n] == ChildOf(entries[i]).value
  {
    var root := OpenFixed(entries, getBlob, "").value;
    var m := root.children;
    assert m == ListDir(entries, ".");
    forall n | n in m
      ensures '/' !in n
      ensures exists i :: 0 <= i < |entries| && !entries[i].kind.Other? && entries[i].path == n
      ensures
      exists i :: 0 <= i < |entries| && !entries[i].kind.Other? && LastAt(entries, i, n) &&
        m[n] == ChildOf(entries[i]).value
    {
      TopChild(entries, m, n);
    }
    forall i | 0 <= i < |entries| && !entries[i].kind.Other? && '/' !in entries[i].path
      ensures entries[i].path in m
    {
      TopEntry(entries, m, i);
    }
  }
}
