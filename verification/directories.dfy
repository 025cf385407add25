/** Directory creation on the local entry list: Mkdir and MkdirAll
    (githubfs.go:82-123). Neither contacts the remote; both only append
    tree markers, and neither checks whether the path is already present. */
module Directories {
  import opened Results
  import opened Paths
  import opened Entries

  /** Mode string of a directory marker. */
  const TreeMode: string := "040000"

  /** The entry Mkdir appends: a tree with no SHA and no read-only fields. */
  function Marker(p: string): (e: Entry) {
    Entry(p, Tree, "", TreeMode, None, None, None)
  }

  /** An entry of the shape Mkdir appends, whatever its path. */
  predicate IsMarker(e: Entry) {
    e == Marker(e.path)
  }

  /** Everything `b` adds to `a` is a directory marker. */
  predicate GrowsByMarkers(a: seq<Entry>, b: seq<Entry>) {
    a <= b && forall j :: |a| <= j < |b| ==> IsMarker(b[j])
  }

  /** Mkdir: after stripping one leading slash, a non-empty name needs an
      entry at path.Dir of it (looked up through findEntry); then a marker
      for the name is appended at the end. A top-level name has parent ".",
      which the remote never lists. */
  function Mkdir(entries: seq<Entry>, name: string): (r: Result<seq<Entry>>)
    ensures r.Err? <==>
      TrimLeadingSlash(name) != "" && !Has(entries, TrimLeadingSlash(Dir(TrimLeadingSlash(name))))
    ensures r.Err? ==> r.error == NotFound
    ensures r.Ok? ==> |r.value| == |entries| + 1 && GrowsByMarkers(entries, r.value)
    ensures r.Ok? ==> r.value[|entries|].path == TrimLeadingSlash(name)
  {
    var normal := TrimLeadingSlash(name);
    var parent := FindEntry(entries, Dir(normal));
    if normal != "" && parent.None? then Err(NotFound)
    else Ok(entries + [Marker(normal)])
  }

  /** The parent chain MkdirAll walks: path.Dir of the name, split on the
      separator. */
  function Ancestors(normal: string): (parents: seq<string>)
    ensures |parents| >= 1
  {
    Split(Dir(normal))
  }

  /** The `k` leftmost parent names joined back into a path. */
  function Prefix(parents: seq<string>, k: nat): (p: string)
    requires k <= |parents|
  {
    Join(parents[..k])
  }

  /** Every prefix of `parents` longer than `i` elements is present. */
  predicate PrefixesPresent(entries: seq<Entry>, parents: seq<string>, i: nat) {
    forall k :: i < k <= |parents| ==> Has(entries, TrimLeadingSlash(Prefix(parents, k)))
  }

  lemma PrefixKeepsPaths(a: seq<Entry>, b: seq<Entry>)
    requires a <= b
    ensures forall p :: Has(a, p) ==> Has(b, p)
  {
    forall p | Has(a, p) {
      HasGrows(a, b, p);
    }
  }

  /** One round of the MkdirAll loop: a prefix that findEntry finds is
      left alone, any other is created with Mkdir. */
  function MkdirMissing(entries: seq<Entry>, p: string): (r: Result<seq<Entry>>)
    ensures r.Err? ==> r.error == NotFound
    ensures r.Ok? ==> GrowsByMarkers(entries, r.value) && Has(r.value, TrimLeadingSlash(p))
    ensures Has(entries, TrimLeadingSlash(p)) <==> r == Ok(entries)
  {
    if FindEntry(entries, p).Some? then Ok(entries)
    else
      var r := Mkdir(entries, p);
      if r.Ok? then
        assert r.value[|entries|].path == TrimLeadingSlash(p);
        r
      else r
  }

  /** Growing by markers twice is growing by markers, and keeps paths. */
  lemma MarkersCompose(a: seq<Entry>, b: seq<Entry>, c: seq<Entry>, p: string)
    requires GrowsByMarkers(a, b) && GrowsByMarkers(b, c)
    ensures GrowsByMarkers(a, c)
    ensures Has(b, p) ==> Has(c, p)
  {
    if Has(b, p) {
      HasGrows(b, c, p);
    }
    forall j | |a| <= j < |c|
      ensures IsMarker(c[j])
    {
      if j < |b| {
        assert c[j] == b[j];
      }
    }
  }

  /** What one round of the loop adds to what the rest of the loop
      guarantees. */
  lemma LoopStep(entries: seq<Entry>, grown: seq<Entry>, rest: Result<seq<Entry>>, parents: seq<string>, i: nat)
    requires i < |parents|
    requires GrowsByMarkers(entries, grown) && Has(grown, TrimLeadingSlash(Prefix(parents, i + 1)))
    requires Has(entries, TrimLeadingSlash(Prefix(parents, i + 1))) ==> grown == entries
    requires rest.Ok? ==> GrowsByMarkers(grown, rest.value) && PrefixesPresent(rest.value, parents, i + 1)
    requires PrefixesPresent(grown, parents, i + 1) ==> rest == Ok(grown)
    ensures rest.Ok? ==> GrowsByMarkers(entries, rest.value) && PrefixesPresent(rest.value, parents, i)
    ensures PrefixesPresent(entries, parents, i) ==> rest == Ok(entries)
  {
    if rest.Ok? {
      MarkersCompose(entries, grown, rest.value, TrimLeadingSlash(Prefix(parents, i + 1)));
    }
  }

  /** The loop of MkdirAll from index `i` on: each prefix that findEntry
      does not find is created with Mkdir, and the first error ends it. */
  function MkdirParents(entries: seq<Entry>, parents: seq<string>, i: nat): (r: Result<seq<Entry>>)
    ensures r.Err? ==> r.error == NotFound
    ensures r.Ok? ==> GrowsByMarkers(entries, r.value)
    ensures r.Ok? ==> PrefixesPresent(r.value, parents, i)
    ensures PrefixesPresent(entries, parents, i) ==> r == Ok(entries)
    decreases |parents| - i
  {
    if i >= |parents| then Ok(entries)
    else
      match MkdirMissing(entries, Prefix(parents, i + 1))
      case Err(e) => Err(e)
      case Ok(grown) =>
        var r := MkdirParents(grown, parents, i + 1);
        LoopStep(entries, grown, r, parents, i);
        r
  }

  /** MkdirAll: walk the parent chain left to right creating what is
      missing, stop at the first error, and always finish with Mkdir on the
      full name. */
  function MkdirAll(entries: seq<Entry>, path: string): (r: Result<seq<Entry>>)
    ensures r.Err? ==> r.error == NotFound
    ensures r.Ok? ==> |r.value| > |entries| && GrowsByMarkers(entries, r.value)
    ensures r.Ok? ==> r.value[|r.value| - 1].path == TrimLeadingSlash(path)
    ensures r.Ok? ==> PrefixesPresent(r.value, Ancestors(TrimLeadingSlash(path)), 0)
  {
    var normal := TrimLeadingSlash(path);
    match MkdirParents(entries, Ancestors(normal), 0)
    case Err(e) => Err(e)
    case Ok(grown) =>
      var r := Mkdir(grown, path);
      if r.Ok? then PrefixKeepsPaths(grown, r.value); r else r
  }

  /** Path elements that Clean keeps and that contain no separator. */
  predicate Elements(parents: seq<string>) {
    forall j :: 0 <= j < |parents| ==> Plain(parents[j]) && '/' !in parents[j]
  }

  /** A prefix of clean elements is a clean path whose parent is the next
      shorter prefix, or "." for a single element. */
  lemma DirOfPrefix(parents: seq<string>, k: nat)
    requires Elements(parents)
    requires 1 <= k <= |parents|
    ensures IsCleanRel(Prefix(parents, k))
    ensures TrimLeadingSlash(Prefix(parents, k)) == Prefix(parents, k)
    ensures k == 1 ==> Dir(Prefix(parents, k)) == "."
    ensures k > 1 ==> Dir(Prefix(parents, k)) == Prefix(parents, k - 1)
  {
    SplitJoin(parents[..k]);
    assert IsCleanRel(Prefix(parents, k));
    CleanRelShape(Prefix(parents, k));
    if k == 1 {
      DirOfName(parents[0]);
    } else {
      assert parents[..k] == parents[..k - 1] + [parents[k - 1]];
      JoinSnoc(parents[..k - 1], parents[k - 1]);
      SplitJoin(parents[..k - 1]);
      DirOfChild(Prefix(parents, k - 1), parents[k - 1]);
    }
  }

  /** A clean path is the join of its elements, each a clean element. */
  lemma CleanElements(normal: string)
    requires IsCleanRel(normal)
    ensures Elements(Split(normal))
    ensures Prefix(Split(normal), |Split(normal)|) == normal
  {
    var segs := Split(normal);
    JoinSplit(normal);
    assert segs[..|segs|] == segs;
  }

  /** The parent of a nested clean path is the prefix one element short. */
  lemma NestedChain(normal: string)
    requires IsCleanRel(normal) && '/' in normal
    ensures |Split(normal)| > 1
    ensures Dir(normal) != "."
    ensures Dir(normal) == Prefix(Split(normal), |Split(normal)| - 1)
    ensures Split(Dir(normal)) == Split(normal)[..|Split(normal)| - 1]
  {
    var segs := Split(normal);
    SplitOfSlashed(normal);
    DirOfNested(normal);
    var front := segs[..|segs| - 1];
    assert forall i :: 0 <= i < |front| ==> front[i] == segs[i];
    SplitJoin(front);
  }

  // ---------------------------------------------------------------------
  // What MkdirAll appends

  /** The names the loop looks up from round `i` on, normalised, shortest
      prefix first. */
  function Visits(parents: seq<string>, i: nat): (names: seq<string>)
    requires i <= |parents|
    ensures |names| == |parents| - i
    decreases |parents| - i
  {
    if i == |parents| then []
    else [TrimLeadingSlash(Prefix(parents, i + 1))] + Visits(parents, i + 1)
  }

  /** The markers a walk over `names` appends to `have`: one for each name
      not present when its turn comes, in walk order. */
  function Fill(have: seq<Entry>, names: seq<string>): (added: seq<Entry>)
    ensures |added| <= |names|
    ensures forall j :: 0 <= j < |added| ==> IsMarker(added[j])
    decreases |names|
  {
    if |names| == 0 then []
    else if Has(have, names[0]) then Fill(have, names[1..])
    else [Marker(names[0])] + Fill(have + [Marker(names[0])], names[1..])
  }

  /** A walk over `names` can create every name it has to: when a name's
      turn comes and it is missing, it is the root "" or its parent is
      present. */
  predicate Feasible(have: seq<Entry>, names: seq<string>)
    decreases |names|
  {
    if |names| == 0 then true
    else if Has(have, names[0]) then Feasible(have, names[1..])
    else
      (names[0] == "" || Has(have, TrimLeadingSlash(Dir(names[0])))) &&
      Feasible(have + [Marker(names[0])], names[1..])
  }

  // ---------------------------------------------------------------------
  // Properties

  /** No duplicate check: a Mkdir that succeeded succeeds again and appends
      a second marker for the same path. */
  lemma MkdirAgain(entries: seq<Entry>, name: string)
    requires Mkdir(entries, name).Ok?
    ensures
      var once := Mkdir(entries, name).value;
      Mkdir(once, name) == Ok(once + [Marker(TrimLeadingSlash(name))])
  {
    var once := Mkdir(entries, name).value;
    PrefixKeepsPaths(entries, once);
  }

  /** A path that was already present keeps its old entry as the lookup
      result: the new marker comes after it and lookups return the first
      match. Every other lookup is unchanged too. */
  lemma MkdirKeepsEarlierLookups(entries: seq<Entry>, name: string, q: string)
    requires Mkdir(entries, name).Ok?
    requires Has(entries, TrimLeadingSlash(q)) || TrimLeadingSlash(q) != TrimLeadingSlash(name)
    ensures FindEntry(Mkdir(entries, name).value, q) == FindEntry(entries, q)
  {
    var p := TrimLeadingSlash(q);
    var grown := Mkdir(entries, name).value;
    assert grown == entries + [grown[|entries|]];
    if Has(entries, p) {
      PositionGrows(entries, [grown[|entries|]], p);
    } else {
      forall i | 0 <= i < |grown|
        ensures grown[i].path != p
      {
        if i < |entries| {
          assert grown[i] == entries[i];
        }
      }
    }
  }

  /** After a successful Mkdir the name is found. */
  lemma MkdirThenFound(entries: seq<Entry>, name: string)
    requires Mkdir(entries, name).Ok?
    ensures FindEntry(Mkdir(entries, name).value, name).Some?
  {
    var grown := Mkdir(entries, name).value;
    assert grown[|entries|].path == TrimLeadingSlash(name);
  }

  /** When every parent prefix and the parent of the name are present,
      MkdirAll creates nothing but the final marker. */
  lemma MkdirAllOnExisting(entries: seq<Entry>, path: string)
    requires PrefixesPresent(entries, Ancestors(TrimLeadingSlash(path)), 0)
    requires Mkdir(entries, path).Ok?
    ensures MkdirAll(entries, path) == Ok(entries + [Marker(TrimLeadingSlash(path))])
  {
  }

  /** Repeating a MkdirAll that succeeded does not fail: it appends one more
      duplicate marker for the full name. */
  lemma MkdirAllAgain(entries: seq<Entry>, path: string)
    requires MkdirAll(entries, path).Ok?
    ensures
      var once := MkdirAll(entries, path).value;
      MkdirAll(once, path) == Ok(once + [Marker(TrimLeadingSlash(path))])
  {
    var normal := TrimLeadingSlash(path);
    var once := MkdirAll(entries, path).value;
    var grown := MkdirParents(entries, Ancestors(normal), 0).value;
    assert Mkdir(grown, path) == Ok(once);
    PrefixKeepsPaths(grown, once);
    MkdirAllOnExisting(once, path);
  }

  /** One round of the loop in full: a present prefix is skipped, a missing
      one gets exactly one marker when Mkdir accepts it, and otherwise the
      round fails. */
  lemma MissingExact(entries: seq<Entry>, p: string)
    ensures
      var n := TrimLeadingSlash(p);
      MkdirMissing(entries, p) ==
        if Has(entries, n) then Ok(entries)
        else if n == "" || Has(entries, TrimLeadingSlash(Dir(n))) then Ok(entries + [Marker(n)])
        else Err(NotFound)
  {
    var r := Mkdir(entries, p);
    if r.Ok? {
      assert r.value == entries + [r.value[|entries|]];
    }
  }

  /** One unfolding of the loop. */
  lemma ParentsUnfold(entries: seq<Entry>, parents: seq<string>, i: nat)
    requires i < |parents|
    ensures
      var round := MkdirMissing(entries, Prefix(parents, i + 1));
      MkdirParents(entries, parents, i) ==
        if round.Err? then Err(NotFound) else MkdirParents(round.value, parents, i + 1)
  {
  }

  /** The outcome of the reference walk: the markers it adds, or NotFound
      when some missing name has no parent at its turn. */
  function Walk(have: seq<Entry>, names: seq<string>): (r: Result<seq<Entry>>) {
    if Feasible(have, names) then Ok(have + Fill(have, names)) else Err(NotFound)
  }

  /** One step of the reference walk. */
  lemma WalkStep(have: seq<Entry>, n: string, rest: seq<string>)
    ensures Walk(have, [n] + rest) ==
      if Has(have, n) then Walk(have, rest)
      else if n == "" || Has(have, TrimLeadingSlash(Dir(n))) then Walk(have + [Marker(n)], rest)
      else Err(NotFound)
  {
    FillStep(have, n, rest);
  }

  /** The loop from round `i` on succeeds exactly when the walk over the
      prefixes it visits is feasible, and then appends exactly the markers
      of that walk: one per prefix findEntry misses, left to right. */
  lemma {:induction false} MkdirParentsPlan(entries: seq<Entry>, parents: seq<string>, i: nat)
    requires i <= |parents|
    ensures MkdirParents(entries, parents, i) == Walk(entries, Visits(parents, i))
    decreases |parents| - i
  {
    if i < |parents| {
      var p := Prefix(parents, i + 1);
      var round := MkdirMissing(entries, p);
      ParentsUnfold(entries, parents, i);
      if round.Ok? {
        MkdirParentsPlan(round.value, parents, i + 1);
      }
      PlanStep(entries, parents, i);
    } else {
      assert entries + Fill(entries, []) == entries;
    }
  }

  /** One round of the loop against one step of the walk. */
  lemma PlanStep(entries: seq<Entry>, parents: seq<string>, i: nat)
    requires i < |parents|
    ensures
      var round := MkdirMissing(entries, Prefix(parents, i + 1));
      Walk(entries, Visits(parents, i)) ==
        if round.Err? then Err(NotFound) else Walk(round.value, Visits(parents, i + 1))
  {
    var p := Prefix(parents, i + 1);
    var n := TrimLeadingSlash(p);
    var rest := Visits(parents, i + 1);
    assert Visits(parents, i) == [n] + rest;
    WalkStep(entries, n, rest);
    MissingExact(entries, p);
  }

  /** Along a chain of clean elements whose prefix of `i` elements is
      present, the walk over the longer prefixes is feasible and ends with
      the full chain present. */
  lemma {:induction false} ChainFeasible(have: seq<Entry>, parents: seq<string>, i: nat)
    requires Elements(parents) && 1 <= i <= |parents|
    requires Has(have, Prefix(parents, i))
    ensures Feasible(have, Visits(parents, i))
    ensures Has(have + Fill(have, Visits(parents, i)), Prefix(parents, |parents|))
    decreases |parents| - i
  {
    if i < |parents| {
      var p := Prefix(parents, i + 1);
      var rest := Visits(parents, i + 1);
      ChainLink(parents, i);
      FillStep(have, p, rest);
      assert Visits(parents, i) == [p] + rest;
      if Has(have, p) {
        ChainFeasible(have, parents, i + 1);
      } else {
        var next := have + [Marker(p)];
        assert next[|have|].path == p;
        ChainFeasible(next, parents, i + 1);
      }
    } else {
      assert have + Fill(have, []) == have;
    }
  }

  /** MkdirAll in full: it succeeds exactly when the walk over the parent
      prefixes is feasible and Mkdir then accepts the name, and it appends
      the markers of that walk followed by one for the name. */
  lemma MkdirAllPlan(entries: seq<Entry>, path: string)
    ensures
      var normal := TrimLeadingSlash(path);
      var names := Visits(Ancestors(normal), 0);
      var grown := entries + Fill(entries, names);
      MkdirAll(entries, path) ==
        if Feasible(entries, names) && (normal == "" || Has(grown, TrimLeadingSlash(Dir(normal))))
        then Ok(grown + [Marker(normal)])
        else Err(NotFound)
  {
    var normal := TrimLeadingSlash(path);
    var names := Visits(Ancestors(normal), 0);
    var grown := entries + Fill(entries, names);
    MkdirParentsPlan(entries, Ancestors(normal), 0);
    if Feasible(entries, names) {
      var r := Mkdir(grown, path);
      if r.Ok? {
        assert r.value == grown + [r.value[|grown|]];
      }
    }
  }

  /** One step of Fill and Feasible. */
  lemma FillStep(have: seq<Entry>, n: string, rest: seq<string>)
    ensures Feasible(have, [n] + rest) ==
      if Has(have, n) then Feasible(have, rest)
      else (n == "" || Has(have, TrimLeadingSlash(Dir(n)))) && Feasible(have + [Marker(n)], rest)
    ensures have + Fill(have, [n] + rest) ==
      if Has(have, n) then have + Fill(have, rest)
      else (have + [Marker(n)]) + Fill(have + [Marker(n)], rest)
  {
    var names := [n] + rest;
    assert names[0] == n && names[1..] == rest;
    if !Has(have, n) {
      assert have + Fill(have, names) == (have + [Marker(n)]) + Fill(have + [Marker(n)], rest);
    }
  }

  /** The next prefix of a clean chain is unrooted and its parent is the
      present one. */
  lemma ChainLink(parents: seq<string>, i: nat)
    requires Elements(parents) && 1 <= i < |parents|
    ensures TrimLeadingSlash(Prefix(parents, i + 1)) == Prefix(parents, i + 1)
    ensures Prefix(parents, i + 1) != ""
    ensures TrimLeadingSlash(Dir(Prefix(parents, i + 1))) == Prefix(parents, i)
  {
    DirOfPrefix(parents, i + 1);
    DirOfPrefix(parents, i);
    CleanRelShape(Prefix(parents, i + 1));
  }

  /** Below an existing top-level directory MkdirAll works as intended: for
      a clean path of two or more elements whose first element is present,
      it succeeds, appending a marker for each missing parent prefix, left
      to right, and then one for the path. */
  lemma MkdirAllBelowExisting(entries: seq<Entry>, path: string)
    requires IsCleanRel(TrimLeadingSlash(path)) && '/' in TrimLeadingSlash(path)
    requires Has(entries, Split(TrimLeadingSlash(path))[0])
    ensures
      var normal := TrimLeadingSlash(path);
      MkdirAll(entries, path) == Ok(entries + Fill(entries, Visits(Ancestors(normal), 0)) + [Marker(normal)])
  {
    var normal := TrimLeadingSlash(path);
    var segs := Split(normal);
    var n := |segs|;
    NestedChain(normal);
    CleanElements(normal);
    var parents := Ancestors(normal);
    assert parents == segs[..n - 1];
    assert Elements(parents);
    assert Prefix(parents, 1) == segs[0] by {
      assert parents[..1] == [segs[0]];
    }
    DirOfPrefix(parents, 1);
    var names := Visits(parents, 0);
    assert names[0] == segs[0] && names[1..] == Visits(parents, 1);
    ChainFeasible(entries, parents, 1);
    assert Feasible(entries, names);
    var grown := entries + Fill(entries, names);
    assert Prefix(parents, n - 1) == Dir(normal) by {
      assert parents[..n - 1] == parents;
    }
    DirOfPrefix(parents, n - 1);
    assert Has(grown, TrimLeadingSlash(Dir(normal)));
    MkdirAllPlan(entries, path);
  }
}
