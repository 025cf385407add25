/** Slash-separated path text, as Go's `strings` and `path` packages treat it
    on a Unix-style separator. Every function here follows the Go library
    function it is named after, including its edge cases. */
module Paths {

  /** strings.TrimPrefix(s, "/"): removes at most one leading slash. */
  function TrimLeadingSlash(s: string): (r: string) {
    if |s| > 0 && s[0] == '/' then s[1..] else s
  }

  /** strings.TrimSuffix(s, "/"): removes at most one trailing slash. */
  function TrimTrailingSlash(s: string): (r: string) {
    if |s| > 0 && s[|s| - 1] == '/' then s[..|s| - 1] else s
  }

  /** strings.TrimPrefix(s, prefix) for an arbitrary prefix. */
  function TrimPrefix(s: string, prefix: string): (r: string) {
    if prefix <= s then s[|prefix|..] else s
  }

  /** strings.Split(s, "/"): the pieces between slashes. A string with n
      slashes yields n + 1 pieces, so even "" yields one (empty) piece. */
  function Split(s: string): (parts: seq<string>)
    ensures |parts| >= 1
    ensures forall i :: 0 <= i < |parts| ==> '/' !in parts[i]
    decreases |s|
  {
    if |s| == 0 then [""]
    else
      var rest := Split(s[1..]);
      if s[0] == '/' then [""] + rest
      else [[s[0]] + rest[0]] + rest[1..]
  }

  /** strings.Join(parts, "/"). */
  function Join(parts: seq<string>): (r: string)
    decreases |parts|
  {
    if |parts| == 0 then ""
    else if |parts| == 1 then parts[0]
    else parts[0] + "/" + Join(parts[1..])
  }

  /** The first half of path.Split: everything up to and including the last
      slash, or "" when there is none. */
  function DirPart(p: string): (r: string)
    decreases |p|
  {
    if |p| == 0 then ""
    else if p[|p| - 1] == '/' then p
    else DirPart(p[..|p| - 1])
  }

  /** A path element that Clean keeps unchanged. */
  predicate Plain(seg: string) {
    seg != "" && seg != "." && seg != ".."
  }

  /** The element stack of path.Clean: empty and "." elements vanish, ".."
      cancels the element before it, a ".." that cannot cancel anything is
      dropped at the root of a rooted path and kept otherwise. */
  function Resolve(segs: seq<string>, rooted: bool, acc: seq<string>): (r: seq<string>)
    decreases |segs|
  {
    if |segs| == 0 then acc
    else if segs[0] == "" || segs[0] == "." then Resolve(segs[1..], rooted, acc)
    else if segs[0] == ".." then
      if |acc| > 0 && acc[|acc| - 1] != ".." then Resolve(segs[1..], rooted, acc[..|acc| - 1])
      else if rooted then Resolve(segs[1..], rooted, acc)
      else Resolve(segs[1..], rooted, acc + [".."])
    else Resolve(segs[1..], rooted, acc + [segs[0]])
  }

  /** path.Clean: the shortest lexically equivalent path; "." for an empty
      result, and a rooted path keeps its single leading slash. */
  function Clean(p: string): (r: string) {
    if p == "" then "."
    else
      var rooted := p[0] == '/';
      var body := Join(Resolve(Split(p), rooted, []));
      if rooted then "/" + body
      else if body == "" then "."
      else body
  }

  /** path.Dir (and filepath.Dir with a '/' separator): Clean applied to
      everything up to the last slash. */
  function Dir(p: string): (r: string) {
    Clean(DirPart(p))
  }

  /** A relative path with no empty, "." or ".." element: what the remote
      tree stores and what Clean leaves alone. */
  predicate IsCleanRel(p: string) {
    forall i :: 0 <= i < |Split(p)| ==> Plain(Split(p)[i])
  }

  /** The name a directory listing gives a path: the path with its parent
      directory and the separator removed. */
  function ChildName(p: string): (r: string) {
    TrimPrefix(p, Dir(p) + "/")
  }

  // ---------------------------------------------------------------------
  // Split and Join

  lemma {:induction false} SplitNoSlash(s: string)
    requires '/' !in s
    ensures Split(s) == [s]
    decreases |s|
  {
    if |s| > 0 {
      SplitNoSlash(s[1..]);
      assert [s[0]] + s[1..] == s;
    }
  }

  /** Joining the pieces of a split gives back the original text. */
  lemma {:induction false} JoinSplit(s: string)
    ensures Join(Split(s)) == s
    decreases |s|
  {
    if |s| > 0 {
      var rest := Split(s[1..]);
      JoinSplit(s[1..]);
      if s[0] == '/' {
        assert ([""] + rest)[1..] == rest;
        assert s == "/" + s[1..];
      } else {
        var parts := [[s[0]] + rest[0]] + rest[1..];
        if |rest| == 1 {
          assert s == [s[0]] + s[1..];
        } else {
          assert parts[1..] == rest[1..];
          assert Join(rest) == rest[0] + "/" + Join(rest[1..]);
          assert s == [s[0]] + s[1..];
        }
      }
    }
  }

  /** Split peels off one leading character. */
  lemma SplitCons(c: char, t: string)
    ensures c == '/' ==> Split([c] + t) == [""] + Split(t)
    ensures c != '/' ==> Split([c] + t) == [[c] + Split(t)[0]] + Split(t)[1..]
  {
    assert ([c] + t)[0] == c;
    assert ([c] + t)[1..] == t;
  }

  /** A slash between two texts separates their pieces. */
  lemma {:induction false} SplitConcat(a: string, b: string)
    ensures Split(a + "/" + b) == Split(a) + Split(b)
    decreases |a|
  {
    if |a| == 0 {
      assert a + "/" + b == ['/'] + b;
      SplitCons('/', b);
      assert Split(a) == [""];
    } else {
      var c, t := a[0], a[1..];
      assert a == [c] + t;
      assert a + "/" + b == [c] + (t + "/" + b);
      SplitConcat(t, b);
      SplitCons(c, t + "/" + b);
      SplitCons(c, t);
      var rt := Split(t);
      if c != '/' {
        assert (rt + Split(b))[0] == rt[0];
        assert (rt + Split(b))[1..] == rt[1..] + Split(b);
      }
    }
  }

  /** Splitting a join of slash-free pieces gives back the pieces. */
  lemma {:induction false} SplitJoin(parts: seq<string>)
    requires |parts| >= 1
    requires forall i :: 0 <= i < |parts| ==> '/' !in parts[i]
    ensures Split(Join(parts)) == parts
    decreases |parts|
  {
    if |parts| == 1 {
      SplitNoSlash(parts[0]);
    } else {
      SplitJoin(parts[1..]);
      SplitNoSlash(parts[0]);
      SplitConcat(parts[0], Join(parts[1..]));
    }
  }

  lemma {:induction false} JoinSnoc(parts: seq<string>, x: string)
    requires |parts| >= 1
    ensures Join(parts + [x]) == Join(parts) + "/" + x
    decreases |parts|
  {
    if |parts| > 1 {
      assert (parts + [x])[1..] == parts[1..] + [x];
      JoinSnoc(parts[1..], x);
    }
  }

  // ---------------------------------------------------------------------
  // DirPart and Clean

  lemma {:induction false} DirPartNoSlash(b: string)
    requires '/' !in b
    ensures DirPart(b) == ""
    decreases |b|
  {
    if |b| > 0 {
      assert b[|b| - 1] in b;
      DirPartNoSlash(b[..|b| - 1]);
    }
  }

  lemma {:induction false} DirPartOfChild(a: string, b: string)
    requires '/' !in b
    ensures DirPart(a + "/" + b) == a + "/"
    decreases |b|
  {
    var s := a + "/" + b;
    if |b| > 0 {
      assert s[|s| - 1] == b[|b| - 1];
      assert b[|b| - 1] in b;
      assert s[..|s| - 1] == a + "/" + b[..|b| - 1];
      DirPartOfChild(a, b[..|b| - 1]);
    } else {
      assert s == a + "/";
    }
  }

  /** Resolve is a left fold over the elements. */
  lemma {:induction false} ResolveAppend(xs: seq<string>, ys: seq<string>, rooted: bool, acc: seq<string>)
    ensures Resolve(xs + ys, rooted, acc) == Resolve(ys, rooted, Resolve(xs, rooted, acc))
    decreases |xs|
  {
    if |xs| > 0 {
      assert (xs + ys)[0] == xs[0];
      assert (xs + ys)[1..] == xs[1..] + ys;
      var acc' :=
        if xs[0] == "" || xs[0] == "." then acc
        else if xs[0] == ".." then
          (if |acc| > 0 && acc[|acc| - 1] != ".." then acc[..|acc| - 1]
           else if rooted then acc else acc + [".."])
        else acc + [xs[0]];
      ResolveAppend(xs[1..], ys, rooted, acc');
    } else {
      assert xs + ys == ys;
    }
  }

  /** Plain elements are simply pushed. */
  lemma {:induction false} ResolvePlain(xs: seq<string>, rooted: bool, acc: seq<string>)
    requires forall i :: 0 <= i < |xs| ==> Plain(xs[i])
    ensures Resolve(xs, rooted, acc) == acc + xs
    decreases |xs|
  {
    if |xs| > 0 {
      ResolvePlain(xs[1..], rooted, acc + [xs[0]]);
      assert acc + [xs[0]] + xs[1..] == acc + xs;
    }
  }

  /** The first piece of a split: empty for "" and for a rooted path, and
      the whole text for ".". */
  lemma SplitHead(s: string)
    ensures s == "" ==> Split(s) == [""]
    ensures |s| > 0 && s[0] == '/' ==> Split(s)[0] == ""
    ensures s == "." ==> Split(s) == ["."]
  {
    assert Split("") == [""];
    SplitNoSlash(".");
  }

  lemma CleanRelShape(p: string)
    requires IsCleanRel(p)
    ensures |p| > 0 && p[0] != '/'
    ensures p != "."
  {
    assert Plain(Split(p)[0]);
    SplitHead(p);
  }

  // ---------------------------------------------------------------------
  // Dir on clean paths

  /** A slash-free name sits directly under the current directory ".". */
  lemma DirOfName(b: string)
    requires '/' !in b
    ensures Dir(b) == "."
  {
    DirPartNoSlash(b);
  }

  /** The parent of `t/b` is `t` when `t` is clean and `b` has no slash. */
  lemma DirOfChild(t: string, b: string)
    requires IsCleanRel(t)
    requires '/' !in b
    ensures Dir(t + "/" + b) == t
  {
    DirPartOfChild(t, b);
    CleanRelShape(t);
    var d := t + "/";
    assert d[0] == t[0];
    assert d == t + "/" + "";
    SplitConcat(t, "");
    assert Split(d) == Split(t) + [""];
    ResolveAppend(Split(t), [""], false, []);
    ResolvePlain(Split(t), false, []);
    assert [] + Split(t) == Split(t);
    JoinSplit(t);
  }

  /** A clean path with a slash is its clean parent, a slash and its last
      element. */
  lemma ParentOfClean(p: string)
    requires IsCleanRel(p)
    requires '/' in p
    ensures |Split(p)| >= 2
    ensures p == Join(Split(p)[..|Split(p)| - 1]) + "/" + Split(p)[|Split(p)| - 1]
    ensures IsCleanRel(Join(Split(p)[..|Split(p)| - 1]))
    ensures Plain(Split(p)[|Split(p)| - 1])
  {
    var segs := Split(p);
    var n := |segs|;
    JoinSplit(p);
    var init := segs[..n - 1];
    assert segs == init + [segs[n - 1]];
    JoinSnoc(init, segs[n - 1]);
    SplitJoin(init);
  }

  /** A path holding a slash splits into at least two pieces. */
  lemma SplitOfSlashed(p: string)
    requires '/' in p
    ensures |Split(p)| >= 2
  {
    JoinSplit(p);
  }

  /** For clean relative paths, path.Dir is the text before the last slash,
      or "." when there is no slash. */
  lemma DirOfClean(p: string)
    requires IsCleanRel(p)
    ensures Dir(p) == "." <==> '/' !in p
    ensures '/' in p ==> Dir(p) == Join(Split(p)[..|Split(p)| - 1])
    ensures '/' in p ==> IsCleanRel(Dir(p))
  {
    if '/' in p {
      DirOfNested(p);
    } else {
      DirOfName(p);
    }
  }

  /** The nested case of DirOfClean. */
  lemma DirOfNested(p: string)
    requires IsCleanRel(p)
    requires '/' in p
    ensures Dir(p) == Join(Split(p)[..|Split(p)| - 1])
    ensures IsCleanRel(Dir(p)) && Dir(p) != "."
  {
    ParentOfClean(p);
    var segs := Split(p);
    var t := Join(segs[..|segs| - 1]);
    var last := segs[|segs| - 1];
    DirOfChild(t, last);
    assert Dir(p) == Dir(t + "/" + last);
    CleanRelShape(t);
  }

  /** Between clean relative paths, `t` is the parent of `p` exactly when
      `p` is `t`, a slash, and one more slash-free element. */
  lemma DirIsParent(p: string, t: string)
    requires IsCleanRel(p) && IsCleanRel(t)
    ensures Dir(p) == t <==> (t + "/" <= p && '/' !in p[|t| + 1..])
  {
    if Dir(p) == t {
      CleanRelShape(t);
      DirOfClean(p);
      ParentOfClean(p);
      assert p[|t| + 1..] == Split(p)[|Split(p)| - 1];
    }
    if t + "/" <= p && '/' !in p[|t| + 1..] {
      assert p == t + "/" + p[|t| + 1..];
      DirOfChild(t, p[|t| + 1..]);
    }
  }

  /** A listing names a clean path by its last element. */
  lemma ChildNameOfClean(p: string)
    requires IsCleanRel(p)
    ensures ChildName(p) == Split(p)[|Split(p)| - 1]
    ensures '/' !in ChildName(p) && Plain(ChildName(p))
  {
    DirOfClean(p);
    if '/' in p {
      ParentOfClean(p);
    } else {
      SplitNoSlash(p);
    }
  }
}
