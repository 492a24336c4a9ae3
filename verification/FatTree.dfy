/** The directory-tree index of an image (libs/fatfs/src/tree.rs). */
module FatTree {
  import opened Prelude
  import opened Text
  import opened Order
  import opened Graph
  import opened DirForest

  datatype DirIndex = DirIndex(dirs: seq<string>, filesByDir: seq<seq<nat>>, subdirsByDir: seq<seq<nat>>,
                               parent: seq<nat>)

  /** The path cut at its last slash; the root for a bare name. */
  function ParentPath(path: string): (r: string)
    ensures path != "" ==> |r| < |path|
    ensures path == "" ==> r == ""
  {
    match FindBefore(path, '/', |path|)
    case None => ""
    case Some(slash) => path[..slash]
  }

  predicate HasSlash(path: string) {
    FindBefore(path, '/', |path|).Some?
  }

  /** Every directory a path lies in, except the implicit root. */
  ghost function Ancestors(path: string): set<string>
    decreases |path|
  {
    if HasSlash(path) then {ParentPath(path)} + Ancestors(ParentPath(path)) else {}
  }

  predicate LeadingSlash(path: string) {
    path != "" && path[0] == '/'
  }

  /** `x` is `path` cut at one of its slashes. */
  ghost predicate CutOf(path: string, x: string) {
    exists k :: 0 <= k < |path| && path[k] == '/' && x == path[..k]
  }

  lemma CutsOfParent(path: string, slash: nat, x: string)
    requires slash < |path| && path[slash] == '/' && Lacks(path, '/', slash + 1, |path|)
    ensures CutOf(path, x) <==> x == path[..slash] || CutOf(path[..slash], x)
  {
    var p := path[..slash];
    forall k | 0 <= k < slash ensures p[k] == path[k] && p[..k] == path[..k] {
    }
  }

  lemma NoCuts(path: string, x: string)
    requires Lacks(path, '/', 0, |path|)
    ensures !CutOf(path, x)
  {
  }

  /** The directories a path lies in are its cuts at slashes. */
  lemma {:induction false} AncestorsMean(path: string, x: string)
    ensures x in Ancestors(path) <==> CutOf(path, x)
    decreases |path|
  {
    FindsLast(path, '/', |path|);
    if HasSlash(path) {
      AncestorsMean(ParentPath(path), x);
      CutsOfParent(path, |ParentPath(path)|, x);
    } else {
      NoCuts(path, x);
    }
  }

  /** `path` is the entry `name` of directory `dir`. */
  ghost predicate IsEntry(path: string, dir: string, name: string) {
    Lacks(name, '/', 0, |name|) && path == if dir == "" then name else dir + "/" + name
  }

  ghost predicate LiesIn(path: string, dir: string) {
    exists name :: IsEntry(path, dir, name)
  }

  lemma LiesInParent(path: string)
    requires !LeadingSlash(path)
    ensures LiesIn(path, ParentPath(path))
  {
    FindsLast(path, '/', |path|);
    if HasSlash(path) {
      var dir, name := ParentPath(path), path[|ParentPath(path)| + 1..];
      assert path == dir + "/" + name && dir != "";
      assert IsEntry(path, dir, name);
    } else {
      assert IsEntry(path, "", path);
    }
  }

  lemma EntryParent(path: string, dir: string, name: string)
    requires IsEntry(path, dir, name)
    ensures ParentPath(path) == dir
  {
    FindsLast(path, '/', |path|);
    if dir != "" {
      assert path[|dir|] == '/' && path[..|dir|] == dir;
      assert forall k :: |dir| < k < |path| ==> path[k] == name[k - |dir| - 1];
    }
  }

  /** The parent of a path without a leading slash is the one directory it is an entry of. */
  lemma ParentMeans(path: string, dir: string)
    requires !LeadingSlash(path)
    ensures LiesIn(path, dir) <==> ParentPath(path) == dir
  {
    LiesInParent(path);
    if name :| IsEntry(path, dir, name) { EntryParent(path, dir, name); }
  }

  /** The empty path is registered exactly for paths that start with a slash. */
  lemma {:induction false} EmptyAncestor(path: string)
    ensures "" in Ancestors(path) <==> LeadingSlash(path)
    decreases |path|
  {
    FindsLast(path, '/', |path|);
    if HasSlash(path) {
      var p := ParentPath(path);
      EmptyAncestor(p);
      if p != "" { assert p[0] == path[0]; } else { assert path[0] == '/'; }
    }
  }

  lemma {:induction false} AncestorsClosed(path: string, x: string)
    requires x in Ancestors(path)
    ensures ParentPath(x) == "" || ParentPath(x) in Ancestors(path)
    decreases |path|
  {
    if x == ParentPath(path) {
      assert HasSlash(x) ==> ParentPath(x) in Ancestors(x);
    } else {
      AncestorsClosed(ParentPath(path), x);
    }
  }

  // ---------- collecting directories ----------

  /** The root, then each registered directory once. */
  ghost predicate Registered(dirs: seq<string>, prior: set<string>) {
    |dirs| > 0 && dirs[0] == "" &&
    (forall x :: x in dirs[1..] <==> x in prior) &&
    NoDuplicates(dirs[1..])
  }

  lemma RegisterOne(dirs: seq<string>, prior: set<string>, x: string)
    requires Registered(dirs, prior) && x !in prior
    ensures Registered(dirs + [x], prior + {x})
  {
    var more := dirs + [x];
    assert more[1..] == dirs[1..] + [x];
    assert x !in dirs[1..];
  }

  method RegisterAncestors(path: string, dirs: seq<string>, prior: set<string>)
    returns (dirs': seq<string>, prior': set<string>)
    requires Registered(dirs, prior)
    ensures Registered(dirs', prior') && prior' == prior + Ancestors(path)
  {
    dirs', prior' := dirs, prior;
    var remaining := path;
    while HasSlash(remaining)
      invariant Registered(dirs', prior') && prior' + Ancestors(remaining) == prior + Ancestors(path)
      decreases |remaining|
    {
      remaining := ParentPath(remaining);
      if remaining !in prior' {
        RegisterOne(dirs', prior', remaining);
        dirs', prior' := dirs' + [remaining], prior' + {remaining};
      }
    }
  }

  /** The directories some of the files lie in. */
  ghost function AllAncestors(files: seq<string>, n: nat): set<string>
    requires n <= |files|
  {
    if n == 0 then {} else AllAncestors(files, n - 1) + Ancestors(files[n - 1])
  }

  lemma {:induction false} AllAncestorsMeans(files: seq<string>, n: nat, x: string)
    requires n <= |files|
    ensures x in AllAncestors(files, n) <==> exists f :: 0 <= f < n && x in Ancestors(files[f])
  {
    if n > 0 { AllAncestorsMeans(files, n - 1, x); }
  }

  /** Shorter paths first, then byte order. */
  predicate DirLe(a: string, b: string) {
    |a| < |b| || (|a| == |b| && LexLe(a, b))
  }

  lemma DirLePreorder()
    ensures TotalPreorder(DirLe)
  {
    forall a, b ensures DirLe(a, b) || DirLe(b, a) { LexLeTotal(a, b); }
    forall a, b, c | DirLe(a, b) && DirLe(b, c) ensures DirLe(a, c) {
      if |a| == |b| == |c| { LexLeTransitive(a, b, c); }
    }
  }

  lemma {:induction false} CountAtMostOne(s: seq<string>, x: string)
    requires NoDuplicates(s)
    ensures multiset(s)[x] <= 1
  {
    if s != [] {
      var n := |s| - 1;
      assert s == s[..n] + [s[n]];
      CountAtMostOne(s[..n], x);
      if s[n] == x { assert x !in s[..n]; }
    }
  }

  lemma NoDuplicatesPermuted(a: seq<string>, b: seq<string>)
    requires NoDuplicates(a) && multiset(a) == multiset(b)
    ensures NoDuplicates(b)
  {
    forall i, j | 0 <= i < j < |b| ensures b[i] != b[j] {
      if b[i] == b[j] {
        assert b == b[..j] + b[j..];
        assert b[i] in b[..j] && b[i] in b[j..];
        assert multiset(b)[b[i]] == multiset(b[..j])[b[i]] + multiset(b[j..])[b[i]];
        CountAtMostOne(a, b[i]);
      }
    }
  }

  lemma RootStaysFirst(found: seq<string>, dirs: seq<string>)
    requires "" in found && multiset(dirs) == multiset(found) && Sorted(dirs, DirLe)
    ensures dirs != [] && dirs[0] == ""
  {
    SameElements(dirs, found);
    var k :| 0 <= k < |dirs| && dirs[k] == "";
    if k > 0 { assert DirLe(dirs[0], dirs[k]); }
  }

  lemma TailsPermuted(a: seq<string>, b: seq<string>)
    requires a != [] && b != [] && a[0] == b[0] && multiset(a) == multiset(b)
    ensures multiset(a[1..]) == multiset(b[1..])
  {
    assert a == [a[0]] + a[1..] && b == [b[0]] + b[1..];
    assert multiset(a[1..]) == multiset(a) - multiset{a[0]};
    assert multiset(b[1..]) == multiset(b) - multiset{b[0]};
  }

  /** Sorting leaves the root first and the other directories each once. */
  lemma SortedRegistered(found: seq<string>, prior: set<string>, dirs: seq<string>)
    requires Registered(found, prior) && multiset(dirs) == multiset(found) && Sorted(dirs, DirLe)
    ensures Registered(dirs, prior)
  {
    RootStaysFirst(found, dirs);
    TailsPermuted(found, dirs);
    SameElements(found[1..], dirs[1..]);
    NoDuplicatesPermuted(found[1..], dirs[1..]);
  }

  /** Every directory on the way to a file, root first, shorter paths first. */
  method CollectDirs(files: seq<string>) returns (dirs: seq<string>)
    ensures Registered(dirs, AllAncestors(files, |files|)) && Sorted(dirs, DirLe)
  {
    var found: seq<string> := [""];
    var prior: set<string> := {};
    for i := 0 to |files|
      invariant Registered(found, prior) && prior == AllAncestors(files, i)
    {
      found, prior := RegisterAncestors(files[i], found, prior);
    }
    dirs := SortBy(found, DirLe);
    DirLePreorder();
    SortSorts(found, DirLe);
    SortKeepsElements(found, DirLe);
    SortedRegistered(found, prior, dirs);
  }

  // ---------- the indexes ----------

  /** Maps each directory to its last position. */
  ghost predicate Indexes(dirs: seq<string>, index: map<string, nat>) {
    (forall x :: x in index <==> x in dirs) &&
    (forall x :: x in index ==> index[x] < |dirs| && dirs[index[x]] == x) &&
    (forall x, i :: x in index && index[x] < i < |dirs| ==> dirs[i] != x)
  }

  method BuildIndex(dirs: seq<string>) returns (index: map<string, nat>)
    ensures Indexes(dirs, index)
  {
    index := map[];
    for i := 0 to |dirs|
      invariant Indexes(dirs[..i], index)
    {
      index := index[dirs[i] := i];
      assert dirs[..i + 1] == dirs[..i] + [dirs[i]];
    }
    assert dirs[..|dirs|] == dirs;
  }

  function Lookup(index: map<string, nat>, path: string): nat {
    if ParentPath(path) in index then index[ParentPath(path)] else 0
  }

  /** The directory each file goes to. */
  function Homes(files: seq<string>, index: map<string, nat>): (r: seq<nat>)
    ensures |r| == |files|
  {
    seq(|files|, f requires 0 <= f < |files| => Lookup(index, files[f]))
  }

  /** The directory each directory is linked under; `|dirs|`, so none, for its own parent. */
  function Links(dirs: seq<string>, index: map<string, nat>): (r: seq<nat>)
    ensures |r| == |dirs|
  {
    seq(|dirs|, i requires 0 <= i < |dirs| => if Lookup(index, dirs[i]) == i then |dirs| else Lookup(index, dirs[i]))
  }

  /** Bucket `d` holds, in order, the first `n` positions whose home is `d`. */
  ghost predicate Buckets(grouped: seq<seq<nat>>, home: seq<nat>, n: nat) {
    n <= |home| && forall d :: 0 <= d < |grouped| ==> grouped[d] == Bucket(home, n, d)
  }

  lemma BucketsGrow(grouped: seq<seq<nat>>, home: seq<nat>, n: nat)
    requires Buckets(grouped, home, n) && n < |home|
    ensures home[n] < |grouped| ==> Buckets(grouped[home[n] := grouped[home[n]] + [n]], home, n + 1)
    ensures home[n] >= |grouped| ==> Buckets(grouped, home, n + 1)
  {
  }

  method GroupFiles(files: seq<string>, index: map<string, nat>, dirCount: nat) returns (grouped: seq<seq<nat>>)
    ensures |grouped| == dirCount && Buckets(grouped, Homes(files, index), |files|)
  {
    ghost var home := Homes(files, index);
    grouped := seq(dirCount, _ => []);
    for f := 0 to |files|
      invariant |grouped| == dirCount && Buckets(grouped, home, f)
    {
      BucketsGrow(grouped, home, f);
      var d := Lookup(index, files[f]);
      if d < |grouped| {
        grouped := grouped[d := grouped[d] + [f]];
      }
    }
  }

  method LinkChildren(dirs: seq<string>, index: map<string, nat>) returns (subdirs: seq<seq<nat>>, parent: seq<nat>)
    ensures |subdirs| == |parent| == |dirs| && Buckets(subdirs, Links(dirs, index), |dirs|)
    ensures forall i :: 0 <= i < |dirs| ==>
              parent[i] == if Lookup(index, dirs[i]) == i then 0 else Lookup(index, dirs[i])
  {
    ghost var link := Links(dirs, index);
    subdirs, parent := seq(|dirs|, _ => []), seq(|dirs|, _ => 0);
    for i := 0 to |dirs|
      invariant |subdirs| == |parent| == |dirs| && Buckets(subdirs, link, i)
      invariant forall k :: 0 <= k < i ==>
                  parent[k] == if Lookup(index, dirs[k]) == k then 0 else Lookup(index, dirs[k])
      invariant forall k :: i <= k < |dirs| ==> parent[k] == 0
    {
      BucketsGrow(subdirs, link, i);
      var p := Lookup(index, dirs[i]);
      if p != i {
        parent := parent[i := p];
        if p < |subdirs| {
          subdirs := subdirs[p := subdirs[p] + [i]];
        }
      }
    }
  }

  // ---------- what collecting guarantees ----------

  /** The index of a file set, before asking whether it is a tree. */
  ghost predicate Built(idx: DirIndex, files: seq<string>, index: map<string, nat>) {
    var n := |idx.dirs|;
    Registered(idx.dirs, AllAncestors(files, |files|)) && Sorted(idx.dirs, DirLe) && Indexes(idx.dirs, index)
    && |idx.filesByDir| == |idx.subdirsByDir| == |idx.parent| == n
    && Buckets(idx.filesByDir, Homes(files, index), |files|) && Buckets(idx.subdirsByDir, Links(idx.dirs, index), n)
    && forall i :: 0 <= i < n ==>
         idx.parent[i] == if Lookup(index, idx.dirs[i]) == i then 0 else Lookup(index, idx.dirs[i])
  }

  lemma DirsAre(dirs: seq<string>, prior: set<string>, x: string)
    requires Registered(dirs, prior)
    ensures x in dirs <==> x == "" || x in prior
  {
  }

  /** The parent of every file and of every directory is indexed, so no lookup falls back. */
  lemma FileParentIndexed(idx: DirIndex, files: seq<string>, index: map<string, nat>, f: nat)
    requires Built(idx, files, index) && f < |files|
    ensures ParentPath(files[f]) in index
  {
    if HasSlash(files[f]) {
      AllAncestorsMeans(files, |files|, ParentPath(files[f]));
    }
    DirsAre(idx.dirs, AllAncestors(files, |files|), ParentPath(files[f]));
  }

  lemma DirParentIndexed(idx: DirIndex, files: seq<string>, index: map<string, nat>, i: nat)
    requires Built(idx, files, index) && i < |idx.dirs|
    ensures ParentPath(idx.dirs[i]) in index
  {
    var x, prior := idx.dirs[i], AllAncestors(files, |files|);
    DirsAre(idx.dirs, prior, x);
    DirsAre(idx.dirs, prior, ParentPath(x));
    assert x in idx.dirs;
    if x != "" {
      AllAncestorsMeans(files, |files|, x);
      var f :| 0 <= f < |files| && x in Ancestors(files[f]);
      AncestorsClosed(files[f], x);
      AllAncestorsMeans(files, |files|, ParentPath(x));
    }
  }

  ghost predicate NoLeadingSlash(files: seq<string>) {
    forall f :: 0 <= f < |files| ==> !LeadingSlash(files[f])
  }

  /** The root is registered a second time exactly when some path starts with a slash. */
  lemma RootTwice(files: seq<string>)
    ensures "" in AllAncestors(files, |files|) <==> !NoLeadingSlash(files)
  {
    AllAncestorsMeans(files, |files|, "");
    forall f | 0 <= f < |files| ensures "" in Ancestors(files[f]) <==> LeadingSlash(files[f]) {
      EmptyAncestor(files[f]);
    }
  }

  lemma DistinctDirs(dirs: seq<string>, prior: set<string>)
    requires Registered(dirs, prior)
    ensures NoDuplicates(dirs) <==> "" !in prior
  {
  }

  /** Every directory but the root comes after its parent. */
  lemma ParentsFirst(idx: DirIndex, files: seq<string>, index: map<string, nat>, i: nat)
    requires Built(idx, files, index) && NoDuplicates(idx.dirs) && i < |idx.dirs|
    ensures i == 0 ==> Lookup(index, idx.dirs[i]) == 0
    ensures i > 0 ==> Lookup(index, idx.dirs[i]) < i && idx.dirs[Lookup(index, idx.dirs[i])] == ParentPath(idx.dirs[i])
  {
    DirParentIndexed(idx, files, index, i);
    var j := Lookup(index, idx.dirs[i]);
    assert idx.dirs[j] == ParentPath(idx.dirs[i]);
    if i > 0 { ShorterFirst(idx.dirs, i, j); }
  }

  lemma ShorterFirst(dirs: seq<string>, i: nat, j: nat)
    requires Sorted(dirs, DirLe) && i < |dirs| && j < |dirs| && |dirs[j]| < |dirs[i]|
    ensures j < i
  {
  }

  // ---------- walking the entries ----------

  ghost predicate After(idx: DirIndex, d: nat, children: seq<nat>) {
    forall k :: 0 <= k < |children| ==> d < children[k] < |idx.dirs|
  }

  /** Subdirectories come after the directory that lists them. */
  ghost predicate Proper(idx: DirIndex) {
    |idx.filesByDir| == |idx.subdirsByDir| == |idx.dirs|
    && forall d :: 0 <= d < |idx.dirs| ==> After(idx, d, idx.subdirsByDir[d])
  }

  /** The files met by following the entries of `d`: each subdirectory in turn, then its own files. */
  ghost function Visit(idx: DirIndex, d: nat): seq<nat>
    requires Proper(idx) && d < |idx.dirs|
    decreases |idx.dirs| - d, |idx.subdirsByDir[d]| + 1
  {
    VisitAll(idx, d, idx.subdirsByDir[d]) + idx.filesByDir[d]
  }

  ghost function VisitAll(idx: DirIndex, d: nat, children: seq<nat>): seq<nat>
    requires Proper(idx) && d < |idx.dirs| && After(idx, d, children)
    decreases |idx.dirs| - d, |children|
  {
    if children == [] then []
    else
      var n := |children| - 1;
      VisitAll(idx, d, children[..n]) + Visit(idx, children[n])
  }

  /** Every position but the root is linked under an earlier one. */
  ghost predicate LinksBack(link: seq<nat>) {
    |link| > 0 && link[0] == |link| && forall i :: 0 < i < |link| ==> link[i] < i
  }

  lemma {:induction false} BucketAfter(idx: DirIndex, link: seq<nat>, d: nat, n: nat)
    requires LinksBack(link) && |link| == |idx.dirs| && d < |link| && n <= |link|
    ensures After(idx, d, Bucket(link, n, d))
  {
    if n > 0 { BucketAfter(idx, link, d, n - 1); }
  }

  /** The lists of `idx` are the buckets of a tree and of the files' homes. */
  ghost predicate Lists(idx: DirIndex, home: seq<nat>, link: seq<nat>) {
    Proper(idx) && |idx.parent| == |idx.dirs| == |link| && Tree(idx.parent) && LinksBack(link)
    && (forall i :: 0 < i < |link| ==> link[i] == idx.parent[i])
    && Buckets(idx.filesByDir, home, |home|) && Buckets(idx.subdirsByDir, link, |link|)
  }

  lemma {:induction false} VisitIsWalk(idx: DirIndex, home: seq<nat>, link: seq<nat>, d: nat)
    requires Lists(idx, home, link) && d < |idx.dirs|
    ensures Visit(idx, d) == Walk(idx.parent, home, d)
    decreases |idx.dirs| - d, |idx.dirs| + 1
  {
    VisitAllIsWalk(idx, home, link, d, |link|);
  }

  lemma VisitAllSnoc(idx: DirIndex, d: nat, children: seq<nat>, c: nat)
    requires Proper(idx) && d < |idx.dirs| && After(idx, d, children) && d < c < |idx.dirs|
    ensures After(idx, d, children + [c])
    ensures VisitAll(idx, d, children + [c]) == VisitAll(idx, d, children) + Visit(idx, c)
  {
  }

  lemma {:induction false} VisitAllIsWalk(idx: DirIndex, home: seq<nat>, link: seq<nat>, d: nat, n: nat)
    requires Lists(idx, home, link) && d < |idx.dirs| && n <= |link|
    ensures After(idx, d, Bucket(link, n, d))
    ensures VisitAll(idx, d, Bucket(link, n, d)) == WalkChildren(idx.parent, home, d, n)
    decreases |idx.dirs| - d, n
  {
    BucketAfter(idx, link, d, n);
    if n > 0 {
      VisitAllIsWalk(idx, home, link, d, n - 1);
      if link[n - 1] == d {
        VisitAllSnoc(idx, d, Bucket(link, n - 1, d), n - 1);
        VisitIsWalk(idx, home, link, n - 1);
      } else {
        assert Bucket(link, n, d) == Bucket(link, n - 1, d);
      }
    }
  }

  /**
   * A directory tree: distinct directories with the root first, each linked once under the path
   * cut at its last slash, and a walk from the root that meets every file exactly once.
   */
  ghost predicate DirTree(idx: DirIndex, files: seq<string>) {
    |idx.dirs| > 0 && idx.dirs[0] == "" && NoDuplicates(idx.dirs)
    && |idx.parent| == |idx.dirs| && Tree(idx.parent) && Proper(idx)
    && (forall i :: 0 < i < |idx.dirs| ==> idx.dirs[idx.parent[i]] == ParentPath(idx.dirs[i]))
    && (forall d: nat, c: nat :: d < |idx.dirs| ==>
          Count(idx.subdirsByDir[d], c) == if 0 < c < |idx.dirs| && idx.parent[c] == d then 1 else 0)
    && (forall f: nat :: Count(Visit(idx, 0), f) == if f < |files| then 1 else 0)
  }

  lemma LinkIsParent(idx: DirIndex, files: seq<string>, index: map<string, nat>, i: nat)
    requires Built(idx, files, index) && NoDuplicates(idx.dirs) && i < |idx.dirs|
    ensures var link := Links(idx.dirs, index);
            (i == 0 ==> link[i] == |idx.dirs| && idx.parent[i] == 0) &&
            (i > 0 ==> link[i] == idx.parent[i] < i && idx.dirs[idx.parent[i]] == ParentPath(idx.dirs[i]))
  {
    ParentsFirst(idx, files, index, i);
  }

  lemma TreeLists(idx: DirIndex, files: seq<string>, index: map<string, nat>)
    requires Built(idx, files, index) && NoDuplicates(idx.dirs)
    ensures Lists(idx, Homes(files, index), Links(idx.dirs, index))
    ensures forall i :: 0 < i < |idx.dirs| ==> idx.dirs[idx.parent[i]] == ParentPath(idx.dirs[i])
  {
    var link := Links(idx.dirs, index);
    LinkIsParent(idx, files, index, 0);
    forall i | 0 < i < |idx.dirs|
      ensures link[i] == idx.parent[i] < i && idx.dirs[idx.parent[i]] == ParentPath(idx.dirs[i])
    {
      LinkIsParent(idx, files, index, i);
    }
    assert LinksBack(link);
    forall d | 0 <= d < |idx.dirs| ensures After(idx, d, idx.subdirsByDir[d]) {
      BucketAfter(idx, link, d, |link|);
    }
  }

  lemma SlashFreeIsTree(idx: DirIndex, files: seq<string>, index: map<string, nat>)
    requires Built(idx, files, index) && NoLeadingSlash(files)
    ensures DirTree(idx, files)
  {
    var home, link := Homes(files, index), Links(idx.dirs, index);
    RootTwice(files);
    DistinctDirs(idx.dirs, AllAncestors(files, |files|));
    TreeLists(idx, files, index);
    forall d: nat, c: nat | d < |idx.dirs|
      ensures Count(idx.subdirsByDir[d], c) == if 0 < c < |idx.dirs| && idx.parent[c] == d then 1 else 0
    {
      BucketCount(link, |link|, d, c);
    }
    VisitIsWalk(idx, home, link, 0);
    forall f | 0 <= f < |home| ensures home[f] < |idx.parent| { FileParentIndexed(idx, files, index, f); }
    forall f: nat ensures Count(Visit(idx, 0), f) == if f < |files| then 1 else 0 {
      WalkIsComplete(idx.parent, home, f);
    }
  }

  lemma {:induction false} BucketEmpty(home: seq<nat>, n: nat, d: nat)
    requires n <= |home| && forall i :: 0 <= i < n ==> home[i] != d
    ensures Bucket(home, n, d) == []
  {
    if n > 0 { BucketEmpty(home, n - 1, d); }
  }

  lemma NeverRoot(idx: DirIndex, files: seq<string>, index: map<string, nat>, path: string)
    requires Built(idx, files, index) && !NoLeadingSlash(files) && ParentPath(path) in index
    ensures Lookup(index, path) != 0
  {
    RootTwice(files);
    var k :| 0 <= k < |idx.dirs[1..]| && idx.dirs[1..][k] == "";
    assert idx.dirs[k + 1] == "";
  }

  /** A path that starts with a slash registers the root twice and leaves the real root without entries. */
  lemma LeadingSlashEmptiesRoot(idx: DirIndex, files: seq<string>, index: map<string, nat>)
    requires Built(idx, files, index) && !NoLeadingSlash(files)
    ensures !NoDuplicates(idx.dirs)
    ensures idx.filesByDir[0] == [] && idx.subdirsByDir[0] == []
  {
    RootTwice(files);
    DistinctDirs(idx.dirs, AllAncestors(files, |files|));
    var home, link := Homes(files, index), Links(idx.dirs, index);
    forall f | 0 <= f < |files| ensures home[f] != 0 {
      FileParentIndexed(idx, files, index, f);
      NeverRoot(idx, files, index, files[f]);
    }
    forall i | 0 <= i < |idx.dirs| ensures link[i] != 0 {
      DirParentIndexed(idx, files, index, i);
      NeverRoot(idx, files, index, idx.dirs[i]);
    }
    BucketEmpty(home, |files|, 0);
    BucketEmpty(link, |idx.dirs|, 0);
  }

  /** The directories are the root and every path that some file's path has before a slash. */
  ghost predicate HoldsCuts(dirs: seq<string>, files: seq<string>) {
    forall x :: x in dirs <==> x == "" || exists f :: 0 <= f < |files| && CutOf(files[f], x)
  }

  lemma BuiltHolds(idx: DirIndex, files: seq<string>, index: map<string, nat>)
    requires Built(idx, files, index)
    ensures HoldsCuts(idx.dirs, files)
  {
    forall x ensures x in idx.dirs <==> x == "" || exists f :: 0 <= f < |files| && CutOf(files[f], x) {
      DirsAre(idx.dirs, AllAncestors(files, |files|), x);
      AllAncestorsMeans(files, |files|, x);
      forall f | 0 <= f < |files| ensures x in Ancestors(files[f]) <==> CutOf(files[f], x) {
        AncestorsMean(files[f], x);
      }
    }
  }

  /** Each directory lists, in order, exactly the files and the other directories that are its entries. */
  ghost predicate Placed(idx: DirIndex, files: seq<string>) {
    |idx.filesByDir| == |idx.subdirsByDir| == |idx.dirs| &&
    (forall d: nat :: d < |idx.dirs| ==> Ascending(idx.filesByDir[d]) && Ascending(idx.subdirsByDir[d])) &&
    (forall d: nat, f: nat :: d < |idx.dirs| ==>
       (f in idx.filesByDir[d] <==> f < |files| && LiesIn(files[f], idx.dirs[d]))) &&
    (forall d: nat, c: nat :: d < |idx.dirs| ==>
       (c in idx.subdirsByDir[d] <==> 0 < c < |idx.dirs| && LiesIn(idx.dirs[c], idx.dirs[d])))
  }

  lemma DirHasNoLeadingSlash(idx: DirIndex, files: seq<string>, i: nat)
    requires HoldsCuts(idx.dirs, files) && NoLeadingSlash(files) && i < |idx.dirs|
    ensures !LeadingSlash(idx.dirs[i])
  {
    var x := idx.dirs[i];
    assert x in idx.dirs;
    if x != "" {
      var f :| 0 <= f < |files| && CutOf(files[f], x);
      assert x[0] == files[f][0];
    }
  }

  /** A path goes to the directory it is an entry of. */
  lemma LookupMeans(idx: DirIndex, index: map<string, nat>, path: string, d: nat)
    requires Indexes(idx.dirs, index) && NoDuplicates(idx.dirs) && ParentPath(path) in index && d < |idx.dirs|
    requires !LeadingSlash(path)
    ensures Lookup(index, path) == d <==> LiesIn(path, idx.dirs[d])
  {
    ParentMeans(path, idx.dirs[d]);
    var at := index[ParentPath(path)];
    assert idx.dirs[at] == ParentPath(path);
    if at != d { assert idx.dirs[at] != idx.dirs[d]; }
  }

  lemma FilePlaced(idx: DirIndex, files: seq<string>, index: map<string, nat>, d: nat, f: nat)
    requires Built(idx, files, index) && NoLeadingSlash(files) && NoDuplicates(idx.dirs) && d < |idx.dirs|
    ensures f in idx.filesByDir[d] <==> f < |files| && LiesIn(files[f], idx.dirs[d])
  {
    BucketHolds(Homes(files, index), |files|, d, f);
    if f < |files| {
      FileParentIndexed(idx, files, index, f);
      LookupMeans(idx, index, files[f], d);
    }
  }

  lemma DirPlaced(idx: DirIndex, files: seq<string>, index: map<string, nat>, d: nat, c: nat)
    requires Built(idx, files, index) && NoLeadingSlash(files) && NoDuplicates(idx.dirs) && d < |idx.dirs|
    requires HoldsCuts(idx.dirs, files)
    ensures c in idx.subdirsByDir[d] <==> 0 < c < |idx.dirs| && LiesIn(idx.dirs[c], idx.dirs[d])
  {
    BucketHolds(Links(idx.dirs, index), |idx.dirs|, d, c);
    if c < |idx.dirs| {
      LinkIsParent(idx, files, index, c);
      DirParentIndexed(idx, files, index, c);
      DirHasNoLeadingSlash(idx, files, c);
      LookupMeans(idx, index, idx.dirs[c], d);
    }
  }

  lemma BuiltPlaced(idx: DirIndex, files: seq<string>, index: map<string, nat>)
    requires Built(idx, files, index) && NoLeadingSlash(files)
    ensures Placed(idx, files)
  {
    RootTwice(files);
    DistinctDirs(idx.dirs, AllAncestors(files, |files|));
    BuiltHolds(idx, files, index);
    forall d: nat | d < |idx.dirs| ensures Ascending(idx.filesByDir[d]) && Ascending(idx.subdirsByDir[d]) {
      BucketAscends(Homes(files, index), |files|, d);
      BucketAscends(Links(idx.dirs, index), |idx.dirs|, d);
    }
    forall d: nat, f: nat | d < |idx.dirs|
      ensures f in idx.filesByDir[d] <==> f < |files| && LiesIn(files[f], idx.dirs[d])
    {
      FilePlaced(idx, files, index, d, f);
    }
    forall d: nat, c: nat | d < |idx.dirs|
      ensures c in idx.subdirsByDir[d] <==> 0 < c < |idx.dirs| && LiesIn(idx.dirs[c], idx.dirs[d])
    {
      DirPlaced(idx, files, index, d, c);
    }
  }

  lemma BuiltMeans(idx: DirIndex, files: seq<string>, index: map<string, nat>)
    requires Built(idx, files, index)
    ensures DirTree(idx, files) <==> NoLeadingSlash(files)
    ensures NoLeadingSlash(files) ==> Placed(idx, files)
    ensures HoldsCuts(idx.dirs, files)
  {
    if NoLeadingSlash(files) {
      SlashFreeIsTree(idx, files, index);
      BuiltPlaced(idx, files, index);
    } else {
      LeadingSlashEmptiesRoot(idx, files, index);
    }
    BuiltHolds(idx, files, index);
  }

  /** Collecting gives a directory tree exactly when no path starts with a slash. */
  method Collect(files: seq<string>) returns (idx: DirIndex)
    ensures DirTree(idx, files) <==> NoLeadingSlash(files)
    ensures Sorted(idx.dirs, DirLe) && HoldsCuts(idx.dirs, files) && (NoLeadingSlash(files) ==> Placed(idx, files))
    ensures !NoLeadingSlash(files) ==>
              |idx.filesByDir| > 0 && |idx.subdirsByDir| > 0 && idx.filesByDir[0] == [] && idx.subdirsByDir[0] == []
  {
    var dirs := CollectDirs(files);
    var index := BuildIndex(dirs);
    var filesByDir := GroupFiles(files, index, |dirs|);
    var subdirs, parent := LinkChildren(dirs, index);
    idx := DirIndex(dirs, filesByDir, subdirs, parent);
    assert Built(idx, files, index);
    BuiltMeans(idx, files, index);
    if !NoLeadingSlash(files) {
      LeadingSlashEmptiesRoot(idx, files, index);
    }
  }
}
