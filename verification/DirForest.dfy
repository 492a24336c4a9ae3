/** Walking a parent-indexed directory tree (libs/fatfs/src/tree.rs, `entries`). */
module DirForest {
  /** The positions below `n` that `home` sends to `d`, in increasing order. */
  function Bucket(home: seq<nat>, n: nat, d: nat): (r: seq<nat>)
    requires n <= |home|
    ensures forall x :: x in r ==> x < n && home[x] == d
  {
    if n == 0 then []
    else if home[n - 1] == d then Bucket(home, n - 1, d) + [n - 1]
    else Bucket(home, n - 1, d)
  }

  /** How often `x` occurs. */
  ghost function Count(s: seq<nat>, x: nat): nat {
    multiset(s)[x]
  }

  lemma CountAppend(a: seq<nat>, b: seq<nat>, x: nat)
    ensures Count(a + b, x) == Count(a, x) + Count(b, x)
  {
    assert multiset(a + b) == multiset(a) + multiset(b);
  }

  lemma CountSnoc(s: seq<nat>, y: nat, x: nat)
    ensures Count(s + [y], x) == Count(s, x) + if x == y then 1 else 0
  {
    CountAppend(s, [y], x);
  }

  /** Each position is in exactly one bucket, exactly once. */
  lemma {:induction false} BucketCount(home: seq<nat>, n: nat, d: nat, x: nat)
    requires n <= |home|
    ensures Count(Bucket(home, n, d), x) == if x < n && home[x] == d then 1 else 0
  {
    if n > 0 {
      BucketCount(home, n - 1, d, x);
      if home[n - 1] == d { CountSnoc(Bucket(home, n - 1, d), n - 1, x); }
    }
  }

  lemma {:induction false} BucketHolds(home: seq<nat>, n: nat, d: nat, x: nat)
    requires n <= |home|
    ensures x in Bucket(home, n, d) <==> x < n && home[x] == d
  {
    if n > 0 { BucketHolds(home, n - 1, d, x); }
  }

  ghost predicate Ascending(s: seq<nat>) {
    forall i, j :: 0 <= i < j < |s| ==> s[i] < s[j]
  }

  lemma {:induction false} BucketAscends(home: seq<nat>, n: nat, d: nat)
    requires n <= |home|
    ensures Ascending(Bucket(home, n, d))
  {
    if n > 0 {
      BucketAscends(home, n - 1, d);
      var b := Bucket(home, n - 1, d);
      assert forall i :: 0 <= i < |b| ==> b[i] in b;
    }
  }

  /** Parents come before their children; the root is its own parent. */
  ghost predicate Tree(parent: seq<nat>) {
    |parent| > 0 && parent[0] == 0 && forall i :: 0 < i < |parent| ==> parent[i] < i
  }

  /** Directory `x` is `d` or somewhere below it. */
  ghost predicate InSubtree(parent: seq<nat>, d: nat, x: nat)
    requires Tree(parent) && x < |parent|
    decreases x
  {
    x == d || (x > 0 && InSubtree(parent, d, parent[x]))
  }

  lemma {:induction false} AllBelowRoot(parent: seq<nat>, x: nat)
    requires Tree(parent) && x < |parent|
    ensures InSubtree(parent, 0, x)
    decreases x
  {
    if x > 0 { AllBelowRoot(parent, parent[x]); }
  }

  lemma {:induction false} SubtreeIsLater(parent: seq<nat>, d: nat, x: nat)
    requires Tree(parent) && x < |parent| && InSubtree(parent, d, x)
    ensures d <= x
    decreases x
  {
    if x != d { SubtreeIsLater(parent, d, parent[x]); }
  }

  /** The child of `d` that `x` is under. */
  ghost function Branch(parent: seq<nat>, d: nat, x: nat): nat
    requires Tree(parent) && x < |parent| && InSubtree(parent, d, x) && x != d
    decreases x
  {
    if parent[x] == d then x else Branch(parent, d, parent[x])
  }

  ghost predicate IsBranch(parent: seq<nat>, d: nat, x: nat, c: nat)
    requires Tree(parent) && x < |parent|
  {
    InSubtree(parent, d, x) && x != d && Branch(parent, d, x) == c
  }

  /** Exactly one child's subtree holds a directory strictly below `d`. */
  lemma {:induction false} BranchIsUnique(parent: seq<nat>, d: nat, x: nat, c: nat)
    requires Tree(parent) && x < |parent| && d < c < |parent| && parent[c] == d
    ensures InSubtree(parent, c, x) <==> IsBranch(parent, d, x, c)
    decreases x
  {
    if x == c {
      assert InSubtree(parent, d, d);
    } else if x > 0 {
      if parent[x] == d {
        if InSubtree(parent, c, d) { SubtreeIsLater(parent, c, d); }
      } else {
        BranchIsUnique(parent, d, parent[x], c);
        if x == d && InSubtree(parent, c, x) { SubtreeIsLater(parent, c, x); }
      }
    }
  }

  /** The files met by walking the entries of `d`: below each subdirectory in turn, then its own. */
  ghost function Walk(parent: seq<nat>, home: seq<nat>, d: nat): seq<nat>
    requires Tree(parent) && d < |parent|
    decreases |parent| - d, |parent| + 1
  {
    WalkChildren(parent, home, d, |parent|) + Bucket(home, |home|, d)
  }

  ghost function WalkChildren(parent: seq<nat>, home: seq<nat>, d: nat, n: nat): seq<nat>
    requires Tree(parent) && d < |parent| && n <= |parent|
    decreases |parent| - d, n
  {
    if n == 0 then [] else WalkChildren(parent, home, d, n - 1) + WalkIfChild(parent, home, d, n - 1)
  }

  ghost function WalkIfChild(parent: seq<nat>, home: seq<nat>, d: nat, c: nat): seq<nat>
    requires Tree(parent) && d < |parent| && c < |parent|
    decreases |parent| - d, c
  {
    if d < c && parent[c] == d then Walk(parent, home, c) else []
  }

  lemma {:induction false} BranchInRange(parent: seq<nat>, d: nat, x: nat)
    requires Tree(parent) && x < |parent| && InSubtree(parent, d, x) && x != d
    ensures d < Branch(parent, d, x) < |parent| && parent[Branch(parent, d, x)] == d
    decreases x
  {
    if parent[x] != d { BranchInRange(parent, d, parent[x]); }
  }

  /** A file shows up in the walk of `d` exactly once if its directory is below, else never. */
  lemma {:induction false} WalkCount(parent: seq<nat>, home: seq<nat>, d: nat, f: nat)
    requires Tree(parent) && d < |parent| && (f < |home| ==> home[f] < |parent|)
    ensures Count(Walk(parent, home, d), f) == if f < |home| && InSubtree(parent, d, home[f]) then 1 else 0
    decreases |parent| - d, |parent| + 1
  {
    CountAppend(WalkChildren(parent, home, d, |parent|), Bucket(home, |home|, d), f);
    WalkChildrenCount(parent, home, d, |parent|, f);
    BucketCount(home, |home|, d, f);
    if f < |home| && InSubtree(parent, d, home[f]) && home[f] != d {
      BranchInRange(parent, d, home[f]);
    }
  }

  ghost predicate BranchBelow(parent: seq<nat>, d: nat, x: nat, n: nat)
    requires Tree(parent) && x < |parent|
  {
    InSubtree(parent, d, x) && x != d && Branch(parent, d, x) < n
  }

  lemma {:induction false} WalkIfChildCount(parent: seq<nat>, home: seq<nat>, d: nat, c: nat, f: nat)
    requires Tree(parent) && d < |parent| && c < |parent| && (f < |home| ==> home[f] < |parent|)
    ensures Count(WalkIfChild(parent, home, d, c), f) == if f < |home| && IsBranch(parent, d, home[f], c) then 1 else 0
    decreases |parent| - d, c
  {
    if d < c && parent[c] == d {
      WalkCount(parent, home, c, f);
      if f < |home| { BranchIsUnique(parent, d, home[f], c); }
    } else if f < |home| && IsBranch(parent, d, home[f], c) {
      BranchInRange(parent, d, home[f]);
    }
  }

  /** A directory is under one of the first `n + 1` branches if it is under one of the first `n` or under the next. */
  lemma BranchStep(parent: seq<nat>, d: nat, x: nat, n: nat)
    requires Tree(parent) && x < |parent|
    ensures BranchBelow(parent, d, x, n + 1) <==> BranchBelow(parent, d, x, n) || IsBranch(parent, d, x, n)
    ensures !(BranchBelow(parent, d, x, n) && IsBranch(parent, d, x, n))
  {
  }

  lemma {:induction false} WalkChildrenCount(parent: seq<nat>, home: seq<nat>, d: nat, n: nat, f: nat)
    requires Tree(parent) && d < |parent| && n <= |parent| && (f < |home| ==> home[f] < |parent|)
    ensures Count(WalkChildren(parent, home, d, n), f)
            == if f < |home| && BranchBelow(parent, d, home[f], n) then 1 else 0
    decreases |parent| - d, n
  {
    if n > 0 {
      WalkChildrenCount(parent, home, d, n - 1, f);
      WalkIfChildCount(parent, home, d, n - 1, f);
      var before, child := WalkChildren(parent, home, d, n - 1), WalkIfChild(parent, home, d, n - 1);
      CountAppend(before, child, f);
      assert Count(WalkChildren(parent, home, d, n), f) == Count(before, f) + Count(child, f);
      if f < |home| { BranchStep(parent, d, home[f], n - 1); }
    }
  }

  /** Walking from the root meets every file exactly once and nothing else. */
  lemma WalkIsComplete(parent: seq<nat>, home: seq<nat>, f: nat)
    requires Tree(parent) && forall i :: 0 <= i < |home| ==> home[i] < |parent|
    ensures Count(Walk(parent, home, 0), f) == if f < |home| then 1 else 0
  {
    WalkCount(parent, home, 0, f);
    if f < |home| { AllBelowRoot(parent, home[f]); }
  }
}
