/** Directed graphs as successor lists, with paths, reachability and cycles. */
module Graph {
  type Graph<T(==)> = map<T, seq<T>>

  predicate Edge<T(==,!new)>(g: Graph<T>, u: T, v: T) {
    u in g && v in g[u]
  }

  ghost predicate IsPath<T(!new)>(g: Graph<T>, p: seq<T>) {
    |p| > 0 && forall i :: 0 <= i < |p| - 1 ==> Edge(g, p[i], p[i + 1])
  }

  ghost predicate Reaches<T(!new)>(g: Graph<T>, u: T, v: T) {
    exists p :: IsPath(g, p) && p[0] == u && p[|p| - 1] == v
  }

  /** Some path of at least one edge comes back to its start. */
  ghost predicate Cyclic<T(!new)>(g: Graph<T>) {
    exists p :: IsPath(g, p) && |p| > 1 && p[0] == p[|p| - 1]
  }

  ghost predicate OnCycle<T(!new)>(g: Graph<T>, u: T) {
    exists p :: IsPath(g, p) && |p| > 1 && p[0] == u && p[|p| - 1] == u
  }

  ghost predicate NoDuplicates<T>(s: seq<T>) {
    forall i, j :: 0 <= i < j < |s| ==> s[i] != s[j]
  }

  lemma SuffixIsPath<T(!new)>(g: Graph<T>, p: seq<T>, i: nat)
    requires IsPath(g, p) && i < |p|
    ensures IsPath(g, p[i..])
  {
  }

  lemma ReachesSelf<T(!new)>(g: Graph<T>, u: T)
    ensures Reaches(g, u, u)
  {
    assert IsPath(g, [u]);
  }

  lemma ReachesThenEdge<T(!new)>(g: Graph<T>, u: T, v: T, w: T)
    requires Reaches(g, u, v) && Edge(g, v, w)
    ensures Reaches(g, u, w)
  {
    var p :| IsPath(g, p) && p[0] == u && p[|p| - 1] == v;
    assert IsPath(g, p + [w]);
  }

  lemma ReachesTransitive<T(!new)>(g: Graph<T>, u: T, v: T, w: T)
    requires Reaches(g, u, v) && Reaches(g, v, w)
    ensures Reaches(g, u, w)
  {
    var p :| IsPath(g, p) && p[0] == u && p[|p| - 1] == v;
    var q :| IsPath(g, q) && q[0] == v && q[|q| - 1] == w;
    assert IsPath(g, p + q[1..]);
  }

  /** An edge whose head can come back to its tail lies on a cycle. */
  lemma ReturningEdgeIsCycle<T(!new)>(g: Graph<T>, u: T, v: T)
    requires Edge(g, u, v) && Reaches(g, v, u)
    ensures OnCycle(g, u)
  {
    var p :| IsPath(g, p) && p[0] == v && p[|p| - 1] == u;
    assert IsPath(g, [u] + p);
  }

  /** A set that every edge stays inside holds everything reachable from its members. */
  lemma {:induction false} PathStaysInside<T(!new)>(g: Graph<T>, inside: set<T>, p: seq<T>)
    requires IsPath(g, p) && p[0] in inside
    requires forall u, v :: u in inside && Edge(g, u, v) ==> v in inside
    ensures p[|p| - 1] in inside
  {
    if |p| > 1 {
      assert Edge(g, p[0], p[1]);
      SuffixIsPath(g, p, 1);
      PathStaysInside(g, inside, p[1..]);
    }
  }

  /** Every successor of a listed node is listed before it: a topological order, sinks first. */
  ghost predicate SuccessorsFirst<T(!new)>(g: Graph<T>, order: seq<T>) {
    forall i, v :: 0 <= i < |order| && Edge(g, order[i], v) ==> v in order[..i]
  }

  /** Along a path out of a topologically ordered node, positions only go down. */
  lemma {:induction false} PathGoesDown<T(!new)>(g: Graph<T>, order: seq<T>, i: nat, p: seq<T>)
    requires SuccessorsFirst(g, order) && i < |order|
    requires IsPath(g, p) && p[0] == order[i] && |p| > 1
    ensures p[|p| - 1] in order[..i]
  {
    assert Edge(g, p[0], p[1]);
    var j :| 0 <= j < i && order[j] == p[1];
    if |p| > 2 {
      SuffixIsPath(g, p, 1);
      PathGoesDown(g, order, j, p[1..]);
    }
  }

  /** No node of a topological order lies on a cycle. */
  lemma OrderedOffCycles<T(!new)>(g: Graph<T>, order: seq<T>, u: T)
    requires SuccessorsFirst(g, order) && NoDuplicates(order) && u in order
    ensures !OnCycle(g, u)
  {
    if OnCycle(g, u) {
      var p :| IsPath(g, p) && |p| > 1 && p[0] == u && p[|p| - 1] == u;
      var i :| 0 <= i < |order| && order[i] == u;
      PathGoesDown(g, order, i, p);
    }
  }

  /** A topological order of every node with successors rules out cycles. */
  lemma OrderedIsAcyclic<T(!new)>(g: Graph<T>, order: seq<T>)
    requires SuccessorsFirst(g, order) && NoDuplicates(order)
    requires forall u :: u in g ==> u in order
    ensures !Cyclic(g)
  {
    if Cyclic(g) {
      var p :| IsPath(g, p) && |p| > 1 && p[0] == p[|p| - 1];
      assert Edge(g, p[0], p[1]);
      OrderedOffCycles(g, order, p[0]);
    }
  }

  /** A path that ends on a node it has already passed contains a cycle. */
  lemma RevisitIsCycle<T(!new)>(g: Graph<T>, p: seq<T>)
    requires IsPath(g, p) && p[|p| - 1] in p[..|p| - 1]
    ensures Cyclic(g)
  {
    var i :| 0 <= i < |p| - 1 && p[i] == p[|p| - 1];
    SuffixIsPath(g, p, i);
  }
}
