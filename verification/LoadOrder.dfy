/** Dependency-first load orders (libs/kmod/src/deps.rs, `visit` and `resolve_load_order`). */
module LoadOrder {
  import opened Prelude
  import opened Graph
  import opened DepDb
  import Text

  /** The module that a name denotes, if it is known. */
  function KnownOne(ms: seq<Module>, name: string): (r: seq<nat>)
    ensures forall v: nat :: v in r ==> v < |ms|
  {
    Text.Listed(LastIndexWithKey(ms, Fold(name)))
  }

  /** The indexed modules that a list of dependency names resolves to; unknown names drop out. */
  function Known(ms: seq<Module>, names: seq<string>): (r: seq<nat>)
    ensures forall v: nat :: v in r ==> v < |ms|
  {
    if names == [] then []
    else
      var n := |names| - 1;
      Known(ms, names[..n]) + KnownOne(ms, names[n])
  }

  function DepGraph(ms: seq<Module>): Graph<nat> {
    map u | 0 <= u < |ms| :: Known(ms, ms[u].deps)
  }

  // ---------- the graph is what the names say ----------

  /** The name denotes module `v`: the last one of that name. */
  predicate Denotes(ms: seq<Module>, name: string, v: nat) {
    LastIndexWithKey(ms, Fold(name)) == Some(v)
  }

  /** Some of the names denotes module `v`. */
  ghost predicate SomeDenotes(ms: seq<Module>, names: seq<string>, v: nat) {
    exists j :: 0 <= j < |names| && Denotes(ms, names[j], v)
  }

  /** Some dependency name of module `u` denotes module `v`. */
  ghost predicate DependsOn(ms: seq<Module>, u: nat, v: nat) {
    u < |ms| && SomeDenotes(ms, ms[u].deps, v)
  }

  lemma KnownSnoc(ms: seq<Module>, names: seq<string>, name: string)
    ensures Known(ms, names + [name]) == Known(ms, names) + KnownOne(ms, name)
  {
    assert (names + [name])[..|names|] == names;
  }

  lemma SomeDenotesSnoc(ms: seq<Module>, names: seq<string>, name: string, v: nat)
    ensures SomeDenotes(ms, names + [name], v) <==> SomeDenotes(ms, names, v) || Denotes(ms, name, v)
  {
    var all := names + [name];
    assert forall j :: 0 <= j < |names| ==> all[j] == names[j];
    assert all[|names|] == name;
  }

  lemma {:induction false} KnownMeans(ms: seq<Module>, names: seq<string>, v: nat)
    ensures v in Known(ms, names) <==> SomeDenotes(ms, names, v)
  {
    if names != [] {
      var n := |names| - 1;
      KnownMeans(ms, names[..n], v);
      KnownSnoc(ms, names[..n], names[n]);
      SomeDenotesSnoc(ms, names[..n], names[n], v);
      assert names == names[..n] + [names[n]];
    }
  }

  /** Names are resolved one by one, in order. */
  lemma {:induction false} KnownAppend(ms: seq<Module>, a: seq<string>, b: seq<string>)
    ensures Known(ms, a + b) == Known(ms, a) + Known(ms, b)
  {
    if b == [] {
      assert a + b == a;
    } else {
      var n := |b| - 1;
      assert a + b == (a + b[..n]) + [b[n]] && b == b[..n] + [b[n]];
      KnownAppend(ms, a, b[..n]);
      KnownSnoc(ms, a + b[..n], b[n]);
      KnownSnoc(ms, b[..n], b[n]);
      Text.AppendAssociates(Known(ms, a), Known(ms, b[..n]), KnownOne(ms, b[n]));
    }
  }

  /** The graph has an edge exactly where some dependency name denotes a module. */
  lemma EdgeMeans(ms: seq<Module>, u: nat, v: nat)
    ensures Edge(DepGraph(ms), u, v) <==> DependsOn(ms, u, v)
  {
    if u < |ms| { KnownMeans(ms, ms[u].deps, v); }
  }

  /** Each module of the chain depends on the next. */
  ghost predicate Chain(ms: seq<Module>, p: seq<nat>) {
    |p| > 0 && forall i :: 0 <= i < |p| - 1 ==> DependsOn(ms, p[i], p[i + 1])
  }

  /** `u` is `v`, or depends on it through a chain of modules. */
  ghost predicate Needs(ms: seq<Module>, u: nat, v: nat) {
    exists p :: Chain(ms, p) && p[0] == u && p[|p| - 1] == v
  }

  lemma ChainIsPath(ms: seq<Module>, p: seq<nat>)
    ensures Chain(ms, p) <==> IsPath(DepGraph(ms), p)
  {
    forall i | 0 <= i < |p| - 1 ensures DependsOn(ms, p[i], p[i + 1]) <==> Edge(DepGraph(ms), p[i], p[i + 1]) {
      EdgeMeans(ms, p[i], p[i + 1]);
    }
  }

  lemma NeedsMeans(ms: seq<Module>, u: nat, v: nat)
    ensures Needs(ms, u, v) <==> Reaches(DepGraph(ms), u, v)
  {
    forall p ensures Chain(ms, p) <==> IsPath(DepGraph(ms), p) { ChainIsPath(ms, p); }
  }

  /** `v` comes before position `i`, or `v` and the module at `i` depend on each other. */
  ghost predicate Before(g: Graph<nat>, nodes: seq<nat>, i: nat, v: nat)
    requires i < |nodes|
  {
    v in nodes[..i] || Reaches(g, v, nodes[i])
  }

  ghost predicate DepsFirst(g: Graph<nat>, nodes: seq<nat>) {
    forall i, v: nat :: 0 <= i < |nodes| && Edge(g, nodes[i], v) ==> Before(g, nodes, i, v)
  }

  /** The state of a walk: emitted nodes are distinct, visited, and so are their dependencies. */
  ghost predicate Walk(g: Graph<nat>, nodes: seq<nat>, visited: seq<bool>) {
    NoDuplicates(nodes) && DepsFirst(g, nodes) &&
    (forall x: nat :: x in nodes ==> x < |visited| && visited[x]) &&
    (forall x: nat, v: nat :: x in nodes && Edge(g, x, v) ==> v < |visited| && visited[v])
  }

  /** Visited nodes that are not emitted yet are the active ones, and they all lead to `index`. */
  ghost predicate ActiveReach(g: Graph<nat>, nodes: seq<nat>, visited: seq<bool>, index: nat) {
    forall x: nat :: 0 <= x < |visited| && visited[x] && x !in nodes ==> Reaches(g, x, index)
  }

  /** `after` adds to `before` exactly the nodes emitted beyond `done`, all reached from `index`. */
  ghost predicate Grows(g: Graph<nat>, index: nat, done: nat, nodes: seq<nat>, before: seq<bool>, after: seq<bool>) {
    done <= |nodes| && |before| == |after| &&
    (forall x: nat :: 0 <= x < |before| ==> (after[x] <==> before[x] || x in nodes[done..])) &&
    (forall x: nat :: x in nodes[done..] ==> x < |before| && !before[x] && Reaches(g, index, x))
  }

  ghost predicate Emits(ms: seq<Module>, nodes: seq<nat>, order: seq<string>) {
    |order| == |nodes| && forall i :: 0 <= i < |nodes| ==> nodes[i] < |ms| && order[i] == ms[nodes[i]].path
  }

  ghost function Unvisited(visited: seq<bool>): set<nat> {
    set x: nat | x < |visited| && !visited[x]
  }

  lemma ActiveReachEdge(g: Graph<nat>, nodes: seq<nat>, before: seq<bool>, visited: seq<bool>, index: nat, dep: nat,
                        start: seq<nat>)
    requires index < |before| && ActiveReach(g, start, before, index) && start <= nodes
    requires Grows(g, index, |start|, nodes, before[index := true], visited)
    requires Edge(g, index, dep)
    ensures ActiveReach(g, nodes, visited, dep)
  {
    ReachesSelf(g, index);
    forall x: nat | 0 <= x < |visited| && visited[x] && x !in nodes ensures Reaches(g, x, dep) {
      assert x !in start && x !in nodes[|start|..];
      ReachesThenEdge(g, x, index, dep);
    }
  }

  /** Growth from a dependency is growth from the module that has it. */
  lemma GrowsOn(g: Graph<nat>, index: nat, dep: nat, start: nat, mid: seq<nat>, nodes: seq<nat>,
                a: seq<bool>, b: seq<bool>, c: seq<bool>)
    requires Edge(g, index, dep) && mid <= nodes
    requires Grows(g, index, start, mid, a, b) && Grows(g, dep, |mid|, nodes, b, c)
    ensures Grows(g, index, start, nodes, a, c)
  {
    assert nodes[start..] == mid[start..] + nodes[|mid|..];
    ReachesSelf(g, index);
    ReachesThenEdge(g, index, index, dep);
    forall x: nat | x in nodes[|mid|..] ensures Reaches(g, index, x) { ReachesTransitive(g, index, dep, x); }
  }

  ghost predicate AllVisited(nodes: seq<nat>, visited: seq<bool>) {
    forall x: nat :: x in nodes ==> x < |visited| && visited[x]
  }

  lemma AlsoVisited(g: Graph<nat>, deps: seq<nat>, dep: nat, start: nat, nodes: seq<nat>, a: seq<bool>, b: seq<bool>)
    requires AllVisited(deps, a) && Grows(g, dep, start, nodes, a, b) && dep < |b| && b[dep]
    ensures AllVisited(deps + [dep], b)
  {
  }

  /** Emitting a module once all its dependencies are visited keeps the walk in order. */
  lemma EmitKeepsWalk(g: Graph<nat>, index: nat, start: seq<nat>, nodes: seq<nat>, before: seq<bool>,
                      visited: seq<bool>)
    requires index < |before| && !before[index] && start <= nodes && index !in start
    requires Walk(g, nodes, visited) && ActiveReach(g, start, before, index)
    requires Grows(g, index, |start|, nodes, before[index := true], visited)
    requires index in g && AllVisited(g[index], visited)
    ensures Walk(g, nodes + [index], visited)
    ensures Grows(g, index, |start|, nodes + [index], before, visited)
  {
    var out := nodes + [index];
    ReachesSelf(g, index);
    assert out[|start|..] == nodes[|start|..] + [index];
    assert index !in nodes by {
      assert forall x: nat :: x in nodes ==> x in start || x in nodes[|start|..];
    }
    forall i, v: nat | 0 <= i < |out| && Edge(g, out[i], v) ensures Before(g, out, i, v) {
      assert out[..i] == nodes[..i];
      if i < |nodes| {
        assert Before(g, nodes, i, v);
      } else if v !in nodes {
        assert v !in nodes[|start|..] && v !in start;
      }
    }
  }

  lemma EntryAt(db: DepDb, index: nat)
    requires index < |db.modules|
    ensures View(db)[index] == EntryView(db.text, db.depNames)(db.modules[index])
  {
    Text.MapSeqAt(EntryView(db.text, db.depNames), db.modules, index);
  }

  /** The resolved dependencies of one module: its edges in the dependency graph. */
  method Successors(db: DepDb, index: nat) returns (found: seq<nat>)
    requires SortedByKey(View(db)) && index < |db.modules|
    ensures found == DepGraph(View(db))[index]
  {
    EntryAt(db, index);
    var spans := Window(db.depNames, db.modules[index].deps);
    ghost var names := View(db)[index].deps;
    found := [];
    for j := 0 to |spans|
      invariant |spans| == |names| && found == Known(View(db), names[..j])
    {
      Text.MapSeqAt(SliceOf(db.text), spans, j);
      Text.PrefixGrows(names, j);
      KnownSnoc(View(db), names[..j], names[j]);
      var dep := Find(db, Text.Slice(db.text, spans[j]));
      if dep.Some? {
        found := found + [dep.value];
      }
    }
    assert names[..|names|] == names;
  }

  /** The loop over the dependencies of `index`, after `j` of them. */
  ghost predicate Visiting(g: Graph<nat>, index: nat, j: nat, start: seq<nat>, nodes: seq<nat>,
                           marked: seq<bool>, visited: seq<bool>)
  {
    index in g && j <= |g[index]| && start <= nodes && Walk(g, nodes, visited)
    && Grows(g, index, |start|, nodes, marked, visited) && AllVisited(g[index][..j], visited)
    && forall v: nat :: v in g[index] ==> v < |visited|
  }

  lemma BeforeDependency(g: Graph<nat>, index: nat, j: nat, start: seq<nat>, nodes: seq<nat>,
                         before: seq<bool>, visited: seq<bool>)
    requires index < |before| && !before[index] && ActiveReach(g, start, before, index)
    requires Visiting(g, index, j, start, nodes, before[index := true], visited) && j < |g[index]|
    ensures ActiveReach(g, nodes, visited, g[index][j]) && Unvisited(visited) < Unvisited(before)
  {
    ActiveReachEdge(g, nodes, before, visited, index, g[index][j], start);
    assert index in Unvisited(before);
  }

  lemma AfterDependency(g: Graph<nat>, index: nat, j: nat, start: seq<nat>, mid: seq<nat>, nodes: seq<nat>,
                        marked: seq<bool>, was: seq<bool>, visited: seq<bool>)
    requires Visiting(g, index, j, start, mid, marked, was) && j < |g[index]| && mid <= nodes
    requires Walk(g, nodes, visited) && Grows(g, g[index][j], |mid|, nodes, was, visited)
    requires g[index][j] < |visited| ==> visited[g[index][j]]
    ensures Visiting(g, index, j + 1, start, nodes, marked, visited)
  {
    var dep := g[index][j];
    GrowsOn(g, index, dep, |start|, mid, nodes, marked, was, visited);
    AlsoVisited(g, g[index][..j], dep, |mid|, nodes, was, visited);
    Text.PrefixGrows(g[index], j);
  }

  lemma Marked(ms: seq<Module>, g: Graph<nat>, index: nat, nodes: seq<nat>, before: seq<bool>)
    requires g == DepGraph(ms) && index < |before| == |ms| && Walk(g, nodes, before)
    ensures Visiting(g, index, 0, nodes, nodes, before[index := true], before[index := true])
  {
  }

  lemma EmitsOneMore(ms: seq<Module>, nodes: seq<nat>, order: seq<string>, index: nat, path: string)
    requires Emits(ms, nodes, order) && index < |ms| && path == ms[index].path
    ensures Emits(ms, nodes + [index], order + [path])
  {
  }

  method Visit(db: DepDb, index: nat, order: seq<string>, visited: array<bool>, ghost g: Graph<nat>,
               ghost nodes: seq<nat>) returns (order': seq<string>, ghost nodes': seq<nat>)
    requires SortedByKey(View(db)) && g == DepGraph(View(db)) && visited.Length == |db.modules|
    requires Walk(g, nodes, visited[..]) && ActiveReach(g, nodes, visited[..], index)
    requires Emits(View(db), nodes, order)
    modifies visited
    ensures Walk(g, nodes', visited[..]) && Emits(View(db), nodes', order')
    ensures nodes <= nodes' && Grows(g, index, |nodes|, nodes', old(visited[..]), visited[..])
    ensures index < visited.Length ==> visited[index]
    ensures index < visited.Length && !old(visited[index]) ==> nodes' != nodes && nodes'[|nodes'| - 1] == index
    decreases Unvisited(visited[..])
  {
    order', nodes' := order, nodes;
    if index >= visited.Length || visited[index] {
      return;
    }
    ghost var before := visited[..];
    visited[index] := true;
    ghost var marked := before[index := true];
    assert visited[..] == marked;
    Marked(View(db), g, index, nodes, before);

    var deps := Successors(db, index);
    for j := 0 to |deps|
      invariant Visiting(g, index, j, nodes, nodes', marked, visited[..]) && Emits(View(db), nodes', order')
    {
      ghost var mid, was := nodes', visited[..];
      BeforeDependency(g, index, j, nodes, mid, before, was);
      order', nodes' := Visit(db, deps[j], order', visited, g, nodes');
      AfterDependency(g, index, j, nodes, mid, nodes', marked, was, visited[..]);
    }
    assert g[index][..|deps|] == g[index];
    EmitKeepsWalk(g, index, nodes, nodes', before, visited[..]);
    EntryAt(db, index);
    var path := Text.Slice(db.text, db.modules[index].path);
    EmitsOneMore(View(db), nodes', order', index, path);
    order', nodes' := order' + [path], nodes' + [index];
  }

  /**
   * What a load order is, for any graph: exactly the modules reachable from `start`, each once,
   * `start` last, and every dependency first unless the two depend on each other.
   */
  ghost predicate IsLoadOrder(g: Graph<nat>, start: nat, nodes: seq<nat>) {
    NoDuplicates(nodes) && nodes != [] && nodes[|nodes| - 1] == start &&
    (forall x: nat :: x in nodes <==> Reaches(g, start, x)) && DepsFirst(g, nodes)
  }

  lemma WalkIsLoadOrder(g: Graph<nat>, start: nat, nodes: seq<nat>, visited: seq<bool>)
    requires Walk(g, nodes, visited) && nodes != [] && nodes[|nodes| - 1] == start
    requires forall x: nat :: 0 <= x < |visited| && visited[x] ==> x in nodes
    requires forall x: nat :: x in nodes ==> Reaches(g, start, x)
    ensures IsLoadOrder(g, start, nodes)
  {
    var inside := set x: nat | x in nodes;
    forall x: nat | Reaches(g, start, x) ensures x in nodes {
      var p :| IsPath(g, p) && p[0] == start && p[|p| - 1] == x;
      PathStaysInside(g, inside, p);
    }
  }

  /**
   * A load order in terms of names: exactly the modules that `start` needs, and each after every module
   * that one of its dependency names denotes, unless that one needs it in turn.
   */
  ghost predicate Resolves(ms: seq<Module>, start: nat, nodes: seq<nat>) {
    (forall x: nat :: x in nodes <==> Needs(ms, start, x)) &&
    (forall i, v: nat :: 0 <= i < |nodes| && DependsOn(ms, nodes[i], v) ==>
       v in nodes[..i] || Needs(ms, v, nodes[i]))
  }

  lemma LoadOrderResolves(ms: seq<Module>, start: nat, nodes: seq<nat>)
    requires IsLoadOrder(DepGraph(ms), start, nodes)
    ensures Resolves(ms, start, nodes)
  {
    forall x: nat ensures x in nodes <==> Needs(ms, start, x) { NeedsMeans(ms, start, x); }
    forall i, v: nat | 0 <= i < |nodes| && DependsOn(ms, nodes[i], v)
      ensures v in nodes[..i] || Needs(ms, v, nodes[i])
    {
      EdgeMeans(ms, nodes[i], v);
      NeedsMeans(ms, v, nodes[i]);
      assert Before(DepGraph(ms), nodes, i, v);
    }
  }

  method ResolveLoadOrder(db: DepDb, name: string) returns (order: Option<seq<string>>, ghost nodes: seq<nat>)
    requires SortedByKey(View(db))
    ensures order.None? <==> LastIndexWithKey(View(db), Fold(name)).None?
    ensures order.Some? ==>
              var start := LastIndexWithKey(View(db), Fold(name));
              start.Some? && IsLoadOrder(DepGraph(View(db)), start.value, nodes)
              && Emits(View(db), nodes, order.value) && Resolves(View(db), start.value, nodes)
  {
    var start := Find(db, name);
    nodes := [];
    if start.None? {
      return None, nodes;
    }
    var visited := new bool[|db.modules|](_ => false);
    assert forall x: nat :: 0 <= x < |visited[..]| ==> !visited[..][x];
    var paths;
    paths, nodes := Visit(db, start.value, [], visited, DepGraph(View(db)), []);
    assert nodes[0..] == nodes;
    WalkIsLoadOrder(DepGraph(View(db)), start.value, nodes, visited[..]);
    LoadOrderResolves(View(db), start.value, nodes);
    order := Some(paths);
  }

  /** A load order puts every dependency first exactly if no module it reaches lies on a cycle. */
  lemma DepsFirstExactly(g: Graph<nat>, start: nat, nodes: seq<nat>)
    requires IsLoadOrder(g, start, nodes)
    ensures SuccessorsFirst(g, nodes) <==> forall u: nat :: Reaches(g, start, u) ==> !OnCycle(g, u)
  {
    if SuccessorsFirst(g, nodes) {
      forall u: nat | Reaches(g, start, u) ensures !OnCycle(g, u) {
        OrderedOffCycles(g, nodes, u);
      }
    } else {
      var i, v: nat :| 0 <= i < |nodes| && Edge(g, nodes[i], v) && v !in nodes[..i];
      assert Before(g, nodes, i, v);
      ReturningEdgeIsCycle(g, nodes[i], v);
      assert nodes[i] in nodes;
    }
  }

  lemma OneDependency(ms: seq<Module>, u: nat, name: string, v: nat)
    requires u < |ms| && ms[u].deps == [name] && LastIndexWithKey(ms, Fold(name)) == Some(v)
    ensures Edge(DepGraph(ms), u, v)
  {
    assert Denotes(ms, ms[u].deps[0], v);
    EdgeMeans(ms, u, v);
  }

  /** Two modules that depend on each other have no order with every dependency first. */
  lemma MutualModules(a: Module, b: Module, start: nat, nodes: seq<nat>)
    requires Fold(a.name) != Fold(b.name) && a.deps == [b.name] && b.deps == [a.name] && start < 2
    requires IsLoadOrder(DepGraph([a, b]), start, nodes)
    ensures !SuccessorsFirst(DepGraph([a, b]), nodes)
  {
    var ms, g := [a, b], DepGraph([a, b]);
    OneDependency(ms, 0, b.name, 1);
    OneDependency(ms, 1, a.name, 0);
    assert IsPath(g, [start, 1 - start, start]);
    ReachesSelf(g, start);
    DepsFirstExactly(g, start, nodes);
  }
}
