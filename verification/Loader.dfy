/** The stateful module loader (libs/kmod/src/kernel.rs). */
module Loader {
  import opened Prelude
  import opened Graph
  import opened DepDb
  import opened LoadOrder

  datatype LoadError = NotFound(path: string) | InvalidPath(path: string) | Rejected(code: int)

  /** What the file system and the kernel answer during one call. */
  datatype Env = Env(exists_: string -> bool, init: string -> Option<LoadError>)

  /** The canonical names of some indexed modules. */
  ghost function Keys(ms: seq<Module>, nodes: seq<nat>): set<string> {
    set i | 0 <= i < |nodes| && nodes[i] < |ms| :: KeyAt(ms, nodes[i])
  }

  /** The module that its own name denotes. */
  predicate Canonical(ms: seq<Module>, u: nat) {
    u < |ms| && LastIndexWithKey(ms, KeyAt(ms, u)) == Some(u)
  }

  /**
   * A sound initialisation history: modules as their names denote them, none twice, and every module
   * after each known dependency that does not itself depend on that module.
   */
  ghost predicate SoundHistory(ms: seq<Module>, history: seq<nat>) {
    (forall i :: 0 <= i < |history| ==> Canonical(ms, history[i])) &&
    (forall i, j :: 0 <= i < j < |history| ==> KeyAt(ms, history[i]) != KeyAt(ms, history[j])) &&
    (forall i, v: nat :: 0 <= i < |history| && Edge(DepGraph(ms), history[i], v) ==>
      Reaches(DepGraph(ms), v, history[i]) || KeyAt(ms, v) in Keys(ms, history[..i]))
  }

  /** Every module in the history came after what its dependency names denote, unless that needs it in turn. */
  ghost predicate InOrder(ms: seq<Module>, history: seq<nat>) {
    forall i, v: nat :: 0 <= i < |history| && DependsOn(ms, history[i], v) ==>
      Needs(ms, v, history[i]) || (v < |ms| && KeyAt(ms, v) in Keys(ms, history[..i]))
  }

  lemma SoundIsInOrder(ms: seq<Module>, history: seq<nat>)
    requires SoundHistory(ms, history)
    ensures InOrder(ms, history)
  {
    forall i, v: nat | 0 <= i < |history| && DependsOn(ms, history[i], v)
      ensures Needs(ms, v, history[i]) || (v < |ms| && KeyAt(ms, v) in Keys(ms, history[..i]))
    {
      EdgeMeans(ms, history[i], v);
      NeedsMeans(ms, v, history[i]);
    }
  }

  lemma KeysGrow(ms: seq<Module>, nodes: seq<nat>, u: nat)
    requires u < |ms|
    ensures Keys(ms, nodes + [u]) == Keys(ms, nodes) + {KeyAt(ms, u)}
  {
    var more := nodes + [u];
    forall k | k in Keys(ms, nodes) ensures k in Keys(ms, more) {
      var i :| 0 <= i < |nodes| && nodes[i] < |ms| && KeyAt(ms, nodes[i]) == k;
      assert more[i] == nodes[i];
    }
    assert more[|nodes|] == u;
  }

  /** Initialising a fresh module whose non-mutual dependencies are loaded keeps the history sound. */
  lemma HistoryGrows(ms: seq<Module>, history: seq<nat>, u: nat)
    requires SoundHistory(ms, history) && Canonical(ms, u) && KeyAt(ms, u) !in Keys(ms, history)
    requires forall v: nat :: Edge(DepGraph(ms), u, v) ==>
               Reaches(DepGraph(ms), v, u) || KeyAt(ms, v) in Keys(ms, history)
    ensures SoundHistory(ms, history + [u])
  {
    var more := history + [u];
    forall i, v: nat | 0 <= i < |more| && Edge(DepGraph(ms), more[i], v)
      ensures Reaches(DepGraph(ms), v, more[i]) || KeyAt(ms, v) in Keys(ms, more[..i])
    {
      assert more[..i] == history[..i];
      assert history[..|history|] == history;
    }
    forall i | 0 <= i < |history| ensures KeyAt(ms, history[i]) != KeyAt(ms, u) {
      assert KeyAt(ms, history[i]) in Keys(ms, history);
    }
  }

  ghost predicate LoadedUpTo(ms: seq<Module>, nodes: seq<nat>, n: nat, loaded: set<string>) {
    n <= |nodes| && forall k :: 0 <= k < n ==> nodes[k] < |ms| && KeyAt(ms, nodes[k]) in loaded
  }

  lemma LoadedOneMore(ms: seq<Module>, nodes: seq<nat>, n: nat, before: set<string>, after: set<string>)
    requires LoadedUpTo(ms, nodes, n, before) && before <= after
    requires n < |nodes| && nodes[n] < |ms| && KeyAt(ms, nodes[n]) in after
    ensures LoadedUpTo(ms, nodes, n + 1, after)
  {
  }

  /** Everything reachable from `start` is loaded. */
  ghost predicate AllLoaded(ms: seq<Module>, start: nat, loaded: set<string>) {
    forall u: nat :: Reaches(DepGraph(ms), start, u) ==> u < |ms| && KeyAt(ms, u) in loaded
  }

  /** Everything that `start` needs is loaded. */
  ghost predicate NeedsLoaded(ms: seq<Module>, start: nat, loaded: set<string>) {
    forall u: nat :: Needs(ms, start, u) ==> u < |ms| && KeyAt(ms, u) in loaded
  }

  lemma AllLoadedMeans(ms: seq<Module>, start: nat, loaded: set<string>)
    ensures AllLoaded(ms, start, loaded) <==> NeedsLoaded(ms, start, loaded)
  {
    forall u: nat ensures Needs(ms, start, u) <==> Reaches(DepGraph(ms), start, u) { NeedsMeans(ms, start, u); }
  }

  lemma WholeOrderLoaded(ms: seq<Module>, start: nat, nodes: seq<nat>, loaded: set<string>)
    requires IsLoadOrder(DepGraph(ms), start, nodes) && LoadedUpTo(ms, nodes, |nodes|, loaded)
    ensures AllLoaded(ms, start, loaded)
  {
  }

  lemma FailureNotLoaded(ms: seq<Module>, start: nat, nodes: seq<nat>, i: nat, loaded: set<string>)
    requires IsLoadOrder(DepGraph(ms), start, nodes) && i < |nodes| && nodes[i] < |ms|
    requires KeyAt(ms, nodes[i]) !in loaded
    ensures !AllLoaded(ms, start, loaded)
  {
  }

  lemma {:induction false} KnownIsCanonical(ms: seq<Module>, names: seq<string>, v: nat)
    requires v in Known(ms, names)
    ensures Canonical(ms, v)
  {
    var n := |names| - 1;
    if v in Known(ms, names[..n]) { KnownIsCanonical(ms, names[..n], v); }
  }

  lemma OrderIsCanonical(ms: seq<Module>, start: nat, nodes: seq<nat>, i: nat)
    requires IsLoadOrder(DepGraph(ms), start, nodes) && Canonical(ms, start) && i < |nodes|
    ensures Canonical(ms, nodes[i])
  {
    assert nodes[i] in nodes;
    var p :| IsPath(DepGraph(ms), p) && p[0] == start && p[|p| - 1] == nodes[i];
    if |p| > 1 {
      var u := p[|p| - 2];
      assert Edge(DepGraph(ms), u, p[|p| - 2 + 1]);
      KnownIsCanonical(ms, ms[u].deps, nodes[i]);
    }
  }

  /** One step of the load loop, for the module at position `i` of a load order. */
  lemma LoadStep(ms: seq<Module>, start: nat, nodes: seq<nat>, i: nat, history: seq<nat>)
    requires IsLoadOrder(DepGraph(ms), start, nodes) && i < |nodes| && Canonical(ms, start) && nodes[i] < |ms|
    requires SoundHistory(ms, history) && KeyAt(ms, nodes[i]) !in Keys(ms, history)
    requires LoadedUpTo(ms, nodes, i, Keys(ms, history))
    ensures SoundHistory(ms, history + [nodes[i]])
    ensures Keys(ms, history + [nodes[i]]) == Keys(ms, history) + {KeyAt(ms, nodes[i])}
  {
    var g := DepGraph(ms);
    forall v: nat | Edge(g, nodes[i], v) ensures Reaches(g, v, nodes[i]) || KeyAt(ms, v) in Keys(ms, history) {
      assert Before(g, nodes, i, v);
    }
    OrderIsCanonical(ms, start, nodes, i);
    HistoryGrows(ms, history, nodes[i]);
    KeysGrow(ms, history, nodes[i]);
  }

  lemma OrderedPath(ms: seq<Module>, nodes: seq<nat>, order: seq<string>, i: nat)
    requires NamesMatchPaths(ms) && Emits(ms, nodes, order) && i < |order|
    ensures nodes[i] < |ms| && GetModuleName(order[i]) == Some(KeyAt(ms, nodes[i]))
  {
    assert NameMatchesPath(ms[nodes[i]]);
  }

  /** A module on no cycle was initialised after all its known dependencies. */
  lemma AcyclicHistory(ms: seq<Module>, history: seq<nat>, i: nat, v: nat)
    requires SoundHistory(ms, history) && i < |history| && !OnCycle(DepGraph(ms), history[i])
    requires Edge(DepGraph(ms), history[i], v)
    ensures KeyAt(ms, v) in Keys(ms, history[..i])
  {
    if Reaches(DepGraph(ms), v, history[i]) {
      ReturningEdgeIsCycle(DepGraph(ms), history[i], v);
    }
  }

  ghost predicate InitBefore(ms: seq<Module>, history: seq<nat>, i: nat, v: nat)
    requires i < |history|
  {
    v < |ms| && KeyAt(ms, v) in Keys(ms, history[..i])
  }

  /** Every dependency of every initialised module was initialised before it. */
  ghost predicate DependenciesBefore(ms: seq<Module>, history: seq<nat>) {
    forall i: nat, v: nat :: i < |history| && Edge(DepGraph(ms), history[i], v) ==> InitBefore(ms, history, i, v)
  }

  lemma OffCyclesBefore(ms: seq<Module>, history: seq<nat>)
    requires SoundHistory(ms, history) && forall u: nat :: u in history ==> !OnCycle(DepGraph(ms), u)
    ensures DependenciesBefore(ms, history)
  {
    forall i: nat, v: nat | i < |history| && Edge(DepGraph(ms), history[i], v) ensures InitBefore(ms, history, i, v) {
      AcyclicHistory(ms, history, i, v);
    }
  }

  lemma BeforeIsSuccessorsFirst(ms: seq<Module>, history: seq<nat>)
    requires SoundHistory(ms, history) && DependenciesBefore(ms, history)
    ensures SuccessorsFirst(DepGraph(ms), history)
  {
    forall i, v: nat | 0 <= i < |history| && Edge(DepGraph(ms), history[i], v) ensures v in history[..i] {
      KnownIsCanonical(ms, ms[history[i]].deps, v);
      assert InitBefore(ms, history, i, v);
      var j :| 0 <= j < i && KeyAt(ms, history[..i][j]) == KeyAt(ms, v);
      assert Canonical(ms, history[j]);
    }
  }

  /** A history has all dependencies first exactly if no initialised module lies on a cycle. */
  lemma HistoryExactly(ms: seq<Module>, history: seq<nat>)
    requires SoundHistory(ms, history)
    ensures DependenciesBefore(ms, history) <==> forall u: nat :: u in history ==> !OnCycle(DepGraph(ms), u)
  {
    if DependenciesBefore(ms, history) {
      BeforeIsSuccessorsFirst(ms, history);
      forall u: nat | u in history ensures !OnCycle(DepGraph(ms), u) {
        OrderedOffCycles(DepGraph(ms), history, u);
      }
    } else if forall u: nat :: u in history ==> !OnCycle(DepGraph(ms), u) {
      OffCyclesBefore(ms, history);
    }
  }

  ghost function Total(results: seq<Result<nat, LoadError>>): nat {
    if results == [] then 0
    else
      var n := |results| - 1;
      Total(results[..n]) + if results[n].Ok? then results[n].value else 0
  }

  class ModuleLoader {
    var loaded: set<string>
    ghost var history: seq<nat>

    ghost predicate Valid(ms: seq<Module>)
      reads this
    {
      SoundHistory(ms, history) && loaded == Keys(ms, history)
    }

    constructor ()
      ensures loaded == {} && history == []
      ensures forall ms :: Valid(ms)
    {
      loaded := {};
      history := [];
    }

    /** Loads one file unless its canonical name is loaded; only a success changes anything. */
    method LoadByPathWith(path: string, env: Env, ghost node: nat) returns (r: Result<bool, LoadError>)
      modifies this
      ensures r == match GetModuleName(path)
                   case None => Err(InvalidPath(path))
                   case Some(name) =>
                     if name in old(loaded) then Ok(false)
                     else if !env.exists_(path) then Err(NotFound(path))
                     else match env.init(path)
                          case Some(e) => Err(e)
                          case None => Ok(true)
      ensures r == Ok(true) ==> loaded == old(loaded) + {GetModuleName(path).value} && history == old(history) + [node]
      ensures r != Ok(true) ==> loaded == old(loaded) && history == old(history)
    {
      var name := GetModuleName(path);
      if name.None? {
        return Err(InvalidPath(path));
      }
      if name.value in loaded {
        return Ok(false);
      }
      if !env.exists_(path) {
        return Err(NotFound(path));
      }
      var outcome := env.init(path);
      if outcome.Some? {
        return Err(outcome.value);
      }
      loaded := loaded + {name.value};
      history := history + [node];
      return Ok(true);
    }

    /** Loads the module at position `i` of a load order whose earlier modules are loaded. */
    method LoadNext(path: string, env: Env, ghost ms: seq<Module>, ghost start: nat, ghost nodes: seq<nat>,
                    ghost i: nat) returns (r: Result<bool, LoadError>)
      requires Valid(ms) && IsLoadOrder(DepGraph(ms), start, nodes) && Canonical(ms, start)
      requires i < |nodes| && nodes[i] < |ms| && GetModuleName(path) == Some(KeyAt(ms, nodes[i]))
      requires LoadedUpTo(ms, nodes, i, loaded)
      modifies this
      ensures Valid(ms) && old(loaded) <= loaded && old(history) <= history
      ensures r.Ok? ==> LoadedUpTo(ms, nodes, i + 1, loaded)
      ensures r.Err? ==> KeyAt(ms, nodes[i]) !in loaded
      ensures |loaded| - |old(loaded)| == |history| - |old(history)| == if r == Ok(true) then 1 else 0
    {
      ghost var was, had := history, loaded;
      r := LoadByPathWith(path, env, nodes[i]);
      if r.Ok? {
        if r.value { LoadStep(ms, start, nodes, i, was); }
        LoadedOneMore(ms, nodes, i, had, loaded);
      }
    }

    /**
     * Loads a module after its dependencies. Whatever the outcome the history stays sound; a
     * success returns exactly how many modules were newly initialised, and a call succeeds
     * exactly when it leaves everything the module needs loaded.
     */
    method LoadModuleWith(name: string, db: DepDb, env: Env) returns (r: Result<nat, LoadError>)
      requires SortedByKey(View(db)) && NamesMatchPaths(View(db)) && Valid(View(db))
      modifies this
      ensures Valid(View(db)) && old(loaded) <= loaded && old(history) <= history
      ensures r.Ok? ==> r.value == |loaded| - |old(loaded)| == |history| - |old(history)|
      ensures LastIndexWithKey(View(db), Fold(name)).None? ==> r == Err(NotFound(name)) && loaded == old(loaded)
      ensures LastIndexWithKey(View(db), Fold(name)).Some? ==>
                (r.Ok? <==> NeedsLoaded(View(db), LastIndexWithKey(View(db), Fold(name)).value, loaded))
      ensures InOrder(View(db), history)
    {
      ghost var ms := View(db);
      var order, nodes := ResolveLoadOrder(db, name);
      SoundIsInOrder(ms, history);
      if order.None? {
        return Err(NotFound(name));
      }
      ghost var start := LastIndexWithKey(ms, Fold(name)).value;
      var count := 0;
      for i := 0 to |order.value|
        invariant Valid(ms) && old(loaded) <= loaded && old(history) <= history
        invariant count == |loaded| - |old(loaded)| == |history| - |old(history)|
        invariant LoadedUpTo(ms, nodes, i, loaded)
      {
        OrderedPath(ms, nodes, order.value, i);
        var one := LoadNext(order.value[i], env, ms, start, nodes, i);
        if one.Err? {
          FailureNotLoaded(ms, start, nodes, i, loaded);
          AllLoadedMeans(ms, start, loaded);
          SoundIsInOrder(ms, history);
          return Err(one.error);
        }
        count := count + if one.value then 1 else 0;
      }
      WholeOrderLoaded(ms, start, nodes, loaded);
      AllLoadedMeans(ms, start, loaded);
      SoundIsInOrder(ms, history);
      return Ok(count);
    }

    /** Any run of load requests, failed ones included, leaves a sound history. */
    method LoadAll(db: DepDb, requests: seq<(string, Env)>) returns (results: seq<Result<nat, LoadError>>)
      requires SortedByKey(View(db)) && NamesMatchPaths(View(db)) && Valid(View(db))
      modifies this
      ensures Valid(View(db)) && InOrder(View(db), history) && old(history) <= history
      ensures |results| == |requests|
      ensures (forall i :: 0 <= i < |results| ==> results[i].Ok?) ==>
                |loaded| - |old(loaded)| == Total(results)
    {
      results := [];
      for i := 0 to |requests|
        invariant Valid(View(db)) && old(history) <= history && |results| == i
        invariant (forall k :: 0 <= k < i ==> results[k].Ok?) ==> |loaded| - |old(loaded)| == Total(results)
      {
        var r := LoadModuleWith(requests[i].0, db, requests[i].1);
        assert (results + [r])[..i] == results;
        assert (results + [r])[i] == r;
        results := results + [r];
      }
      SoundIsInOrder(View(db), history);
    }
  }
}
