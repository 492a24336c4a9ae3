/** Service dependency cycles (init/granola/src/loader.rs). */
module Cycles {
  import opened Prelude
  import opened Graph
  import Order
  import Vars

  datatype Service = Service(name: string, command: string, dependsOn: seq<string>)

  /** The error message's parts: the active stack, then the repeated name. */
  datatype CycleError = CycleError(stack: seq<string>, name: string)

  function DependsOn(index: map<string, Service>): Graph<string> {
    map name | name in index :: index[name].dependsOn
  }

  ghost function Elements(s: seq<string>): (r: set<string>)
    ensures forall x :: x in r <==> x in s
  {
    set x | x in s
  }

  /** The finished services in completion order: each follows everything it depends on. */
  ghost predicate Finished(g: Graph<string>, done: seq<string>, visited: set<string>) {
    visited == Elements(done) && NoDuplicates(done) && SuccessorsFirst(g, done)
  }

  /** The active services form a dependency path that leads to `name`. */
  ghost predicate Active(g: Graph<string>, stack: seq<string>, name: string, visited: set<string>) {
    NoDuplicates(stack) && IsPath(g, stack + [name]) && Elements(stack) !! visited
  }

  /** The report is a real dependency path that comes back to a service already on it. */
  ghost predicate RealCycle(g: Graph<string>, e: CycleError) {
    IsPath(g, e.stack + [e.name]) && e.name in e.stack
  }

  lemma FinishOne(g: Graph<string>, done: seq<string>, visited: set<string>, name: string)
    requires Finished(g, done, visited) && name !in visited
    requires forall v :: Edge(g, name, v) ==> v in visited
    ensures Finished(g, done + [name], visited + {name})
  {
    var next := done + [name];
    forall i, v | 0 <= i < |next| && Edge(g, next[i], v) ensures v in next[..i] {
      assert next[..i] == done[..i];
    }
  }

  /** One recursive step; the stack comes back as it was unless a cycle is reported. */
  method DfsCycle(name: string, index: map<string, Service>, visited: set<string>, stack: seq<string>,
                  ghost done: seq<string>)
    returns (r: Result<(), CycleError>, visited': set<string>, stack': seq<string>, ghost done': seq<string>)
    requires Finished(DependsOn(index), done, visited)
    requires Active(DependsOn(index), stack, name, visited)
    ensures r.Err? ==> RealCycle(DependsOn(index), r.error) && stack' == r.error.stack
    ensures r.Ok? ==> Finished(DependsOn(index), done', visited') && stack' == stack
    ensures r.Ok? ==> visited <= visited' && name in visited' && Elements(stack) !! visited'
    decreases index.Keys - Elements(stack)
  {
    ghost var g := DependsOn(index);
    visited', stack', done' := visited, stack, done;
    if name in stack {
      return Err(CycleError(stack, name)), visited', stack', done';
    }
    if name in visited {
      return Ok(()), visited', stack', done';
    }
    stack' := stack' + [name];
    ghost var pushed := stack';
    assert Elements(pushed) == Elements(stack) + {name};
    if name in index {
      var deps := index[name].dependsOn;
      for i := 0 to |deps|
        invariant Finished(g, done', visited') && stack' == pushed
        invariant Elements(pushed) !! visited' && visited <= visited'
        invariant forall j :: 0 <= j < i ==> deps[j] in visited'
      {
        assert Edge(g, name, deps[i]);
        r, visited', stack', done' := DfsCycle(deps[i], index, visited', stack', done');
        if r.Err? {
          return;
        }
      }
    }
    stack' := stack'[..|stack'| - 1];
    FinishOne(g, done', visited', name);
    r, visited', done' := Ok(()), visited' + {name}, done' + [name];
  }

  /** Rejects exactly the cyclic graphs, and the rejection names a real cycle. */
  method DetectCycles(index: map<string, Service>) returns (r: Result<(), CycleError>)
    ensures r.Err? <==> Cyclic(DependsOn(index))
    ensures r.Err? ==> RealCycle(DependsOn(index), r.error)
  {
    ghost var g := DependsOn(index);
    var visited: set<string> := {};
    var stack: seq<string> := [];
    ghost var done: seq<string> := [];
    var names := Order.SortedKeys(index.Keys);
    for i := 0 to |names|
      invariant Finished(g, done, visited) && stack == []
      invariant forall j :: 0 <= j < i ==> names[j] in visited
    {
      if names[i] !in visited {
        r, visited, stack, done := DfsCycle(names[i], index, visited, stack, done);
        if r.Err? {
          RevisitIsCycle(g, r.error.stack + [r.error.name]);
          return;
        }
      }
    }
    forall u | u in g ensures u in done {
      assert u in multiset(names);
    }
    OrderedIsAcyclic(g, done);
    return Ok(());
  }

  /** The index of the first `n` definitions: a later definition replaces an earlier one of the same name. */
  function IndexOf(defs: seq<Service>, n: nat): map<string, Service>
    requires n <= |defs|
  {
    if n == 0 then map[] else IndexOf(defs, n - 1)[defs[n - 1].name := defs[n - 1]]
  }

  /** The dependency graph of the last definitions. */
  function Dependencies(defs: seq<Service>): Graph<string> {
    DependsOn(IndexOf(defs, |defs|))
  }

  /** A name stands for its last definition. */
  lemma {:induction false} LastDefinitionWins(defs: seq<Service>, n: nat, k: nat)
    requires k < n <= |defs| && forall j :: k < j < n ==> defs[j].name != defs[k].name
    ensures defs[k].name in IndexOf(defs, n) && IndexOf(defs, n)[defs[k].name] == defs[k]
  {
    if k < n - 1 { LastDefinitionWins(defs, n - 1, k); }
  }

  /** The last definition of `u` lists `v`. */
  ghost predicate Lists(defs: seq<Service>, u: string, v: string) {
    exists k :: 0 <= k < |defs| && defs[k].name == u && v in defs[k].dependsOn
                && forall j :: k < j < |defs| ==> defs[j].name != u
  }

  lemma {:induction false} LastDefinition(defs: seq<Service>, n: nat, u: string) returns (k: nat)
    requires n <= |defs| && u in IndexOf(defs, n)
    ensures k < n && defs[k].name == u && forall j :: k < j < n ==> defs[j].name != u
  {
    if defs[n - 1].name == u { k := n - 1; } else { k := LastDefinition(defs, n - 1, u); }
  }

  /** The graph has an edge exactly where a last definition lists a dependency. */
  lemma EdgeMeans(defs: seq<Service>, u: string, v: string)
    ensures Edge(Dependencies(defs), u, v) <==> Lists(defs, u, v)
  {
    var n := |defs|;
    if Edge(Dependencies(defs), u, v) {
      var k := LastDefinition(defs, n, u);
      LastDefinitionWins(defs, n, k);
    }
    if Lists(defs, u, v) {
      var k :| 0 <= k < n && defs[k].name == u && v in defs[k].dependsOn && forall j :: k < j < n ==> defs[j].name != u;
      LastDefinitionWins(defs, n, k);
    }
  }

  /** Each service of the chain lists the next. */
  ghost predicate Chain(defs: seq<Service>, p: seq<string>) {
    |p| > 0 && forall i :: 0 <= i < |p| - 1 ==> Lists(defs, p[i], p[i + 1])
  }

  /** Some chain of services comes back to its start. */
  ghost predicate Circular(defs: seq<Service>) {
    exists p :: Chain(defs, p) && |p| > 1 && p[0] == p[|p| - 1]
  }

  lemma ChainIsPath(defs: seq<Service>, p: seq<string>)
    ensures Chain(defs, p) <==> IsPath(Dependencies(defs), p)
  {
    forall i | 0 <= i < |p| - 1 ensures Lists(defs, p[i], p[i + 1]) <==> Edge(Dependencies(defs), p[i], p[i + 1]) {
      EdgeMeans(defs, p[i], p[i + 1]);
    }
  }

  lemma CircularMeans(defs: seq<Service>)
    ensures Circular(defs) <==> Cyclic(Dependencies(defs))
  {
    forall p ensures Chain(defs, p) <==> IsPath(Dependencies(defs), p) { ChainIsPath(defs, p); }
  }

  /** The same service but for the known references of its command, which are replaced. */
  ghost predicate Substituted(svc: Service, out: Service, env: map<string, string>) {
    out.name == svc.name && out.dependsOn == svc.dependsOn
    && out.command == Vars.Render(Vars.Pieces(svc.command), env)
  }

  ghost predicate AllSubstituted(defs: seq<Service>, out: seq<Service>, env: map<string, string>) {
    |out| == |defs| && forall k :: 0 <= k < |defs| ==> Substituted(defs[k], out[k], env)
  }

  method SubstituteService(svc: Service, env: map<string, string>) returns (r: Service)
    ensures Substituted(svc, r, env)
  {
    var command := Vars.SubstituteVars(svc.command, env);
    return svc.(command := command);
  }

  method SubstituteAll(defs: seq<Service>, env: map<string, string>) returns (out: seq<Service>)
    ensures AllSubstituted(defs, out, env)
  {
    out := [];
    for k := 0 to |defs|
      invariant |out| == k
      invariant forall j :: 0 <= j < k ==> Substituted(defs[j], out[j], env)
    {
      var svc := SubstituteService(defs[k], env);
      out := out + [svc];
    }
  }

  /** Checks the graph of the last definitions, then substitutes in every command and nothing else. */
  method Prepare(defs: seq<Service>, env: map<string, string>) returns (r: Result<seq<Service>, CycleError>)
    ensures r.Err? <==> Circular(defs)
    ensures r.Err? ==> Chain(defs, r.error.stack + [r.error.name]) && r.error.name in r.error.stack
    ensures r.Ok? ==> AllSubstituted(defs, r.value, env)
  {
    var index: map<string, Service> := map[];
    for n := 0 to |defs|
      invariant index == IndexOf(defs, n)
    {
      index := index[defs[n].name := defs[n]];
    }
    var checked := DetectCycles(index);
    CircularMeans(defs);
    if checked.Err? {
      ChainIsPath(defs, checked.error.stack + [checked.error.name]);
      return Err(checked.error);
    }
    var out := SubstituteAll(defs, env);
    return Ok(out);
  }
}
