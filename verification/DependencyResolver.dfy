// planner/dependency-resolver.ts: a depth-first resolver that reports cycles and
// unknown requirements instead of throwing, and always produces an order.
module DependencyResolver {
  import opened Seqs
  import opened JsMaps
  import opened Graphs

  datatype Dependency = Dependency(requirements: seq<Id>, provisions: seq<string>)

  type Table = JsMap<Id, Dependency>

  // new Set(list): the first occurrence of each value, in order.
  function Unique(s: seq<string>): (r: seq<string>)
    ensures Distinct(r) && ToSet(r) == ToSet(s)
  {
    if s == [] then []
    else
      var n := |s| - 1;
      var rest := Unique(s[..n]);
      TakeOne(s, n);
      assert s[..n + 1] == s;
      if s[n] in rest then rest else
        DistinctAppend(rest, s[n]);
        rest + [s[n]]
  }

  function Requires(t: Table): Relation {
    map n | n in t.at :: t.at[n].requirements
  }

  // What n requires without anyone of that name being listed.
  ghost function Missing(r: Relation, n: Id): set<Id> {
    ToSet(Deps(r, n)) - r.Keys
  }

  ghost function AllMissing(r: Relation): set<Id> {
    set n, d | n in r && d in Missing(r, n) :: d
  }

  datatype ResolutionResult = ResolutionResult(ordered: seq<Id>, cycles: seq<seq<Id>>, unresolved: seq<Id>)

  ghost predicate Resolving(r: Relation, res: ResolutionResult, visited: set<Id>, visiting: set<Id>, path: seq<Id>) {
    && Walk(r, path)
    && visiting == ToSet(path)
    && visiting + visited <= r.Keys
    && visited !! visiting
    && Distinct(res.ordered) && visited == ToSet(res.ordered)
    && (forall c :: c in res.cycles ==> Cycle(r, c))
    && (res.cycles == [] ==> KnownOrdered(r, res.ordered))
    && Distinct(res.unresolved) && ToSet(res.unresolved) <= AllMissing(r)
    && (forall n :: n in visited ==> Missing(r, n) <= ToSet(res.unresolved))
  }

  lemma Enter(r: Relation, res: ResolutionResult, visited: set<Id>, visiting: set<Id>, path: seq<Id>, id: Id)
    requires Resolving(r, res, visited, visiting, path) && id in r && id !in visited + visiting
    requires path != [] ==> id in Deps(r, path[|path| - 1])
    ensures Resolving(r, res, visited, visiting + {id}, path + [id])
  {
    hide Distinct, KnownOrdered, Walk, Cycle, AllMissing, Missing;
    WalkAppend(r, path, id);
  }

  lemma ReportMissing(r: Relation, res: ResolutionResult, visited: set<Id>, visiting: set<Id>, path: seq<Id>,
                      n: Id, d: Id)
    requires Resolving(r, res, visited, visiting, path)
    requires n in r && d in r[n] && d !in r && d !in res.unresolved
    ensures Resolving(r, res.(unresolved := res.unresolved + [d]), visited, visiting, path)
    ensures ToSet(res.unresolved + [d]) == ToSet(res.unresolved) + {d}
  {
    hide Distinct, KnownOrdered, Walk, Cycle;
    assert d in Missing(r, n);
    assert d in AllMissing(r);
    DistinctAppend(res.unresolved, d);
  }

  lemma ReportCycle(r: Relation, res: ResolutionResult, visited: set<Id>, visiting: set<Id>, path: seq<Id>,
                    id: Id, start: nat)
    requires Resolving(r, res, visited, visiting, path)
    requires start < |path| && path[start] == id && id in Deps(r, path[|path| - 1])
    ensures Resolving(r, res.(cycles := res.cycles + [path[start..] + [id]]), visited, visiting, path)
  {
    hide Distinct, KnownOrdered, Walk, Cycle, AllMissing, Missing;
    WalkCloses(r, path, start, id);
  }

  lemma Leave(r: Relation, res: ResolutionResult, visited: set<Id>, visiting: set<Id>, path: seq<Id>, id: Id)
    requires Resolving(r, res, visited, visiting + {id}, path + [id]) && id !in visiting
    requires Walk(r, path) && ToSet(path) == visiting
    requires Missing(r, id) <= ToSet(res.unresolved)
    requires res.cycles == [] ==> ToSet(Deps(r, id)) * r.Keys <= visited
    ensures Resolving(r, res.(ordered := res.ordered + [id]), visited + {id}, visiting, path)
  {
    hide Distinct, KnownOrdered, Walk, Cycle, AllMissing, Missing;
    if res.cycles == [] {
      KnownOrderedAppend(r, res.ordered, id);
    }
    DistinctAppend(res.ordered, id);
  }

  class Resolver {
    var ordered: seq<Id>
    var cycles: seq<seq<Id>>
    var unresolved: seq<Id>
    var visited: set<Id>
    var visiting: set<Id>

    constructor ()
      ensures ordered == [] && cycles == [] && unresolved == [] && visited == {} && visiting == {}
    {
      ordered, cycles, unresolved, visited, visiting := [], [], [], {}, {};
    }

    function Result(): ResolutionResult
      reads this
    {
      ResolutionResult(ordered, cycles, unresolved)
    }

    // `path` is the caller's private copy; it never includes `id` on entry unless
    // `id` is being visited.
    method Visit(t: Table, id: Id, path: seq<Id>)
      requires t.Valid() && t.Has(id)
      requires Resolving(Requires(t), Result(), visited, visiting, path)
      requires path != [] ==> id in Deps(Requires(t), path[|path| - 1])
      modifies this
      ensures Resolving(Requires(t), Result(), visited, visiting, path)
      ensures visiting == old(visiting) && visited >= old(visited)
      ensures id in visited + visiting
      ensures cycles == [] ==> old(cycles) == [] && id in visited
      ensures ToSet(unresolved) >= old(ToSet(unresolved))
      decreases t.at.Keys - visiting
    {
      hide Resolving, JsMap.Valid;
      ResolvingSets(Requires(t), Result(), visited, visiting, path);
      ghost var r := Requires(t);
      if id in visited {
        return;
      }
      if id in visiting {
        var cycleStart := IndexOf(path, id);
        ReportCycle(r, Result(), visited, visiting, path, id, cycleStart);
        cycles := cycles + [path[cycleStart..] + [id]];
        return;
      }
      visiting := visiting + {id};
      Enter(r, Result(), visited, old(visiting), path, id);
      var path' := path + [id];
      ghost var entered := visiting;
      var reqs := t.at[id].requirements;
      for i := 0 to |reqs|
        invariant Resolving(r, Result(), visited, visiting, path')
        invariant visiting == entered && visited >= old(visited)
        invariant ToSet(unresolved) >= old(ToSet(unresolved)) + (ToSet(reqs[..i]) - r.Keys)
        invariant cycles == [] ==> old(cycles) == [] && ToSet(reqs[..i]) * r.Keys <= visited
      {
        TakeOne(reqs, i);
        var reqId := reqs[i];
        if !t.Has(reqId) {
          if reqId !in unresolved {
            ReportMissing(r, Result(), visited, visiting, path', id, reqId);
            unresolved := unresolved + [reqId];
          }
        } else {
          Visit(t, reqId, path');
        }
      }
      assert reqs[..|reqs|] == reqs;
      Leave(r, Result(), visited, old(visiting), path, id);
      visiting := visiting - {id};
      visited := visited + {id};
      ordered := ordered + [id];
    }
  }

  lemma ResolvingSets(r: Relation, res: ResolutionResult, visited: set<Id>, visiting: set<Id>, path: seq<Id>)
    requires Resolving(r, res, visited, visiting, path)
    ensures Walk(r, path) && visiting == ToSet(path)
  {
    hide Distinct, KnownOrdered, Walk, Cycle, AllMissing, Missing;
  }

  class DependencyResolver {
    var dependencies: Table
    var variableProviders: map<string, Id>

    constructor ()
      ensures dependencies == JsMaps.Empty() && variableProviders == map[]
    {
      dependencies, variableProviders := JsMaps.Empty(), map[];
    }

    method AddDependency(id: Id, reqs: seq<Id>, provided: seq<string>)
      requires dependencies.Valid()
      modifies this
      ensures dependencies.Valid()
      ensures dependencies.at == old(dependencies).at[id := Dependency(Unique(reqs), Unique(provided))]
      ensures forall v :: v in provided ==> v in variableProviders && variableProviders[v] == id
      ensures forall v :: v !in provided ==>
        (v in variableProviders <==> v in old(variableProviders)) &&
        (v in variableProviders ==> variableProviders[v] == old(variableProviders)[v])
    {
      dependencies := dependencies.Put(id, Dependency(Unique(reqs), Unique(provided)));
      for i := 0 to |provided|
        invariant dependencies == old(dependencies).Put(id, Dependency(Unique(reqs), Unique(provided)))
        invariant forall v :: v in provided[..i] ==> v in variableProviders && variableProviders[v] == id
        invariant forall v :: v !in provided[..i] ==>
          (v in variableProviders <==> v in old(variableProviders)) &&
          (v in variableProviders ==> variableProviders[v] == old(variableProviders)[v])
      {
        TakeOne(provided, i);
        variableProviders := variableProviders[provided[i] := id];
      }
      assert provided[..|provided|] == provided;
    }

    // The order is always a permutation of the listed ids; it is a dependency order
    // exactly as far as the reports allow.
    method Resolve() returns (res: ResolutionResult)
      requires dependencies.Valid()
      ensures multiset(res.ordered) == multiset(dependencies.keys)
      ensures res.cycles != [] <==> HasCycle(Requires(dependencies))
      ensures forall c :: c in res.cycles ==> Cycle(Requires(dependencies), c)
      ensures Distinct(res.unresolved) && ToSet(res.unresolved) == AllMissing(Requires(dependencies))
      ensures res.cycles == [] ==> KnownOrdered(Requires(dependencies), res.ordered)
      ensures res.cycles == [] && res.unresolved == [] ==> Topological(Requires(dependencies), res.ordered)
    {
      hide Distinct, Walk;
      var t := dependencies;
      ghost var r := Requires(t);
      var v := new Resolver();
      EmptyResolving(r);
      for i := 0 to |t.keys|
        invariant Resolving(r, v.Result(), v.visited, v.visiting, []) && v.visiting == {}
        invariant v.visited >= ToSet(t.keys[..i])
      {
        KeyAt(t, i);
        if t.keys[i] !in v.visited {
          v.Visit(t, t.keys[i], []);
        }
      }
      AllKeys(t);
      res := v.Result();
      Resolved(t, res, v.visited);
    }
  }

  lemma EmptyResolving(r: Relation)
    ensures Resolving(r, ResolutionResult([], [], []), {}, {}, [])
  {
  }

  lemma Resolved(t: Table, res: ResolutionResult, visited: set<Id>)
    requires t.Valid() && Resolving(Requires(t), res, visited, {}, []) && visited == t.at.Keys
    ensures multiset(res.ordered) == multiset(t.keys)
    ensures res.cycles != [] <==> HasCycle(Requires(t))
    ensures ToSet(res.unresolved) == AllMissing(Requires(t))
    ensures res.cycles == [] && res.unresolved == [] ==> Topological(Requires(t), res.ordered)
  {
    hide Distinct, Walk;
    var r := Requires(t);
    DistinctPermutation(res.ordered, t.keys);
    if res.cycles == [] {
      TopologicalIsAcyclic(r, res.ordered);
      if res.unresolved == [] {
        forall n | n in r
          ensures ToSet(r[n]) <= r.Keys
        {
          assert Missing(r, n) == {};
        }
        NothingMissing(r, res.ordered);
      }
    } else {
      assert Cycle(r, res.cycles[0]);
    }
  }

  lemma NothingMissing(r: Relation, order: seq<Id>)
    requires KnownOrdered(r, order) && ToSet(order) == r.Keys
    requires forall n :: n in r ==> ToSet(r[n]) <= r.Keys
    ensures Ordered(r, order)
  {
    forall i, d | 0 <= i < |order| && d in Deps(r, order[i])
      ensures d in order[..i]
    {
      assert order[i] in ToSet(order);
      assert d in ToSet(r[order[i]]);
    }
  }
}
