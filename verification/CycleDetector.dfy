// detectCircularDependencies (planner/execution-plan.ts): a depth-first walk that
// never stops early and reports every back edge as a cycle. The report joins the
// ids of a cycle with " -> "; here it stays a list of ids.
module CycleDetector {
  import opened Seqs
  import opened JsMaps
  import opened Graphs
  import opened PlanGraph

  // `finished` lists the ids whose visit has ended. Until a cycle is reported it is
  // a topological order.
  ghost predicate Walking(r: Relation, cycles: seq<seq<Id>>, visited: set<Id>, recursionStack: set<Id>,
                          path: seq<Id>, finished: seq<Id>) {
    && Walk(r, path)
    && recursionStack == ToSet(path)
    && ToSet(finished) !! ToSet(path)
    && visited == ToSet(finished) + ToSet(path)
    && (forall c :: c in cycles ==> Cycle(r, c))
    && (cycles == [] ==> Topological(r, finished))
  }

  class Detector {
    var cycles: seq<seq<Id>>
    var visited: set<Id>
    var recursionStack: set<Id>
    var path: seq<Id>
    ghost var finished: seq<Id>

    constructor ()
      ensures cycles == [] && visited == {} && recursionStack == {} && path == [] && finished == []
    {
      cycles, visited, recursionStack, path, finished := [], {}, {}, [], [];
    }

    method Dfs(g: Graph, stepId: Id) returns (found: bool)
      requires g.nodes.Valid()
      requires Walking(DependsOn(g), cycles, visited, recursionStack, path, finished)
      requires path != [] ==> stepId in Deps(DependsOn(g), path[|path| - 1])
      modifies this
      ensures Walking(DependsOn(g), cycles, visited, recursionStack, path, finished)
      ensures path == old(path) && recursionStack == old(recursionStack)
      ensures visited >= old(visited) + {stepId}
      ensures cycles == [] ==> old(cycles) == [] && stepId in ToSet(finished)
      ensures ToSet(finished) >= old(ToSet(finished))
      ensures found <==> stepId in old(recursionStack)
      decreases g.nodes.at.Keys - recursionStack, stepId in g.nodes.at
    {
      hide Walking, ToSet, JsMap.Valid;
      ghost var r := DependsOn(g);
      if stepId in recursionStack {
        Unfolded(r, cycles, visited, recursionStack, path, finished);
        Member(path, stepId);
        var cycleStart := IndexOf(path, stepId);
        var cycle := path[cycleStart..] + [stepId];
        Report(r, cycles, visited, recursionStack, path, finished, stepId, cycleStart);
        cycles := cycles + [cycle];
        return true;
      }
      Unfolded(r, cycles, visited, recursionStack, path, finished);
      if stepId in visited {
        return false;
      }
      Enter(r, cycles, visited, recursionStack, path, finished, stepId);
      visited := visited + {stepId};
      recursionStack := recursionStack + {stepId};
      path := path + [stepId];
      ghost var entered := path;
      Unfolded(r, cycles, visited, recursionStack, path, finished);
      if g.nodes.Has(stepId) {
        var dependencies := g.nodes.at[stepId].dependencies;
        TakeEnds(dependencies);
        for i := 0 to |dependencies|
          invariant Walking(r, cycles, visited, recursionStack, path, finished)
          invariant path == entered && recursionStack == ToSet(entered) && visited >= old(visited) + {stepId}
          invariant ToSet(finished) >= old(ToSet(finished))
          invariant cycles == [] ==> old(cycles) == [] && ToSet(dependencies[..i]) <= ToSet(finished)
        {
          TakeOne(dependencies, i);
          var _ := Dfs(g, dependencies[i]);
        }
      }
      TakeEnds(Deps(r, stepId));
      Finish(r, cycles, visited, recursionStack, path, finished);
      path := path[..|path| - 1];
      recursionStack := recursionStack - {stepId};
      finished := finished + [stepId];
      assert path == old(path);
      return false;
    }
  }

  lemma Unfolded(r: Relation, cycles: seq<seq<Id>>, visited: set<Id>, recursionStack: set<Id>,
                 path: seq<Id>, finished: seq<Id>)
    requires Walking(r, cycles, visited, recursionStack, path, finished)
    ensures Walk(r, path) && recursionStack == ToSet(path) && visited == ToSet(finished) + ToSet(path)
  {
  }

  lemma Report(r: Relation, cycles: seq<seq<Id>>, visited: set<Id>, recursionStack: set<Id>,
               path: seq<Id>, finished: seq<Id>, id: Id, start: nat)
    requires Walking(r, cycles, visited, recursionStack, path, finished)
    requires start < |path| && path[start] == id && id in Deps(r, path[|path| - 1])
    ensures Walking(r, cycles + [path[start..] + [id]], visited, recursionStack, path, finished)
  {
    hide Distinct, Ordered, Walk, Cycle;
    WalkCloses(r, path, start, id);
  }

  lemma Enter(r: Relation, cycles: seq<seq<Id>>, visited: set<Id>, recursionStack: set<Id>,
              path: seq<Id>, finished: seq<Id>, id: Id)
    requires Walking(r, cycles, visited, recursionStack, path, finished) && id !in visited
    requires path != [] ==> id in Deps(r, path[|path| - 1])
    ensures Walking(r, cycles, visited + {id}, recursionStack + {id}, path + [id], finished)
  {
    hide Distinct, Ordered, Walk, Cycle;
    WalkAppend(r, path, id);
    AppendToSet(path, id);
  }

  lemma Finish(r: Relation, cycles: seq<seq<Id>>, visited: set<Id>, recursionStack: set<Id>,
               path: seq<Id>, finished: seq<Id>)
    requires Walking(r, cycles, visited, recursionStack, path, finished) && path != []
    requires path[|path| - 1] !in ToSet(path[..|path| - 1])
    requires cycles == [] ==> ToSet(Deps(r, path[|path| - 1])) <= ToSet(finished)
    ensures var id := path[|path| - 1];
      Walking(r, cycles, visited, recursionStack - {id}, path[..|path| - 1], finished + [id])
    ensures ToSet(finished + [path[|path| - 1]]) == ToSet(finished) + {path[|path| - 1]}
  {
    hide Ordered, Cycle;
    var id := path[|path| - 1];
    TakeOne(path, |path| - 1);
    assert path[..|path|] == path;
    if cycles == [] {
      OrderedAppend(r, finished, id);
    }
  }

  method DetectCircularDependencies(g: Graph) returns (cycles: seq<seq<Id>>)
    requires g.nodes.Valid()
    ensures cycles != [] <==> HasCycle(DependsOn(g))
    ensures forall c :: c in cycles ==> Cycle(DependsOn(g), c)
  {
    hide Distinct, Ordered, Walk, JsMap.Valid;
    var d := new Detector();
    TopologicalEmpty(DependsOn(g));
    assert Walk(DependsOn(g), []) by { EmptyWalk(DependsOn(g)); }
    for i := 0 to |g.nodes.keys|
      invariant Walking(DependsOn(g), d.cycles, d.visited, d.recursionStack, d.path, d.finished) && d.path == []
      invariant d.cycles == [] ==> ToSet(g.nodes.keys[..i]) <= ToSet(d.finished)
    {
      KeyAt(g.nodes, i);
      if g.nodes.keys[i] !in d.visited {
        var _ := d.Dfs(g, g.nodes.keys[i]);
      }
    }
    AllKeys(g.nodes);
    if d.cycles == [] {
      OrderedIsKnownOrdered(DependsOn(g), d.finished);
      TopologicalIsAcyclic(DependsOn(g), d.finished);
    } else {
      assert Cycle(DependsOn(g), d.cycles[0]);
    }
    return d.cycles;
  }
}
