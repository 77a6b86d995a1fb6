// The depth-first sort of planner/dependency-graph.ts, which throws when it
// meets a step that is still being visited.
module DepthFirstSort {
  import opened Seqs
  import opened JsMaps
  import opened Graphs
  import opened PlanGraph

  ghost predicate Sorted(r: Relation, sorted: seq<Id>, visited: set<Id>, visiting: set<Id>) {
    && Topological(r, sorted)
    && visited == ToSet(sorted)
    && visited <= Mentioned(r)
    && visited !! visiting
  }

  class Sorter {
    var sorted: seq<Id>
    var visited: set<Id>
    var visiting: set<Id>

    constructor ()
      ensures sorted == [] && visited == {} && visiting == {}
    {
      sorted, visited, visiting := [], {}, {};
    }

    // Returns false where the source throws.
    method Visit(g: Graph, nodeId: Id, ghost stack: seq<Id>) returns (ok: bool)
      requires g.nodes.Valid()
      requires Sorted(DependsOn(g), sorted, visited, visiting)
      requires OnStack(DependsOn(g), stack, visiting, nodeId) && nodeId in Mentioned(DependsOn(g))
      modifies this
      ensures !ok ==> HasCycle(DependsOn(g))
      ensures ok ==> Sorted(DependsOn(g), sorted, visited, visiting)
      ensures ok ==> visiting == old(visiting) && visited >= old(visited) + {nodeId}
      decreases g.nodes.at.Keys - visiting, nodeId in g.nodes.at
    {
      hide Distinct, Ordered, Walk, Cycle;
      ghost var r := DependsOn(g);
      if nodeId in visited {
        return true;
      }
      if nodeId in visiting {
        BackEdge(r, stack, visiting, nodeId);
        return false;
      }
      visiting := visiting + {nodeId};
      ghost var entered := visiting;
      if g.nodes.Has(nodeId) {
        var dependencies := g.nodes.at[nodeId].dependencies;
        for i := 0 to |dependencies|
          invariant Sorted(r, sorted, visited, visiting)
          invariant visiting == entered && visited >= old(visited) + ToSet(dependencies[..i])
        {
          Descend(r, stack, old(visiting), nodeId, dependencies[i]);
          var done := Visit(g, dependencies[i], stack + [nodeId]);
          if !done {
            return false;
          }
          TakeOne(dependencies, i);
        }
        assert dependencies[..|dependencies|] == dependencies;
      }
      OrderedAppend(r, sorted, nodeId);
      DistinctAppend(sorted, nodeId);
      visiting := visiting - {nodeId};
      visited := visited + {nodeId};
      sorted := sorted + [nodeId];
      return true;
    }
  }

  lemma DependenciesListed(r: Relation, order: seq<Id>)
    requires Topological(r, order) && r.Keys <= ToSet(order) <= Mentioned(r)
    ensures ToSet(order) == Mentioned(r)
  {
    forall n, d | n in r && d in r[n]
      ensures d in order
    {
      assert n in ToSet(order);
      var i :| 0 <= i < |order| && order[i] == n;
      assert d in Deps(r, order[i]);
      assert d in order[..i];
    }
  }

  method TopologicalSort(g: Graph) returns (r: Option<seq<Id>>)
    requires g.nodes.Valid()
    ensures r.None? <==> HasCycle(DependsOn(g))
    ensures r.Some? ==> Topological(DependsOn(g), r.value) && ToSet(r.value) == Mentioned(DependsOn(g))
  {
    hide Distinct, Ordered, HasCycle, JsMap.Valid;
    var s := new Sorter();
    TopologicalEmpty(DependsOn(g));
    assert OnStack(DependsOn(g), [], {}, "") by { EmptyWalk(DependsOn(g)); }
    for i := 0 to |g.nodes.keys|
      invariant Sorted(DependsOn(g), s.sorted, s.visited, s.visiting) && s.visiting == {}
      invariant s.visited >= ToSet(g.nodes.keys[..i])
    {
      KeyAt(g.nodes, i);
      var ok := s.Visit(g, g.nodes.keys[i], []);
      if !ok {
        return None;
      }
    }
    AllKeys(g.nodes);
    OrderedIsKnownOrdered(DependsOn(g), s.sorted);
    TopologicalIsAcyclic(DependsOn(g), s.sorted);
    DependenciesListed(DependsOn(g), s.sorted);
    return Some(s.sorted);
  }

  method HasCycles(g: Graph) returns (b: bool)
    requires g.nodes.Valid()
    ensures b <==> HasCycle(DependsOn(g))
  {
    var r := TopologicalSort(g);
    return r.None?;
  }
}
