// The separately written graph analyses, run on one plan and compared.
module Agreement {
  import opened Seqs
  import opened JsMaps
  import opened Graphs
  import opened PlanGraph
  import KahnSort
  import DepthFirstSort
  import CycleDetector
  import DependencyResolver
  import ParallelGroups
  import LevelFacts
  import LongestPath
  import CriticalCost

  // Step ids are unique and dependencies are listed once each, among the steps.
  ghost predicate Tidy(steps: seq<Step>) {
    Distinct(Ids(steps)) && KahnSort.SelfContained(StepRelation(steps), Ids(steps))
  }

  lemma {:induction false} UniqueKeeps(s: seq<string>)
    requires Distinct(s)
    ensures DependencyResolver.Unique(s) == s
  {
    if s != [] {
      var n := |s| - 1;
      DistinctAt(s, n);
      assert s == s[..n] + [s[n]];
      UniqueKeeps(s[..n]);
    }
  }

  // What the resolver holds once every step has been added.
  ghost function ResolverTable(steps: seq<Step>): map<Id, DependencyResolver.Dependency> {
    map n | n in StepTable(steps) ::
      DependencyResolver.Dependency(DependencyResolver.Unique(StepTable(steps)[n].dependencies), [])
  }

  lemma {:induction false} ResolverSeesSteps(steps: seq<Step>, t: DependencyResolver.Table)
    requires Tidy(steps)
    requires t.at == ResolverTable(steps)
    ensures DependencyResolver.Requires(t) == StepRelation(steps)
  {
    hide Distinct;
    StepTableKeys(steps);
    forall n | n in StepTable(steps)
      ensures DependencyResolver.Unique(StepTable(steps)[n].dependencies) == StepTable(steps)[n].dependencies
    {
      assert n in ToSet(Ids(steps));
      assert Distinct(Deps(StepRelation(steps), n));
      UniqueKeeps(StepTable(steps)[n].dependencies);
    }
  }

  // The three representations of one plan that the cycle tests read.
  method Represent(steps: seq<Step>)
    returns (nodes: seq<Id>, edges: KahnSort.Edges, resolver: DependencyResolver.DependencyResolver)
    ensures edges.Valid() && edges.at == StepRelation(steps) && nodes == Ids(steps)
    ensures fresh(resolver) && resolver.dependencies.Valid()
    ensures resolver.dependencies.at == ResolverTable(steps)
  {
    hide StepRelation, ResolverTable, JsMap.Valid;
    edges, nodes := JsMaps.Empty(), [];
    resolver := new DependencyResolver.DependencyResolver();
    NothingRepresented();
    assert steps[..0] == [];
    for i := 0 to |steps|
      invariant edges.Valid() && edges.at == StepRelation(steps[..i]) && nodes == Ids(steps[..i])
      invariant fresh(resolver) && resolver.dependencies.Valid()
      invariant resolver.dependencies.at == ResolverTable(steps[..i])
    {
      RepresentNext(steps, i);
      nodes := nodes + [steps[i].id];
      edges := edges.Put(steps[i].id, steps[i].dependencies);
      resolver.AddDependency(steps[i].id, steps[i].dependencies, []);
    }
    assert steps[..|steps|] == steps;
  }

  // All four cycle tests give the same answer, and it is the right one.
  method CompareCycleTests(steps: seq<Step>)
    returns (kahnThrows: bool, sortThrows: bool, cyclesReported: bool, resolverReports: bool)
    requires Tidy(steps)
    ensures kahnThrows == sortThrows == cyclesReported == resolverReports
    ensures kahnThrows <==> HasCycle(StepRelation(steps))
  {
    hide Distinct, ToSet, KahnSort.SelfContained, HasCycle, StepTable, StepRelation, JsMap.Valid, Cycle, WellBuilt;
    hide DependencyResolver.Requires;
    var g := Build(steps);
    assert g.nodes.Valid() by { BuiltIsValid(g); }
    sortThrows := DepthFirstSort.HasCycles(g);
    var cycles := CycleDetector.DetectCircularDependencies(g);
    cyclesReported := cycles != [];

    var nodes, edges, resolver := Represent(steps);
    ResolverSeesSteps(steps, resolver.dependencies);
    var res := resolver.Resolve();
    resolverReports := res.cycles != [];

    assert edges.at.Keys <= ToSet(nodes) by { RelationListed(steps); }
    var sorted := KahnSort.TopologicalSort(nodes, edges);
    kahnThrows := sorted.None?;
  }

  lemma BuiltIsValid(g: Graph)
    requires WellBuilt(g)
    ensures g.nodes.Valid()
  {
  }

  lemma RelationListed(steps: seq<Step>)
    ensures StepRelation(steps).Keys == ToSet(Ids(steps))
  {
    StepTableKeys(steps);
  }

  lemma NothingRepresented()
    ensures StepRelation([]) == map[] && ResolverTable([]) == map[] && Ids([]) == []
  {
  }

  lemma RepresentNext(steps: seq<Step>, i: nat)
    requires i < |steps|
    ensures var step := steps[i];
      && StepRelation(steps[..i + 1]) == StepRelation(steps[..i])[step.id := step.dependencies]
      && ResolverTable(steps[..i + 1]) == ResolverTable(steps[..i])[step.id :=
           DependencyResolver.Dependency(DependencyResolver.Unique(step.dependencies), [])]
      && Ids(steps[..i + 1]) == Ids(steps[..i]) + [step.id]
  {
    hide DependencyResolver.Unique;
    assert steps[..i + 1][..i] == steps[..i];
    assert StepTable(steps[..i + 1]) == StepTable(steps[..i])[steps[i].id := steps[i]];
  }

  // On an acyclic plan the greedy backward trace, the start-time recursion, the
  // level sweep and the longest-path search measure the same chains.
  method CompareMeasures(steps: seq<Step>)
    returns (criticalPath: seq<Id>, parallelTime: real, groups: seq<seq<Id>>, longest: seq<Id>,
             ghost g: Graph, ghost levels: seq<seq<Id>>)
    requires Tidy(steps) && !HasCycle(StepRelation(steps))
    requires "" !in StepTable(steps)
    requires forall n :: n in StepTable(steps) ==> StepTable(steps)[n].estimatedCost >= 0.0
    ensures DependsOn(g) == StepRelation(steps)
    ensures forall n :: n in StepTable(steps) ==> CostOf(g, n) == StepTable(steps)[n].estimatedCost
    ensures CriticalCost.ChainCost(g, criticalPath) == parallelTime && CriticalCost.MaxChainCost(g, parallelTime)
    ensures groups == ParallelGroups.Crowded(levels) && |levels| == |longest|
    ensures ParallelGroups.AsSets(levels) == ParallelGroups.Levels(StepRelation(steps), {})
    ensures Chain(StepRelation(steps), criticalPath) && LevelFacts.LongestChain(StepRelation(steps), longest)
  {
    hide HasCycle, StepTable, CriticalCost.MaxChainCost, LevelFacts.LongestChain, WellBuilt;
    hide Distinct, KahnSort.SelfContained;
    var graph := Build(steps);
    g := graph;
    TidyIsClosed(steps);
    assert g.nodes.Valid() && CriticalCost.NonNegative(g) by { CostsCarryOver(g, steps); }
    var depth := |graph.nodes.at| + 1;
    var traced := CriticalCost.GetCriticalPath(graph, depth);
    criticalPath := traced.value;
    assert "" !in g.nodes.at by { assert g.nodes.at.Keys == DependsOn(g).Keys; }
    NoEmptyIdOnTrace(g);
    var estimate := CriticalCost.EstimateParallelExecutionTime(graph, depth);
    parallelTime := estimate.value;
    CriticalCost.MaxChainCostUnique(g, parallelTime, CriticalCost.ChainCost(g, criticalPath));
    groups, levels := ParallelGroups.FindParallelGroups(graph);
    LongestPath.AcyclicIsSafe(DependsOn(g), graph.leaves);
    var found := LongestPath.FindCriticalPath(graph, depth);
    longest := found.value;
    LevelFacts.LevelCountIsLongestChain(DependsOn(g), longest);
    assert |ParallelGroups.AsSets(levels)| == |levels|;
  }

  lemma NoEmptyIdOnTrace(g: Graph)
    requires g.nodes.Valid() && !HasCycle(DependsOn(g)) && CriticalCost.NonNegative(g) && "" !in g.nodes.at
    ensures "" !in CriticalCost.GreedyTrace(g)
  {
    hide HasCycle, CriticalCost.NonNegative, CriticalCost.GreedyTrace;
    CriticalCost.GreedyTraceIsCostliest(g);
    assert "" !in ToSet(CriticalCost.GreedyTrace(g));
  }

  lemma TidyIsClosed(steps: seq<Step>)
    requires Tidy(steps)
    ensures Closed(StepRelation(steps))
  {
    hide Distinct;
    StepTableKeys(steps);
    forall n | n in StepRelation(steps)
      ensures ToSet(StepRelation(steps)[n]) <= StepRelation(steps).Keys
    {
      assert n in ToSet(Ids(steps));
      assert ToSet(Deps(StepRelation(steps), n)) <= ToSet(Ids(steps));
    }
  }

  lemma CostsCarryOver(g: Graph, steps: seq<Step>)
    requires WellBuilt(g) && DependsOn(g) == StepRelation(steps)
    requires forall n :: n in StepTable(steps) ==> CostOf(g, n) == StepTable(steps)[n].estimatedCost
    requires forall n :: n in StepTable(steps) ==> StepTable(steps)[n].estimatedCost >= 0.0
    ensures g.nodes.Valid() && CriticalCost.NonNegative(g)
  {
    hide Distinct, StepTable;
    assert g.nodes.at.Keys == DependsOn(g).Keys == StepTable(steps).Keys;
    forall n | n in g.nodes.at
      ensures g.nodes.at[n].estimatedCost >= 0.0
    {
      assert CostOf(g, n) == StepTable(steps)[n].estimatedCost;
    }
  }
}
