// The costliest chain: getCriticalPath and estimateParallelExecutionTime
// (planner/dependency-graph.ts).
module CriticalCost {
  import opened Seqs
  import opened JsMaps
  import opened Graphs
  import opened PlanGraph
  import opened CallStack
  import opened LongestPath

  ghost function ChainCost(g: Graph, c: seq<Id>): real {
    if c == [] then 0.0 else ChainCost(g, c[..|c| - 1]) + CostOf(g, c[|c| - 1])
  }

  ghost predicate NonNegative(g: Graph) {
    forall n :: n in g.nodes.at ==> g.nodes.at[n].estimatedCost >= 0.0
  }

  // v is the greatest total cost of a chain that ends at n.
  ghost predicate HeaviestTo(g: Graph, n: Id, v: real) {
    && (exists c :: EndsAt(DependsOn(g), c, n) && ChainCost(g, c) == v)
    && AtMostTo(g, n, v)
  }

  ghost predicate AtMostTo(g: Graph, n: Id, v: real) {
    forall c :: EndsAt(DependsOn(g), c, n) ==> ChainCost(g, c) <= v
  }

  // v is the greatest total cost of any chain at all.
  ghost predicate MaxChainCost(g: Graph, v: real) {
    && (exists c :: Chain(DependsOn(g), c) && ChainCost(g, c) == v)
    && forall c :: Chain(DependsOn(g), c) ==> ChainCost(g, c) <= v
  }

  lemma MaxChainCostUnique(g: Graph, v: real, w: real)
    requires MaxChainCost(g, v) && MaxChainCost(g, w)
    ensures v == w
  {
    var c :| Chain(DependsOn(g), c) && ChainCost(g, c) == v;
    var d :| Chain(DependsOn(g), d) && ChainCost(g, d) == w;
    assert ChainCost(g, d) <= v && ChainCost(g, c) <= w;
  }

  // v is the greatest of 0 and the heaviest costs of the ids in deps.
  ghost predicate MaxOf(g: Graph, deps: set<Id>, v: real) {
    && v >= 0.0
    && (v == 0.0 || exists d :: d in deps && HeaviestTo(g, d, v))
    && forall d :: d in deps ==> AtMostTo(g, d, v)
  }

  lemma MaxOfNone(g: Graph)
    ensures MaxOf(g, {}, 0.0)
  {
  }

  function Max(a: real, b: real): real {
    if a >= b then a else b
  }

  lemma MaxOfStep(g: Graph, deps: set<Id>, v: real, d: Id, w: real)
    requires MaxOf(g, deps, v) && HeaviestTo(g, d, w)
    ensures MaxOf(g, deps + {d}, Max(v, w))
  {
    hide EndsAt;
    forall e | e in deps + {d}
      ensures AtMostTo(g, e, Max(v, w))
    {
    }
    if w > v {
      assert d in deps + {d};
    } else if v != 0.0 {
      var e :| e in deps && HeaviestTo(g, e, v);
      assert e in deps + {d};
    }
  }

  lemma {:induction false} ChainCostNonNegative(g: Graph, c: seq<Id>)
    requires NonNegative(g)
    ensures ChainCost(g, c) >= 0.0
  {
    if c != [] {
      ChainCostNonNegative(g, c[..|c| - 1]);
    }
  }

  lemma ExtendChain(g: Graph, c: seq<Id>, d: Id, n: Id)
    requires EndsAt(DependsOn(g), c, d) && d in Deps(DependsOn(g), n)
    ensures EndsAt(DependsOn(g), c + [n], n)
    ensures ChainCost(g, c + [n]) == ChainCost(g, c) + CostOf(g, n)
  {
    assert (c + [n])[..|c|] == c;
  }

  lemma ExtendHeaviest(g: Graph, n: Id, v: real)
    requires NonNegative(g) && MaxOf(g, ToSet(Deps(DependsOn(g), n)), v)
    ensures HeaviestTo(g, n, v + CostOf(g, n))
  {
    var r := DependsOn(g);
    var deps := ToSet(Deps(r, n));
    assert exists c :: EndsAt(r, c, n) && ChainCost(g, c) == v + CostOf(g, n) by {
      if v == 0.0 {
        assert [n][..0] == [];
        assert ChainCost(g, [n]) == ChainCost(g, []) + CostOf(g, n);
        assert EndsAt(r, [n], n);
      } else {
        var d :| d in deps && HeaviestTo(g, d, v);
        var c :| EndsAt(r, c, d) && ChainCost(g, c) == v;
        ExtendChain(g, c, d, n);
      }
    }
    forall c | EndsAt(r, c, n)
      ensures ChainCost(g, c) <= v + CostOf(g, n)
    {
      var front := c[..|c| - 1];
      if front != [] {
        assert c[|c| - 2] in Deps(r, c[|c| - 2 + 1]);
        assert EndsAt(r, front, c[|c| - 2]);
        assert c[|c| - 2] in deps;
        assert AtMostTo(g, c[|c| - 2], v);
      }
    }
  }

  lemma MissingIsFree(g: Graph, n: Id)
    requires n !in g.nodes.at
    ensures HeaviestTo(g, n, 0.0)
  {
    var r := DependsOn(g);
    assert [n][..0] == [];
    assert EndsAt(r, [n], n) && ChainCost(g, [n]) == ChainCost(g, []) + CostOf(g, n);
    forall c | EndsAt(r, c, n)
      ensures ChainCost(g, c) <= 0.0
    {
      var k := |c| - 2;
      assert k >= 0 ==> c[k] in Deps(r, c[k + 1]);
      assert c[..|c| - 1] == [];
    }
  }

  // The dearest entry over all nodes is the dearest chain of the whole graph.
  lemma MaxOverNodes(g: Graph, v: real)
    requires NonNegative(g) && MaxOf(g, g.nodes.at.Keys, v)
    ensures MaxChainCost(g, v)
  {
    var r := DependsOn(g);
    forall c | Chain(r, c)
      ensures ChainCost(g, c) <= v
    {
      if c != [] {
        var n := c[|c| - 1];
        assert EndsAt(r, c, n);
        if n in g.nodes.at { assert AtMostTo(g, n, v); } else { MissingIsFree(g, n); }
      }
    }
    if v == 0.0 {
      assert Chain(r, []) && ChainCost(g, []) == v;
    } else {
      var n :| n in g.nodes.at && HeaviestTo(g, n, v);
      var c :| EndsAt(r, c, n) && ChainCost(g, c) == v;
      assert Chain(r, c);
    }
  }

  // ---------------------------------------------------------------- getCriticalPath

  ghost predicate CostsOk(g: Graph, costs: map<Id, real>) {
    forall n :: n in costs ==> n in g.nodes.at && HeaviestTo(g, n, costs[n])
  }

  class CostMemo {
    var stepCosts: JsMap<Id, real>

    constructor ()
      ensures stepCosts == JsMaps.Empty()
    {
      stepCosts := JsMaps.Empty();
    }

    // `depth` is how many nested calls fit on the stack; None: it overflows.
    method CalculateCost(g: Graph, nodeId: Id, depth: nat) returns (total: Option<real>)
      requires NonNegative(g) && stepCosts.Valid() && CostsOk(g, stepCosts.at)
      modifies this
      ensures stepCosts.Valid() && CostsOk(g, stepCosts.at)
      ensures total.Some? ==> HeaviestTo(g, nodeId, total.value)
      ensures total.Some? <==> Visited(DependsOn(g), old(stepCosts.keys), nodeId, depth, false).Some?
      ensures total.Some? ==> Some(stepCosts.keys) == Visited(DependsOn(g), old(stepCosts.keys), nodeId, depth, false)
      decreases depth
    {
      hide HeaviestTo, Walk, JsMap.Valid, NonNegative, VisitedAll, MaxOf;
      ghost var r := DependsOn(g);
      ghost var done := stepCosts.keys;
      if depth == 0 {
        return None;
      }
      KeysAgree(stepCosts, nodeId);
      if stepCosts.Has(nodeId) {
        return Some(stepCosts.at[nodeId]);
      }
      if !g.nodes.Has(nodeId) {
        MissingIsFree(g, nodeId);
        return Some(0.0);
      }
      var node := g.nodes.at[nodeId];
      var maxDepCost := 0.0;
      MaxOfNone(g);
      assert ToSet(node.dependencies[..0]) == {};
      assert node.dependencies[..0] == [];
      NothingVisited(r, done, depth - 1, false);
      for i := 0 to |node.dependencies|
        invariant stepCosts.Valid() && CostsOk(g, stepCosts.at)
        invariant MaxOf(g, ToSet(node.dependencies[..i]), maxDepCost)
        invariant Some(stepCosts.keys) == VisitedAll(r, done, node.dependencies[..i], depth - 1, false)
      {
        VisitedNext(r, done, node.dependencies, depth - 1, false, i);
        TakeOne(node.dependencies, i);
        var depCost := CalculateCost(g, node.dependencies[i], depth - 1);
        if depCost.None? {
          OverflowLasts(r, done, node.dependencies, depth - 1, false, i + 1);
          return None;
        }
        MaxOfStep(g, ToSet(node.dependencies[..i]), maxDepCost, node.dependencies[i], depCost.value);
        // Costs are never negative, so a maximum that starts at 0 is the same.
        maxDepCost := Max(maxDepCost, depCost.value);
      }
      assert node.dependencies[..|node.dependencies|] == node.dependencies;
      ExtendHeaviest(g, nodeId, maxDepCost);
      KeysAgree(stepCosts, nodeId);
      total := Some(node.estimatedCost + maxDepCost);
      stepCosts := stepCosts.Put(nodeId, node.estimatedCost + maxDepCost);
    }

    // Math.max(start + cost) of the dependencies, memoised per step.
    method CalculateStartTime(g: Graph, nodeId: Id, depth: nat) returns (startTime: Option<real>)
      requires NonNegative(g) && stepCosts.Valid() && StartsOk(g, stepCosts.at)
      modifies this
      ensures stepCosts.Valid() && StartsOk(g, stepCosts.at)
      ensures startTime.Some? ==> HeaviestTo(g, nodeId, startTime.value + CostOf(g, nodeId))
      ensures startTime.Some? <==> Visited(DependsOn(g), old(stepCosts.keys), nodeId, depth, false).Some?
      ensures startTime.Some? ==>
        Some(stepCosts.keys) == Visited(DependsOn(g), old(stepCosts.keys), nodeId, depth, false)
      decreases depth
    {
      hide HeaviestTo, Walk, JsMap.Valid, NonNegative, VisitedAll, MaxOf;
      ghost var r := DependsOn(g);
      ghost var done := stepCosts.keys;
      if depth == 0 {
        return None;
      }
      KeysAgree(stepCosts, nodeId);
      if stepCosts.Has(nodeId) {
        return Some(stepCosts.at[nodeId]);
      }
      if !g.nodes.Has(nodeId) {
        MissingIsFree(g, nodeId);
        return Some(0.0);
      }
      var node := g.nodes.at[nodeId];
      var maxEnd := 0.0;
      MaxOfNone(g);
      assert ToSet(node.dependencies[..0]) == {};
      assert node.dependencies[..0] == [];
      NothingVisited(r, done, depth - 1, false);
      for i := 0 to |node.dependencies|
        invariant stepCosts.Valid() && StartsOk(g, stepCosts.at)
        invariant MaxOf(g, ToSet(node.dependencies[..i]), maxEnd)
        invariant Some(stepCosts.keys) == VisitedAll(r, done, node.dependencies[..i], depth - 1, false)
      {
        VisitedNext(r, done, node.dependencies, depth - 1, false, i);
        TakeOne(node.dependencies, i);
        var depId := node.dependencies[i];
        var depStart := CalculateStartTime(g, depId, depth - 1);
        if depStart.None? {
          OverflowLasts(r, done, node.dependencies, depth - 1, false, i + 1);
          return None;
        }
        var depEnd := depStart.value + CostOf(g, depId);
        MaxOfStep(g, ToSet(node.dependencies[..i]), maxEnd, depId, depEnd);
        maxEnd := Max(maxEnd, depEnd);
      }
      assert node.dependencies[..|node.dependencies|] == node.dependencies;
      ExtendHeaviest(g, nodeId, maxEnd);
      KeysAgree(stepCosts, nodeId);
      startTime := Some(maxEnd);
      stepCosts := stepCosts.Put(nodeId, maxEnd);
    }
  }

  ghost predicate StartsOk(g: Graph, starts: map<Id, real>) {
    forall n :: n in starts ==> n in g.nodes.at && HeaviestTo(g, n, starts[n] + CostOf(g, n))
  }

  // Started from every step, the walk returns only on acyclic graphs, and then always.
  lemma WalkNeedsNoCycle(g: Graph, depth: nat)
    requires g.nodes.Valid()
    ensures VisitedAll(DependsOn(g), [], g.nodes.keys, depth, false).Some? ==>
      && !HasCycle(DependsOn(g))
      && ToSet(VisitedAll(DependsOn(g), [], g.nodes.keys, depth, false).value) == g.nodes.at.Keys
    ensures depth > |g.nodes.at| && !HasCycle(DependsOn(g)) ==>
      VisitedAll(DependsOn(g), [], g.nodes.keys, depth, false).Some?
  {
    hide VisitedAll, HasCycle, LeadsIntoCycle;
    var r := DependsOn(g);
    assert r.Keys == g.nodes.at.Keys && |r.Keys| == |r| && |g.nodes.at.Keys| == |g.nodes.at|;
    ReturnsExactly(r, g.nodes.keys, depth, false);
    if VisitedAll(r, [], g.nodes.keys, depth, false).Some? {
      CycleIsLedInto(r);
      assert forall n :: n in r ==> n in ToSet(g.nodes.keys);
      assert ToSet<Id>([]) == {};
      AllVisitedHold(r, [], g.nodes.keys, depth);
    }
    if !HasCycle(r) {
      AcyclicIsSafe(r, g.nodes.keys);
    }
  }

  method EstimateParallelExecutionTime(g: Graph, depth: nat) returns (maxEndTime: Option<real>)
    requires g.nodes.Valid() && NonNegative(g)
    ensures maxEndTime.Some? ==> !HasCycle(DependsOn(g)) && MaxChainCost(g, maxEndTime.value)
    ensures depth > |g.nodes.at| && !HasCycle(DependsOn(g)) ==> maxEndTime.Some?
  {
    hide HeaviestTo, HasCycle, Walk, NonNegative, JsMap.Valid, Distinct, MaxOf, MaxChainCost, VisitedAll, Visited;
    ghost var r := DependsOn(g);
    WalkNeedsNoCycle(g, depth);
    var m := new CostMemo();
    assert g.nodes.keys[..0] == [];
    NothingVisited(r, [], depth, false);
    for i := 0 to |g.nodes.keys|
      invariant m.stepCosts.Valid() && StartsOk(g, m.stepCosts.at)
      invariant Some(m.stepCosts.keys) == VisitedAll(r, [], g.nodes.keys[..i], depth, false)
    {
      VisitedNext(r, [], g.nodes.keys, depth, false, i);
      var start := m.CalculateStartTime(g, g.nodes.keys[i], depth);
      if start.None? {
        OverflowLasts(r, [], g.nodes.keys, depth, false, i + 1);
        return None;
      }
    }
    assert g.nodes.keys[..|g.nodes.keys|] == g.nodes.keys;
    var maxEnd := 0.0;
    MaxOfNone(g);
    var stepCosts := m.stepCosts;
    AllKeys(stepCosts);
    for i := 0 to |stepCosts.keys|
      invariant MaxOf(g, ToSet(stepCosts.keys[..i]), maxEnd)
    {
      KeyAt(stepCosts, i);
      var nodeId := stepCosts.keys[i];
      var endTime := stepCosts.at[nodeId] + CostOf(g, nodeId);
      MaxOfStep(g, ToSet(stepCosts.keys[..i]), maxEnd, nodeId, endTime);
      maxEnd := Max(maxEnd, endTime);
    }
    assert stepCosts.keys[..|stepCosts.keys|] == stepCosts.keys;
    MaxOverNodes(g, maxEnd);
    return Some(maxEnd);
  }

  // The order in which the costs are memoised: dependencies first.
  ghost function MemoOrder(g: Graph): seq<Id> {
    var memo := VisitedAll(DependsOn(g), [], g.nodes.keys, |g.nodes.at| + 1, false);
    if memo.None? then [] else memo.value
  }

  // It is the same on every stack that is deep enough.
  lemma OrderAtAnyDepth(g: Graph, depth: nat)
    requires g.nodes.Valid() && VisitedAll(DependsOn(g), [], g.nodes.keys, depth, false).Some?
    ensures VisitedAll(DependsOn(g), [], g.nodes.keys, depth, false) == Some(MemoOrder(g))
  {
    hide VisitedAll, HasCycle;
    var r, enough := DependsOn(g), |g.nodes.at| + 1;
    WalkNeedsNoCycle(g, depth);
    WalkNeedsNoCycle(g, enough);
    if depth <= enough {
      AllDeeperSame(r, [], g.nodes.keys, depth, enough, false);
    } else {
      AllDeeperSame(r, [], g.nodes.keys, enough, depth, false);
    }
  }

  method CalculateCosts(g: Graph, depth: nat) returns (stepCosts: Option<JsMap<Id, real>>)
    requires g.nodes.Valid() && NonNegative(g)
    ensures stepCosts.Some? ==>
      && !HasCycle(DependsOn(g))
      && stepCosts.value.Valid() && CostsOk(g, stepCosts.value.at)
      && stepCosts.value.at.Keys == g.nodes.at.Keys && stepCosts.value.keys == MemoOrder(g)
    ensures depth > |g.nodes.at| && !HasCycle(DependsOn(g)) ==> stepCosts.Some?
  {
    hide HeaviestTo, HasCycle, Walk, NonNegative, JsMap.Valid, Distinct, VisitedAll, Visited, MemoOrder;
    ghost var r := DependsOn(g);
    WalkNeedsNoCycle(g, depth);
    var m := new CostMemo();
    assert g.nodes.keys[..0] == [];
    NothingVisited(r, [], depth, false);
    for i := 0 to |g.nodes.keys|
      invariant m.stepCosts.Valid() && CostsOk(g, m.stepCosts.at)
      invariant Some(m.stepCosts.keys) == VisitedAll(r, [], g.nodes.keys[..i], depth, false)
    {
      VisitedNext(r, [], g.nodes.keys, depth, false, i);
      var cost := m.CalculateCost(g, g.nodes.keys[i], depth);
      if cost.None? {
        OverflowLasts(r, [], g.nodes.keys, depth, false, i + 1);
        return None;
      }
    }
    assert g.nodes.keys[..|g.nodes.keys|] == g.nodes.keys;
    OrderAtAnyDepth(g, depth);
    AllKeys(m.stepCosts);
    assert m.stepCosts.keys[..|m.stepCosts.keys|] == m.stepCosts.keys;
    return Some(m.stepCosts);
  }

  // ---------------------------------------------------------------- the greedy trace

  // The cost of the heaviest chain ending in n, computed over what n depends on.
  ghost function TotalCost(g: Graph, n: Id, stack: set<Id>): real
    decreases g.nodes.at.Keys - stack, 0
  {
    if n !in g.nodes.at || n in stack then 0.0
    else g.nodes.at[n].estimatedCost + MaxTotal(g, g.nodes.at[n].dependencies, stack + {n})
  }

  ghost function MaxTotal(g: Graph, ids: seq<Id>, stack: set<Id>): real
    decreases g.nodes.at.Keys - stack, |ids|
  {
    if ids == [] then 0.0
    else Max(MaxTotal(g, ids[..|ids| - 1], stack), TotalCost(g, ids[|ids| - 1], stack))
  }

  ghost function CostTo(g: Graph, n: Id): real {
    TotalCost(g, n, {})
  }

  // The first of the ids of greatest cost, when one costs anything.
  ghost function FirstDearest(g: Graph, ids: seq<Id>): Option<Id> {
    if ids == [] then None
    else
      var best := FirstDearest(g, ids[..|ids| - 1]);
      if CostTo(g, ids[|ids| - 1]) > BestCost(g, best) then Some(ids[|ids| - 1]) else best
  }

  ghost function BestCost(g: Graph, best: Option<Id>): real {
    if best.None? then 0.0 else CostTo(g, best.value)
  }

  // Back from n, at each step to the first dependency of greatest cost.
  ghost function TraceTo(g: Graph, n: Option<Id>, stack: set<Id>): seq<Id>
    decreases g.nodes.at.Keys - stack
  {
    if n.None? || n.value !in g.nodes.at || n.value in stack then []
    else TraceTo(g, FirstDearest(g, g.nodes.at[n.value].dependencies), stack + {n.value}) + [n.value]
  }

  // Back from the first step of greatest cost, in the order of the memo. The step named
  // "" is a step like any other here.
  ghost function GreedyTrace(g: Graph): seq<Id> {
    TraceTo(g, FirstDearest(g, MemoOrder(g)), {})
  }

  // What follows the last "".
  function Behind(trace: seq<Id>): seq<Id> {
    if trace == [] || trace[|trace| - 1] == "" then []
    else Behind(trace[..|trace| - 1]) + [trace[|trace| - 1]]
  }

  // ---------------------------------------------------------------- costs of the trace

  lemma {:induction false} TotalIsHeaviest(g: Graph, n: Id, stack: seq<Id>)
    requires !HasCycle(DependsOn(g)) && NonNegative(g) && OnStack(DependsOn(g), stack, ToSet(stack), n)
    ensures HeaviestTo(g, n, TotalCost(g, n, ToSet(stack)))
    decreases g.nodes.at.Keys - ToSet(stack), 0
  {
    hide HeaviestTo, HasCycle, Walk, NonNegative, MaxTotal;
    if n !in g.nodes.at {
      MissingIsFree(g, n);
    } else {
      if n in ToSet(stack) {
        BackEdge(DependsOn(g), stack, ToSet(stack), n);
      }
      AppendToSet(stack, n);
      var deps := g.nodes.at[n].dependencies;
      MaxTotalIsMax(g, n, stack, |deps|);
      TakeEnds(deps);
      ExtendHeaviest(g, n, MaxTotal(g, deps, ToSet(stack + [n])));
    }
  }

  lemma {:induction false} MaxTotalIsMax(g: Graph, n: Id, stack: seq<Id>, i: nat)
    requires !HasCycle(DependsOn(g)) && NonNegative(g) && OnStack(DependsOn(g), stack, ToSet(stack), n)
    requires n in g.nodes.at && n !in ToSet(stack) && i <= |g.nodes.at[n].dependencies|
    ensures var ids := g.nodes.at[n].dependencies[..i]; MaxOf(g, ToSet(ids), MaxTotal(g, ids, ToSet(stack + [n])))
    decreases g.nodes.at.Keys - ToSet(stack) - {n}, i + 1
  {
    hide HeaviestTo, HasCycle, Walk, NonNegative, TotalCost, MaxOf, OnStack;
    var deps := g.nodes.at[n].dependencies;
    AppendToSet(stack, n);
    if i == 0 {
      TakeEnds(deps);
      MaxOfNone(g);
    } else {
      MaxTotalIsMax(g, n, stack, i - 1);
      TakeOne(deps, i - 1);
      assert deps[..i][..i - 1] == deps[..i - 1];
      Descend(DependsOn(g), stack, ToSet(stack), n, deps[i - 1]);
      TotalIsHeaviest(g, deps[i - 1], stack + [n]);
      MaxOfStep(g, ToSet(deps[..i - 1]), MaxTotal(g, deps[..i - 1], ToSet(stack + [n])), deps[i - 1],
        TotalCost(g, deps[i - 1], ToSet(stack + [n])));
    }
  }

  lemma CostToIsHeaviest(g: Graph, n: Id)
    requires !HasCycle(DependsOn(g)) && NonNegative(g)
    ensures HeaviestTo(g, n, CostTo(g, n))
    ensures n !in g.nodes.at ==> CostTo(g, n) == 0.0
  {
    hide HeaviestTo, HasCycle, NonNegative;
    EmptyWalk(DependsOn(g));
    assert ToSet<Id>([]) == {};
    TotalIsHeaviest(g, n, []);
  }

  lemma {:induction false} DearestIsMax(g: Graph, ids: seq<Id>)
    requires !HasCycle(DependsOn(g)) && NonNegative(g)
    ensures MaxOf(g, ToSet(ids), BestCost(g, FirstDearest(g, ids)))
    ensures FirstDearest(g, ids).Some? ==>
      FirstDearest(g, ids).value in ids && CostTo(g, FirstDearest(g, ids).value) > 0.0
  {
    hide HeaviestTo, HasCycle, NonNegative, CostTo, MaxOf;
    if ids == [] {
      assert ToSet(ids) == {};
      MaxOfNone(g);
    } else {
      var n := |ids| - 1;
      DearestIsMax(g, ids[..n]);
      TakeOne(ids, n);
      TakeEnds(ids);
      var best := FirstDearest(g, ids[..n]);
      MaxOfNonNegative(g, ToSet(ids[..n]), BestCost(g, best));
      CostToIsHeaviest(g, ids[n]);
      MaxOfStep(g, ToSet(ids[..n]), BestCost(g, best), ids[n], CostTo(g, ids[n]));
    }
  }

  // The cost of a step on top of its dearest dependency.
  lemma CostOnTop(g: Graph, n: Id)
    requires !HasCycle(DependsOn(g)) && NonNegative(g) && n in g.nodes.at
    ensures CostTo(g, n) == BestCost(g, FirstDearest(g, g.nodes.at[n].dependencies)) + CostOf(g, n)
  {
    hide HeaviestTo, HasCycle, NonNegative, CostTo, MaxOf, FirstDearest;
    var deps := g.nodes.at[n].dependencies;
    DearestIsMax(g, deps);
    ExtendHeaviest(g, n, BestCost(g, FirstDearest(g, deps)));
    CostToIsHeaviest(g, n);
    HeaviestUnique(g, n, CostTo(g, n), BestCost(g, FirstDearest(g, deps)) + CostOf(g, n));
  }

  // A chain of steps all of whose beginnings cost something.
  ghost predicate Costly(g: Graph, c: seq<Id>) {
    && Chain(DependsOn(g), c) && ToSet(c) <= g.nodes.at.Keys
    && forall i :: 0 <= i < |c| ==> Paid(g, c, i)
  }

  ghost predicate Paid(g: Graph, c: seq<Id>, i: nat)
    requires i < |c|
  {
    ChainCost(g, c[..i + 1]) > 0.0
  }

  lemma {:induction false} TraceFacts(g: Graph, n: Id, stack: seq<Id>)
    requires !HasCycle(DependsOn(g)) && NonNegative(g) && OnStack(DependsOn(g), stack, ToSet(stack), n)
    requires CostTo(g, n) > 0.0
    ensures var t := TraceTo(g, Some(n), ToSet(stack));
      Costly(g, t) && t != [] && t[|t| - 1] == n && ChainCost(g, t) == CostTo(g, n)
    decreases g.nodes.at.Keys - ToSet(stack)
  {
    hide HeaviestTo, HasCycle, Walk, NonNegative, CostTo, FirstDearest, Costly;
    CostToIsHeaviest(g, n);
    if n in ToSet(stack) {
      BackEdge(DependsOn(g), stack, ToSet(stack), n);
    }
    AppendToSet(stack, n);
    CostOnTop(g, n);
    DearestIsMax(g, g.nodes.at[n].dependencies);
    var best := FirstDearest(g, g.nodes.at[n].dependencies);
    if best.None? {
      CostlyOne(g, n);
    } else {
      Descend(DependsOn(g), stack, ToSet(stack), n, best.value);
      TraceFacts(g, best.value, stack + [n]);
      CostlyMore(g, TraceTo(g, best, ToSet(stack + [n])), n);
    }
  }

  lemma CostlyOne(g: Graph, n: Id)
    requires n in g.nodes.at && CostOf(g, n) > 0.0
    ensures Costly(g, [] + [n]) && ChainCost(g, [] + [n]) == CostOf(g, n)
  {
    assert [] + [n] == [n] && [n][..0] == [] && [n][..1] == [n];
    assert ChainCost(g, [n]) == ChainCost(g, []) + CostOf(g, n);
  }

  lemma CostlyMore(g: Graph, t: seq<Id>, n: Id)
    requires Costly(g, t) && t != [] && t[|t| - 1] in Deps(DependsOn(g), n)
    requires n in g.nodes.at && ChainCost(g, t) + CostOf(g, n) > 0.0
    ensures Costly(g, t + [n]) && ChainCost(g, t + [n]) == ChainCost(g, t) + CostOf(g, n)
  {
    hide Chain, ChainCost;
    var c := t + [n];
    AppendToSet(t, n);
    ChainMore(DependsOn(g), t, n);
    ChainCostConcat(g, t, [n]);
    CostOfOne(g, n);
    assert c[..|t| + 1] == c;
    forall i | 0 <= i < |c|
      ensures Paid(g, c, i)
    {
      assert i < |t| ==> Paid(g, t, i) && c[..i + 1] == t[..i + 1];
    }
  }

  lemma ChainMore(r: Relation, t: seq<Id>, n: Id)
    requires Chain(r, t) && t != [] && t[|t| - 1] in Deps(r, n)
    ensures Chain(r, t + [n])
  {
    var c := t + [n];
    forall i | 0 <= i < |c| - 1
      ensures c[i] in Deps(r, c[i + 1])
    {
      if i < |t| - 1 { assert t[i] in Deps(r, t[i + 1]); }
    }
  }

  lemma CostOfOne(g: Graph, n: Id)
    ensures ChainCost(g, [n]) == CostOf(g, n)
  {
    assert [n][..0] == [];
    assert ChainCost(g, [n]) == ChainCost(g, []) + CostOf(g, n);
  }

  // The greedy trace is a costliest chain.
  lemma GreedyTraceIsCostliest(g: Graph)
    requires g.nodes.Valid() && !HasCycle(DependsOn(g)) && NonNegative(g)
    ensures Costly(g, GreedyTrace(g)) && MaxChainCost(g, ChainCost(g, GreedyTrace(g)))
  {
    hide HasCycle, NonNegative, CostTo, FirstDearest, VisitedAll, MaxOf, MaxChainCost, JsMap.Valid, HeaviestTo;
    var ids := MemoOrder(g);
    WalkNeedsNoCycle(g, |g.nodes.at| + 1);
    DearestIsMax(g, ids);
    MaxOverNodes(g, BestCost(g, FirstDearest(g, ids)));
    var best := FirstDearest(g, ids);
    if best.Some? {
      EmptyWalk(DependsOn(g));
      assert ToSet<Id>([]) == {};
      TraceFacts(g, best.value, []);
    } else {
      EmptyTrace(g);
    }
  }

  // ---------------------------------------------------------------- what is left of the trace

  lemma {:induction false} BehindSplits(t: seq<Id>) returns (before: seq<Id>)
    ensures t == before + Behind(t) && "" !in Behind(t)
    ensures before == [] <==> "" !in t
    ensures before != [] ==> before[|before| - 1] == ""
  {
    if t == [] || t[|t| - 1] == "" {
      before := t;
    } else {
      before := BehindSplits(t[..|t| - 1]);
      assert t == t[..|t| - 1] + [t[|t| - 1]];
    }
  }

  lemma CutCosts(g: Graph, before: seq<Id>, path: seq<Id>)
    requires Costly(g, before + path)
    ensures Chain(DependsOn(g), path)
    ensures ChainCost(g, before + path) == ChainCost(g, before) + ChainCost(g, path)
    ensures before != [] ==> ChainCost(g, before) > 0.0
  {
    var c := before + path;
    ChainCostConcat(g, before, path);
    forall i | 0 <= i < |path| - 1
      ensures path[i] in Deps(DependsOn(g), path[i + 1])
    {
      assert c[|before| + i] in Deps(DependsOn(g), c[|before| + i + 1]);
    }
    if before != [] {
      assert Paid(g, c, |before| - 1) && c[..|before| - 1 + 1] == before;
    }
  }

  // A path cut off behind a step named "" is a costliest chain exactly when the trace
  // has no such step: a condition on the graph alone.
  lemma CutOffExactly(g: Graph)
    requires g.nodes.Valid() && !HasCycle(DependsOn(g)) && NonNegative(g)
    ensures var t := GreedyTrace(g);
      && Chain(DependsOn(g), Behind(t))
      && (MaxChainCost(g, ChainCost(g, Behind(t))) <==> "" !in t)
      && ("" !in t ==> Behind(t) == t)
  {
    hide HasCycle, NonNegative, MaxChainCost, JsMap.Valid, Costly, GreedyTrace, Chain;
    GreedyTraceIsCostliest(g);
    var t := GreedyTrace(g);
    var before := BehindSplits(t);
    CutCosts(g, before, Behind(t));
    if MaxChainCost(g, ChainCost(g, Behind(t))) {
      MaxChainCostUnique(g, ChainCost(g, t), ChainCost(g, Behind(t)));
    }
    if before == [] {
      assert [] + Behind(t) == Behind(t);
    }
  }

  // ---------------------------------------------------------------- the method

  function Named(n: Option<Id>): Id {
    if n.None? then "" else n.value
  }

  ghost predicate CostsExact(g: Graph, costs: map<Id, real>) {
    && costs.Keys == g.nodes.at.Keys
    && (forall n :: n in costs ==> costs[n] == CostTo(g, n))
    && (forall n :: n !in costs ==> CostTo(g, n) == 0.0)
  }

  lemma CostsAreExact(g: Graph, costs: map<Id, real>)
    requires !HasCycle(DependsOn(g)) && NonNegative(g) && CostsOk(g, costs) && costs.Keys == g.nodes.at.Keys
    ensures CostsExact(g, costs)
  {
    hide HeaviestTo, HasCycle, NonNegative, CostTo;
    forall n
      ensures n in costs ==> costs[n] == CostTo(g, n)
      ensures n !in costs ==> CostTo(g, n) == 0.0
    {
      CostToIsHeaviest(g, n);
      if n in costs {
        HeaviestUnique(g, n, costs[n], CostTo(g, n));
      }
    }
  }

  // The first of the ids whose entry is greatest; "" when none exceeds 0.
  method Dearest(g: Graph, costs: JsMap<Id, real>, ids: seq<Id>) returns (maxNode: Id, ghost best: Option<Id>)
    requires CostsExact(g, costs.at)
    ensures best == FirstDearest(g, ids) && maxNode == Named(best)
  {
    hide CostTo;
    var maxCost := 0.0;
    maxNode, best := "", None;
    for i := 0 to |ids|
      invariant best == FirstDearest(g, ids[..i]) && maxNode == Named(best) && maxCost == BestCost(g, best)
    {
      assert ids[..i + 1][..i] == ids[..i];
      var cost := if costs.Has(ids[i]) then costs.at[ids[i]] else 0.0;
      if cost > maxCost {
        maxCost, maxNode := cost, ids[i];
        best := Some(ids[i]);
      }
    }
    assert ids[..|ids|] == ids;
  }

  // The step named "" also means "no step" in the source, so the trace is followed
  // only back to it.
  method GetCriticalPath(g: Graph, depth: nat) returns (path: Option<seq<Id>>)
    requires g.nodes.Valid() && NonNegative(g)
    ensures path.Some? ==>
      && !HasCycle(DependsOn(g))
      && path.value == Behind(GreedyTrace(g))
      && Chain(DependsOn(g), path.value)
      && (MaxChainCost(g, ChainCost(g, path.value)) <==> "" !in GreedyTrace(g))
    ensures depth > |g.nodes.at| && !HasCycle(DependsOn(g)) ==> path.Some?
  {
    hide HasCycle, NonNegative, JsMap.Valid, MaxChainCost, Chain, CostsOk, GreedyTrace;
    var stepCosts := CalculateCosts(g, depth);
    if stepCosts.None? {
      return None;
    }
    CostsAreExact(g, stepCosts.value.at);
    CutOffExactly(g);
    var traced := TraceBack(g, stepCosts.value);
    return Some(traced);
  }

  method TraceBack(g: Graph, costs: JsMap<Id, real>) returns (path: seq<Id>)
    requires g.nodes.Valid() && !HasCycle(DependsOn(g)) && NonNegative(g)
    requires CostsExact(g, costs.at) && costs.keys == MemoOrder(g)
    ensures path == Behind(GreedyTrace(g))
  {
    hide HeaviestTo, HasCycle, Walk, NonNegative, JsMap.Valid, MaxChainCost, Chain, Costly, CostsOk, CostsExact;
    hide FirstDearest, MemoOrder, Behind, CostTo;
    ghost var next;
    var currentNode;
    currentNode, next := Dearest(g, costs, costs.keys);
    path := [];
    GreedyTraceIsCostliest(g);
    ghost var trace := GreedyTrace(g);
    assert trace == TraceTo(g, next, {}) + [];
    assert ToSet<Id>([]) == {};
    StartsInGraph(g, costs.keys);
    while currentNode != ""
      invariant currentNode == Named(next) && trace == TraceTo(g, next, ToSet(path)) + path
      invariant "" !in ToSet(path) && ToSet(path) <= g.nodes.at.Keys
      invariant next.Some? ==> next.value in g.nodes.at && next.value !in ToSet(path)
      decreases g.nodes.at.Keys - ToSet(path)
    {
      ghost var stack := ToSet(path);
      var dependencies := g.nodes.at[currentNode].dependencies;
      TraceUnfolds(g, currentNode, path);
      path := [currentNode] + path;
      currentNode, next := Dearest(g, costs, dependencies);
      if next.Some? {
        NextIsNew(g, TraceTo(g, next, ToSet(path)), path, next.value);
      }
    }
    BehindTrace(g, next, path);
  }

  lemma StartsInGraph(g: Graph, ids: seq<Id>)
    requires !HasCycle(DependsOn(g)) && NonNegative(g)
    ensures FirstDearest(g, ids).Some? ==> FirstDearest(g, ids).value in g.nodes.at
  {
    hide HasCycle, NonNegative, FirstDearest, MaxOf, CostTo, HeaviestTo;
    DearestIsMax(g, ids);
    if FirstDearest(g, ids).Some? {
      CostToIsHeaviest(g, FirstDearest(g, ids).value);
    }
  }

  lemma TraceUnfolds(g: Graph, n: Id, path: seq<Id>)
    requires n in g.nodes.at && n !in ToSet(path)
    ensures ToSet([n] + path) == ToSet(path) + {n}
    ensures TraceTo(g, Some(n), ToSet(path)) + path ==
      TraceTo(g, FirstDearest(g, g.nodes.at[n].dependencies), ToSet([n] + path)) + ([n] + path)
  {
    hide FirstDearest;
    assert ToSet([n] + path) == ToSet(path) + {n};
  }

  // The next step back is a step of the graph that is not on the path yet.
  lemma NextIsNew(g: Graph, before: seq<Id>, path: seq<Id>, n: Id)
    requires !HasCycle(DependsOn(g)) && NonNegative(g) && Costly(g, before + path)
    requires path != [] && path[0] in g.nodes.at
    requires FirstDearest(g, g.nodes.at[path[0]].dependencies) == Some(n)
    ensures n in g.nodes.at && n !in ToSet(path)
  {
    hide HasCycle, NonNegative, FirstDearest, MaxOf, CostTo, Costly, HeaviestTo;
    var deps := g.nodes.at[path[0]].dependencies;
    StartsInGraph(g, deps);
    DearestIsMax(g, deps);
    CutCosts(g, before, path);
    NotYetOnPath(g, path, n);
  }

  lemma {:induction false} BehindAfter(before: seq<Id>, path: seq<Id>)
    requires before == [] || before[|before| - 1] == ""
    requires "" !in path
    ensures Behind(before + path) == path
  {
    if path == [] {
      assert before + path == before;
    } else {
      var n := |path| - 1;
      assert (before + path)[..|before| + n] == before + path[..n];
      BehindAfter(before, path[..n]);
    }
  }

  lemma BehindTrace(g: Graph, next: Option<Id>, path: seq<Id>)
    requires Named(next) == "" && "" !in ToSet(path)
    requires next.Some? ==> next.value in g.nodes.at && next.value !in ToSet(path)
    ensures Behind(TraceTo(g, next, ToSet(path)) + path) == path
  {
    hide FirstDearest, Behind;
    BehindAfter(TraceTo(g, next, ToSet(path)), path);
  }

  // A step "" of cost 1 and a step "a" of cost 1 that depends on it: the costliest chain
  // is both, the path found is ["a"].
  const EMPTY_ID: Nodes := JsMap(["", "a"], map["" := Node([], ["a"], 1.0), "a" := Node([""], [], 1.0)])

  lemma CutOffInput(g: Graph)
    requires g.nodes == EMPTY_ID
    ensures g.nodes.Valid() && !HasCycle(DependsOn(g)) && NonNegative(g)
    ensures GreedyTrace(g) == ["", "a"] && Behind(GreedyTrace(g)) == ["a"]
    ensures !MaxChainCost(g, ChainCost(g, ["a"]))
  {
    hide MaxChainCost, HasCycle;
    CutOffAcyclic(g);
    CutOffTrace(g);
    CutOffExactly(g);
  }

  lemma CutOffAcyclic(g: Graph)
    requires g.nodes == EMPTY_ID
    ensures g.nodes.Valid() && !HasCycle(DependsOn(g)) && NonNegative(g)
  {
    var r, order := DependsOn(g), ["", "a"];
    assert order[..1] == [""] && ToSet(order) == {"", "a"} by {
      assert order[0] == "" && order[1] == "a";
    }
    assert forall d :: d in Deps(r, "a") ==> d == "";
    TopologicalIsAcyclic(r, order);
  }

  lemma CutOffTrace(g: Graph)
    requires g.nodes == EMPTY_ID
    ensures GreedyTrace(g) == ["", "a"] && Behind(GreedyTrace(g)) == ["a"]
  {
    assert ["", "a"][..1] == [""] && [""][..0] == [] && [""][..1] == [""];
    CutOffCosts(g);
    CutOffOrder(g);
    assert FirstDearest(g, []) == None;
    assert FirstDearest(g, [""]) == Some("");
    assert FirstDearest(g, ["", "a"]) == Some("a");
    assert TraceTo(g, None, {"a", ""}) == [];
    assert TraceTo(g, Some(""), {"a"}) == [""] by {
      assert {"a"} + {""} == {"a", ""};
      assert [] + [""] == [""];
    }
    assert TraceTo(g, Some("a"), {}) == ["", "a"] by {
      assert {} + {"a"} == {"a"};
      assert [""] + ["a"] == ["", "a"];
    }
    assert Behind([""]) == [] && [] + ["a"] == ["a"];
  }

  lemma CutOffCosts(g: Graph)
    requires g.nodes == EMPTY_ID
    ensures CostTo(g, "") == 1.0 && CostTo(g, "a") == 2.0
  {
    assert [""][..0] == [];
    assert MaxTotal(g, [], {""}) == 0.0 && TotalCost(g, "", {}) == 1.0;
    assert MaxTotal(g, [], {"a"}) == 0.0;
    assert MaxTotal(g, [], {"a"} + {""}) == 0.0 && TotalCost(g, "", {"a"}) == 1.0;
    assert MaxTotal(g, [""], {"a"}) == 1.0;
    assert {} + {"a"} == {"a"};
  }

  lemma CutOffOrder(g: Graph)
    requires g.nodes == EMPTY_ID
    ensures MemoOrder(g) == ["", "a"]
  {
    var r := DependsOn(g);
    assert ["", "a"][..1] == [""] && [""][..0] == [];
    assert |g.nodes.at| == 2 by {
      assert g.nodes.at.Keys == {"", "a"} && |g.nodes.at.Keys| == |g.nodes.at|;
    }
    assert r.Keys == {"", "a"} && r[""] == [] && r["a"] == [""];
    assert VisitedAll(r, [], [], 2, false) == Some([]);
    assert [] + [""] == [""];
    assert Visited(r, [], "", 3, false) == Some([""]);
    assert VisitedAll(r, [], [], 3, false) == Some([]);
    assert VisitedAll(r, [], [""], 3, false) == Some([""]);
    assert VisitedAll(r, [""], [], 2, false) == Some([""]);
    assert Visited(r, [""], "", 2, false) == Some([""]);
    assert VisitedAll(r, [""], [""], 2, false) == Some([""]);
    assert Visited(r, [""], "a", 3, false) == Some([""] + ["a"]);
  }

  lemma EmptyTrace(g: Graph)
    ensures Costly(g, []) && ChainCost(g, []) == 0.0
  {
    assert ToSet<Id>([]) == {};
  }

  lemma MaxOfNonNegative(g: Graph, deps: set<Id>, v: real)
    requires MaxOf(g, deps, v)
    ensures v >= 0.0
  {
  }

  lemma HeaviestUnique(g: Graph, n: Id, v: real, w: real)
    requires HeaviestTo(g, n, v) && HeaviestTo(g, n, w)
    ensures v == w
  {
    hide EndsAt;
    var c :| EndsAt(DependsOn(g), c, n) && ChainCost(g, c) == v;
    var d :| EndsAt(DependsOn(g), d, n) && ChainCost(g, d) == w;
    assert ChainCost(g, d) <= v && ChainCost(g, c) <= w;
  }

  lemma {:induction false} ChainCostConcat(g: Graph, a: seq<Id>, b: seq<Id>)
    ensures ChainCost(g, a + b) == ChainCost(g, a) + ChainCost(g, b)
  {
    if b == [] {
      assert a + b == a;
    } else {
      assert (a + b)[..|a + b| - 1] == a + b[..|b| - 1];
      ChainCostConcat(g, a, b[..|b| - 1]);
    }
  }

  lemma NotYetOnPath(g: Graph, path: seq<Id>, n: Id)
    requires !HasCycle(DependsOn(g)) && Chain(DependsOn(g), path)
    requires path != [] ==> n in Deps(DependsOn(g), path[0])
    ensures n !in ToSet(path)
  {
    if n in path {
      var r := DependsOn(g);
      var k :| 0 <= k < |path| && path[k] == n;
      var front := path[..k + 1];
      ChainIsWalk(r, front);
      WalkCloses(r, Reversed(front), 0, n);
    }
  }
}
