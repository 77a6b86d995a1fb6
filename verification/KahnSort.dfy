// Kahn's algorithm over in-degrees (utils/array-utils.ts). The thrown error is
// modelled by None.
module KahnSort {
  import opened Seqs
  import opened JsMaps
  import opened Graphs

  type Edges = JsMap<Id, seq<Id>>

  // The keys the in-degree table ends up with.
  ghost function Counted(nodes: seq<Id>, edges: Edges): set<Id> {
    ToSet(nodes) + (set k | k in edges.at && edges.at[k] != [])
  }

  // How many dependency entries of n are not yet discharged by `done`. An entry
  // repeated in the list is counted each time but discharged only once.
  ghost function Pending(r: Relation, n: Id, done: set<Id>): int {
    |Deps(r, n)| - |ToSet(Deps(r, n)) * done|
  }

  ghost predicate CountsPending(r: Relation, deg: map<Id, int>, done: set<Id>) {
    forall n :: n in deg ==> deg[n] == Pending(r, n, done)
  }

  ghost predicate SelfContained(r: Relation, nodes: seq<Id>) {
    forall n :: n in nodes ==> Distinct(Deps(r, n)) && ToSet(Deps(r, n)) <= ToSet(nodes)
  }

  lemma PendingStep(r: Relation, n: Id, done: set<Id>, x: Id)
    requires x !in done
    ensures Pending(r, n, done + {x}) == Pending(r, n, done) - if x in Deps(r, n) then 1 else 0
  {
    var d := ToSet(Deps(r, n));
    if x in d {
      assert d * (done + {x}) == d * done + {x};
    } else {
      assert d * (done + {x}) == d * done;
    }
  }

  lemma PendingZero(r: Relation, n: Id, done: set<Id>)
    ensures Pending(r, n, done) >= 0
    ensures Pending(r, n, done) == 0 <==> Distinct(Deps(r, n)) && ToSet(Deps(r, n)) <= done
  {
    var d := ToSet(Deps(r, n));
    DistinctCard(Deps(r, n));
    SubsetCard(d * done, d);
    if d <= done { assert d * done == d; }
  }

  method InDegrees(nodes: seq<Id>, edges: Edges) returns (inDegree: JsMap<Id, int>)
    requires edges.Valid()
    ensures inDegree.Valid()
    ensures inDegree.at.Keys == Counted(nodes, edges)
    ensures CountsPending(edges.at, inDegree.at, {})
  {
    inDegree := JsMaps.Empty();
    for i := 0 to |nodes|
      invariant inDegree.Valid() && inDegree.at.Keys == ToSet(nodes[..i])
      invariant forall n :: n in inDegree.at ==> inDegree.at[n] == 0
    {
      assert nodes[..i + 1] == nodes[..i] + [nodes[i]];
      inDegree := inDegree.Put(nodes[i], 0);
    }
    assert nodes[..|nodes|] == nodes;
    inDegree := CountEdges(edges, inDegree);
    forall n | n in inDegree.at
      ensures inDegree.at[n] == Pending(edges.at, n, {})
    {
      assert ToSet(Deps(edges.at, n)) * {} == {};
    }
  }

  method CountEdges(edges: Edges, zeros: JsMap<Id, int>) returns (inDegree: JsMap<Id, int>)
    requires edges.Valid() && zeros.Valid()
    requires forall n :: n in zeros.at ==> zeros.at[n] == 0
    ensures inDegree.Valid()
    ensures inDegree.at.Keys == zeros.at.Keys + set k | k in edges.at && edges.at[k] != []
    ensures forall n :: n in inDegree.at ==> inDegree.at[n] == |Deps(edges.at, n)|
  {
    hide JsMap.Valid;
    inDegree := zeros;
    AllKeys(edges);
    for i := 0 to |edges.keys|
      invariant inDegree.Valid()
      invariant inDegree.at.Keys ==
        zeros.at.Keys + set k | k in ToSet(edges.keys[..i]) && k in edges.at && edges.at[k] != []
      invariant forall n :: n in inDegree.at ==>
        inDegree.at[n] == if n in ToSet(edges.keys[..i]) then |Deps(edges.at, n)| else 0
    {
      KeyAt(edges, i);
      var node := edges.keys[i];
      var deps := edges.at[node];
      ghost var before := inDegree.at;
      for j := 0 to |deps|
        invariant inDegree.Valid()
        invariant inDegree.at == if j == 0 then before else before[node := j]
      {
        inDegree := inDegree.Put(node, (if inDegree.Has(node) then inDegree.at[node] else 0) + 1);
      }
    }
  }

  ghost function Released(deg: map<Id, int>): set<Id> {
    set n | n in deg && deg[n] == 0
  }

  method Ready(inDegree: JsMap<Id, int>) returns (queue: seq<Id>)
    requires inDegree.Valid()
    ensures Distinct(queue)
    ensures ToSet(queue) == Released(inDegree.at)
  {
    hide Distinct, JsMap.Valid;
    queue := [];
    DistinctCard(queue);
    AllKeys(inDegree);
    for i := 0 to |inDegree.keys|
      invariant Distinct(queue)
      invariant ToSet(queue) == Released(inDegree.at) * ToSet(inDegree.keys[..i])
    {
      KeyAt(inDegree, i);
      var node := inDegree.keys[i];
      if inDegree.at[node] == 0 {
        assert node !in ToSet(queue);
        DistinctAppend(queue, node);
        queue := queue + [node];
      }
    }
  }

  lemma ReleasedPut(deg: map<Id, int>, k: Id, v: int)
    requires k in deg
    ensures Released(deg[k := v]) == Released(deg) - {k} + if v == 0 then {k} else {}
  {
  }

  // The state while `node` is being discharged: `seen` holds the dependents whose
  // lists have been looked at, `freed` those of them left with nothing pending.
  ghost predicate Discharging(r: Relation, before: map<Id, int>, deg: map<Id, int>, done: set<Id>, node: Id,
                              seen: set<Id>, freed: seq<Id>) {
    && deg.Keys == before.Keys
    && (forall n :: n in deg ==> deg[n] == Pending(r, n, if n in seen then done + {node} else done))
    && Distinct(freed)
    && ToSet(freed) == Released(deg) - Released(before)
  }

  lemma {:induction false} DischargeOne(r: Relation, before: map<Id, int>, deg: map<Id, int>, done: set<Id>, node: Id,
                                        seen: set<Id>, freed: seq<Id>, k: Id)
    requires CountsPending(r, before, done) && Discharging(r, before, deg, done, node, seen, freed)
    requires k !in seen && node !in done
    ensures node !in Deps(r, k) ==> Discharging(r, before, deg, done, node, seen + {k}, freed)
    ensures node in Deps(r, k) && k in deg ==>
      var less := deg[k] - 1;
      Discharging(r, before, deg[k := less], done, node, seen + {k}, if less == 0 then freed + [k] else freed)
  {
    hide Distinct, ToSet, Pending;
    PendingStep(r, k, done, node);
    if node in Deps(r, k) && k in deg {
      PendingZero(r, k, done + {node});
      ReleasedPut(deg, k, deg[k] - 1);
      assert k !in Released(before) + Released(deg);
      if deg[k] == 1 {
        DistinctAppend(freed, k);
      }
    }
  }

  // Discharges `node` from every dependent, queueing those left with nothing pending.
  method Discharge(node: Id, edges: Edges, inDegree: JsMap<Id, int>, queue: seq<Id>, ghost done: set<Id>)
    returns (inDegree': JsMap<Id, int>, queue': seq<Id>, ghost freed: seq<Id>)
    requires edges.Valid() && inDegree.Valid()
    requires forall k :: k in edges.at && edges.at[k] != [] ==> k in inDegree.at
    requires CountsPending(edges.at, inDegree.at, done) && node !in done
    ensures inDegree'.Valid() && inDegree'.at.Keys == inDegree.at.Keys
    ensures CountsPending(edges.at, inDegree'.at, done + {node})
    ensures queue' == queue + freed && Distinct(freed)
    ensures ToSet(freed) == Released(inDegree'.at) - Released(inDegree.at)
  {
    hide Distinct, ToSet, Pending, Released, JsMap.Valid;
    inDegree', queue', freed := inDegree, queue, [];
    AllKeys(edges);
    DistinctCard(freed);
    assert Discharging(edges.at, inDegree.at, inDegree.at, done, node, {}, []) by {
      assert ToSet<Id>([]) == Released(inDegree.at) - Released(inDegree.at);
    }
    for i := 0 to |edges.keys|
      invariant inDegree'.Valid()
      invariant Discharging(edges.at, inDegree.at, inDegree'.at, done, node, ToSet(edges.keys[..i]), freed)
      invariant queue' == queue + freed
    {
      KeyAt(edges, i);
      var dependent := edges.keys[i];
      DischargeOne(edges.at, inDegree.at, inDegree'.at, done, node, ToSet(edges.keys[..i]), freed, dependent);
      if node in edges.at[dependent] {
        var newDegree := (if inDegree'.Has(dependent) then inDegree'.at[dependent] else 0) - 1;
        inDegree' := inDegree'.Put(dependent, newDegree);
        if newDegree == 0 {
          queue' := queue' + [dependent];
          freed := freed + [dependent];
        }
      }
    }
    forall n | n in inDegree.at
      ensures inDegree'.at[n] == Pending(edges.at, n, done + {node})
    {
      PendingStep(edges.at, n, done, node);
    }
  }

  // What the main loop keeps: the entries already emitted are a topological
  // order, and emitted or queued are exactly the counted ids with nothing pending.
  ghost predicate Sorting(r: Relation, deg: map<Id, int>, result: seq<Id>, queue: seq<Id>) {
    && Topological(r, result)
    && CountsPending(r, deg, ToSet(result))
    && Distinct(queue)
    && ToSet(result) !! ToSet(queue)
    && ToSet(result) + ToSet(queue) == Released(deg)
  }

  lemma {:induction false} SortingStep(r: Relation, deg: map<Id, int>, result: seq<Id>, node: Id, rest: seq<Id>,
                                       deg': map<Id, int>, freed: seq<Id>)
    requires Sorting(r, deg, result, [node] + rest) && node !in ToSet(result)
    requires deg'.Keys == deg.Keys && CountsPending(r, deg', ToSet(result) + {node})
    requires Distinct(freed) && ToSet(freed) == Released(deg') - Released(deg)
    ensures Sorting(r, deg', result + [node], rest + freed)
  {
    hide Distinct, Ordered, ToSet, Pending;
    var queue := [node] + rest;
    assert queue[0] == node && queue[1..] == rest;
    DistinctTail(queue);
    assert node in Released(deg);
    PendingZero(r, node, ToSet(result));
    OrderedAppend(r, result, node);
    DistinctAppend(result, node);
    forall n | n in Released(deg)
      ensures n in Released(deg')
    {
      PendingZero(r, n, ToSet(result));
      PendingZero(r, n, ToSet(result) + {node});
    }
    DistinctConcat(rest, freed);
  }

  // Sorts `nodes` so that dependencies come first, or throws (None).
  method TopologicalSort(nodes: seq<Id>, edges: Edges) returns (r: Option<seq<Id>>)
    requires edges.Valid()
    ensures r.Some? ==> Topological(edges.at, r.value) && |r.value| == |nodes|
    ensures edges.at.Keys <= ToSet(nodes) ==>
      (r.Some? <==> Distinct(nodes) && SelfContained(edges.at, nodes) && !HasCycle(edges.at))
    ensures edges.at.Keys <= ToSet(nodes) && r.Some? ==> multiset(r.value) == multiset(nodes)
  {
    hide Distinct, ToSet, Ordered, Pending, JsMap.Valid, HasCycle, Counted, SelfContained;
    var inDegree := InDegrees(nodes, edges);
    var queue := Ready(inDegree);
    var result: seq<Id> := [];
    StartSorting(edges.at, inDegree.at, queue);
    while queue != []
      invariant inDegree.Valid() && inDegree.at.Keys == Counted(nodes, edges)
      invariant Sorting(edges.at, inDegree.at, result, queue)
      decreases |inDegree.at.Keys| - |result|
    {
      hide Sorting, Released;
      var node := queue[0];
      var rest := queue[1..];
      assert queue == [node] + rest;
      ghost var deg, emitted := inDegree.at, result;
      EmittedBound(edges.at, deg, result, queue);
      DependentsCounted(nodes, edges);
      result := result + [node];
      ghost var freed;
      inDegree, queue, freed := Discharge(node, edges, inDegree, rest, ToSet(emitted));
      SortingStep(edges.at, deg, emitted, node, rest, inDegree.at, freed);
    }
    if edges.at.Keys <= ToSet(nodes) {
      CountedListed(nodes, edges);
      if |result| == |nodes| {
        AllEmitted(nodes, edges.at, inDegree.at, result);
      } else if Distinct(nodes) && SelfContained(edges.at, nodes) {
        SomeLeftOver(nodes, edges.at, inDegree.at, result);
      }
    }
    if |result| != |nodes| {
      return None;
    }
    return Some(result);
  }

  lemma StartSorting(r: Relation, deg: map<Id, int>, queue: seq<Id>)
    requires CountsPending(r, deg, {}) && Distinct(queue) && ToSet(queue) == Released(deg)
    ensures Sorting(r, deg, [], queue)
  {
    hide Distinct, Pending, Ordered;
    TopologicalEmpty(r);
    assert ToSet<Id>([]) == {};
  }

  lemma CountedListed(nodes: seq<Id>, edges: Edges)
    requires edges.at.Keys <= ToSet(nodes)
    ensures Counted(nodes, edges) == ToSet(nodes)
  {
  }

  lemma EmittedBound(r: Relation, deg: map<Id, int>, result: seq<Id>, queue: seq<Id>)
    requires Sorting(r, deg, result, queue) && queue != []
    ensures queue[0] !in ToSet(result) && |result| < |deg.Keys|
    ensures CountsPending(r, deg, ToSet(result))
  {
    hide ToSet, Pending, Ordered, Distinct;
    var node := queue[0];
    DistinctTail(queue);
    DistinctCard(result);
    assert node in Released(deg);
    SubsetCard(ToSet(result) + {node}, deg.Keys);
  }

  lemma DependentsCounted(nodes: seq<Id>, edges: Edges)
    ensures forall k :: k in edges.at && edges.at[k] != [] ==> k in Counted(nodes, edges)
  {
  }

  // What the final state says about the input when every id was emitted.
  lemma {:induction false} AllEmitted(nodes: seq<Id>, r: Relation, deg: map<Id, int>, result: seq<Id>)
    requires Sorting(r, deg, result, [])
    requires deg.Keys == ToSet(nodes) && r.Keys <= ToSet(nodes)
    requires |result| == |nodes|
    ensures Distinct(nodes) && SelfContained(r, nodes) && !HasCycle(r)
    ensures multiset(result) == multiset(nodes)
  {
    assert ToSet(result) <= ToSet(nodes);
    SubsetCard(ToSet(result), ToSet(nodes));
    DistinctCard(result);
    DistinctCard(nodes);
    DistinctPermutation(result, nodes);
    forall n | n in nodes
      ensures Distinct(Deps(r, n)) && ToSet(Deps(r, n)) <= ToSet(nodes)
    {
      assert n in ToSet(result);
      PendingZero(r, n, ToSet(result));
    }
    TopologicalIsAcyclic(r, result);
  }

  // Otherwise the ids never emitted all wait for another such id.
  lemma {:induction false} SomeLeftOver(nodes: seq<Id>, r: Relation, deg: map<Id, int>, result: seq<Id>)
    requires Sorting(r, deg, result, [])
    requires deg.Keys == ToSet(nodes) && Distinct(nodes) && SelfContained(r, nodes)
    requires |result| != |nodes|
    ensures HasCycle(r)
  {
    var left := ToSet(nodes) - ToSet(result);
    assert left != {} by {
      DistinctCard(result);
      DistinctCard(nodes);
      assert left == {} ==> ToSet(result) == ToSet(nodes);
    }
    assert Stuck(r, left) by {
      forall n | n in left
        ensures DependsInto(r, n, left)
      {
        WaitsForLeftover(nodes, r, deg, result, n);
      }
    }
    StuckSetHasCycle(r, left);
  }

  lemma WaitsForLeftover(nodes: seq<Id>, r: Relation, deg: map<Id, int>, result: seq<Id>, n: Id)
    requires Sorting(r, deg, result, [])
    requires deg.Keys == ToSet(nodes) && SelfContained(r, nodes)
    requires n in nodes && n !in result
    ensures DependsInto(r, n, ToSet(nodes) - ToSet(result))
  {
    PendingZero(r, n, ToSet(result));
    assert n in ToSet(nodes) && n !in ToSet(result);
    assert n !in Released(deg);
    var d :| d in ToSet(Deps(r, n)) && d !in ToSet(result);
    assert d in Deps(r, n) && d in ToSet(nodes);
  }
}
