// The run loop of executor/executor.ts: order the steps, run them one after the
// other, stop at the first failure.
module Executor {
  import opened Seqs
  import opened JsMaps
  import opened Graphs
  import opened PlanGraph
  import opened NestedSteps
  import KahnSort

  datatype ExecutionResult = ExecutionResult(
    success: bool, data: Data, stepResults: Results, cacheHits: nat, cacheMisses: nat)

  type Cache = map<string, Data>

  // The n-th step of the plan that is really executed goes as outcomes(n) says, the
  // steps inside it included; quantifying over outcomes covers every behaviour.
  type Outcomes = nat -> Attempt

  ghost predicate Sortable(steps: seq<Step>) {
    && Distinct(Ids(steps))
    && KahnSort.SelfContained(StepRelation(steps), Ids(steps))
    && !HasCycle(StepRelation(steps))
  }

  // The dependency order, or the order of the plan itself when there is none.
  method GetExecutionOrder(steps: seq<Step>) returns (order: seq<Id>)
    ensures Sortable(steps) ==> Topological(StepRelation(steps), order) && multiset(order) == multiset(Ids(steps))
    ensures !Sortable(steps) ==> order == Ids(steps)
  {
    hide Distinct, ToSet, JsMap.Valid, KahnSort.SelfContained, HasCycle;
    var edges: KahnSort.Edges := JsMaps.Empty();
    var nodes: seq<Id> := [];
    for i := 0 to |steps|
      invariant edges.Valid() && edges.at == StepRelation(steps[..i])
      invariant nodes == Ids(steps[..i])
    {
      assert steps[..i + 1][..i] == steps[..i];
      nodes := nodes + [steps[i].id];
      edges := edges.Put(steps[i].id, steps[i].dependencies);
    }
    assert steps[..|steps|] == steps;
    StepTableKeys(steps);
    var sorted := KahnSort.TopologicalSort(nodes, edges);
    if sorted.Some? {
      return sorted.value;
    }
    return nodes;
  }

  function Find(steps: seq<Step>, id: Id): (r: Option<Step>)
    ensures r.Some? ==> r.value in steps && r.value.id == id
    ensures r.None? ==> forall s :: s in steps ==> s.id != id
  {
    if steps == [] then None
    else if steps[0].id == id then Some(steps[0])
    else Find(steps[1..], id)
  }

  // Under which key the result of a step is cached, if at all.
  function KeyOf(steps: seq<Step>, id: Id): Option<string> {
    var step := Find(steps, id);
    if step.Some? && step.value.cacheable && step.value.cacheKey != "" then Some(step.value.cacheKey) else None
  }

  // Executed steps that the cache could have answered but did not.
  function Misses(steps: seq<Step>, ran: seq<Id>): nat {
    if ran == [] then 0
    else Misses(steps, ran[..|ran| - 1]) + if KeyOf(steps, ran[|ran| - 1]).Some? then 1 else 0
  }

  // The cache once the steps in `ran` have been executed: the data of each successful
  // one under its key, later ones overriding earlier ones.
  function CacheAfter(steps: seq<Step>, cache: Cache, ran: seq<Id>, outcomes: Outcomes): Cache {
    if ran == [] then cache
    else
      var n := |ran| - 1;
      var before := CacheAfter(steps, cache, ran[..n], outcomes);
      var key, r := KeyOf(steps, ran[n]), Ends(outcomes(n));
      if key.Some? && r.success then before[key.value := r.data] else before
  }

  lemma RanOneMore(steps: seq<Step>, cache: Cache, ran: seq<Id>, outcomes: Outcomes, id: Id)
    ensures var r, key, before := Ends(outcomes(|ran|)), KeyOf(steps, id), CacheAfter(steps, cache, ran, outcomes);
      CacheAfter(steps, cache, ran + [id], outcomes)
        == if key.Some? && r.success then before[key.value := r.data] else before
    ensures Misses(steps, ran + [id]) == Misses(steps, ran) + if KeyOf(steps, id).Some? then 1 else 0
  {
    hide KeyOf, Ends;
    var more := ran + [id];
    assert more[..|more| - 1] == ran && more[|ran|] == id;
  }

  // Only successful steps leave something new in the cache, and nothing is dropped.
  lemma {:induction false} OnlySuccessIsCached(steps: seq<Step>, cache: Cache, ran: seq<Id>, outcomes: Outcomes,
                                               key: string)
    ensures var after := CacheAfter(steps, cache, ran, outcomes);
      && cache.Keys <= after.Keys
      && (key in after && !(key in cache && after[key] == cache[key]) ==>
           exists n {:trigger outcomes(n)} :: 0 <= n < |ran| && Ends(outcomes(n)).success &&
             Ends(outcomes(n)).data == after[key]
             && KeyOf(steps, ran[n]) == Some(key))
  {
    hide KeyOf, Ends;
    if ran != [] {
      var n := |ran| - 1;
      OnlySuccessIsCached(steps, cache, ran[..n], outcomes, key);
      assert forall m {:trigger outcomes(m)} :: 0 <= m < n ==> ran[..n][m] == ran[m];
    }
  }

  // ---------------------------------------------------------------- the course of a run

  // own[i] is how the i-th step of `order` ended. Those executed, in order; the others
  // were answered from the cache.
  function Executed(order: seq<Id>, own: seq<StepResult>): seq<Id>
    requires |own| <= |order|
  {
    if own == [] then []
    else
      var n := |own| - 1;
      Executed(order, own[..n]) + if own[n].cacheHit then [] else [order[n]]
  }

  // How the next step ends: with what the cache holds for it, or by being executed.
  function Next(steps: seq<Step>, cache: Cache, outcomes: Outcomes, order: seq<Id>, own: seq<StepResult>): StepResult
    requires |own| < |order|
  {
    var ran := Executed(order, own);
    var now, key := CacheAfter(steps, cache, ran, outcomes), KeyOf(steps, order[|own|]);
    if key.Some? && key.value in now && now[key.value] != Nothing && now[key.value].truthy
    then StepResult(true, now[key.value], true)
    else Ends(outcomes(|ran|))
  }

  // The steps ended as they had to, each but the last one with success.
  ghost predicate Course(steps: seq<Step>, cache: Cache, outcomes: Outcomes, order: seq<Id>, own: seq<StepResult>) {
    && |own| <= |order|
    && (forall i :: 0 <= i < |own| ==> own[i] == Next(steps, cache, outcomes, order, own[..i]))
    && (forall i :: 0 <= i < |own| - 1 ==> own[i].success)
  }

  // What stands in the results after these steps: for each executed step first what the
  // steps inside it wrote, then its own result.
  function Record(order: seq<Id>, own: seq<StepResult>, outcomes: Outcomes): Results
    requires |own| <= |order|
  {
    if own == [] then map[]
    else
      var n := |own| - 1;
      var before := Record(order, own[..n], outcomes);
      var inside := if own[n].cacheHit then before else Written(outcomes(|Executed(order, own[..n])|), before);
      inside[order[n] := own[n]]
  }

  // The ids of the steps inside the first n steps executed.
  function Inside(outcomes: Outcomes, n: nat): set<Id> {
    if n == 0 then {} else Inside(outcomes, n - 1) + Names(outcomes(n - 1))
  }

  lemma {:induction false} CourseNext(steps: seq<Step>, cache: Cache, outcomes: Outcomes, order: seq<Id>,
                                      own: seq<StepResult>, r: StepResult)
    requires Course(steps, cache, outcomes, order, own) && |own| < |order|
    requires forall i :: 0 <= i < |own| ==> own[i].success
    requires r == Next(steps, cache, outcomes, order, own)
    ensures Course(steps, cache, outcomes, order, own + [r])
    ensures Executed(order, own + [r]) == Executed(order, own) + if r.cacheHit then [] else [order[|own|]]
    ensures Record(order, own + [r], outcomes) ==
      (if r.cacheHit then Record(order, own, outcomes)
       else Written(outcomes(|Executed(order, own)|), Record(order, own, outcomes)))[order[|own|] := r]
  {
    hide Next, CacheAfter, Written;
    var more := own + [r];
    assert more[..|own|] == own;
    forall i | 0 <= i < |more|
      ensures more[i] == Next(steps, cache, outcomes, order, more[..i])
    {
      assert i < |own| ==> more[..i] == own[..i];
    }
  }

  // ---------------------------------------------------------------- the run loop

  method Execute(steps: seq<Step>, cache: Cache, outcomes: Outcomes)
    returns (result: ExecutionResult, cache': Cache, ghost order: seq<Id>, ghost own: seq<StepResult>)
    ensures Sortable(steps) ==> Topological(StepRelation(steps), order) && multiset(order) == multiset(Ids(steps))
    ensures !Sortable(steps) ==> order == Ids(steps)
    ensures Course(steps, cache, outcomes, order, own)
    ensures result.success ==> |own| == |order| && forall i :: 0 <= i < |own| ==> own[i].success
    ensures !result.success ==> own != [] && !own[|own| - 1].success
    ensures result.stepResults == Record(order, own, outcomes)
    ensures result.success <==> forall id :: id in result.stepResults ==> result.stepResults[id].success
    ensures result.success ==> ToSet(Ids(steps)) <= result.stepResults.Keys
    ensures result.data == if result.success && own != [] then own[|own| - 1].data else Nothing
    ensures cache' == CacheAfter(steps, cache, Executed(order, own), outcomes)
    ensures result.cacheHits == |own| - |Executed(order, own)|
    ensures result.cacheMisses == Misses(steps, Executed(order, own))
  {
    hide Distinct, Topological, KahnSort.SelfContained, HasCycle, StepTable, ToSet, CacheAfter, Misses, Course, Record,
      Executed, Written, Ends;
    var ids := GetExecutionOrder(steps);
    order, own := ids, [];
    var stepResults: Results := map[];
    var cacheHits, cacheMisses: nat := 0, 0;
    var executed: nat := 0;
    NothingYet(steps, ids, outcomes, cache);
    SameIds(ids, Ids(steps));
    cache' := cache;
    for i := 0 to |ids|
      invariant |own| == i && Course(steps, cache, outcomes, order, own)
      invariant forall j :: 0 <= j < i ==> own[j].success
      invariant stepResults == Record(order, own, outcomes)
      invariant executed == |Executed(order, own)| && cacheHits == i - executed
      invariant cache' == CacheAfter(steps, cache, Executed(order, own), outcomes)
      invariant cacheMisses == Misses(steps, Executed(order, own))
    {
      OrderIsKnown(steps, order, i);
      var step := Find(steps, ids[i]);
      if step.None? {
        continue;
      }
      var s := step.value;
      CourseNext(steps, cache, outcomes, order, own, Next(steps, cache, outcomes, order, own));
      RanOneMore(steps, cache, Executed(order, own), outcomes, ids[i]);
      if s.cacheable && s.cacheKey != "" {
        if s.cacheKey in cache' && cache'[s.cacheKey] != Nothing && cache'[s.cacheKey].truthy {
          cacheHits := cacheHits + 1;
          stepResults := stepResults[ids[i] := StepResult(true, cache'[s.cacheKey], true)];
          own := own + [StepResult(true, cache'[s.cacheKey], true)];
          assert Executed(order, own[..i]) + [] == Executed(order, own[..i]);
          continue;
        }
        cacheMisses := cacheMisses + 1;
      }
      var r, after := ExecuteStep(outcomes(executed), stepResults);
      executed := executed + 1;
      stepResults := after[ids[i] := r];
      own := own + [r];
      if s.cacheable && s.cacheKey != "" && r.success {
        cache' := cache'[s.cacheKey := r.data];
      }
      if !r.success {
        RecordFails(order, own, outcomes);
        result := ExecutionResult(false, Nothing, stepResults, cacheHits, cacheMisses);
        return;
      }
    }
    RecordSucceeds(steps, cache, outcomes, order, own);
    RecordKeys(order, own, outcomes);
    TakeEnds(ids);
    var data := Nothing;
    if ids != [] {
      RecordLast(order, own, outcomes);
      data := stepResults[ids[|ids| - 1]].data;
    }
    result := ExecutionResult(true, data, stepResults, cacheHits, cacheMisses);
  }

  lemma SameIds(order: seq<Id>, ids: seq<Id>)
    ensures multiset(order) == multiset(ids) ==> ToSet(order) == ToSet(ids)
  {
    if multiset(order) == multiset(ids) {
      assert forall x :: x in order <==> x in multiset(order);
      assert forall x :: x in ids <==> x in multiset(ids);
    }
  }

  lemma NothingYet(steps: seq<Step>, order: seq<Id>, outcomes: Outcomes, cache: Cache)
    ensures Course(steps, cache, outcomes, order, []) && Record(order, [], outcomes) == map[] &&
      Executed(order, []) == []
    ensures CacheAfter(steps, cache, [], outcomes) == cache && Misses(steps, []) == 0
  {
  }

  // Every id of the order belongs to a step.
  lemma OrderIsKnown(steps: seq<Step>, order: seq<Id>, i: nat)
    requires i < |order| && multiset(order) == multiset(Ids(steps))
    ensures Find(steps, order[i]).Some?
  {
    assert order[i] in multiset(order);
    assert order[i] in Ids(steps);
    var k :| 0 <= k < |steps| && Ids(steps)[k] == order[i];
    assert steps[k].id == order[i];
  }

  // ---------------------------------------------------------------- what the results hold

  lemma RecordLast(order: seq<Id>, own: seq<StepResult>, outcomes: Outcomes)
    requires own != [] && |own| <= |order|
    ensures order[|own| - 1] in Record(order, own, outcomes)
    ensures Record(order, own, outcomes)[order[|own| - 1]] == own[|own| - 1]
  {
  }

  lemma RecordFails(order: seq<Id>, own: seq<StepResult>, outcomes: Outcomes)
    requires own != [] && |own| <= |order| && !own[|own| - 1].success
    ensures exists id :: id in Record(order, own, outcomes) && !Record(order, own, outcomes)[id].success
  {
    RecordLast(order, own, outcomes);
  }

  // As long as no step fails, no result is a failure, whatever steps inside steps wrote.
  lemma {:induction false} RecordSucceeds(steps: seq<Step>, cache: Cache, outcomes: Outcomes, order: seq<Id>,
                                          own: seq<StepResult>)
    requires Course(steps, cache, outcomes, order, own) && forall i :: 0 <= i < |own| ==> own[i].success
    ensures AllSucceeded(Record(order, own, outcomes))
    decreases |own|
  {
    hide CacheAfter, Written, Ends;
    if own != [] {
      var n := |own| - 1;
      assert forall i :: 0 <= i < n ==> own[..n][..i] == own[..i];
      RecordSucceeds(steps, cache, outcomes, order, own[..n]);
      WritesInside(outcomes(|Executed(order, own[..n])|), Record(order, own[..n], outcomes));
    }
  }

  lemma {:induction false} InsideGrows(outcomes: Outcomes, m: nat, n: nat)
    requires m <= n
    ensures Inside(outcomes, m) <= Inside(outcomes, n)
    decreases n
  {
    hide Names;
    if m < n {
      InsideGrows(outcomes, m, n - 1);
    }
  }

  lemma ExecutedNext(order: seq<Id>, own: seq<StepResult>)
    requires own != [] && |own| <= |order|
    ensures var n := |own| - 1;
      |Executed(order, own)| == |Executed(order, own[..n])| + if own[n].cacheHit then 0 else 1
  {
  }

  // Every step started has a result; any other id belongs to a step inside a step.
  lemma {:induction false} RecordKeys(order: seq<Id>, own: seq<StepResult>, outcomes: Outcomes)
    requires |own| <= |order|
    ensures var keys, started := Record(order, own, outcomes).Keys, ToSet(order[..|own|]);
      started <= keys <= started + Inside(outcomes, |Executed(order, own)|)
    decreases |own|
  {
    hide Written, Names, ToSet, Executed;
    if own == [] {
      TakeEnds(order);
    } else {
      var n := |own| - 1;
      RecordKeys(order, own[..n], outcomes);
      TakeOne(order, n);
      ExecutedNext(order, own);
      WritesInside(outcomes(|Executed(order, own[..n])|), Record(order, own[..n], outcomes));
    }
  }

  // A step keeps the result it ended with, unless a step inside a step has its id.
  lemma {:induction false} RecordKeepsOwn(order: seq<Id>, own: seq<StepResult>, outcomes: Outcomes, i: nat)
    requires Distinct(order) && i < |own| <= |order|
    requires order[i] !in Inside(outcomes, |Executed(order, own)|)
    ensures order[i] in Record(order, own, outcomes) && Record(order, own, outcomes)[order[i]] == own[i]
    decreases |own|
  {
    hide Written, Names;
    var n := |own| - 1;
    var e := |Executed(order, own[..n])|;
    InsideGrows(outcomes, e, |Executed(order, own)|);
    if i < n {
      RecordKeepsOwn(order, own[..n], outcomes, i);
      WritesInside(outcomes(e), Record(order, own[..n], outcomes));
      assert Inside(outcomes, e + 1) == Inside(outcomes, e) + Names(outcomes(e));
    }
  }

  // On a sorted run a step starts only once each of its dependencies has ended with
  // success and a success stands under its id; no step of the plan starts twice.
  lemma SortedRun(steps: seq<Step>, cache: Cache, outcomes: Outcomes, order: seq<Id>, own: seq<StepResult>, i: nat,
                  d: Id)
    requires Topological(StepRelation(steps), order) && Course(steps, cache, outcomes, order, own)
    requires i < |own| && d in Deps(StepRelation(steps), order[i])
    ensures exists p :: 0 <= p < i && order[p] == d && own[p].success
    ensures d in Record(order, own[..i], outcomes) && Record(order, own[..i], outcomes)[d].success
    ensures forall p :: 0 <= p < |own| && p != i ==> order[p] != order[i]
  {
    hide StepTable, Next, Record;
    assert d in ToSet(order[..i]);
    var p :| 0 <= p < i && order[..i][p] == d;
    assert order[p] == d;
    assert forall j :: 0 <= j < i ==> own[..i][..j] == own[..j] && own[..i][j] == own[j];
    RecordSucceeds(steps, cache, outcomes, order, own[..i]);
    RecordKeys(order, own[..i], outcomes);
  }
}
