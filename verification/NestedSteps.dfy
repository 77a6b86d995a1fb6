// Steps that contain steps (executeBranch, executeLoop, executeSequential and
// executeParallel of executor/executor.ts): their inner steps write into the same
// results as the steps of the plan.
module NestedSteps {
  import opened Graphs

  // What a step yields; `truthy` is what the cache lookup tests.
  datatype Data = Nothing | Data(truthy: bool, payload: string)

  datatype StepResult = StepResult(success: bool, data: Data, cacheHit: bool)

  type Results = map<Id, StepResult>

  // What happens when a step is executed. A branch, a loop and a sequential step try
  // inner steps one after the other: those of the branch taken, those of the body once
  // for each item, or all. A parallel step tries all of them and then records their
  // results. Everything else, an error before the first inner step included, is simple.
  datatype Attempt =
    | Simple(success: bool, data: Data)
    | InOrder(inner: seq<Inner>, data: Data)
    | Together(inner: seq<Inner>, data: Data)

  datatype Inner = Inner(id: Id, attempt: Attempt)

  const FAILURE: StepResult := StepResult(false, Nothing, false)

  // How a step ends: a container succeeds exactly when all it tries does.
  function Ends(a: Attempt): (r: StepResult)
    ensures !r.cacheHit
  {
    match a
    case Simple(success, data) => if success then StepResult(true, data, false) else FAILURE
    case InOrder(inner, data) => if AllEndWell(inner) then StepResult(true, data, false) else FAILURE
    case Together(inner, data) => if AllEndWell(inner) then StepResult(true, data, false) else FAILURE
  }

  predicate AllEndWell(inner: seq<Inner>) {
    inner == [] || (Ends(inner[0].attempt).success && AllEndWell(inner[1..]))
  }

  // ---------------------------------------------------------------- what is written

  function Written(a: Attempt, m: Results): Results
    decreases a
  {
    match a
    case Simple(_, _) => m
    case InOrder(inner, _) => WrittenInOrder(inner, m)
    case Together(inner, _) => Recorded(inner, WrittenTogether(inner, m))
  }

  function WrittenInOrder(inner: seq<Inner>, m: Results): Results
    decreases inner
  {
    if inner == [] then m
    else
      var r := Ends(inner[0].attempt);
      var after := Written(inner[0].attempt, m)[inner[0].id := r];
      if r.success then WrittenInOrder(inner[1..], after) else after
  }

  function WrittenTogether(inner: seq<Inner>, m: Results): Results
    decreases inner
  {
    if inner == [] then m else WrittenTogether(inner[1..], Written(inner[0].attempt, m))
  }

  // The results in turn, up to and including the first failure.
  function Recorded(inner: seq<Inner>, m: Results): Results {
    if inner == [] then m
    else
      var r := Ends(inner[0].attempt);
      if r.success then Recorded(inner[1..], m[inner[0].id := r]) else m[inner[0].id := r]
  }

  method ExecuteStep(a: Attempt, stepResults: Results) returns (r: StepResult, after: Results)
    ensures r == Ends(a) && after == Written(a, stepResults)
    decreases a
  {
    match a
    case Simple(success, data) =>
      r, after := if success then StepResult(true, data, false) else FAILURE, stepResults;
    case InOrder(inner, data) =>
      var ok;
      ok, after := ExecuteInOrder(inner, stepResults);
      r := if ok then StepResult(true, data, false) else FAILURE;
    case Together(inner, data) =>
      var ok;
      ok, after := ExecuteTogether(inner, stepResults);
      r := if ok then StepResult(true, data, false) else FAILURE;
  }

  // The loop of executeBranch, executeSequential and, over all items, executeLoop.
  method ExecuteInOrder(inner: seq<Inner>, stepResults: Results) returns (ok: bool, after: Results)
    ensures ok == AllEndWell(inner) && after == WrittenInOrder(inner, stepResults)
    decreases inner
  {
    after := stepResults;
    for i := 0 to |inner|
      invariant AllEndWell(inner) == AllEndWell(inner[i..])
      invariant WrittenInOrder(inner, stepResults) == WrittenInOrder(inner[i..], after)
    {
      assert inner[i..][1..] == inner[i + 1..];
      var result;
      result, after := ExecuteStep(inner[i].attempt, after);
      after := after[inner[i].id := result];
      if !result.success {
        return false, after;
      }
    }
    return true, after;
  }

  method ExecuteTogether(inner: seq<Inner>, stepResults: Results) returns (ok: bool, after: Results)
    ensures ok == AllEndWell(inner) && after == Recorded(inner, WrittenTogether(inner, stepResults))
    decreases inner
  {
    after := stepResults;
    var results: seq<StepResult> := [];
    for i := 0 to |inner|
      invariant WrittenTogether(inner, stepResults) == WrittenTogether(inner[i..], after)
      invariant |results| == i && forall j :: 0 <= j < i ==> results[j] == Ends(inner[j].attempt)
    {
      assert inner[i..][1..] == inner[i + 1..];
      var result;
      result, after := ExecuteStep(inner[i].attempt, after);
      results := results + [result];
    }
    for i := 0 to |inner|
      invariant AllEndWell(inner) == AllEndWell(inner[i..])
      invariant Recorded(inner, WrittenTogether(inner, stepResults)) == Recorded(inner[i..], after)
    {
      assert inner[i..][1..] == inner[i + 1..];
      after := after[inner[i].id := results[i]];
      if !results[i].success {
        return false, after;
      }
    }
    return true, after;
  }

  // ---------------------------------------------------------------- what a step leaves behind

  // The ids of the steps inside.
  function Names(a: Attempt): set<Id> {
    match a
    case Simple(_, _) => {}
    case InOrder(inner, _) => NamesOf(inner)
    case Together(inner, _) => NamesOf(inner)
  }

  function NamesOf(inner: seq<Inner>): set<Id> {
    if inner == [] then {} else {inner[0].id} + Names(inner[0].attempt) + NamesOf(inner[1..])
  }

  ghost predicate AllSucceeded(m: Results) {
    forall id :: id in m ==> m[id].success
  }

  ghost predicate Touches(m: Results, after: Results, names: set<Id>) {
    && m.Keys <= after.Keys <= m.Keys + names
    && forall id :: id in m && id !in names ==> after[id] == m[id]
  }

  // A step writes only under the ids inside it, and a step that succeeds leaves
  // nothing but successes.
  lemma {:induction false} WritesInside(a: Attempt, m: Results)
    ensures Touches(m, Written(a, m), Names(a))
    ensures AllSucceeded(m) && Ends(a).success ==> AllSucceeded(Written(a, m))
    decreases a
  {
    match a
    case Simple(_, _) =>
    case InOrder(inner, _) => InOrderWritesInside(inner, m);
    case Together(inner, _) =>
      TogetherWritesInside(inner, m);
      RecordsInside(inner, WrittenTogether(inner, m));
  }

  lemma {:induction false} InOrderWritesInside(inner: seq<Inner>, m: Results)
    ensures Touches(m, WrittenInOrder(inner, m), NamesOf(inner))
    ensures AllSucceeded(m) && AllEndWell(inner) ==> AllSucceeded(WrittenInOrder(inner, m))
    decreases inner
  {
    hide Ends, Written, Names;
    if inner != [] {
      WritesInside(inner[0].attempt, m);
      var r := Ends(inner[0].attempt);
      var after := Written(inner[0].attempt, m)[inner[0].id := r];
      if r.success {
        InOrderWritesInside(inner[1..], after);
      }
    }
  }

  lemma {:induction false} TogetherWritesInside(inner: seq<Inner>, m: Results)
    ensures Touches(m, WrittenTogether(inner, m), NamesOf(inner))
    ensures AllSucceeded(m) && AllEndWell(inner) ==> AllSucceeded(WrittenTogether(inner, m))
    decreases inner
  {
    hide Ends, Written, Names;
    if inner != [] {
      WritesInside(inner[0].attempt, m);
      TogetherWritesInside(inner[1..], Written(inner[0].attempt, m));
    }
  }

  lemma {:induction false} RecordsInside(inner: seq<Inner>, m: Results)
    ensures Touches(m, Recorded(inner, m), NamesOf(inner))
    ensures AllSucceeded(m) && AllEndWell(inner) ==> AllSucceeded(Recorded(inner, m))
    decreases inner
  {
    hide Ends, Names;
    if inner != [] {
      var r := Ends(inner[0].attempt);
      if r.success {
        RecordsInside(inner[1..], m[inner[0].id := r]);
      }
    }
  }
}
