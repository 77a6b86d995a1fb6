// Which steps of a run the cache answers, told from the plan and the steps that ran
// before rather than from the cache as it is kept.
module CachedRun {
  import opened Seqs
  import opened Graphs
  import opened PlanGraph
  import opened NestedSteps
  import opened Executor

  // The first step with this id may be cached, and under this key.
  ghost predicate CachesUnder(steps: seq<Step>, id: Id, key: string) {
    exists k :: FirstCaches(steps, id, key, k)
  }

  ghost predicate FirstCaches(steps: seq<Step>, id: Id, key: string, k: int) {
    && 0 <= k < |steps| && steps[k].id == id && (forall j :: 0 <= j < k ==> steps[j].id != id)
    && steps[k].cacheable && steps[k].cacheKey == key && key != ""
  }

  lemma {:induction false} KeyIsOfFirst(steps: seq<Step>, id: Id, key: string)
    ensures KeyOf(steps, id) == Some(key) <==> CachesUnder(steps, id, key)
  {
    if steps != [] {
      var rest := steps[1..];
      KeyIsOfFirst(rest, id, key);
      if steps[0].id == id {
        assert KeyOf(steps, id) == Some(key) ==> FirstCaches(steps, id, key, 0);
      } else {
        assert forall j :: 0 < j < |steps| ==> steps[j] == rest[j - 1];
        if k :| FirstCaches(rest, id, key, k) { assert FirstCaches(steps, id, key, k + 1); }
        if k :| FirstCaches(steps, id, key, k) { assert FirstCaches(rest, id, key, k - 1); }
      }
    }
  }

  // The j-th step was executed, succeeded and is cached under the key.
  ghost predicate Stored(steps: seq<Step>, order: seq<Id>, own: seq<StepResult>, j: nat, key: string)
    requires |own| <= |order|
  {
    j < |own| && !own[j].cacheHit && own[j].success && CachesUnder(steps, order[j], key)
  }

  // The j-th step is the last such one among the first i.
  ghost predicate Latest(steps: seq<Step>, order: seq<Id>, own: seq<StepResult>, i: nat, key: string, j: nat)
    requires |own| <= |order|
  {
    j < i && Stored(steps, order, own, j, key) && forall m: nat :: j < m < i ==> !Stored(steps, order, own, m, key)
  }

  // After i steps the key holds what the latest of them stored, or what the cache held
  // before the run.
  ghost predicate Holding(steps: seq<Step>, cache: Cache, order: seq<Id>, own: seq<StepResult>, i: nat, key: string,
                          d: Data)
    requires |own| <= |order|
  {
    || (exists j: nat :: Latest(steps, order, own, i, key, j) && own[j].data == d)
    || (key in cache && cache[key] == d && forall j: nat :: j < i ==> !Stored(steps, order, own, j, key))
  }

  lemma {:induction false} CacheIsHeld(steps: seq<Step>, cache: Cache, outcomes: Outcomes, order: seq<Id>,
                                       own: seq<StepResult>, i: nat, key: string, d: Data)
    requires Course(steps, cache, outcomes, order, own) && i <= |own|
    ensures var now := CacheAfter(steps, cache, Executed(order, own[..i]), outcomes);
      (key in now && now[key] == d) <==> Holding(steps, cache, order, own, i, key, d)
    decreases i
  {
    hide KeyOf, Ends, CachesUnder, CacheAfter, Course, Executed, Next, Holding;
    CourseLength(steps, cache, outcomes, order, own);
    if i == 0 {
      NothingYet(steps, order, outcomes, cache);
      HoldingNone(steps, cache, order, own, key, d);
    } else {
      var n := i - 1;
      CacheIsHeld(steps, cache, outcomes, order, own, n, key, d);
      HoldingNext(steps, cache, order, own, n, key, d);
      KeyIsOfFirst(steps, order[n], key);
      StepIsNext(steps, cache, outcomes, order, own, n);
      var ran := Executed(order, own[..n]);
      RanOneMore(steps, cache, ran, outcomes, order[n]);
      assert ran + [] == ran;
      assert Executed(order, own[..i]) == ran + if own[n].cacheHit then [] else [order[n]];
    }
  }

  lemma CourseLength(steps: seq<Step>, cache: Cache, outcomes: Outcomes, order: seq<Id>, own: seq<StepResult>)
    requires Course(steps, cache, outcomes, order, own)
    ensures |own| <= |order|
  {
  }

  lemma HoldingNone(steps: seq<Step>, cache: Cache, order: seq<Id>, own: seq<StepResult>, key: string, d: Data)
    requires |own| <= |order|
    ensures Holding(steps, cache, order, own, 0, key, d) <==> key in cache && cache[key] == d
  {
  }

  lemma HoldingNext(steps: seq<Step>, cache: Cache, order: seq<Id>, own: seq<StepResult>, n: nat, key: string, d: Data)
    requires n < |own| <= |order|
    ensures Holding(steps, cache, order, own, n + 1, key, d) <==>
      if Stored(steps, order, own, n, key) then own[n].data == d else Holding(steps, cache, order, own, n, key, d)
  {
    hide Stored;
    if Stored(steps, order, own, n, key) {
      assert Latest(steps, order, own, n + 1, key, n);
    } else {
      assert forall j: nat :: Latest(steps, order, own, n + 1, key, j) <==> Latest(steps, order, own, n, key, j);
    }
  }

  // The n-th step was answered by the cache or ended as it was executed.
  lemma StepIsNext(steps: seq<Step>, cache: Cache, outcomes: Outcomes, order: seq<Id>, own: seq<StepResult>, n: nat)
    requires Course(steps, cache, outcomes, order, own) && n < |own| <= |order|
    ensures own[n] == Next(steps, cache, outcomes, order, own[..n])
    ensures !own[n].cacheHit ==> own[n] == Ends(outcomes(|Executed(order, own[..n])|))
    ensures Executed(order, own[..n + 1]) == Executed(order, own[..n]) + if own[n].cacheHit then [] else [order[n]]
  {
    hide KeyOf, CacheAfter, Ends;
    assert own[..n + 1][..n] == own[..n];
  }

  // A step is answered by the cache exactly when its plan entry may be cached and its
  // key then holds something that is not falsy; it then ends with that, successfully.
  lemma HitsExactly(steps: seq<Step>, cache: Cache, outcomes: Outcomes, order: seq<Id>, own: seq<StepResult>, i: nat)
    requires Course(steps, cache, outcomes, order, own) && i < |own| <= |order|
    ensures own[i].cacheHit <==> exists key, d ::
      CachesUnder(steps, order[i], key) && Holding(steps, cache, order, own, i, key, d) && d.Data? && d.truthy
    ensures own[i].cacheHit ==> own[i].success && exists key ::
      CachesUnder(steps, order[i], key) && Holding(steps, cache, order, own, i, key, own[i].data)
  {
    hide CachesUnder, Holding, CacheAfter, Course, KeyOf, Executed, Ends;
    StepIsNext(steps, cache, outcomes, order, own, i);
    var now := CacheAfter(steps, cache, Executed(order, own[..i]), outcomes);
    forall key, d
      ensures CachesUnder(steps, order[i], key) && Holding(steps, cache, order, own, i, key, d) <==>
        KeyOf(steps, order[i]) == Some(key) && key in now && now[key] == d
    {
      KeyIsOfFirst(steps, order[i], key);
      CacheIsHeld(steps, cache, outcomes, order, own, i, key, d);
    }
    if KeyOf(steps, order[i]).Some? && KeyOf(steps, order[i]).value in now {
      var key := KeyOf(steps, order[i]).value;
      KeyIsOfFirst(steps, order[i], key);
      CacheIsHeld(steps, cache, outcomes, order, own, i, key, now[key]);
    }
  }

  ghost predicate MayBeCached(steps: seq<Step>, id: Id) {
    exists key :: CachesUnder(steps, id, key)
  }

  lemma MayBeCachedHasKey(steps: seq<Step>, id: Id)
    ensures MayBeCached(steps, id) <==> KeyOf(steps, id).Some?
  {
    hide KeyOf, CachesUnder;
    if key :| CachesUnder(steps, id, key) {
      KeyIsOfFirst(steps, id, key);
    }
    if KeyOf(steps, id).Some? {
      KeyIsOfFirst(steps, id, KeyOf(steps, id).value);
    }
  }

  ghost function Missed(steps: seq<Step>, order: seq<Id>, own: seq<StepResult>): set<nat>
    requires |own| <= |order|
  {
    set j: nat | j < |own| && !own[j].cacheHit && MayBeCached(steps, order[j])
  }

  lemma MissedNext(steps: seq<Step>, order: seq<Id>, own: seq<StepResult>)
    requires 0 < |own| <= |order|
    ensures var n := |own| - 1;
      |Missed(steps, order, own)| ==
        |Missed(steps, order, own[..n])| + if !own[n].cacheHit && MayBeCached(steps, order[n]) then 1 else 0
  {
    hide MayBeCached;
    var n := |own| - 1;
    var before := Missed(steps, order, own[..n]);
    assert n !in before;
    assert Missed(steps, order, own) ==
      before + if !own[n].cacheHit && MayBeCached(steps, order[n]) then {n} else {};
  }

  lemma MissesNext(steps: seq<Step>, order: seq<Id>, own: seq<StepResult>)
    requires 0 < |own| <= |order|
    ensures var n := |own| - 1;
      Misses(steps, Executed(order, own)) ==
        Misses(steps, Executed(order, own[..n])) + if !own[n].cacheHit && KeyOf(steps, order[n]).Some? then 1 else 0
  {
    hide KeyOf;
    var n := |own| - 1;
    var ran := Executed(order, own[..n]);
    assert (ran + [order[n]])[..|ran|] == ran && ran + [] == ran;
  }

  // The misses are the steps executed although they may be cached.
  lemma {:induction false} MissesExactly(steps: seq<Step>, order: seq<Id>, own: seq<StepResult>)
    requires |own| <= |order|
    ensures Misses(steps, Executed(order, own)) == |Missed(steps, order, own)|
  {
    hide KeyOf, MayBeCached;
    if own != [] {
      var n := |own| - 1;
      hide Misses, Missed, Executed;
      MissesExactly(steps, order, own[..n]);
      MayBeCachedHasKey(steps, order[n]);
      MissedNext(steps, order, own);
      MissesNext(steps, order, own);
    }
  }
}
