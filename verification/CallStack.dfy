// Memoised recursion along dependencies without any check for cycles, as
// findCriticalPath, getCriticalPath and estimateParallelExecutionTime do it
// (planner/execution-plan.ts, planner/dependency-graph.ts): when it returns.
module CallStack {
  import opened Seqs
  import opened Graphs

  // The memo after a call for n when `depth` more calls fit on the stack; None: the
  // stack overflows. Some walks also memoise ids that are no steps.
  function Visited(r: Relation, memo: seq<Id>, n: Id, depth: nat, missing: bool): Option<seq<Id>>
    decreases depth, 0
  {
    if depth == 0 then None
    else if n in memo then Some(memo)
    else if n !in r then Some(if missing then memo + [n] else memo)
    else
      var inner := VisitedAll(r, memo, r[n], depth - 1, missing);
      if inner.None? then None else Some(if n in inner.value then inner.value else inner.value + [n])
  }

  // One call after the other.
  function VisitedAll(r: Relation, memo: seq<Id>, ids: seq<Id>, depth: nat, missing: bool): Option<seq<Id>>
    decreases depth, |ids| + 1
  {
    if ids == [] then Some(memo)
    else
      var before := VisitedAll(r, memo, ids[..|ids| - 1], depth, missing);
      if before.None? then None else Visited(r, before.value, ids[|ids| - 1], depth, missing)
  }

  lemma VisitedNext(r: Relation, memo: seq<Id>, ids: seq<Id>, depth: nat, missing: bool, i: nat)
    requires i < |ids|
    ensures VisitedAll(r, memo, ids[..0], depth, missing) == Some(memo)
    ensures var before := VisitedAll(r, memo, ids[..i], depth, missing);
      VisitedAll(r, memo, ids[..i + 1], depth, missing) ==
        if before.None? then None else Visited(r, before.value, ids[i], depth, missing)
  {
    hide Visited;
    assert ids[..i + 1][..i] == ids[..i];
  }

  lemma NothingVisited(r: Relation, memo: seq<Id>, depth: nat, missing: bool)
    ensures VisitedAll(r, memo, [], depth, missing) == Some(memo)
  {
  }

  // A call that did not return is never made up for.
  lemma {:induction false} OverflowLasts(r: Relation, memo: seq<Id>, ids: seq<Id>, depth: nat, missing: bool, i: nat)
    requires i <= |ids| && VisitedAll(r, memo, ids[..i], depth, missing).None?
    ensures VisitedAll(r, memo, ids, depth, missing).None?
    decreases |ids| - i
  {
    hide Visited, VisitedAll;
    if i == |ids| {
      assert ids[..i] == ids;
    } else {
      VisitedNext(r, memo, ids, depth, missing, i);
      OverflowLasts(r, memo, ids, depth, missing, i + 1);
    }
  }

  // ---------------------------------------------------------------- leading into a cycle

  // p walks from n and comes back to an id it has met.
  ghost predicate Returning(r: Relation, n: Id, p: seq<Id>) {
    Walk(r, p) && p != [] && p[0] == n && !Distinct(p)
  }

  ghost predicate LeadsIntoCycle(r: Relation, n: Id) {
    exists p :: Returning(r, n, p)
  }

  lemma LeadsOn(r: Relation, n: Id, d: Id)
    requires d in Deps(r, n) && LeadsIntoCycle(r, d)
    ensures LeadsIntoCycle(r, n)
  {
    var p :| Returning(r, d, p);
    var q := [n] + p;
    forall i | 0 <= i < |q| - 1
      ensures q[i + 1] in Deps(r, q[i])
    {
      if i > 0 { assert p[i - 1 + 1] in Deps(r, p[i - 1]); }
    }
    var i, j :| 0 <= i < j < |p| && p[i] == p[j];
    assert q[i + 1] == q[j + 1];
    assert Returning(r, n, q);
  }

  lemma LeadsThrough(r: Relation, n: Id) returns (d: Id)
    requires LeadsIntoCycle(r, n)
    ensures n in r && d in Deps(r, n) && LeadsIntoCycle(r, d)
  {
    var p :| Returning(r, n, p);
    var i, j :| 0 <= i < j < |p| && p[i] == p[j];
    assert p[0 + 1] in Deps(r, p[0]);
    d := p[1];
    if i > 0 {
      var q := p[1..];
      forall k | 0 <= k < |q| - 1
        ensures q[k + 1] in Deps(r, q[k])
      {
        assert p[k + 1 + 1] in Deps(r, p[k + 1]);
      }
      assert q[i - 1] == q[j - 1];
      assert Returning(r, d, q);
    } else {
      // n itself is on the cycle: once round and back to d.
      var q := p[1..j + 1] + [d];
      forall k | 0 <= k < |q| - 1
        ensures q[k + 1] in Deps(r, q[k])
      {
        if k < j - 1 {
          assert p[k + 1 + 1] in Deps(r, p[k + 1]);
        }
      }
      assert q[0] == q[|q| - 1] && |q| >= 2;
      assert Returning(r, d, q);
    }
  }

  lemma CycleIsLedInto(r: Relation)
    ensures HasCycle(r) <==> exists n :: n in r && LeadsIntoCycle(r, n)
  {
    if HasCycle(r) {
      var p :| Cycle(r, p);
      assert p[0 + 1] in Deps(r, p[0]);
      assert Returning(r, p[0], p);
    }
    if n :| n in r && LeadsIntoCycle(r, n) {
      var p :| Returning(r, n, p);
      var i, j :| 0 <= i < j < |p| && p[i] == p[j];
      var c := p[i..j + 1];
      forall k | 0 <= k < |c| - 1
        ensures c[k + 1] in Deps(r, c[k])
      {
        assert p[i + k + 1] in Deps(r, p[i + k]);
      }
      assert Cycle(r, c);
    }
  }

  // ---------------------------------------------------------------- when it returns

  ghost predicate Safe(r: Relation, memo: seq<Id>) {
    forall m :: m in memo ==> !LeadsIntoCycle(r, m)
  }

  // What returns does not lead into a cycle, however deep the stack.
  lemma {:induction false} ReturnIsSafe(r: Relation, memo: seq<Id>, n: Id, depth: nat, missing: bool)
    requires Safe(r, memo) && Visited(r, memo, n, depth, missing).Some?
    ensures !LeadsIntoCycle(r, n) && Safe(r, Visited(r, memo, n, depth, missing).value)
    decreases depth, 0
  {
    hide LeadsIntoCycle, VisitedAll;
    if n !in memo {
      if n in r {
        AllReturnsAreSafe(r, memo, r[n], depth - 1, missing);
      }
      if LeadsIntoCycle(r, n) {
        var d := LeadsThrough(r, n);
      }
    }
  }

  lemma {:induction false} AllReturnsAreSafe(r: Relation, memo: seq<Id>, ids: seq<Id>, depth: nat, missing: bool)
    requires Safe(r, memo) && VisitedAll(r, memo, ids, depth, missing).Some?
    ensures Safe(r, ids) && Safe(r, VisitedAll(r, memo, ids, depth, missing).value)
    decreases depth, |ids| + 1
  {
    hide LeadsIntoCycle, Visited;
    if ids != [] {
      var n := |ids| - 1;
      AllReturnsAreSafe(r, memo, ids[..n], depth, missing);
      ReturnIsSafe(r, VisitedAll(r, memo, ids[..n], depth, missing).value, ids[n], depth, missing);
      assert ids == ids[..n] + [ids[n]];
    }
  }

  // What does not lead into a cycle returns, once the stack has room for every step not
  // on it.
  lemma {:induction false} SafeReturns(r: Relation, memo: seq<Id>, n: Id, depth: nat, missing: bool, stack: seq<Id>)
    requires !LeadsIntoCycle(r, n) && OnStack(r, stack, ToSet(stack), n)
    requires depth > |r.Keys - ToSet(stack)|
    ensures Visited(r, memo, n, depth, missing).Some?
    decreases depth, 0
  {
    hide LeadsIntoCycle, OnStack, VisitedAll;
    NotOnStack(r, stack, n);
    if n !in memo && n in r {
      AppendToSet(stack, n);
      assert r.Keys - ToSet(stack + [n]) == r.Keys - ToSet(stack) - {n};
      forall d | d in r[n]
        ensures !LeadsIntoCycle(r, d) && OnStack(r, stack + [n], ToSet(stack + [n]), d)
      {
        if LeadsIntoCycle(r, d) { LeadsOn(r, n, d); }
        Descend(r, stack, ToSet(stack), n, d);
      }
      AllSafeReturn(r, memo, r[n], depth - 1, missing, stack + [n]);
    }
  }

  lemma {:induction false} AllSafeReturn(r: Relation, memo: seq<Id>, ids: seq<Id>, depth: nat, missing: bool,
                                         stack: seq<Id>)
    requires forall n :: n in ids ==> !LeadsIntoCycle(r, n) && OnStack(r, stack, ToSet(stack), n)
    requires depth > |r.Keys - ToSet(stack)|
    ensures VisitedAll(r, memo, ids, depth, missing).Some?
    decreases depth, |ids| + 1
  {
    hide LeadsIntoCycle, OnStack, Visited;
    if ids != [] {
      var n := |ids| - 1;
      AllSafeReturn(r, memo, ids[..n], depth, missing, stack);
      SafeReturns(r, VisitedAll(r, memo, ids[..n], depth, missing).value, ids[n], depth, missing, stack);
    }
  }

  lemma NotOnStack(r: Relation, stack: seq<Id>, n: Id)
    requires !LeadsIntoCycle(r, n) && OnStack(r, stack, ToSet(stack), n)
    ensures n !in ToSet(stack)
  {
    if n in ToSet(stack) {
      var k :| 0 <= k < |stack| && stack[k] == n;
      var p := stack[k..] + [n];
      forall i | 0 <= i < |p| - 1
        ensures p[i + 1] in Deps(r, p[i])
      {
        if i < |p| - 2 { assert stack[k + i + 1] in Deps(r, stack[k + i]); }
      }
      assert p[0] == p[|p| - 1];
      assert Returning(r, n, p);
    }
  }

  // With room for every step and one call more, the walk returns exactly when none of
  // its ids leads into a cycle; otherwise it overflows every stack.
  lemma ReturnsExactly(r: Relation, ids: seq<Id>, depth: nat, missing: bool)
    ensures VisitedAll(r, [], ids, depth, missing).Some? ==> Safe(r, ids)
    ensures depth > |r| && Safe(r, ids) ==> VisitedAll(r, [], ids, depth, missing).Some?
  {
    hide LeadsIntoCycle, VisitedAll;
    if VisitedAll(r, [], ids, depth, missing).Some? {
      AllReturnsAreSafe(r, [], ids, depth, missing);
    }
    if depth > |r| && Safe(r, ids) {
      EmptyWalk(r);
      assert ToSet<Id>([]) == {} && r.Keys - {} == r.Keys && |r.Keys| == |r|;
      AllSafeReturn(r, [], ids, depth, missing, []);
    }
  }

  // ---------------------------------------------------------------- the depth does not matter

  lemma {:induction false} DeeperSame(r: Relation, memo: seq<Id>, n: Id, depth: nat, deeper: nat, missing: bool)
    requires Visited(r, memo, n, depth, missing).Some? && depth <= deeper
    ensures Visited(r, memo, n, deeper, missing) == Visited(r, memo, n, depth, missing)
    decreases depth, 0
  {
    hide VisitedAll;
    if n !in memo && n in r {
      AllDeeperSame(r, memo, r[n], depth - 1, deeper - 1, missing);
    }
  }

  lemma {:induction false} AllDeeperSame(r: Relation, memo: seq<Id>, ids: seq<Id>, depth: nat, deeper: nat,
                                         missing: bool)
    requires VisitedAll(r, memo, ids, depth, missing).Some? && depth <= deeper
    ensures VisitedAll(r, memo, ids, deeper, missing) == VisitedAll(r, memo, ids, depth, missing)
    decreases depth, |ids| + 1
  {
    hide Visited;
    if ids != [] {
      var n := |ids| - 1;
      AllDeeperSame(r, memo, ids[..n], depth, deeper, missing);
      DeeperSame(r, VisitedAll(r, memo, ids[..n], depth, missing).value, ids[n], depth, deeper, missing);
    }
  }

  // ---------------------------------------------------------------- what the memo holds

  lemma {:induction false} VisitedHolds(r: Relation, memo: seq<Id>, n: Id, depth: nat)
    requires ToSet(memo) <= r.Keys && Visited(r, memo, n, depth, false).Some?
    ensures ToSet(memo) <= ToSet(Visited(r, memo, n, depth, false).value) <= r.Keys
    ensures n in r ==> n in ToSet(Visited(r, memo, n, depth, false).value)
    decreases depth, 0
  {
    hide VisitedAll;
    if n !in memo && n in r {
      AllVisitedHold(r, memo, r[n], depth - 1);
      AppendToSet(VisitedAll(r, memo, r[n], depth - 1, false).value, n);
    }
  }

  lemma {:induction false} AllVisitedHold(r: Relation, memo: seq<Id>, ids: seq<Id>, depth: nat)
    requires ToSet(memo) <= r.Keys && VisitedAll(r, memo, ids, depth, false).Some?
    ensures var after := VisitedAll(r, memo, ids, depth, false).value;
      ToSet(memo) <= ToSet(after) <= r.Keys && ToSet(ids) * r.Keys <= ToSet(after)
    decreases depth, |ids| + 1
  {
    hide Visited, ToSet;
    if ids == [] {
      assert ToSet(ids) == {} by { TakeEnds(ids); assert ids[..0] == ids; }
    } else {
      var n := |ids| - 1;
      TakeOne(ids, n);
      assert ids[..n + 1] == ids;
      AllVisitedHold(r, memo, ids[..n], depth);
      VisitedHolds(r, VisitedAll(r, memo, ids[..n], depth, false).value, ids[n], depth);
    }
  }
}
