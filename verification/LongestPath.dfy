// The longest chain by step count: findCriticalPath (planner/execution-plan.ts).
module LongestPath {
  import opened Seqs
  import opened JsMaps
  import opened Graphs
  import opened PlanGraph
  import opened LevelFacts
  import opened CallStack

  datatype Best = Best(length: nat, path: seq<Id>)

  ghost predicate EndsAt(r: Relation, c: seq<Id>, n: Id) {
    Chain(r, c) && c != [] && c[|c| - 1] == n
  }

  // path is a chain ending at n and no chain ending at n is longer.
  ghost predicate LongestTo(r: Relation, n: Id, path: seq<Id>) {
    && EndsAt(r, path, n) && ToSet(path) <= Mentioned(r) + {n}
    && forall c :: EndsAt(r, c, n) ==> |c| <= |path|
  }

  ghost predicate MemoOk(r: Relation, memo: map<Id, Best>) {
    forall n :: n in memo ==> LongestTo(r, n, memo[n].path) && memo[n].length == |memo[n].path|
  }

  // best is the longest answer among the dependencies in deps.
  ghost predicate BestOf(r: Relation, deps: set<Id>, best: Best) {
    && best.length == |best.path|
    && (best.path == [] ==> deps == {})
    && (best.path != [] ==> LongestTo(r, best.path[|best.path| - 1], best.path) && best.path[|best.path| - 1] in deps)
    && forall d, c :: d in deps && EndsAt(r, c, d) ==> |c| <= best.length
  }

  lemma BestOfStep(r: Relation, deps: set<Id>, best: Best, d: Id, b: Best)
    requires BestOf(r, deps, best) && LongestTo(r, d, b.path) && b.length == |b.path|
    ensures BestOf(r, deps + {d}, if b.length > best.length then b else best)
  {
    hide EndsAt;
    assert b.path != [] && b.path[|b.path| - 1] == d by { assert EndsAt(r, b.path, d); EndsAtLast(r, b.path, d); }
  }

  lemma EndsAtLast(r: Relation, c: seq<Id>, n: Id)
    requires EndsAt(r, c, n)
    ensures c != [] && c[|c| - 1] == n
  {
  }

  lemma ExtendBest(r: Relation, n: Id, best: Best)
    requires BestOf(r, ToSet(Deps(r, n)), best) && (best.path != [] ==> n in r)
    ensures LongestTo(r, n, best.path + [n])
  {
    var path := best.path + [n];
    if best.path != [] {
      assert best.path[|best.path| - 1] in Deps(r, n);
      DependencyMentioned(r, n, best.path[|best.path| - 1]);
    }
    ChainAppend(r, best.path, n);
    forall c | EndsAt(r, c, n)
      ensures |c| <= |path|
    {
      if |c| > 1 {
        var front := c[..|c| - 1];
        assert c[|c| - 2] in Deps(r, c[|c| - 2 + 1]);
        assert EndsAt(r, front, c[|c| - 2]);
        assert c[|c| - 2] in ToSet(Deps(r, n));
      }
    }
    AppendToSet(best.path, n);
  }

  lemma DependencyMentioned(r: Relation, n: Id, d: Id)
    requires d in Deps(r, n)
    ensures d in Mentioned(r) && n in r
  {
  }

  class PathMemo {
    var memo: JsMap<Id, Best>

    constructor ()
      ensures memo == JsMaps.Empty()
    {
      memo := JsMaps.Empty();
    }

    // `depth` is how many nested calls fit on the stack; None: it overflows.
    method Dfs(g: Graph, stepId: Id, depth: nat) returns (best: Option<Best>)
      requires memo.Valid() && MemoOk(DependsOn(g), memo.at)
      modifies this
      ensures memo.Valid() && MemoOk(DependsOn(g), memo.at)
      ensures best.Some? ==> LongestTo(DependsOn(g), stepId, best.value.path) && best.value.length == |best.value.path|
      ensures best.Some? <==> Visited(DependsOn(g), old(memo.keys), stepId, depth, true).Some?
      ensures best.Some? ==> Some(memo.keys) == Visited(DependsOn(g), old(memo.keys), stepId, depth, true)
      decreases depth
    {
      hide LongestTo, BestOf, Walk, JsMap.Valid, VisitedAll;
      ghost var r := DependsOn(g);
      ghost var done := memo.keys;
      if depth == 0 {
        return None;
      }
      KeysAgree(memo, stepId);
      if memo.Has(stepId) {
        return Some(memo.at[stepId]);
      }
      var maxPath := Best(0, []);
      EmptyBest(r);
      if !g.nodes.Has(stepId) || g.nodes.at[stepId].dependencies == [] {
        assert ToSet(Deps(r, stepId)) == {};
        NothingVisited(r, done, depth - 1, true);
        ExtendBest(r, stepId, maxPath);
        assert [] + [stepId] == [stepId];
        memo := memo.Put(stepId, Best(1, [stepId]));
        return Some(Best(1, [stepId]));
      }
      var dependencies := g.nodes.at[stepId].dependencies;
      assert ToSet(dependencies[..0]) == {};
      VisitedNext(r, done, dependencies, depth - 1, true, 0);
      for i := 0 to |dependencies|
        invariant memo.Valid() && MemoOk(r, memo.at)
        invariant BestOf(r, ToSet(dependencies[..i]), maxPath)
        invariant Some(memo.keys) == VisitedAll(r, done, dependencies[..i], depth - 1, true)
      {
        TakeOne(dependencies, i);
        VisitedNext(r, done, dependencies, depth - 1, true, i);
        var depPath := Dfs(g, dependencies[i], depth - 1);
        if depPath.None? {
          OverflowLasts(r, done, dependencies, depth - 1, true, i + 1);
          return None;
        }
        BestOfStep(r, ToSet(dependencies[..i]), maxPath, dependencies[i], depPath.value);
        if depPath.value.length > maxPath.length {
          maxPath := depPath.value;
        }
      }
      assert dependencies[..|dependencies|] == dependencies;
      BestIsMeasured(r, ToSet(dependencies), maxPath);
      ExtendBest(r, stepId, maxPath);
      KeysAgree(memo, stepId);
      memo := memo.Put(stepId, Best(maxPath.length + 1, maxPath.path + [stepId]));
      best := Some(Best(maxPath.length + 1, maxPath.path + [stepId]));
    }
  }

  lemma BestIsMeasured(r: Relation, deps: set<Id>, best: Best)
    requires BestOf(r, deps, best)
    ensures best.length == |best.path|
  {
  }

  lemma EmptyBest(r: Relation)
    ensures BestOf(r, {}, Best(0, []))
  {
  }

  // path is a chain ending in one of `ends`, and no chain ending in one is longer.
  ghost predicate LongestInto(r: Relation, ends: set<Id>, path: seq<Id>) {
    && (path == [] <==> ends == {})
    && (path != [] ==> Chain(r, path) && path[|path| - 1] in ends)
    && forall d, c :: d in ends && EndsAt(r, c, d) ==> |c| <= |path|
  }

  // The walk starts from the leaves only; every chain extends to one of them. It returns,
  // given room for every step, exactly when no leaf leads into a cycle, and overflows any
  // stack otherwise.
  method FindCriticalPath(g: Graph, depth: nat) returns (path: Option<seq<Id>>)
    requires WellBuilt(g)
    ensures path.Some? ==> Safe(DependsOn(g), g.leaves)
    ensures depth > |g.nodes.at| && Safe(DependsOn(g), g.leaves) ==> path.Some?
    ensures path.Some? ==> LongestInto(DependsOn(g), ToSet(g.leaves), path.value)
    ensures path.Some? && !HasCycle(DependsOn(g)) ==> LongestChain(DependsOn(g), path.value)
  {
    hide LongestTo, HasCycle, Walk, Mirrored, Distinct, JsMap.Valid, BestOf, VisitedAll, Visited, LongestChain, Safe;
    ghost var r := DependsOn(g);
    assert |r| == |g.nodes.at| by { assert r.Keys == g.nodes.at.Keys && |r.Keys| == |r|; }
    ReturnsExactly(r, g.leaves, depth, true);
    var m := new PathMemo();
    var longest := Best(0, []);
    EmptyBest(r);
    assert ToSet(g.leaves[..0]) == {};
    NothingVisited(r, [], depth, true);
    assert g.leaves[..0] == [];
    for i := 0 to |g.leaves|
      invariant m.memo.Valid() && MemoOk(r, m.memo.at)
      invariant BestOf(r, ToSet(g.leaves[..i]), longest)
      invariant Some(m.memo.keys) == VisitedAll(r, [], g.leaves[..i], depth, true)
    {
      TakeOne(g.leaves, i);
      VisitedNext(r, [], g.leaves, depth, true, i);
      var p := m.Dfs(g, g.leaves[i], depth);
      if p.None? {
        OverflowLasts(r, [], g.leaves, depth, true, i + 1);
        return None;
      }
      BestOfStep(r, ToSet(g.leaves[..i]), longest, g.leaves[i], p.value);
      if p.value.length > longest.length {
        longest := p.value;
      }
    }
    assert g.leaves[..|g.leaves|] == g.leaves;
    BestIsLongestInto(r, ToSet(g.leaves), longest);
    if !HasCycle(r) {
      BestLeafIsLongest(g, longest);
    }
    return Some(longest.path);
  }

  lemma BestIsLongestInto(r: Relation, ends: set<Id>, best: Best)
    requires BestOf(r, ends, best)
    ensures LongestInto(r, ends, best.path)
  {
  }

  // Without a cycle no leaf leads into one.
  lemma AcyclicIsSafe(r: Relation, ids: seq<Id>)
    requires !HasCycle(r)
    ensures Safe(r, ids)
  {
    hide HasCycle, LeadsIntoCycle;
    CycleIsLedInto(r);
    forall m | m in ids
      ensures !LeadsIntoCycle(r, m)
    {
      if LeadsIntoCycle(r, m) {
        var d := LeadsThrough(r, m);
      }
    }
  }

  lemma BestLeafIsLongest(g: Graph, best: Best)
    requires WellBuilt(g) && !HasCycle(DependsOn(g)) && BestOf(DependsOn(g), ToSet(g.leaves), best)
    ensures LongestChain(DependsOn(g), best.path)
  {
    hide Distinct, HasCycle, JsMap.Valid;
    var r := DependsOn(g);
    forall c | Chain(r, c) && ToSet(c) <= Mentioned(r)
      ensures |c| <= |best.path|
    {
      if c != [] {
        assert c[|c| - 1] in ToSet(c);
        var c' := ReachNode(g, c);
        var d := ExtendToLeaf(g, c');
        assert EndsAt(r, d, d[|d| - 1]);
      }
    }
    if best.path != [] {
      assert best.path[|best.path| - 1] in g.nodes.at;
    }
  }

  // A chain ending at a mentioned id extends to one ending at a node.
  lemma ReachNode(g: Graph, c: seq<Id>) returns (d: seq<Id>)
    requires Chain(DependsOn(g), c) && c != [] && c[|c| - 1] in Mentioned(DependsOn(g))
    ensures Chain(DependsOn(g), d) && d != [] && |d| >= |c| && d[|d| - 1] in g.nodes.at
  {
    var r := DependsOn(g);
    if c[|c| - 1] in g.nodes.at {
      d := c;
    } else {
      var n :| n in r && c[|c| - 1] in r[n];
      ChainAppend(r, c, n);
      d := c + [n];
    }
  }

  lemma {:induction false} ExtendToLeaf(g: Graph, c: seq<Id>) returns (d: seq<Id>)
    requires WellBuilt(g) && !HasCycle(DependsOn(g))
    requires Chain(DependsOn(g), c) && c != [] && c[|c| - 1] in g.nodes.at
    ensures Chain(DependsOn(g), d) && d != [] && |d| >= |c| && d[|d| - 1] in ToSet(g.leaves)
    decreases g.nodes.at.Keys - ToSet(c)
  {
    hide Distinct, HasCycle, Chain, JsMap.Valid;
    var r := DependsOn(g);
    var last := c[|c| - 1];
    if g.nodes.at[last].dependents == [] {
      d := c;
    } else {
      var n := g.nodes.at[last].dependents[0];
      assert n in ToSet(g.nodes.at[last].dependents);
      assert n in Dependents(g.nodes.at, last);
      ChainNeverReturns(r, c, n);
      ChainAppend(r, c, n);
      AppendToSet(c, n);
      d := ExtendToLeaf(g, c + [n]);
    }
  }
}
