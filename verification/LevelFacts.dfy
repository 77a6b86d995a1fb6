// What the levels mean, for every relation, cyclic or not.
module LevelFacts {
  import opened Seqs
  import opened Graphs
  import opened PlanGraph
  import opened ParallelGroups

  ghost function Before(levels: seq<set<Id>>, i: nat): set<Id>
    requires i <= |levels|
  {
    set k, n | 0 <= k < i && n in levels[k] :: n
  }

  // The i-th level holds exactly the ids whose dependencies all lie in earlier
  // levels, and nothing is left over that could form a further level.
  ghost predicate Layered(r: Relation, base: set<Id>, levels: seq<set<Id>>) {
    && (forall i :: 0 <= i < |levels| ==> levels[i] == NextLevel(r, base + Before(levels, i)) && levels[i] != {})
    && NextLevel(r, base + Before(levels, |levels|)) == {}
  }

  lemma {:induction false} LevelsAreLayered(r: Relation, base: set<Id>)
    ensures Layered(r, base, Levels(r, base))
    decreases r.Keys - base
  {
    var level := NextLevel(r, base);
    var levels := Levels(r, base);
    if level == {} {
      assert base + Before(levels, 0) == base;
    } else {
      assert level <= r.Keys - base;
      var rest := Levels(r, base + level);
      LevelsAreLayered(r, base + level);
      assert levels == [level] + rest;
      forall i | 0 <= i <= |rest|
        ensures base + Before(levels, i + 1) == base + level + Before(rest, i)
      {
        BeforeCons(level, rest, i);
      }
      forall i | 0 <= i < |levels|
        ensures levels[i] == NextLevel(r, base + Before(levels, i)) && levels[i] != {}
      {
        if i == 0 {
          assert base + Before(levels, 0) == base;
        } else {
          assert levels[i] == rest[i - 1];
          assert base + Before(levels, i - 1 + 1) == base + level + Before(rest, i - 1);
        }
      }
    }
  }

  lemma BeforeCons(level: set<Id>, rest: seq<set<Id>>, i: nat)
    requires i <= |rest|
    ensures Before([level] + rest, i + 1) == level + Before(rest, i)
  {
    var levels := [level] + rest;
    forall n
      ensures n in Before(levels, i + 1) <==> n in level + Before(rest, i)
    {
      if n in level { assert n in levels[0]; }
      if n in Before(rest, i) {
        var k :| 0 <= k < i && n in rest[k];
        assert n in levels[k + 1];
      }
      if n in Before(levels, i + 1) {
        var k :| 0 <= k < i + 1 && n in levels[k];
        assert k > 0 ==> n in rest[k - 1];
      }
    }
  }

  // No step is in two levels, whether or not the graph has cycles.
  lemma LevelsDisjoint(r: Relation, i: nat, j: nat)
    requires i < j < |Levels(r, {})|
    ensures Levels(r, {})[i] !! Levels(r, {})[j]
  {
    LevelsAreLayered(r, {});
    var levels := Levels(r, {});
    forall n | n in levels[i]
      ensures n !in levels[j]
    {
      assert n in Before(levels, j);
      assert levels[j] == NextLevel(r, {} + Before(levels, j));
    }
  }

  lemma DependencyBelow(r: Relation, levels: seq<set<Id>>, i: nat, n: Id, d: Id) returns (k: nat)
    requires Layered(r, {}, levels) && i < |levels| && n in levels[i] && d in Deps(r, n)
    ensures k < i && d in levels[k]
  {
    assert levels[i] == NextLevel(r, {} + Before(levels, i));
    assert d in ToSet(r[n]);
    k :| 0 <= k < i && d in levels[k];
  }

  // Along dependencies the level strictly drops.
  lemma {:induction false} WalkDrops(r: Relation, levels: seq<set<Id>>, i: nat, p: seq<Id>) returns (j: nat)
    requires Layered(r, {}, levels) && i < |levels|
    requires Walk(r, p) && p != [] && p[0] in levels[i]
    ensures j < |levels| && p[|p| - 1] in levels[j]
    ensures j + |p| <= i + 1
    decreases |p|
  {
    hide Layered;
    if |p| == 1 {
      return i;
    }
    assert p[1] in Deps(r, p[0]);
    var k := DependencyBelow(r, levels, i, p[0], p[1]);
    j := WalkDrops(r, levels, k, p[1..]);
  }

  // Steps of one level are mutually unreachable, so they may run in parallel.
  lemma LevelMembersIndependent(r: Relation, i: nat, p: seq<Id>)
    requires i < |Levels(r, {})| && Walk(r, p) && |p| >= 2
    requires p[0] in Levels(r, {})[i]
    ensures p[|p| - 1] !in Levels(r, {})[i]
  {
    LevelsAreLayered(r, {});
    var j := WalkDrops(r, Levels(r, {}), i, p);
    LevelsDisjoint(r, j, i);
  }

  // The levels cover every step exactly when the graph is closed and acyclic.
  lemma LevelsCover(r: Relation)
    ensures Before(Levels(r, {}), |Levels(r, {})|) == r.Keys <==> Closed(r) && !HasCycle(r)
  {
    LevelsAreLayered(r, {});
    var levels := Levels(r, {});
    var all := Before(levels, |levels|);
    assert {} + all == all;
    assert all <= r.Keys by { LevelsWithin(r, levels); }
    if all == r.Keys {
      CoveredIsClosed(r, levels);
      if HasCycle(r) {
        var p :| Cycle(r, p);
        assert p[1] in Deps(r, p[0]);
        assert p[0] in all;
        var i :| 0 <= i < |levels| && p[0] in levels[i];
        LevelMembersIndependent(r, i, p);
        assert false;
      }
    } else if Closed(r) {
      var left := r.Keys - all;
      forall n | n in left
        ensures DependsInto(r, n, left)
      {
        assert n !in NextLevel(r, all);
        var d :| d in ToSet(r[n]) && d !in all;
        assert d in Deps(r, n) && d in left;
      }
      StuckSetHasCycle(r, left);
    }
  }

  lemma LevelsWithin(r: Relation, levels: seq<set<Id>>)
    requires Layered(r, {}, levels)
    ensures Before(levels, |levels|) <= r.Keys
  {
    forall n | n in Before(levels, |levels|)
      ensures n in r
    {
      var k :| 0 <= k < |levels| && n in levels[k];
      assert levels[k] == NextLevel(r, {} + Before(levels, k));
    }
  }

  lemma CoveredIsClosed(r: Relation, levels: seq<set<Id>>)
    requires Layered(r, {}, levels) && Before(levels, |levels|) == r.Keys
    ensures Closed(r)
  {
    forall n | n in r
      ensures ToSet(r[n]) <= r.Keys
    {
      assert n in Before(levels, |levels|);
      var k :| 0 <= k < |levels| && n in levels[k];
      assert levels[k] == NextLevel(r, {} + Before(levels, k));
      assert Before(levels, k) <= Before(levels, |levels|);
    }
  }

  // A step above level 0 waits for a step of the level just below.
  lemma DirectlyBelow(r: Relation, levels: seq<set<Id>>, i: nat, n: Id) returns (d: Id)
    requires Layered(r, {}, levels) && 0 < i < |levels| && n in levels[i]
    ensures d in Deps(r, n) && d in levels[i - 1]
  {
    var below := Before(levels, i - 1);
    assert {} + below == below && {} + Before(levels, i) == Before(levels, i);
    assert levels[i] == NextLevel(r, Before(levels, i)) && levels[i - 1] == NextLevel(r, below);
    assert Before(levels, i) == below + levels[i - 1];
    assert !(ToSet(r[n]) <= below);
    d :| d in ToSet(r[n]) && d !in below;
  }

  lemma WalkCons(r: Relation, n: Id, q: seq<Id>)
    requires Walk(r, q) && q != [] && q[0] in Deps(r, n)
    ensures Walk(r, [n] + q) && ToSet([n] + q) == {n} + ToSet(q)
  {
    var p := [n] + q;
    forall k | 0 <= k < |p| - 1
      ensures p[k + 1] in Deps(r, p[k])
    {
      if k > 0 { assert q[k - 1 + 1] in Deps(r, q[k - 1]); }
    }
    forall x
      ensures x in ToSet(p) <==> x in {n} + ToSet(q)
    {
      if x == n { assert p[0] == x; }
      if x in q {
        var k :| 0 <= k < |q| && q[k] == x;
        assert p[k + 1] == x;
      }
    }
  }

  // From any step of level i a walk of i + 1 steps leads down to level 0.
  lemma {:induction false} WalkDown(r: Relation, levels: seq<set<Id>>, i: nat, n: Id) returns (p: seq<Id>)
    requires Layered(r, {}, levels) && i < |levels| && n in levels[i]
    ensures Walk(r, p) && |p| == i + 1 && p[0] == n
    ensures ToSet(p) <= r.Keys
    decreases i
  {
    hide Walk, NextLevel, Before;
    LevelWithin(r, levels, i, n);
    hide Layered;
    if i == 0 {
      p := [n];
      assert Walk(r, p) by { SingletonWalk(r, n); }
    } else {
      var d := DirectlyBelow(r, levels, i, n);
      var q := WalkDown(r, levels, i - 1, d);
      WalkCons(r, n, q);
      p := [n] + q;
    }
  }

  lemma LevelWithin(r: Relation, levels: seq<set<Id>>, i: nat, n: Id)
    requires Layered(r, {}, levels) && i < |levels| && n in levels[i]
    ensures n in r
  {
    assert levels[i] == NextLevel(r, {} + Before(levels, i));
  }

  lemma SingletonWalk(r: Relation, n: Id)
    ensures Walk(r, [n])
  {
  }

  ghost predicate LongestChain(r: Relation, c: seq<Id>) {
    && Chain(r, c) && ToSet(c) <= Mentioned(r)
    && forall d :: Chain(r, d) && ToSet(d) <= Mentioned(r) ==> |d| <= |c|
  }

  // There are as many levels as the longest dependency chain has steps.
  lemma LevelCountIsLongestChain(r: Relation, c: seq<Id>)
    requires Closed(r) && !HasCycle(r) && LongestChain(r, c)
    ensures |Levels(r, {})| == |c|
  {
    hide Walk, Cycle, Chain;
    ChainAtMostLevels(r, c);
    LevelsAtMostChain(r, c);
  }

  lemma ChainAtMostLevels(r: Relation, c: seq<Id>)
    requires Closed(r) && !HasCycle(r) && Chain(r, c) && ToSet(c) <= Mentioned(r)
    ensures |c| <= |Levels(r, {})|
  {
    LevelsAreLayered(r, {});
    LevelsCover(r);
    hide Walk, Cycle, Chain, Layered, Levels;
    var levels := Levels(r, {});
    if c != [] {
      var w := Reversed(c);
      ChainIsWalk(r, c);
      MentionedClosed(r);
      assert w[0] == c[|c| - 1] && w[0] in ToSet(c);
      var i :| 0 <= i < |levels| && w[0] in levels[i];
      var _ := WalkDrops(r, levels, i, w);
    }
  }

  lemma LevelsAtMostChain(r: Relation, c: seq<Id>)
    requires LongestChain(r, c)
    ensures |Levels(r, {})| <= |c|
  {
    LevelsAreLayered(r, {});
    var levels := Levels(r, {});
    if levels != [] {
      assert levels[|levels| - 1] != {};
      var n :| n in levels[|levels| - 1];
      hide Walk, HasCycle, Chain, Layered, Levels, NextLevel, Before, Mentioned;
      var p := WalkDown(r, levels, |levels| - 1, n);
      var d := Reversed(p);
      assert Reversed(d) == p;
      ChainIsWalk(r, d);
      NodesAreMentioned(r, d, p);
    }
  }

  lemma NodesAreMentioned(r: Relation, d: seq<Id>, p: seq<Id>)
    requires ToSet(p) <= r.Keys && d == Reversed(p)
    ensures ToSet(d) <= Mentioned(r)
  {
    assert ToSet(d) <= ToSet(p);
  }

  lemma MentionedClosed(r: Relation)
    requires Closed(r)
    ensures Mentioned(r) == r.Keys
  {
    forall n, d | n in r && d in r[n]
      ensures d in r
    {
      assert d in ToSet(r[n]);
    }
  }

  // The reported groups are the levels of at least two steps, in order and none left out.
  lemma {:induction false} GroupsAreWideLevels(levels: seq<set<Id>>) returns (at: seq<nat>)
    ensures |at| == |Wide(levels)|
    ensures forall x :: 0 <= x < |at| ==>
      at[x] < |levels| && Wide(levels)[x] == levels[at[x]] && |levels[at[x]]| >= 2
    ensures forall x, y :: 0 <= x < y < |at| ==> at[x] < at[y]
    ensures forall i :: 0 <= i < |levels| && |levels[i]| >= 2 ==> i in at
  {
    if levels == [] {
      at := [];
    } else {
      var n := |levels| - 1;
      var front := GroupsAreWideLevels(levels[..n]);
      at := front + if |levels[n]| >= 2 then [n] else [];
      forall i | 0 <= i < |levels| && |levels[i]| >= 2
        ensures i in at
      {
        if i < n {
          assert levels[..n][i] == levels[i];
        } else {
          assert at[|front|] == n;
        }
      }
    }
  }
}
