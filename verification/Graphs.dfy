// Dependency relations, walks along them, cycles and topological orders: the
// vocabulary in which the four sorters and cycle detectors are compared.
module Graphs {
  import opened Seqs

  type Id = string

  // n is related to every id in r[n]: the ids it depends on.
  type Relation = map<Id, seq<Id>>

  function Deps(r: Relation, n: Id): seq<Id> {
    if n in r then r[n] else []
  }

  // Each entry depends on the next one.
  ghost predicate Walk(r: Relation, p: seq<Id>) {
    forall i :: 0 <= i < |p| - 1 ==> p[i + 1] in Deps(r, p[i])
  }

  ghost predicate Cycle(r: Relation, p: seq<Id>) {
    |p| >= 2 && p[0] == p[|p| - 1] && Walk(r, p)
  }

  ghost predicate HasCycle(r: Relation) {
    exists p :: Cycle(r, p)
  }

  // Every entry's dependencies come before it.
  ghost predicate Ordered(r: Relation, order: seq<Id>) {
    forall i, d :: 0 <= i < |order| && d in Deps(r, order[i]) ==> d in order[..i]
  }

  ghost predicate Topological(r: Relation, order: seq<Id>) {
    Distinct(order) && Ordered(r, order)
  }

  lemma TopologicalEmpty(r: Relation)
    ensures Topological(r, [])
  {
  }

  lemma {:induction false} OrderedAppend(r: Relation, order: seq<Id>, n: Id)
    requires Topological(r, order) && n !in ToSet(order)
    requires ToSet(Deps(r, n)) <= ToSet(order)
    ensures Topological(r, order + [n])
  {
    var o := order + [n];
    assert forall d :: d in Deps(r, n) ==> d in ToSet(order);
    forall i, d | 0 <= i < |o| && d in Deps(r, o[i])
      ensures d in o[..i]
    {
      if i < |order| {
        assert d in order[..i] && o[..i] == order[..i];
      } else {
        assert o[..i] == order;
      }
    }
  }

  // The weaker order that ignores dependencies on ids that are not listed in r.
  ghost predicate KnownOrdered(r: Relation, order: seq<Id>) {
    forall i, d :: 0 <= i < |order| && d in Deps(r, order[i]) && d in r ==> d in order[..i]
  }

  lemma OrderedIsKnownOrdered(r: Relation, order: seq<Id>)
    requires Topological(r, order)
    ensures Distinct(order) && KnownOrdered(r, order)
  {
  }

  lemma EmptyWalk(r: Relation)
    ensures Walk(r, [])
  {
  }

  lemma {:induction false} KnownOrderedAppend(r: Relation, order: seq<Id>, n: Id)
    requires KnownOrdered(r, order)
    requires ToSet(Deps(r, n)) * r.Keys <= ToSet(order)
    ensures KnownOrdered(r, order + [n])
  {
    var o := order + [n];
    assert forall d :: d in Deps(r, n) && d in r ==> d in ToSet(order);
    forall i, d | 0 <= i < |o| && d in Deps(r, o[i]) && d in r
      ensures d in o[..i]
    {
      if i < |order| {
        assert d in order[..i] && o[..i] == order[..i];
      } else {
        assert o[..i] == order;
      }
    }
  }

  // A walk from an ordered entry only meets earlier entries.
  lemma {:induction false} WalkDescends(r: Relation, order: seq<Id>, i: nat, p: seq<Id>)
    requires Distinct(order) && KnownOrdered(r, order) && i < |order|
    requires Walk(r, p) && |p| >= 2 && p[0] == order[i] && p[|p| - 1] in r
    ensures p[|p| - 1] in order[..i]
    decreases |p|
  {
    assert p[1] in Deps(r, p[0]);
    assert |p| > 2 ==> p[2] in Deps(r, p[1]);
    var j :| 0 <= j < i && order[j] == p[1];
    if |p| > 2 {
      WalkDescends(r, order, j, p[1..]);
      assert order[..j] == order[..i][..j];
    }
  }

  lemma TopologicalIsAcyclic(r: Relation, order: seq<Id>)
    requires Distinct(order) && KnownOrdered(r, order)
    requires r.Keys <= ToSet(order)
    ensures !HasCycle(r)
  {
    if HasCycle(r) {
      var p :| Cycle(r, p);
      assert p[1] in Deps(r, p[0]);
      assert p[0] in ToSet(order);
      var i :| 0 <= i < |order| && order[i] == p[0];
      WalkDescends(r, order, i, p);
      assert false;
    }
  }

  // Every member of s depends on a member of s.
  ghost predicate Stuck(r: Relation, s: set<Id>) {
    forall n {:trigger DependsInto(r, n, s)} :: n in s ==> DependsInto(r, n, s)
  }

  ghost predicate DependsInto(r: Relation, n: Id, s: set<Id>) {
    exists d :: d in Deps(r, n) && d in s
  }

  // Following dependencies inside a finite stuck set must revisit an id.
  lemma {:induction false} StuckHasCycle(r: Relation, s: set<Id>, p: seq<Id>)
    requires Stuck(r, s)
    requires Walk(r, p) && p != [] && Distinct(p) && ToSet(p) <= s
    ensures HasCycle(r)
    decreases |s| - |p|
  {
    var last := p[|p| - 1];
    assert last in ToSet(p);
    assert DependsInto(r, last, s);
    var d :| d in Deps(r, last) && d in s;
    if d in p {
      var k :| 0 <= k < |p| && p[k] == d;
      WalkCloses(r, p, k, d);
    } else {
      DistinctAppend(p, d);
      DistinctCard(p + [d]);
      SubsetCard(ToSet(p + [d]), s);
      WalkAppend(r, p, d);
      StuckHasCycle(r, s, p + [d]);
    }
  }

  lemma StuckSetHasCycle(r: Relation, s: set<Id>)
    requires Stuck(r, s) && s != {}
    ensures HasCycle(r)
  {
    var n :| n in s;
    StuckHasCycle(r, s, [n]);
  }

  lemma WalkAppend(r: Relation, p: seq<Id>, d: Id)
    requires Walk(r, p)
    requires p != [] ==> d in Deps(r, p[|p| - 1])
    ensures Walk(r, p + [d])
  {
  }

  // A walk that steps back to its k-th entry contains a cycle.
  lemma WalkCloses(r: Relation, p: seq<Id>, k: nat, d: Id)
    requires Walk(r, p) && k < |p| && p[k] == d && d in Deps(r, p[|p| - 1])
    ensures Cycle(r, p[k..] + [d])
    ensures HasCycle(r)
  {
    var c := p[k..] + [d];
    forall i | 0 <= i < |c| - 1
      ensures c[i + 1] in Deps(r, c[i])
    {
      if i < |c| - 2 {
        assert c[i] == p[k + i] && c[i + 1] == p[k + i + 1];
      } else {
        assert c[i] == p[|p| - 1];
      }
    }
    assert Cycle(r, c);
  }

  // The steps being visited, outermost first, form a walk.
  ghost predicate OnStack(r: Relation, stack: seq<Id>, visiting: set<Id>, next: Id) {
    && Walk(r, stack)
    && ToSet(stack) == visiting
    && (stack != [] ==> next in Deps(r, stack[|stack| - 1]))
  }

  lemma BackEdge(r: Relation, stack: seq<Id>, visiting: set<Id>, next: Id)
    requires OnStack(r, stack, visiting, next) && next in visiting
    ensures HasCycle(r)
  {
    var k :| 0 <= k < |stack| && stack[k] == next;
    WalkCloses(r, stack, k, next);
  }

  lemma Descend(r: Relation, stack: seq<Id>, visiting: set<Id>, id: Id, dep: Id)
    requires OnStack(r, stack, visiting, id) && dep in Deps(r, id)
    ensures OnStack(r, stack + [id], visiting + {id}, dep)
  {
  }

  // The same path read the other way: each entry is a dependency of the next.
  ghost predicate Chain(r: Relation, c: seq<Id>) {
    forall i :: 0 <= i < |c| - 1 ==> c[i] in Deps(r, c[i + 1])
  }

  lemma ChainIsWalk(r: Relation, c: seq<Id>)
    ensures Chain(r, c) <==> Walk(r, Reversed(c))
  {
    var w := Reversed(c);
    if Chain(r, c) {
      forall i | 0 <= i < |w| - 1
        ensures w[i + 1] in Deps(r, w[i])
      {
        assert c[|c| - 2 - i] in Deps(r, c[|c| - 1 - i]);
      }
    }
    if Walk(r, w) {
      forall i | 0 <= i < |c| - 1
        ensures c[i] in Deps(r, c[i + 1])
      {
        assert w[|c| - 1 - i] in Deps(r, w[|c| - 2 - i]);
      }
    }
  }

  lemma ChainAppend(r: Relation, c: seq<Id>, n: Id)
    requires Chain(r, c) && (c != [] ==> c[|c| - 1] in Deps(r, n))
    ensures Chain(r, c + [n])
  {
  }

  // On an acyclic relation a chain never comes back to one of its entries.
  lemma ChainNeverReturns(r: Relation, c: seq<Id>, n: Id)
    requires Chain(r, c) && c != [] && c[|c| - 1] in Deps(r, n) && !HasCycle(r)
    ensures n !in c
  {
    if n in c {
      ChainIsWalk(r, c);
      var w := Reversed(c);
      var k :| 0 <= k < |c| && c[k] == n;
      var front := w[..|c| - k];
      assert front[|front| - 1] == n && front[0] == c[|c| - 1];
      WalkCloses(r, front, 0, c[|c| - 1]);
    }
  }
}
