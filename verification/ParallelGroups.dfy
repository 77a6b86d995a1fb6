// findParallelGroups (planner/dependency-graph.ts): level-by-level peeling of the
// dependency graph.
module ParallelGroups {
  import opened Seqs
  import opened JsMaps
  import opened Graphs
  import opened PlanGraph

  // The steps not yet processed whose dependencies all are.
  ghost function NextLevel(r: Relation, processed: set<Id>): set<Id> {
    set n | n in r && n !in processed && ToSet(r[n]) <= processed
  }

  // The levels still to come once `processed` is done.
  ghost function Levels(r: Relation, processed: set<Id>): seq<set<Id>>
    decreases r.Keys - processed
  {
    var level := NextLevel(r, processed);
    if level == {} then [] else
      assert level <= r.Keys - processed;
      [level] + Levels(r, processed + level)
  }

  ghost predicate DownClosed(r: Relation, s: set<Id>) {
    s <= r.Keys && forall n :: n in s ==> ToSet(r[n]) <= s
  }

  function Crowded(levels: seq<seq<Id>>): seq<seq<Id>> {
    if levels == [] then []
    else
      var last := levels[|levels| - 1];
      Crowded(levels[..|levels| - 1]) + if |last| > 1 then [last] else []
  }

  ghost function AsSets(levels: seq<seq<Id>>): seq<set<Id>> {
    seq(|levels|, i requires 0 <= i < |levels| => ToSet(levels[i]))
  }

  // The levels of at least two steps.
  ghost function Wide(levels: seq<set<Id>>): seq<set<Id>> {
    if levels == [] then []
    else
      var last := levels[|levels| - 1];
      Wide(levels[..|levels| - 1]) + if |last| > 1 then [last] else []
  }

  lemma {:induction false} CrowdedIsWide(levels: seq<seq<Id>>)
    requires forall l :: l in levels ==> Distinct(l)
    ensures AsSets(Crowded(levels)) == Wide(AsSets(levels))
    ensures forall l :: l in Crowded(levels) ==> Distinct(l)
  {
    if levels != [] {
      var n := |levels| - 1;
      DistinctCard(levels[n]);
      CrowdedIsWide(levels[..n]);
      assert AsSets(levels)[..n] == AsSets(levels[..n]);
      var front := Crowded(levels[..n]);
      assert AsSets(front + [levels[n]]) == AsSets(front) + [ToSet(levels[n])];
    }
  }

  // Only levels of at least two steps are reported; `levels` is the whole sweep.
  method FindParallelGroups(g: Graph) returns (groups: seq<seq<Id>>, ghost levels: seq<seq<Id>>)
    requires WellBuilt(g)
    ensures AsSets(groups) == Wide(Levels(DependsOn(g), {})) && forall l :: l in groups ==> Distinct(l)
    ensures groups == Crowded(levels)
    ensures AsSets(levels) == Levels(DependsOn(g), {})
    ensures forall l :: l in levels ==> Distinct(l)
  {
    hide Distinct, ToSet, JsMap.Valid, Mirrored, Levels, Wide;
    ghost var r := DependsOn(g);
    groups, levels := [], [];
    var processed: set<Id> := {};
    var currentLevel := g.roots;
    RootsAreFirst(g);
    EmptyIsEmpty();
    assert AsSets(levels) + Levels(r, {}) == Levels(r, {});
    while currentLevel != []
      invariant groups == Crowded(levels)
      invariant Distinct(currentLevel) && forall l :: l in levels ==> Distinct(l)
      invariant DownClosed(r, processed)
      invariant ToSet(currentLevel) == NextLevel(r, processed)
      invariant AsSets(levels) + Levels(r, processed) == Levels(r, {})
      decreases r.Keys - processed
    {
      if |currentLevel| > 1 {
        groups := groups + [currentLevel];
      }
      ghost var before := processed;
      assert currentLevel[..0] == [];
      for i := 0 to |currentLevel|
        invariant processed == before + ToSet(currentLevel[..i])
      {
        TakeOne(currentLevel, i);
        processed := processed + {currentLevel[i]};
      }
      assert currentLevel[..|currentLevel|] == currentLevel;
      Peel(r, before, levels, currentLevel);
      levels := levels + [currentLevel];
      currentLevel := Collect(g, processed, currentLevel, before);
    }
    Exhausted(r, processed);
    assert AsSets(levels) + [] == AsSets(levels);
    CrowdedIsWide(levels);
  }

  lemma EmptyIsEmpty()
    ensures ToSet<Id>([]) == {}
  {
  }

  lemma RootsAreFirst(g: Graph)
    requires WellBuilt(g)
    ensures ToSet(g.roots) == NextLevel(DependsOn(g), {}) && DownClosed(DependsOn(g), {})
  {
    hide Distinct, Mirrored, JsMap.Valid;
    forall n | n in g.nodes.at
      ensures g.nodes.at[n].dependencies == [] <==> ToSet(g.nodes.at[n].dependencies) <= {}
    {
      if g.nodes.at[n].dependencies != [] {
        assert g.nodes.at[n].dependencies[0] in ToSet(g.nodes.at[n].dependencies);
      }
    }
  }

  lemma Peel(r: Relation, processed: set<Id>, levels: seq<seq<Id>>, level: seq<Id>)
    requires ToSet(level) == NextLevel(r, processed) && level != [] && DownClosed(r, processed)
    ensures AsSets(levels) + Levels(r, processed) ==
      AsSets(levels + [level]) + Levels(r, processed + ToSet(level))
    ensures DownClosed(r, processed + ToSet(level))
    ensures Crowded(levels + [level]) == Crowded(levels) + if |level| > 1 then [level] else []
    ensures processed < processed + ToSet(level) <= r.Keys
  {
    assert level[0] in ToSet(level);
    assert AsSets(levels + [level]) == AsSets(levels) + [ToSet(level)];
    assert (levels + [level])[..|levels|] == levels;
  }

  lemma Exhausted(r: Relation, processed: set<Id>)
    requires NextLevel(r, processed) == {}
    ensures Levels(r, processed) == []
  {
  }

  // The dependents of the current level that have become ready are the next level.
  method Collect(g: Graph, processed: set<Id>, currentLevel: seq<Id>, ghost before: set<Id>)
    returns (next: seq<Id>)
    requires WellBuilt(g) && DownClosed(DependsOn(g), before)
    requires ToSet(currentLevel) == NextLevel(DependsOn(g), before)
    requires processed == before + ToSet(currentLevel)
    ensures Distinct(next) && ToSet(next) == NextLevel(DependsOn(g), processed)
  {
    hide Distinct, ToSet, JsMap.Valid, Mirrored;
    next := [];
    DistinctCard(next);
    for i := 0 to |currentLevel|
      invariant Distinct(next)
      invariant ToSet(next) == ReadyAmong(g, processed, ToSet(currentLevel[..i]))
    {
      TakeOne(currentLevel, i);
      var node := currentLevel[i];
      assert node in g.nodes.at;
      next := CollectFrom(g, processed, node, g.nodes.at[node].dependents, next);
      ReadyUnion(g, processed, ToSet(currentLevel[..i]), node);
    }
    assert currentLevel[..|currentLevel|] == currentLevel;
    ReadyIsNext(g, before, ToSet(currentLevel));
  }

  // Dependents of a member of s whose dependencies are all processed.
  ghost function ReadyAmong(g: Graph, processed: set<Id>, s: set<Id>): set<Id> {
    set n | n in g.nodes.at && ToSet(g.nodes.at[n].dependencies) <= processed &&
      !(ToSet(g.nodes.at[n].dependencies) !! s)
  }

  lemma ReadyUnion(g: Graph, processed: set<Id>, s: set<Id>, x: Id)
    ensures ReadyAmong(g, processed, s + {x}) == ReadyAmong(g, processed, s) + ReadyAmong(g, processed, {x})
  {
    hide ToSet;
  }

  lemma ReadyIsNext(g: Graph, before: set<Id>, level: set<Id>)
    requires DownClosed(DependsOn(g), before) && level == NextLevel(DependsOn(g), before)
    ensures ReadyAmong(g, before + level, level) == NextLevel(DependsOn(g), before + level)
  {
    hide ToSet;
  }

  method CollectFrom(g: Graph, processed: set<Id>, ghost node: Id, dependents: seq<Id>, acc: seq<Id>)
    returns (next: seq<Id>)
    requires WellBuilt(g) && node in g.nodes.at && dependents == g.nodes.at[node].dependents
    requires Distinct(acc)
    ensures Distinct(next) && ToSet(next) == ToSet(acc) + ReadyAmong(g, processed, {node})
  {
    hide Distinct, JsMap.Valid, Mirrored;
    next := acc;
    for j := 0 to |dependents|
      invariant Distinct(next)
      invariant ToSet(next) == ToSet(acc) + Ready(g, processed) * ToSet(dependents[..j])
    {
      TakeOne(dependents, j);
      var dependentId := dependents[j];
      if g.nodes.Has(dependentId) {
        var deps := g.nodes.at[dependentId].dependencies;
        var allDepsProcessed := forall d :: d in deps ==> d in processed;
        if allDepsProcessed && dependentId !in next {
          DistinctAppend(next, dependentId);
          next := next + [dependentId];
        }
      }
    }
    assert dependents[..|dependents|] == dependents;
    ReadyDependents(g, processed, node);
  }

  ghost function Ready(g: Graph, processed: set<Id>): set<Id> {
    set n | n in g.nodes.at && ToSet(g.nodes.at[n].dependencies) <= processed
  }

  lemma ReadyDependents(g: Graph, processed: set<Id>, node: Id)
    requires WellBuilt(g) && node in g.nodes.at
    ensures Ready(g, processed) * ToSet(g.nodes.at[node].dependents) == ReadyAmong(g, processed, {node})
  {
    hide Distinct, JsMap.Valid;
    assert ToSet(g.nodes.at[node].dependents) == Dependents(g.nodes.at, node) * g.nodes.at.Keys;
  }
}
