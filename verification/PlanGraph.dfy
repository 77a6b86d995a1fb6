// The dependency graph of an execution plan (planner/plan.ts,
// planner/dependency-graph.ts).
module PlanGraph {
  import opened Seqs
  import opened JsMaps
  import opened Graphs

  datatype Step = Step(id: Id, dependencies: seq<Id>, estimatedCost: real, cacheable: bool, cacheKey: string)

  datatype Node = Node(dependencies: seq<Id>, dependents: seq<Id>, estimatedCost: real)

  type Nodes = JsMap<Id, Node>

  datatype Graph = Graph(nodes: Nodes, roots: seq<Id>, leaves: seq<Id>)

  function DependsOn(g: Graph): Relation {
    map n | n in g.nodes.at :: g.nodes.at[n].dependencies
  }

  // Every id that is a node or is named as a dependency of one.
  ghost function Mentioned(r: Relation): set<Id> {
    r.Keys + set n, d | n in r && d in r[n] :: d
  }

  ghost predicate Closed(r: Relation) {
    forall n :: n in r ==> ToSet(r[n]) <= r.Keys
  }

  // The steps of a plan by id; a later step replaces an earlier one of the same id.
  ghost function StepTable(steps: seq<Step>): map<Id, Step> {
    if steps == [] then map[]
    else
      var last := steps[|steps| - 1];
      StepTable(steps[..|steps| - 1])[last.id := last]
  }

  ghost function StepRelation(steps: seq<Step>): Relation {
    map n | n in StepTable(steps) :: StepTable(steps)[n].dependencies
  }

  ghost function Ids(steps: seq<Step>): seq<Id> {
    seq(|steps|, i requires 0 <= i < |steps| => steps[i].id)
  }

  lemma {:induction false} StepTableKeys(steps: seq<Step>)
    ensures StepTable(steps).Keys == ToSet(Ids(steps))
  {
    if steps != [] {
      var n := |steps| - 1;
      StepTableKeys(steps[..n]);
      assert Ids(steps) == Ids(steps[..n]) + [steps[n].id];
    }
  }

  // Edges are recorded from both ends, for listed nodes only.
  ghost predicate Mirrored(at: map<Id, Node>, seen: set<Id>) {
    forall d :: d in at ==> ToSet(at[d].dependents) == Dependents(at, d) * seen
  }

  ghost function Dependents(at: map<Id, Node>, d: Id): set<Id> {
    set n | n in at && d in at[n].dependencies
  }

  ghost predicate WellBuilt(g: Graph) {
    && g.nodes.Valid()
    && Mirrored(g.nodes.at, g.nodes.at.Keys)
    && Distinct(g.roots) && ToSet(g.roots) == (set n | n in g.nodes.at && g.nodes.at[n].dependencies == [])
    && Distinct(g.leaves) && ToSet(g.leaves) == (set n | n in g.nodes.at && g.nodes.at[n].dependents == [])
  }

  ghost predicate SameEdges(a: map<Id, Node>, b: map<Id, Node>) {
    && a.Keys == b.Keys
    && forall n :: n in a ==> a[n].dependencies == b[n].dependencies && a[n].estimatedCost == b[n].estimatedCost
  }

  method Build(steps: seq<Step>) returns (g: Graph)
    ensures WellBuilt(g)
    ensures DependsOn(g) == StepRelation(steps)
    ensures forall n :: n in StepTable(steps) ==> CostOf(g, n) == StepTable(steps)[n].estimatedCost
  {
    hide Distinct, ToSet, JsMap.Valid, Mirrored, StepTable;
    var nodes := CreateNodes(steps);
    ghost var bare := nodes;
    nodes := LinkDependents(nodes);
    var roots := Where(nodes, (n: Node) => n.dependencies == []);
    var leaves := Where(nodes, (n: Node) => n.dependents == []);
    g := Graph(nodes, roots, leaves);
  }

  // Zero for ids that are not nodes, as the cost walks treat them.
  function CostOf(g: Graph, n: Id): real {
    if n in g.nodes.at then g.nodes.at[n].estimatedCost else 0.0
  }

  method CreateNodes(steps: seq<Step>) returns (nodes: Nodes)
    ensures nodes.Valid()
    ensures nodes.at == map n | n in StepTable(steps) ::
      Node(StepTable(steps)[n].dependencies, [], StepTable(steps)[n].estimatedCost)
  {
    hide JsMap.Valid;
    nodes := JsMaps.Empty();
    for i := 0 to |steps|
      invariant nodes.Valid()
      invariant nodes.at == map n | n in StepTable(steps[..i]) ::
        Node(StepTable(steps[..i])[n].dependencies, [], StepTable(steps[..i])[n].estimatedCost)
    {
      assert steps[..i + 1][..i] == steps[..i];
      nodes := nodes.Put(steps[i].id, Node(steps[i].dependencies, [], steps[i].estimatedCost));
    }
    assert steps[..|steps|] == steps;
  }

  method Where(nodes: Nodes, p: Node -> bool) returns (ids: seq<Id>)
    requires nodes.Valid()
    ensures Distinct(ids) && ToSet(ids) == set n | n in nodes.at && p(nodes.at[n])
  {
    hide Distinct, ToSet, JsMap.Valid;
    ids := [];
    DistinctCard(ids);
    AllKeys(nodes);
    for i := 0 to |nodes.keys|
      invariant Distinct(ids)
      invariant ToSet(ids) == set n | n in ToSet(nodes.keys[..i]) && n in nodes.at && p(nodes.at[n])
    {
      KeyAt(nodes, i);
      if p(nodes.at[nodes.keys[i]]) {
        DistinctAppend(ids, nodes.keys[i]);
        ids := ids + [nodes.keys[i]];
      }
    }
  }

  method LinkDependents(bare: Nodes) returns (nodes: Nodes)
    requires bare.Valid() && forall n :: n in bare.at ==> bare.at[n].dependents == []
    ensures nodes.Valid() && SameEdges(nodes.at, bare.at)
    ensures Mirrored(nodes.at, nodes.at.Keys)
  {
    nodes := bare;
    AllKeys(bare);
    hide JsMap.Valid, ToSet;
    for i := 0 to |bare.keys|
      invariant nodes.Valid() && nodes.keys == bare.keys
      invariant SameEdges(nodes.at, bare.at)
      invariant Mirrored(nodes.at, ToSet(bare.keys[..i]))
    {
      KeyAt(bare, i);
      var stepId := bare.keys[i];
      ghost var before := nodes.at;
      nodes := RecordDependent(nodes, stepId, nodes.at[stepId].dependencies);
      MirrorStep(before, nodes.at, ToSet(bare.keys[..i]), stepId);
    }
  }

  method RecordDependent(bare: Nodes, stepId: Id, deps: seq<Id>) returns (nodes: Nodes)
    requires bare.Valid()
    ensures nodes.Valid() && nodes.keys == bare.keys && SameEdges(nodes.at, bare.at)
    ensures forall d :: d in nodes.at ==>
      ToSet(nodes.at[d].dependents) == ToSet(bare.at[d].dependents) + if d in ToSet(deps) then {stepId} else {}
  {
    assert ToSet(deps[..0]) == {};
    hide JsMap.Valid, ToSet;
    nodes := bare;
    for j := 0 to |deps|
      invariant nodes.Valid() && nodes.keys == bare.keys && SameEdges(nodes.at, bare.at)
      invariant forall d :: d in nodes.at ==>
        ToSet(nodes.at[d].dependents) == ToSet(bare.at[d].dependents) + if d in ToSet(deps[..j]) then {stepId} else {}
    {
      TakeOne(deps, j);
      var depId := deps[j];
      if nodes.Has(depId) {
        var depNode := nodes.at[depId];
        AppendToSet(depNode.dependents, stepId);
        nodes := nodes.Put(depId, depNode.(dependents := depNode.dependents + [stepId]));
      }
    }
    assert deps[..|deps|] == deps;
  }

  lemma MirrorStep(before: map<Id, Node>, at: map<Id, Node>, seen: set<Id>, stepId: Id)
    requires Mirrored(before, seen) && SameEdges(at, before) && stepId in before
    requires forall d :: d in at ==>
      ToSet(at[d].dependents) == ToSet(before[d].dependents) +
        if d in ToSet(at[stepId].dependencies) then {stepId} else {}
    ensures Mirrored(at, seen + {stepId})
  {
    forall d | d in at
      ensures ToSet(at[d].dependents) == Dependents(at, d) * (seen + {stepId})
    {
      assert Dependents(at, d) == Dependents(before, d);
    }
  }
}
