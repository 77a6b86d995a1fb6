// Which result stands under the id of a step inside a step, told from what the steps
// tried do rather than from how the results are written.
module NestedResults {
  import opened Seqs
  import opened Graphs
  import opened NestedSteps
  import opened Executor

  // All inner steps before the j-th end with success, so that it gets its turn.
  ghost predicate Reached(inner: seq<Inner>, j: nat) {
    j < |inner| && forall i :: 0 <= i < j ==> Ends(inner[i].attempt).success
  }

  // While a is executed a step under `id` ends with r and r is recorded. Inner steps
  // tried in order are recorded up to the first failure. Of those tried together all
  // are executed, and then recorded up to the first failure.
  ghost predicate Records(a: Attempt, id: Id, r: StepResult)
    decreases a
  {
    match a
    case Simple(_, _) => false
    case InOrder(inner, _) =>
      exists j: nat ::
        && Reached(inner, j)
        && ((inner[j].id == id && r == Ends(inner[j].attempt)) || Records(inner[j].attempt, id, r))
    case Together(inner, _) =>
      || (exists j: nat :: Reached(inner, j) && inner[j].id == id && r == Ends(inner[j].attempt))
      || (exists j: nat :: j < |inner| && Records(inner[j].attempt, id, r))
  }

  // How many steps inside carry the id.
  function Occurs(a: Attempt, id: Id): nat
    decreases a
  {
    match a
    case Simple(_, _) => 0
    case InOrder(inner, _) => OccursIn(inner, id)
    case Together(inner, _) => OccursIn(inner, id)
  }

  function OccursIn(inner: seq<Inner>, id: Id): nat
    decreases inner
  {
    if inner == [] then 0
    else (if inner[0].id == id then 1 else 0) + Occurs(inner[0].attempt, id) + OccursIn(inner[1..], id)
  }

  lemma {:induction false} OccursIsName(a: Attempt, id: Id)
    ensures Occurs(a, id) == 0 <==> id !in Names(a)
    decreases a
  {
    match a
    case Simple(_, _) =>
    case InOrder(inner, _) => OccursInIsName(inner, id);
    case Together(inner, _) => OccursInIsName(inner, id);
  }

  lemma {:induction false} OccursInIsName(inner: seq<Inner>, id: Id)
    ensures OccursIn(inner, id) == 0 <==> id !in NamesOf(inner)
    decreases inner
  {
    hide Occurs, Names;
    if inner != [] {
      OccursIsName(inner[0].attempt, id);
      OccursInIsName(inner[1..], id);
    }
  }

  // A container succeeds exactly when every inner step does, and then yields its data.
  lemma {:induction false} ContainerEnds(inner: seq<Inner>, data: Data)
    ensures forall a :: a == InOrder(inner, data) || a == Together(inner, data) ==>
      && (Ends(a).success <==> forall j :: 0 <= j < |inner| ==> Ends(inner[j].attempt).success)
      && Ends(a).data == if Ends(a).success then data else Nothing
  {
    AllEndExactly(inner);
  }

  lemma {:induction false} AllEndExactly(inner: seq<Inner>)
    ensures AllEndWell(inner) <==> forall j :: 0 <= j < |inner| ==> Ends(inner[j].attempt).success
  {
    hide Ends;
    if inner != [] {
      AllEndExactly(inner[1..]);
      assert forall j :: 0 < j < |inner| ==> inner[j] == inner[1..][j - 1];
    }
  }

  // ---------------------------------------------------------------- one inner step at a time

  ghost predicate RecordsInOrder(inner: seq<Inner>, id: Id, r: StepResult) {
    exists j: nat ::
      && Reached(inner, j)
      && ((inner[j].id == id && r == Ends(inner[j].attempt)) || Records(inner[j].attempt, id, r))
  }

  ghost predicate RecordsOwn(inner: seq<Inner>, id: Id, r: StepResult) {
    exists j: nat :: Reached(inner, j) && inner[j].id == id && r == Ends(inner[j].attempt)
  }

  ghost predicate RecordsDeeper(inner: seq<Inner>, id: Id, r: StepResult) {
    exists j: nat :: j < |inner| && Records(inner[j].attempt, id, r)
  }

  lemma ReachedNext(inner: seq<Inner>, j: nat)
    requires inner != [] && j > 0
    ensures Reached(inner, j) <==> Ends(inner[0].attempt).success && Reached(inner[1..], j - 1)
  {
    hide Ends;
    if Ends(inner[0].attempt).success && Reached(inner[1..], j - 1) {
      forall i | 0 <= i < j
        ensures Ends(inner[i].attempt).success
      {
        assert i > 0 ==> inner[1..][i - 1] == inner[i];
      }
    }
  }

  lemma InOrderNext(inner: seq<Inner>, id: Id, r: StepResult)
    requires inner != []
    ensures RecordsInOrder(inner, id, r) <==>
      || (inner[0].id == id && r == Ends(inner[0].attempt))
      || Records(inner[0].attempt, id, r)
      || (Ends(inner[0].attempt).success && RecordsInOrder(inner[1..], id, r))
  {
    hide Ends, Records;
    var rest := inner[1..];
    assert Reached(inner, 0);
    forall j: nat
      ensures j > 0 ==> (Reached(inner, j) <==> Ends(inner[0].attempt).success && Reached(rest, j - 1))
      ensures 0 < j < |inner| ==> inner[j] == rest[j - 1]
    {
      if j > 0 { ReachedNext(inner, j); }
    }
    hide Reached;
    if Ends(inner[0].attempt).success && RecordsInOrder(rest, id, r) {
      var j: nat :| && Reached(rest, j)
        && ((rest[j].id == id && r == Ends(rest[j].attempt)) || Records(rest[j].attempt, id, r));
      assert Reached(inner, j + 1);
    }
  }

  lemma OwnNext(inner: seq<Inner>, id: Id, r: StepResult)
    requires inner != []
    ensures RecordsOwn(inner, id, r) <==>
      || (inner[0].id == id && r == Ends(inner[0].attempt))
      || (Ends(inner[0].attempt).success && RecordsOwn(inner[1..], id, r))
  {
    hide Ends;
    var rest := inner[1..];
    assert Reached(inner, 0);
    forall j: nat
      ensures j > 0 ==> (Reached(inner, j) <==> Ends(inner[0].attempt).success && Reached(rest, j - 1))
      ensures 0 < j < |inner| ==> inner[j] == rest[j - 1]
    {
      if j > 0 { ReachedNext(inner, j); }
    }
    hide Reached;
    if Ends(inner[0].attempt).success && RecordsOwn(rest, id, r) {
      var j: nat :| Reached(rest, j) && rest[j].id == id && r == Ends(rest[j].attempt);
      assert Reached(inner, j + 1);
    }
  }

  lemma DeeperNext(inner: seq<Inner>, id: Id, r: StepResult)
    requires inner != []
    ensures RecordsDeeper(inner, id, r) <==>
      Records(inner[0].attempt, id, r) || RecordsDeeper(inner[1..], id, r)
  {
    hide Records;
    var rest := inner[1..];
    assert forall j: nat :: 0 < j < |inner| ==> inner[j] == rest[j - 1];
    if RecordsDeeper(rest, id, r) {
      var j: nat :| j < |rest| && Records(rest[j].attempt, id, r);
      assert inner[j + 1] == rest[j];
    }
  }

  // ---------------------------------------------------------------- what stands under an id

  ghost predicate Holds(after: Results, id: Id, r: StepResult) {
    id in after && after[id] == r
  }

  ghost predicate Same(m: Results, after: Results, id: Id) {
    (id in after <==> id in m) && (id in m ==> after[id] == m[id])
  }

  lemma {:induction false} NothingRecorded(a: Attempt, id: Id)
    requires Occurs(a, id) == 0
    ensures forall r :: !Records(a, id, r)
    decreases a
  {
    match a
    case Simple(_, _) =>
    case InOrder(inner, _) =>
      forall j: nat | j < |inner|
        ensures inner[j].id != id && forall r :: !Records(inner[j].attempt, id, r)
      {
        OccursAt(inner, id, j);
        NothingRecorded(inner[j].attempt, id);
      }
    case Together(inner, _) =>
      forall j: nat | j < |inner|
        ensures inner[j].id != id && forall r :: !Records(inner[j].attempt, id, r)
      {
        OccursAt(inner, id, j);
        NothingRecorded(inner[j].attempt, id);
      }
  }

  lemma {:induction false} OccursAt(inner: seq<Inner>, id: Id, j: nat)
    requires j < |inner|
    ensures OccursIn(inner, id) >= (if inner[j].id == id then 1 else 0) + Occurs(inner[j].attempt, id)
  {
    hide Occurs;
    if j > 0 {
      OccursAt(inner[1..], id, j - 1);
    }
  }

  lemma {:induction false} NothingInOrder(inner: seq<Inner>, id: Id)
    requires OccursIn(inner, id) == 0
    ensures forall r :: !RecordsInOrder(inner, id, r) && !RecordsOwn(inner, id, r) && !RecordsDeeper(inner, id, r)
  {
    forall j: nat | j < |inner|
      ensures inner[j].id != id && forall r :: !Records(inner[j].attempt, id, r)
    {
      OccursAt(inner, id, j);
      NothingRecorded(inner[j].attempt, id);
    }
  }

  lemma Untouched(a: Attempt, m: Results, id: Id)
    requires Occurs(a, id) == 0
    ensures Same(m, Written(a, m), id)
  {
    hide Written, Names;
    OccursIsName(a, id);
    WritesInside(a, m);
  }

  lemma UntouchedAll(inner: seq<Inner>, m: Results, id: Id)
    requires OccursIn(inner, id) == 0
    ensures Same(m, WrittenInOrder(inner, m), id)
    ensures Same(m, WrittenTogether(inner, m), id)
    ensures Same(m, Recorded(inner, m), id)
  {
    hide WrittenInOrder, WrittenTogether, Recorded, NamesOf;
    OccursInIsName(inner, id);
    InOrderWritesInside(inner, m);
    TogetherWritesInside(inner, m);
    RecordsInside(inner, m);
  }

  // A step that occurs once inside a leaves its result exactly if it is recorded.
  lemma {:induction false} SingleResult(a: Attempt, m: Results, id: Id)
    requires Occurs(a, id) == 1
    ensures forall r :: Records(a, id, r) ==> Holds(Written(a, m), id, r)
    ensures (forall r :: !Records(a, id, r)) ==> Same(m, Written(a, m), id)
    decreases a
  {
    match a
    case Simple(_, _) =>
    case InOrder(inner, _) =>
      SingleInOrder(inner, m, id);
      assert forall r :: Records(a, id, r) <==> RecordsInOrder(inner, id, r);
    case Together(inner, _) =>
      SingleTogether(inner, m, id);
      assert forall r :: Records(a, id, r) <==> RecordsOwn(inner, id, r) || RecordsDeeper(inner, id, r);
  }

  lemma {:induction false} SingleInOrder(inner: seq<Inner>, m: Results, id: Id)
    requires OccursIn(inner, id) == 1
    ensures forall r :: RecordsInOrder(inner, id, r) ==> Holds(WrittenInOrder(inner, m), id, r)
    ensures (forall r :: !RecordsInOrder(inner, id, r)) ==> Same(m, WrittenInOrder(inner, m), id)
    decreases inner
  {
    hide Ends, Records, RecordsInOrder, Written, Occurs;
    var b, rest := inner[0], inner[1..];
    var r0, inside := Ends(b.attempt), Written(b.attempt, m);
    var after := inside[b.id := r0];
    forall r
      ensures RecordsInOrder(inner, id, r) <==>
        (b.id == id && r == r0) || Records(b.attempt, id, r) || (r0.success && RecordsInOrder(rest, id, r))
    {
      InOrderNext(inner, id, r);
    }
    assert b.id == id ==> RecordsInOrder(inner, id, r0);
    if Occurs(b.attempt, id) == 0 {
      NothingRecorded(b.attempt, id);
      Untouched(b.attempt, m, id);
    } else {
      SingleResult(b.attempt, m, id);
    }
    if OccursIn(rest, id) == 0 {
      NothingInOrder(rest, id);
      UntouchedAll(rest, after, id);
    } else if r0.success {
      SingleInOrder(rest, after, id);
    }
  }

  lemma {:induction false} DeeperStands(inner: seq<Inner>, m: Results, id: Id)
    requires OccursIn(inner, id) == 1
    ensures forall r :: RecordsDeeper(inner, id, r) ==> Holds(WrittenTogether(inner, m), id, r)
    ensures (forall r :: !RecordsDeeper(inner, id, r)) ==> Same(m, WrittenTogether(inner, m), id)
    decreases inner, 0
  {
    hide Ends, Records, RecordsDeeper, Written, Occurs;
    var b, rest := inner[0], inner[1..];
    var after := Written(b.attempt, m);
    forall r
      ensures RecordsDeeper(inner, id, r) <==> Records(b.attempt, id, r) || RecordsDeeper(rest, id, r)
    {
      DeeperNext(inner, id, r);
    }
    if Occurs(b.attempt, id) == 0 {
      NothingRecorded(b.attempt, id);
      Untouched(b.attempt, m, id);
    } else {
      SingleResult(b.attempt, m, id);
    }
    if OccursIn(rest, id) == 0 {
      NothingInOrder(rest, id);
      UntouchedAll(rest, after, id);
    } else {
      DeeperStands(rest, after, id);
    }
  }

  lemma {:induction false} OwnStands(inner: seq<Inner>, m: Results, id: Id)
    requires OccursIn(inner, id) == 1
    ensures forall r :: RecordsOwn(inner, id, r) ==> Holds(Recorded(inner, m), id, r)
    ensures (forall r :: !RecordsOwn(inner, id, r)) ==> Same(m, Recorded(inner, m), id)
    decreases inner
  {
    hide Ends, Records, RecordsOwn, Occurs;
    var b, rest := inner[0], inner[1..];
    var r0 := Ends(b.attempt);
    var after := m[b.id := r0];
    forall r
      ensures RecordsOwn(inner, id, r) <==> (b.id == id && r == r0) || (r0.success && RecordsOwn(rest, id, r))
    {
      OwnNext(inner, id, r);
    }
    assert b.id == id ==> RecordsOwn(inner, id, r0);
    if OccursIn(rest, id) == 0 {
      NothingInOrder(rest, id);
      UntouchedAll(rest, after, id);
    } else if r0.success {
      OwnStands(rest, after, id);
    }
  }

  lemma {:induction false} NotBoth(inner: seq<Inner>, id: Id, r: StepResult, s: StepResult)
    requires OccursIn(inner, id) == 1
    ensures !(RecordsOwn(inner, id, r) && RecordsDeeper(inner, id, s))
  {
    hide Ends, Records, RecordsOwn, RecordsDeeper, Occurs;
    OwnNext(inner, id, r);
    DeeperNext(inner, id, s);
    if Occurs(inner[0].attempt, id) == 0 {
      NothingRecorded(inner[0].attempt, id);
    }
    if OccursIn(inner[1..], id) == 0 {
      NothingInOrder(inner[1..], id);
    } else {
      NotBoth(inner[1..], id, r, s);
    }
  }

  lemma SingleTogether(inner: seq<Inner>, m: Results, id: Id)
    requires OccursIn(inner, id) == 1
    ensures var after := Recorded(inner, WrittenTogether(inner, m));
      && (forall r :: RecordsOwn(inner, id, r) || RecordsDeeper(inner, id, r) ==> Holds(after, id, r))
      && ((forall r :: !RecordsOwn(inner, id, r) && !RecordsDeeper(inner, id, r)) ==> Same(m, after, id))
    decreases inner, 1
  {
    hide RecordsOwn, RecordsDeeper, OccursIn;
    DeeperStands(inner, m, id);
    OwnStands(inner, WrittenTogether(inner, m), id);
    forall r, s
      ensures !(RecordsOwn(inner, id, r) && RecordsDeeper(inner, id, s))
    {
      NotBoth(inner, id, r, s);
    }
  }

  // ---------------------------------------------------------------- the inner steps themselves

  // The id of the j-th inner step is carried by no other step inside.
  ghost predicate Own(inner: seq<Inner>, j: nat) {
    && j < |inner|
    && (forall i :: 0 <= i < |inner| && i != j ==> inner[i].id != inner[j].id)
    && (forall i :: 0 <= i < |inner| ==> inner[j].id !in Names(inner[i].attempt))
  }

  lemma {:induction false} OwnOccursOnce(inner: seq<Inner>, id: Id)
    requires forall i :: 0 <= i < |inner| ==> id !in Names(inner[i].attempt)
    requires forall i, j :: 0 <= i < j < |inner| ==> inner[i].id != id || inner[j].id != id
    ensures OccursIn(inner, id) == if exists j :: 0 <= j < |inner| && inner[j].id == id then 1 else 0
  {
    hide Names, Occurs;
    if inner != [] {
      var rest := inner[1..];
      assert forall i :: 0 < i < |inner| ==> inner[i] == rest[i - 1];
      OwnOccursOnce(rest, id);
      OccursIsName(inner[0].attempt, id);
    }
  }

  // Under the id of an inner step stands how it ended, provided that all inner steps
  // before it succeeded; otherwise what stood there before.
  lemma InnerResult(inner: seq<Inner>, data: Data, m: Results, j: nat)
    requires Own(inner, j)
    ensures forall a :: a == InOrder(inner, data) || a == Together(inner, data) ==>
      if forall i :: 0 <= i < j ==> Ends(inner[i].attempt).success
      then inner[j].id in Written(a, m) && Written(a, m)[inner[j].id] == Ends(inner[j].attempt)
      else Same(m, Written(a, m), inner[j].id)
  {
    hide Written, Ends, Names, Records;
    var id := inner[j].id;
    forall a | a == InOrder(inner, data) || a == Together(inner, data)
      ensures if Reached(inner, j) then Holds(Written(a, m), id, Ends(inner[j].attempt))
              else Same(m, Written(a, m), id)
    {
      OnlyOwnIsRecorded(inner, data, a, j);
      SingleResult(a, m, id);
    }
  }

  lemma OnlyOwnIsRecorded(inner: seq<Inner>, data: Data, a: Attempt, j: nat)
    requires Own(inner, j) && (a == InOrder(inner, data) || a == Together(inner, data))
    ensures Occurs(a, inner[j].id) == 1
    ensures forall r :: Records(a, inner[j].id, r) <==> Reached(inner, j) && r == Ends(inner[j].attempt)
  {
    hide Ends, Names;
    var id := inner[j].id;
    OwnOccursOnce(inner, id);
    forall i | 0 <= i < |inner|
      ensures forall r :: !Records(inner[i].attempt, id, r)
    {
      OccursIsName(inner[i].attempt, id);
      NothingRecorded(inner[i].attempt, id);
    }
  }

  // ---------------------------------------------------------------- a whole run

  lemma {:induction false} ExecutedFew(order: seq<Id>, own: seq<StepResult>)
    requires |own| <= |order|
    ensures |Executed(order, own)| <= |own|
  {
    if own != [] {
      ExecutedFew(order, own[..|own| - 1]);
    }
  }

  // The n-th step executed leaves the results recorded inside it in the results of the
  // run, as long as no other step carries their ids.
  lemma {:induction false} RunKeepsInner(order: seq<Id>, own: seq<StepResult>, outcomes: Outcomes, n: nat, id: Id)
    requires |own| <= |order| && n < |Executed(order, own)| && Occurs(outcomes(n), id) == 1
    requires id !in order[..|own|]
    requires forall i: nat :: i < |Executed(order, own)| && i != n ==> id !in Names(outcomes(i))
    ensures forall r :: Records(outcomes(n), id, r) ==>
      id in Record(order, own, outcomes) && Record(order, own, outcomes)[id] == r
    ensures (forall r :: !Records(outcomes(n), id, r)) ==> id !in Record(order, own, outcomes)
    decreases |own|
  {
    hide Records, Written, Occurs, Names, Executed;
    ExecutedFew(order, own);
    var last := |own| - 1;
    ExecutedNext(order, own);
    var before, ran := Record(order, own[..last], outcomes), |Executed(order, own[..last])|;
    assert order[last] in order[..|own|];
    assert forall x :: x in order[..last] ==> x in order[..|own|];
    if ran <= n {
      NotInRecord(order, own[..last], outcomes, id);
      SingleResult(outcomes(n), before, id);
    } else {
      RunKeepsInner(order, own[..last], outcomes, n, id);
      if !own[last].cacheHit {
        OccursIsName(outcomes(ran), id);
        Untouched(outcomes(ran), before, id);
      }
    }
  }

  lemma {:induction false} NotInRecord(order: seq<Id>, own: seq<StepResult>, outcomes: Outcomes, id: Id)
    requires |own| <= |order| && id !in order[..|own|]
    requires forall i: nat :: i < |Executed(order, own)| ==> id !in Names(outcomes(i))
    ensures id !in Record(order, own, outcomes)
    decreases |own|
  {
    hide Written, Names, Executed;
    if own != [] {
      var last := |own| - 1;
      ExecutedNext(order, own);
      assert order[last] in order[..|own|];
      assert forall x :: x in order[..last] ==> x in order[..|own|];
      var ran := |Executed(order, own[..last])|;
      NotInRecord(order, own[..last], outcomes, id);
      if !own[last].cacheHit {
        WritesInside(outcomes(ran), Record(order, own[..last], outcomes));
      }
    }
  }
}
