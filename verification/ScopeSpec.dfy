// Lexical scopes as a stack of frames, innermost first: what the scope chain and the
// execution context stand for.
module ScopeSpec {
  import opened Seqs

  datatype Value = Undefined | Defined(payload: int)

  type Frame = map<string, Value>

  // The flat view of a stack: inner bindings hide outer ones.
  function Visible(frames: seq<Frame>): Frame {
    if frames == [] then map[] else Visible(frames[1..]) + frames[0]
  }

  // How far out the nearest frame that binds the name is.
  function Nearest(frames: seq<Frame>, name: string): (d: nat)
    ensures d <= |frames|
    ensures d < |frames| ==> name in frames[d]
    ensures forall i :: 0 <= i < d ==> name !in frames[i]
  {
    if frames == [] || name in frames[0] then 0 else 1 + Nearest(frames[1..], name)
  }

  function Lookup(frames: seq<Frame>, name: string): Value {
    if name in Visible(frames) then Visible(frames)[name] else Undefined
  }

  // Where an update writes: the nearest binding, or the innermost frame.
  function Target(frames: seq<Frame>, name: string): (d: nat)
    requires frames != []
    ensures d < |frames|
  {
    var d := Nearest(frames, name);
    if d < |frames| then d else 0
  }

  function Written(frames: seq<Frame>, d: nat, name: string, value: Value): seq<Frame>
    requires d < |frames|
  {
    frames[d := frames[d][name := value]]
  }

  // The target seen from one scope further in.
  lemma TargetOutward(own: Frame, outer: seq<Frame>, name: string, value: Value)
    ensures name in own ==> Target([own] + outer, name) == 0
    ensures name !in own && name !in Visible(outer) ==> Target([own] + outer, name) == 0
    ensures name !in own && name in Visible(outer) ==>
      && outer != []
      && Target([own] + outer, name) == 1 + Target(outer, name)
      && Written([own] + outer, 1 + Target(outer, name), name, value) ==
        [own] + Written(outer, Target(outer, name), name, value)
  {
    VisibleIsNearest(outer, name);
    assert ([own] + outer)[1..] == outer;
  }

  lemma {:induction false} VisibleIsNearest(frames: seq<Frame>, name: string)
    ensures name in Visible(frames) <==> Nearest(frames, name) < |frames|
    ensures name in Visible(frames) ==> Visible(frames)[name] == frames[Nearest(frames, name)][name]
  {
    if frames != [] && name !in frames[0] {
      VisibleIsNearest(frames[1..], name);
    }
  }

  // Writing no further out than the nearest binding changes the flat view at one name.
  lemma {:induction false} WrittenIsVisible(frames: seq<Frame>, d: nat, name: string, value: Value)
    requires d < |frames| && d <= Nearest(frames, name)
    ensures Visible(Written(frames, d, name, value)) == Visible(frames)[name := value]
  {
    var after := Written(frames, d, name, value);
    if d == 0 {
      assert after[1..] == frames[1..];
    } else {
      WrittenIsVisible(frames[1..], d - 1, name, value);
      assert after[1..] == Written(frames[1..], d - 1, name, value) && after[0] == frames[0];
      PutBelow(Visible(frames[1..]), frames[0], name, value);
    }
  }

  lemma NearestOutward(own: Frame, outer: seq<Frame>, name: string)
    ensures Nearest([own] + outer, name) == if name in own then 0 else 1 + Nearest(outer, name)
  {
    assert ([own] + outer)[1..] == outer;
  }

  lemma TargetIsVisible(frames: seq<Frame>, name: string, value: Value)
    requires frames != []
    ensures Visible(Written(frames, Target(frames, name), name, value)) == Visible(frames)[name := value]
  {
    WrittenIsVisible(frames, Target(frames, name), name, value);
  }

  lemma VisibleFrom(frames: seq<Frame>, i: nat)
    requires i < |frames|
    ensures Visible(frames[i..]) == Visible(frames[i + 1..]) + frames[i]
  {
    assert frames[i..][1..] == frames[i + 1..];
  }

  lemma NoFrames()
    ensures Visible([]) == map[]
  {
  }

  lemma PutBelow(outer: Frame, inner: Frame, name: string, value: Value)
    requires name !in inner
    ensures outer[name := value] + inner == (outer + inner)[name := value]
  {
  }

  // ---------------------------------------------------------------- runs

  datatype Action =
    | Push
    | Pop
    | Assign(name: string, value: Value)
    | Revise(name: string, value: Value)
    | Remove(name: string)

  // None: the root scope cannot be popped.
  function Act(frames: seq<Frame>, a: Action): (r: Option<seq<Frame>>)
    requires frames != []
    ensures r.Some? ==> r.value != []
  {
    match a
    case Push => Some([map[]] + frames)
    case Pop => if |frames| == 1 then None else Some(frames[1..])
    case Assign(name, value) => Some(Written(frames, 0, name, value))
    case Revise(name, value) => Some(Written(frames, Target(frames, name), name, value))
    case Remove(name) => Some(frames[0 := frames[0] - {name}])
  }

  function Run(frames: seq<Frame>, actions: seq<Action>): Option<seq<Frame>>
    requires frames != []
    decreases actions
  {
    if actions == [] then Some(frames)
    else
      var next := Act(frames, actions[0]);
      if next.None? then None else Run(next.value, actions[1..])
  }

  // Every pop undoes a push of the same run; `open` pushes are still to be undone.
  predicate Balanced(actions: seq<Action>, open: nat) {
    if actions == [] then open == 0
    else
      match actions[0]
      case Push => Balanced(actions[1..], open + 1)
      case Pop => open > 0 && Balanced(actions[1..], open - 1)
      case _ => Balanced(actions[1..], open)
  }

  function Revised(actions: seq<Action>): set<string> {
    if actions == [] then {}
    else (if actions[0].Revise? then {actions[0].name} else {}) + Revised(actions[1..])
  }

  ghost predicate AgreeOutside(a: seq<Frame>, b: seq<Frame>, names: set<string>) {
    |a| == |b| && forall i :: 0 <= i < |a| ==> a[i] - names == b[i] - names
  }

  // One step taken at least one frame above `outer`.
  lemma ActAbove(inner: seq<Frame>, outer: seq<Frame>, a: Action)
    requires inner != [] && (a.Pop? ==> |inner| > 1)
    ensures var r := Act(inner + outer, a);
      && r.Some?
      && |r.value| == |inner| + |outer| + (if a.Push? then 1 else if a.Pop? then -1 else 0)
      && AgreeOutside(r.value[|r.value| - |outer|..], outer, if a.Revise? then {a.name} else {})
  {
    var frames := inner + outer;
    var r := Act(frames, a).value;
    forall i | 0 <= i < |outer|
      ensures r[|r| - |outer|..][i] - (if a.Revise? then {a.name} else {}) ==
        outer[i] - (if a.Revise? then {a.name} else {})
    {
      assert frames[|inner| + i] == outer[i];
      if a.Revise? && Target(frames, a.name) == |inner| + i {
        assert outer[i][a.name := a.value] - {a.name} == outer[i] - {a.name};
      }
    }
  }

  // A run that stays above `outer` writes there only through updates.
  lemma {:induction false} RunAbove(inner: seq<Frame>, outer: seq<Frame>, actions: seq<Action>)
    requires inner != [] && Balanced(actions, |inner| - 1)
    ensures var r := Run(inner + outer, actions);
      r.Some? && |r.value| == 1 + |outer| && AgreeOutside(r.value[1..], outer, Revised(actions))
    decreases actions
  {
    hide Act;
    if actions == [] {
      assert (inner + outer)[1..] == outer;
    } else {
      ActAbove(inner, outer, actions[0]);
      var next := Act(inner + outer, actions[0]).value;
      var k := |next| - |outer|;
      assert next == next[..k] + next[k..];
      RunAbove(next[..k], next[k..], actions[1..]);
      var r := Run(inner + outer, actions).value;
      var here := if actions[0].Revise? then {actions[0].name} else {};
      AgreeBoth(r[1..], next[k..], outer, Revised(actions[1..]), here);
    }
  }

  lemma AgreeBoth(a: seq<Frame>, b: seq<Frame>, c: seq<Frame>, x: set<string>, y: set<string>)
    requires AgreeOutside(a, b, x) && AgreeOutside(b, c, y)
    ensures AgreeOutside(a, c, x + y) && AgreeOutside(a, c, y + x)
  {
    assert x + y == y + x;
    forall i | 0 <= i < |a|
      ensures a[i] - (x + y) == c[i] - (x + y)
    {
      Coarser(a[i], b[i], x, x + y);
      Coarser(b[i], c[i], y, x + y);
    }
  }

  lemma Coarser(a: Frame, b: Frame, x: set<string>, z: set<string>)
    requires a - x == b - x && x <= z
    ensures a - z == b - z
  {
    assert a - z == (a - x) - z;
    assert b - z == (b - x) - z;
  }

  lemma {:induction false} RunConcat(frames: seq<Frame>, a: seq<Action>, b: seq<Action>)
    requires frames != [] && Run(frames, a).Some? && Run(frames, a).value != []
    ensures Run(frames, a + b) == Run(Run(frames, a).value, b)
    decreases a
  {
    hide Act;
    if a == [] {
      assert a + b == b;
    } else {
      assert (a + b)[1..] == a[1..] + b;
      RunConcat(Act(frames, a[0]).value, a[1..], b);
    }
  }

  // Work in a pushed scope, however nested, leaves the bindings outside as they were,
  // except those it updates.
  lemma PushedScopeIsLocal(frames: seq<Frame>, actions: seq<Action>)
    requires frames != [] && Balanced(actions, 0)
    ensures var r := Run(frames, [Push] + actions + [Pop]); r.Some? && AgreeOutside(r.value, frames, Revised(actions))
  {
    var pushed := [map[]] + frames;
    assert ([Push] + actions + [Pop])[1..] == actions + [Pop];
    RunAbove([map[]], frames, actions);
    var r := Run(pushed, actions).value;
    RunConcat(pushed, actions, [Pop]);
    assert [Pop][1..] == [];
    assert Run(r, [Pop]) == Some(r[1..]);
  }

  // Without updates nothing outside changes at all.
  lemma PushedScopeVanishes(frames: seq<Frame>, actions: seq<Action>)
    requires frames != [] && Balanced(actions, 0) && Revised(actions) == {}
    ensures Run(frames, [Push] + actions + [Pop]) == Some(frames)
    ensures forall name: string :: Lookup(Run(frames, [Push] + actions + [Pop]).value, name) == Lookup(frames, name)
  {
    hide Run;
    PushedScopeIsLocal(frames, actions);
    var r := Run(frames, [Push] + actions + [Pop]).value;
    forall i | 0 <= i < |frames|
      ensures r[i] == frames[i]
    {
      assert r[i] - {} == r[i] && frames[i] - {} == frames[i];
    }
    assert r == frames;
  }

  // An update inside reaches the binding outside exactly when no frame in between,
  // the pushed one included, binds the name.
  lemma UpdateReachesOut(inner: seq<Frame>, outer: seq<Frame>, name: string, value: Value)
    requires inner != [] && outer != [] && name in Visible(outer)
    ensures var r := Act(inner + outer, Revise(name, value)).value;
      r[|inner|..] == (if name in Visible(inner) then outer else Written(outer, Target(outer, name), name, value))
      && (name !in Visible(inner) ==> r[..|inner|] == inner)
  {
    hide Visible, Nearest, Written;
    VisibleIsNearest(inner, name);
    VisibleIsNearest(outer, name);
    NearestConcat(inner, outer, name);
    WrittenConcat(inner, outer, Target(inner + outer, name), name, value);
  }

  lemma WrittenConcat(a: seq<Frame>, b: seq<Frame>, d: nat, name: string, value: Value)
    requires d < |a| + |b|
    ensures var r := Written(a + b, d, name, value);
      && |r| == |a| + |b|
      && (d < |a| ==> r[|a|..] == b)
      && (d >= |a| ==> r[..|a|] == a && r[|a|..] == Written(b, d - |a|, name, value))
  {
  }

  lemma {:induction false} NearestConcat(a: seq<Frame>, b: seq<Frame>, name: string)
    ensures Nearest(a + b, name) == if Nearest(a, name) < |a| then Nearest(a, name) else |a| + Nearest(b, name)
  {
    if a == [] {
      assert a + b == b;
    } else {
      assert (a + b)[1..] == a[1..] + b;
      NearestConcat(a[1..], b, name);
    }
  }
}
