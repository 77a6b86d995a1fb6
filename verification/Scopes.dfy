// Variable scopes linked to their parents, and the execution context that moves along
// the chain (state/variable-scope.ts, state/execution-context.ts).
module Scopes {
  import opened Seqs
  import opened JsMaps
  import opened ScopeSpec

  class VariableScope {
    const parent: VariableScope?
    // The scopes further out, nearest first.
    ghost const above: seq<VariableScope>
    var variables: JsMap<string, Value>
    var children: set<VariableScope>

    ghost predicate Linked()
      decreases |above|
    {
      if parent == null then above == []
      else above == [parent] + parent.above && parent.Linked()
    }

    ghost function Chain(): (c: seq<VariableScope>)
      ensures c != []
    {
      [this] + above
    }

    ghost predicate Valid()
      reads Chain()
    {
      Linked() && forall i :: 0 <= i < |Chain()| ==> Chain()[i].variables.Valid()
    }

    ghost function Frames(): (f: seq<Frame>)
      reads Chain()
      ensures |f| == |Chain()|
    {
      FramesOf(Chain())
    }

    // The map and the set are new; a parent learns of its child.
    constructor (parent: VariableScope?)
      requires parent != null ==> parent.Valid()
      modifies (if parent != null then {parent} else {})`children
      ensures Valid() && fresh(this) && this.parent == parent
      ensures variables == Empty() && children == {}
      ensures parent != null ==> above == parent.Chain() && parent.children == old(parent.children) + {this}
      ensures parent != null ==> parent.variables == old(parent.variables)
      ensures parent == null ==> above == []
    {
      this.parent := parent;
      above := if parent == null then [] else [parent] + parent.above;
      variables := Empty();
      children := {};
      new;
      if parent != null {
        parent.children := parent.children + {this};
        assert forall i {:trigger above[i]} :: 0 <= i < |above| ==> above[i] == parent.Chain()[i];
      }
      assert forall i {:trigger Chain()[i]} :: 1 <= i < |Chain()| ==> Chain()[i] == above[i - 1];
    }

    method Get(name: string) returns (v: Value)
      requires Valid()
      ensures v == Lookup(Frames(), name)
      decreases |above|
    {
      Outward();
      if variables.Has(name) {
        return variables.at[name];
      }
      if parent != null {
        v := parent.Get(name);
        return;
      }
      return Undefined;
    }

    method Has(name: string) returns (b: bool)
      requires Valid()
      ensures b <==> name in Visible(Frames())
      decreases |above|
    {
      Outward();
      b := variables.Has(name);
      if !b && parent != null {
        b := parent.Has(name);
      }
    }

    // What is seen from here: the own variables over what the parent sees.
    lemma Outward()
      requires Valid()
      ensures Frames()[0] == variables.at
      ensures parent == null ==> Frames() == [variables.at] && Visible(Frames()) == variables.at
      ensures parent != null ==>
        && parent.Valid()
        && parent.Chain() == above
        && Frames() == [variables.at] + parent.Frames()
        && Visible(Frames()) == Visible(parent.Frames()) + variables.at
    {
      assert Chain()[1..] == above;
      if parent == null {
        assert Frames() == [variables.at];
        assert Frames()[1..] == [];
      } else {
        forall i | 0 <= i < |parent.Chain()|
          ensures parent.Chain()[i] == Chain()[i + 1]
        {
        }
        assert Frames() == [variables.at] + parent.Frames();
        assert Frames()[1..] == parent.Frames();
      }
    }

    method Set(name: string, value: Value)
      requires Valid()
      modifies this`variables
      ensures Valid()
      ensures variables == old(variables).Put(name, value)
      ensures Frames() == Written(old(Frames()), 0, name, value)
    {
      Unrepeated();
      variables := variables.Put(name, value);
    }

    // No scope is its own ancestor.
    lemma Unrepeated()
      requires Linked()
      ensures Distinct(Chain())
      ensures forall s :: s in above ==> |s.above| < |above|
      decreases |above|
    {
      if parent != null {
        parent.Unrepeated();
        assert Chain()[1..] == parent.Chain();
        DistinctCons(this, above);
      }
    }

    method Update(name: string, value: Value)
      requires Valid()
      modifies ToSet(Chain())`variables
      ensures Valid()
      ensures OnlyTargetChanged(name, value)
      ensures Frames() == Written(old(Frames()), Target(old(Frames()), name), name, value)
      ensures Visible(Frames()) == old(Visible(Frames()))[name := value]
      decreases |above|, 1
    {
      hide Target, Written, Visible, JsMap.Valid, FramesOf, Distinct;
      Unrepeated();
      Outward();
      ghost var frames := Frames();
      ghost var outer := if parent == null then [] else parent.Frames();
      assert frames == [variables.at] + outer;
      TargetOutward(variables.at, outer, name, value);
      TargetIsVisible(frames, name, value);
      if variables.Has(name) {
        Set(name, value);
        return;
      }
      if parent != null {
        var defined := parent.Has(name);
        if defined {
          UpdateParent(name, value);
          return;
        }
      }
      assert parent == null ==> Visible(outer) == map[] by {
        NoFrames();
      }
      Set(name, value);
    }

    // The nearest defining scope, or this one, got the value; the others are untouched.
    twostate predicate OnlyTargetChanged(name: string, value: Value)
      reads Chain()
    {
      var d := Target(old(Frames()), name);
      && Chain()[d].variables == old(Chain()[d].variables).Put(name, value)
      && (forall i :: 0 <= i < |Chain()| && i != d ==> Chain()[i].variables == old(Chain()[i].variables))
    }

    method UpdateParent(name: string, value: Value)
      requires Valid() && parent != null && !variables.Has(name) && name in Visible(parent.Frames())
      modifies ToSet(above)`variables
      ensures Valid()
      ensures OnlyTargetChanged(name, value)
      ensures Frames() == Written(old(Frames()), Target(old(Frames()), name), name, value)
      decreases |above|, 0
    {
      hide Target, Written, Visible, JsMap.Valid, FramesOf, Distinct;
      Unrepeated();
      Outward();
      TargetOutward(variables.at, parent.Frames(), name, value);
      parent.Update(name, value);
      assert variables == old(variables);
      ShiftedChain();
      Outward();
    }

    lemma ShiftedChain()
      requires Linked() && parent != null
      ensures forall i {:trigger Chain()[i]} :: 1 <= i < |Chain()| ==> Chain()[i] == parent.Chain()[i - 1]
    {
    }

    method Delete(name: string) returns (existed: bool)
      requires Valid()
      modifies this`variables
      ensures Valid()
      ensures existed == old(variables.Has(name))
      ensures variables == old(variables).Remove(name)
      ensures Frames() == old(Frames())[0 := old(Frames())[0] - {name}]
    {
      Unrepeated();
      existed := variables.Has(name);
      variables := variables.Remove(name);
    }

    method FindDefiningScope(name: string) returns (scope: VariableScope?)
      requires Valid()
      ensures scope == null <==> name !in Visible(Frames())
      ensures scope != null ==> Nearest(Frames(), name) < |Chain()| && scope == Chain()[Nearest(Frames(), name)]
      decreases |above|
    {
      hide Visible, Nearest;
      Outward();
      VisibleIsNearest(Frames(), name);
      NearestOutward(variables.at, if parent == null then [] else parent.Frames(), name);
      if variables.Has(name) {
        return this;
      }
      if parent != null {
        ShiftedChain();
        VisibleIsNearest(parent.Frames(), name);
        scope := parent.FindDefiningScope(name);
        return;
      }
      return null;
    }

    method GetAllVariables() returns (all: JsMap<string, Value>)
      requires Valid()
      ensures all.Valid() && all.at == Visible(Frames())
    {
      hide Visible, JsMap.Valid;
      var scopes := GetScopeChain();
      var n := |scopes|;
      all := Empty();
      NoFrames();
      assert Frames()[n..] == [];
      for k := 0 to n
        invariant all.Valid() && all.at == Visible(Frames()[n - k..])
      {
        var scope := scopes[k];
        assert scope == Chain()[n - 1 - k];
        all := MergeInto(all, scope.variables);
        VisibleFrom(Frames(), n - 1 - k);
      }
      assert Frames()[0..] == Frames();
    }

    // From the root to this scope.
    method GetScopeChain() returns (chain: seq<VariableScope>)
      requires Linked()
      ensures |chain| == |Chain()| && forall i :: 0 <= i < |chain| ==> chain[i] == Chain()[|chain| - 1 - i]
    {
      chain := [];
      var current: VariableScope? := this;
      while current != null
        invariant current == null ==> |chain| == |Chain()|
        invariant current != null ==> |chain| < |Chain()| && current.Linked() && current.Chain() == Chain()[|chain|..]
        invariant |chain| <= |Chain()|
        invariant forall i :: 0 <= i < |chain| ==> chain[i] == Chain()[|chain| - 1 - i]
        decreases |Chain()| - |chain|
      {
        ghost var here := current.Chain();
        assert here[0] == current;
        chain := [current] + chain;
        current := current.parent;
        if current != null {
          assert current.Chain() == here[1..];
        }
      }
    }

    method GetVariableNames() returns (names: seq<string>)
      requires Valid()
      ensures Distinct(names) && ToSet(names) == Visible(Frames()).Keys
      ensures variables.keys <= names
      decreases |above|
    {
      hide Visible, FramesOf, Distinct, ToSet, JsMap.Valid;
      Outward();
      assert variables == Chain()[0].variables;
      OwnNames(variables);
      names := variables.keys;
      if parent != null {
        JoinKeys(Visible(parent.Frames()), variables.at);
        var outer := parent.GetVariableNames();
        names := AddAll(names, outer);
      }
    }

    method CreateChild() returns (child: VariableScope)
      requires Valid()
      modifies this`children
      ensures fresh(child) && child.Valid() && child.parent == this
      ensures child.above == Chain() && child.Frames() == [map[]] + old(Frames())
      ensures children == old(children) + {child}
    {
      hide Visible, JsMap.Valid;
      ghost var before := Frames();
      child := new VariableScope(this);
      assert forall i {:trigger Chain()[i]} :: 0 <= i < |Chain()| ==> Chain()[i].variables == old(Chain()[i].variables);
      assert Frames() == before;
      child.Outward();
      assert child.parent.Frames() == before;
    }
  }

  ghost function FramesOf(chain: seq<VariableScope>): (f: seq<Frame>)
    reads chain
    ensures |f| == |chain|
  {
    seq(|chain|, i requires 0 <= i < |chain| reads chain => chain[i].variables.at)
  }

  lemma DistinctCons<T>(x: T, s: seq<T>)
    requires x !in s && Distinct(s)
    ensures Distinct([x] + s)
  {
  }

  lemma OwnNames(m: JsMap<string, Value>)
    requires m.Valid()
    ensures Distinct(m.keys) && ToSet(m.keys) == m.at.Keys
  {
  }

  // names.add(name) for each further name.
  method AddAll(names: seq<string>, more: seq<string>) returns (r: seq<string>)
    requires Distinct(names)
    ensures Distinct(r) && ToSet(r) == ToSet(names) + ToSet(more)
    ensures names <= r
  {
    hide Distinct;
    r := names;
    for i := 0 to |more|
      invariant Distinct(r) && ToSet(r) == ToSet(names) + ToSet(more[..i])
      invariant names <= r
    {
      TakeOne(more, i);
      if more[i] !in r {
        DistinctAppend(r, more[i]);
        AppendToSet(r, more[i]);
        r := r + [more[i]];
      }
    }
    TakeEnds(more);
  }

  lemma JoinKeys(outer: Frame, own: Frame)
    ensures (outer + own).Keys == own.Keys + outer.Keys
  {
  }

  ghost function Restrict(m: map<string, Value>, keys: seq<string>): map<string, Value> {
    map k | k in ToSet(keys) && k in m :: m[k]
  }

  // Set every entry of `own`, in its order.
  method MergeInto(all: JsMap<string, Value>, own: JsMap<string, Value>) returns (r: JsMap<string, Value>)
    requires all.Valid() && own.Valid()
    ensures r.Valid() && r.at == all.at + own.at
  {
    hide JsMap.Valid, Restrict;
    r := all;
    NothingRestricted(all.at, own.at);
    for j := 0 to |own.keys|
      invariant r.Valid() && r.at == all.at + Restrict(own.at, own.keys[..j])
    {
      KeyAt(own, j);
      RestrictMore(all.at, own.at, own.keys, j);
      r := r.Put(own.keys[j], own.at[own.keys[j]]);
    }
    TakeEnds(own.keys);
    AllKeys(own);
    RestrictToAll(own.at, own.keys);
  }

  lemma NothingRestricted(all: map<string, Value>, m: map<string, Value>)
    ensures forall keys: seq<string> :: all + Restrict(m, keys[..0]) == all
  {
  }

  lemma RestrictMore(all: map<string, Value>, m: map<string, Value>, keys: seq<string>, j: nat)
    requires j < |keys| && keys[j] in m
    ensures all + Restrict(m, keys[..j + 1]) == (all + Restrict(m, keys[..j]))[keys[j] := m[keys[j]]]
  {
    TakeOne(keys, j);
  }

  lemma RestrictToAll(m: map<string, Value>, keys: seq<string>)
    requires ToSet(keys) == m.Keys
    ensures Restrict(m, keys) == m
  {
  }

  class ExecutionContextManager {
    const rootScope: VariableScope
    var currentScope: VariableScope

    ghost predicate Valid()
      reads this, currentScope.Chain()
    {
      currentScope.Valid() && currentScope.Chain()[|currentScope.Chain()| - 1] == rootScope
    }

    ghost function Frames(): seq<Frame>
      reads this, currentScope.Chain()
    {
      currentScope.Frames()
    }

    constructor ()
      ensures Valid() && Frames() == [map[]]
    {
      rootScope := new VariableScope(null);
      currentScope := rootScope;
      new;
      rootScope.Outward();
    }

    method GetVariable(name: string) returns (v: Value)
      requires Valid()
      ensures v == Lookup(Frames(), name)
    {
      v := currentScope.Get(name);
    }

    method PushScope()
      requires Valid()
      modifies this`currentScope, currentScope`children
      ensures Valid() && fresh(currentScope) && currentScope.parent == old(currentScope)
      ensures Some(Frames()) == Act(old(Frames()), Push)
    {
      currentScope := currentScope.CreateChild();
    }

    // False stands for the error thrown at the root scope.
    method PopScope() returns (popped: bool)
      requires Valid()
      modifies this`currentScope
      ensures Valid()
      ensures popped <==> Act(old(Frames()), Pop).Some?
      ensures popped ==> Some(Frames()) == Act(old(Frames()), Pop)
      ensures !popped ==> currentScope == old(currentScope) == rootScope
    {
      currentScope.Outward();
      var parent := currentScope.parent;
      if parent == null {
        return false;
      }
      currentScope := parent;
      return true;
    }

    method SetVariable(name: string, value: Value)
      requires Valid()
      modifies currentScope`variables
      ensures Valid() && Some(Frames()) == Act(old(Frames()), Assign(name, value))
    {
      hide Visible, JsMap.Valid, FramesOf;
      currentScope.Set(name, value);
    }

    method UpdateVariable(name: string, value: Value)
      requires Valid()
      modifies ToSet(currentScope.Chain())`variables
      ensures Valid() && Some(Frames()) == Act(old(Frames()), Revise(name, value))
    {
      currentScope.Update(name, value);
    }

    method DeleteVariable(name: string) returns (existed: bool)
      requires Valid()
      modifies currentScope`variables
      ensures Valid() && Some(Frames()) == Act(old(Frames()), Remove(name))
      ensures existed <==> name in old(Frames())[0]
    {
      currentScope.Outward();
      existed := currentScope.Delete(name);
    }
  }
}
