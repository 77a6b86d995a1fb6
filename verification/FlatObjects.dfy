// Flattening nested objects to dotted paths and back (utils/object-utils.ts).
module FlatObjects {
  import opened Seqs
  import opened Strings

  // Leaf stands for anything that is not a plain object, null apart. Objects have their
  // own keys; the order they are enumerated in is a parameter.
  datatype Tree = Leaf(value: int) | Null | Object(fields: Fields)
  type Fields = map<string, Tree>
  type Order = Fields -> seq<string>

  // Reading and writing this key of a plain object reaches its prototype, not a
  // property of its own. Only parsed data can own it.
  const PROTO: string := "__proto__"

  // record[key] = value for a value that is no object: the prototype is no property.
  function Assign(record: Fields, key: string, value: Tree): Fields {
    if key == PROTO then record else record[key := value]
  }

  ghost predicate Enumerates(order: Order) {
    forall m: Fields {:trigger order(m)} :: ToSet(order(m)) == m.Keys
  }

  // ---------------------------------------------------------------- flatten

  function Under(prefix: string, key: string): string {
    if prefix != "" then prefix + ['.'] + key else key
  }

  // The entries of some of an object's keys, later ones overriding earlier ones.
  function FlattenKeys(o: Tree, keys: seq<string>, prefix: string, order: Order): Fields
    requires o.Object? && Enumerates(order) && ToSet(keys) <= o.fields.Keys
    decreases o, |keys|
  {
    if keys == [] then map[]
    else
      var k := keys[|keys| - 1];
      assert k in ToSet(keys);
      var before := FlattenKeys(o, keys[..|keys| - 1], prefix, order);
      if o.fields[k].Object? then before + FlattenKeys(o.fields[k], order(o.fields[k].fields), Under(prefix, k), order)
      else Assign(before, Under(prefix, k), o.fields[k])
  }

  function FlattenObject(o: Tree, prefix: string, order: Order): Fields
    requires o.Object? && Enumerates(order)
  {
    FlattenKeys(o, order(o.fields), prefix, order)
  }

  method Flatten(o: Tree, prefix: string, order: Order) returns (result: Fields)
    requires o.Object? && Enumerates(order)
    ensures result == FlattenObject(o, prefix, order)
    decreases o
  {
    var keys := order(o.fields);
    result := map[];
    for i := 0 to |keys|
      invariant result == FlattenKeys(o, keys[..i], prefix, order)
    {
      TakeOne(keys, i);
      assert keys[..i + 1][..i] == keys[..i];
      var value := o.fields[keys[i]];
      var newKey := Under(prefix, keys[i]);
      if value.Object? {
        var nested := Flatten(value, newKey, order);
        result := result + nested;
      } else {
        result := Assign(result, newKey, value);
      }
    }
    assert keys[..|keys|] == keys;
  }

  // ---------------------------------------------------------------- set and unflatten

  // How a write ends: done, with the TypeError of walking into null, or outside the
  // object, in its prototype.
  datatype Outcome = Done(fields: Fields) | TypeError | Escaped

  // Walk down, replacing what is no object by an empty one.
  function SetAt(fields: Fields, keys: seq<string>, value: Tree): Outcome
    requires keys != []
    decreases |keys|
  {
    if keys[0] == PROTO then Escaped
    else if |keys| == 1 then Done(fields[keys[0] := value])
    else if keys[0] in fields && fields[keys[0]].Null? then TypeError
    else
      var inner := if keys[0] in fields && fields[keys[0]].Object? then fields[keys[0]].fields else map[];
      var written := SetAt(inner, keys[1..], value);
      if written.Done? then Done(fields[keys[0] := Object(written.fields)]) else written
  }

  function Set(fields: Fields, path: string, value: Tree): Outcome {
    var keys := Split(path, '.');
    if keys[|keys| - 1] == "" then Done(fields) else SetAt(fields, keys, value)
  }

  // The paths written one after the other into an empty object, as long as all goes
  // well.
  function WriteAll(flat: Fields, paths: seq<string>): Outcome
    requires ToSet(paths) <= flat.Keys
  {
    if paths == [] then Done(map[])
    else
      var last := paths[|paths| - 1];
      assert last in ToSet(paths);
      var before := WriteAll(flat, paths[..|paths| - 1]);
      if before.Done? then Set(before.fields, last, flat[last]) else before
  }

  method Unflatten(flat: Fields, order: Order) returns (result: Outcome)
    requires Enumerates(order)
    ensures result == WriteAll(flat, order(flat))
  {
    var paths := order(flat);
    result := Done(map[]);
    for i := 0 to |paths|
      invariant result == WriteAll(flat, paths[..i])
    {
      TakeOne(paths, i);
      assert paths[..i + 1][..i] == paths[..i];
      if result.Done? {
        result := Set(result.fields, paths[i], flat[paths[i]]);
      }
    }
    assert paths[..|paths|] == paths;
  }

  // ---------------------------------------------------------------- the trees that survive

  // No dots in keys and no key that names the prototype, no empty nested object, no
  // leaf behind an empty key.
  ghost predicate Clean(o: Tree)
    decreases o
  {
    o.Object? ==> forall k :: k in o.fields ==>
      && '.' !in k && k != PROTO
      && (if o.fields[k].Object? then o.fields[k].fields != map[] else k != "")
      && Clean(o.fields[k])
  }

  ghost predicate Tidy(o: Tree) {
    o.Object? && Clean(o) && "" !in o.fields
  }

  // ---------------------------------------------------------------- looking up a leaf

  function LeafAt(o: Tree, keys: seq<string>): Option<Tree>
    decreases o
  {
    if !o.Object? then (if keys == [] then Some(o) else None)
    else if keys == [] || keys[0] !in o.fields then None
    else LeafAt(o.fields[keys[0]], keys[1..])
  }

  // The part of a path below the prefix.
  function Below(path: string, prefix: string): string {
    if prefix == "" then path
    else if prefix + "." <= path then path[|prefix| + 1..]
    else ""
  }

  function KeysBelow(path: string, prefix: string): (keys: seq<string>)
    ensures keys != []
  {
    Split(Below(path, prefix), '.')
  }

  // flat holds exactly the leaves of o behind the keys `done`, each at its dotted path.
  ghost predicate Describes(flat: Fields, prefix: string, o: Tree, done: set<string>) {
    && (forall path {:trigger flat[path]} {:trigger path in flat} :: path in flat ==>
         && Under(prefix, Below(path, prefix)) == path
         && KeysBelow(path, prefix)[0] in done
         && LeafAt(o, KeysBelow(path, prefix)) == Some(flat[path]))
    && (forall keys: seq<string> {:trigger LeafAt(o, keys)} ::
         keys != [] && keys[0] in done && LeafAt(o, keys).Some? ==> Under(prefix, Join(keys, '.')) in flat)
  }

  lemma {:induction false} FlattenDescribes(o: Tree, keys: seq<string>, prefix: string, order: Order)
    requires o.Object? && Enumerates(order) && ToSet(keys) <= o.fields.Keys
    requires Clean(o) && (prefix == "" ==> "" !in o.fields)
    ensures Describes(FlattenKeys(o, keys, prefix, order), prefix, o, ToSet(keys))
    decreases o, |keys|
  {
    hide Describes, Clean;
    if keys == [] {
      NothingDescribed(o, prefix);
      assert ToSet(keys) == {};
    } else {
      var n := |keys| - 1;
      var k := keys[n];
      TakeOne(keys, n);
      TakeEnds(keys);
      CleanAt(o, k);
      var flat := FlattenKeys(o, keys[..n], prefix, order);
      FlattenDescribes(o, keys[..n], prefix, order);
      var child := o.fields[k];
      if child.Object? {
        var nested := FlattenKeys(child, order(child.fields), Under(prefix, k), order);
        FlattenDescribes(child, order(child.fields), Under(prefix, k), order);
        DescribeObject(flat, nested, prefix, o, ToSet(keys[..n]), k);
      } else {
        DescribeLeaf(flat, prefix, o, ToSet(keys[..n]), k);
      }
    }
  }

  lemma NothingDescribed(o: Tree, prefix: string)
    ensures Describes(map[], prefix, o, {})
  {
  }

  lemma CleanAt(o: Tree, k: string)
    requires o.Object? && Clean(o) && k in o.fields
    ensures '.' !in k && k != PROTO && Clean(o.fields[k])
    ensures if o.fields[k].Object? then o.fields[k].fields != map[] else k != ""
  {
  }

  lemma DescribeLeaf(flat: Fields, prefix: string, o: Tree, done: set<string>, k: string)
    requires o.Object? && k in o.fields && !o.fields[k].Object? && '.' !in k && k != PROTO
    requires Describes(flat, prefix, o, done)
    ensures Describes(Assign(flat, Under(prefix, k), o.fields[k]), prefix, o, done + {k})
  {
    hide Describes, Under, PROTO;
    NotThePrototype(prefix, k);
    DescribePut(flat, prefix, o, done, k);
  }

  lemma DescribePut(flat: Fields, prefix: string, o: Tree, done: set<string>, k: string)
    requires o.Object? && k in o.fields && !o.fields[k].Object? && '.' !in k
    requires Describes(flat, prefix, o, done)
    ensures Describes(flat[Under(prefix, k) := o.fields[k]], prefix, o, done + {k})
  {
    hide Split, Under, Below, Join, KeysBelow, LeafAt;
    var path := Under(prefix, k);
    var after := flat[path := o.fields[k]];
    LeafPath(o, prefix, k);
    JoinOne(k);
    forall keys: seq<string> {:trigger LeafAt(o, keys)} | keys != [] && keys[0] in done + {k} && LeafAt(o, keys).Some?
      ensures Under(prefix, Join(keys, '.')) in after
    {
      if keys[0] == k {
        assert keys == [k] + keys[1..];
        LeafBelow(o, k, keys[1..]);
        NothingBelowLeaf(o.fields[k], keys[1..]);
        assert keys == [k];
      }
    }
  }

  lemma LeafPath(o: Tree, prefix: string, k: string)
    requires o.Object? && k in o.fields && !o.fields[k].Object? && '.' !in k
    ensures var path := Under(prefix, k);
      Under(prefix, Below(path, prefix)) == path && KeysBelow(path, prefix) == [k] &&
        LeafAt(o, [k]) == Some(o.fields[k])
  {
    hide Split, Under, Below;
    BelowUnder(prefix, k);
    SplitOne(k);
    assert [k] + [] == [k];
    LeafBelow(o, k, []);
  }

  lemma NothingBelowLeaf(leaf: Tree, keys: seq<string>)
    requires !leaf.Object? && LeafAt(leaf, keys).Some?
    ensures keys == []
  {
  }

  lemma NotThePrototype(prefix: string, k: string)
    requires k != PROTO
    ensures Under(prefix, k) != PROTO
  {
    if prefix != "" {
      assert (prefix + ['.'] + k)[|prefix|] == '.';
      assert forall i :: 0 <= i < |PROTO| ==> PROTO[i] != '.';
    }
  }

  lemma SplitOne(k: string)
    requires '.' !in k
    ensures Split(k, '.') == [k]
  {
  }

  lemma BelowUnder(prefix: string, rest: string)
    ensures Below(Under(prefix, rest), prefix) == rest
  {
    if prefix != "" {
      assert prefix + ['.'] + rest == (prefix + ".") + rest;
    }
  }

  lemma DescribeObject(flat: Fields, nested: Fields, prefix: string, o: Tree, done: set<string>, k: string)
    requires o.Object? && k in o.fields && o.fields[k].Object? && '.' !in k && Under(prefix, k) != ""
    requires Describes(flat, prefix, o, done)
    requires Describes(nested, Under(prefix, k), o.fields[k], o.fields[k].fields.Keys)
    ensures Describes(flat + nested, prefix, o, done + {k})
  {
    hide LeafAt, Split, Join, Under, Below;
    var child, inner := o.fields[k], Under(prefix, k);
    var after := flat + nested;
    forall path {:trigger after[path]} {:trigger path in after} | path in after
      ensures Under(prefix, Below(path, prefix)) == path
      ensures KeysBelow(path, prefix)[0] in done + {k}
      ensures LeafAt(o, KeysBelow(path, prefix)) == Some(after[path])
    {
      if path in nested {
        BelowNested(path, prefix, k);
        LeafBelow(o, k, KeysBelow(path, inner));
      }
    }
    forall keys: seq<string> {:trigger LeafAt(o, keys)} | keys != [] && keys[0] in done + {k} && LeafAt(o, keys).Some?
      ensures Under(prefix, Join(keys, '.')) in after
    {
      if keys[0] == k {
        assert keys == [k] + keys[1..];
        LeafBelow(o, k, keys[1..]);
        JoinNested(prefix, k, keys[1..]);
      }
    }
  }

  lemma BelowNested(path: string, prefix: string, k: string)
    requires '.' !in k && Under(prefix, k) != "" && Under(Under(prefix, k), Below(path, Under(prefix, k))) == path
    ensures Under(prefix, Below(path, prefix)) == path
    ensures KeysBelow(path, prefix) == [k] + KeysBelow(path, Under(prefix, k))
  {
    hide Split;
    var rest := Below(path, Under(prefix, k));
    var below := k + ['.'] + rest;
    assert path == Under(prefix, below);
    BelowUnder(prefix, below);
    SplitFirst(k, rest, '.');
  }

  lemma LeafBelow(o: Tree, k: string, keys: seq<string>)
    requires o.Object? && k in o.fields
    ensures LeafAt(o, [k] + keys) == LeafAt(o.fields[k], keys)
    ensures o.fields[k].Object? && LeafAt(o.fields[k], keys).Some? ==> keys != [] && keys[0] in o.fields[k].fields
  {
    assert ([k] + keys)[1..] == keys;
  }

  lemma JoinNested(prefix: string, k: string, keys: seq<string>)
    requires keys != [] && Under(prefix, k) != ""
    ensures Under(prefix, Join([k] + keys, '.')) == Under(Under(prefix, k), Join(keys, '.'))
  {
    hide Join;
    assert Join([k], '.') == k by {
      JoinOne(k);
    }
    JoinAppend([k], keys, '.');
    assert prefix + ['.'] + (k + ['.'] + Join(keys, '.')) == prefix + ['.'] + k + ['.'] + Join(keys, '.');
  }

  lemma JoinOne(k: string)
    ensures Join([k], '.') == k
  {
  }

  // ---------------------------------------------------------------- a partly written tree

  function Heads(paths: set<seq<string>>): set<string> {
    set p | p in paths && p != [] :: p[0]
  }

  function Tails(paths: set<seq<string>>, k: string): set<seq<string>> {
    set p | p in paths && p != [] && p[0] == k :: p[1..]
  }

  // What is there of o when only the leaves at `paths` have been written.
  function Prune(o: Tree, paths: set<seq<string>>): Fields
    requires o.Object?
    decreases o
  {
    map k | k in o.fields && k in Heads(paths) ::
      if o.fields[k].Object? then Object(Prune(o.fields[k], Tails(paths, k))) else o.fields[k]
  }

  // Writing one more leaf, in whatever order, adds just that leaf.
  lemma {:induction false} WriteOneMore(o: Tree, paths: set<seq<string>>, keys: seq<string>)
    requires o.Object? && keys != [] && LeafAt(o, keys).Some?
    requires PROTO !in keys
    ensures SetAt(Prune(o, paths), keys, LeafAt(o, keys).value) == Done(Prune(o, paths + {keys}))
    decreases o
  {
    hide Prune, Heads, Tails;
    var k, rest := keys[0], keys[1..];
    var child := o.fields[k];
    assert keys == [k] + rest;
    LeafBelow(o, k, rest);
    PruneMore(o, paths, keys);
    if child.Object? {
      PruneChild(o, paths, k);
      WriteOneMore(child, Tails(paths, k), rest);
    } else {
      assert rest == [];
    }
  }

  // Only the entry of the first key differs once `keys` is there as well.
  lemma PruneMore(o: Tree, paths: set<seq<string>>, keys: seq<string>)
    requires o.Object? && keys != [] && keys[0] in o.fields
    ensures var k := keys[0]; var child := o.fields[k];
      Prune(o, paths + {keys}) == Prune(o, paths)[k :=
        if child.Object? then Object(Prune(child, Tails(paths, k) + {keys[1..]})) else child]
  {
    HeadsMore(paths, keys);
  }

  // What is there of a nested object, nothing included.
  lemma PruneChild(o: Tree, paths: set<seq<string>>, k: string)
    requires o.Object? && k in o.fields && o.fields[k].Object?
    ensures var p := Prune(o, paths);
      Prune(o.fields[k], Tails(paths, k)) ==
        if k in p && p[k].Object? then p[k].fields else map[]
    ensures k in Prune(o, paths) ==> Prune(o, paths)[k].Object?
  {
    if k !in Heads(paths) {
      assert Tails(paths, k) == {};
      assert Prune(o.fields[k], {}) == map[];
    }
  }

  lemma HeadsMore(paths: set<seq<string>>, keys: seq<string>)
    requires keys != []
    ensures Heads(paths + {keys}) == Heads(paths) + {keys[0]}
    ensures Tails(paths + {keys}, keys[0]) == Tails(paths, keys[0]) + {keys[1..]}
    ensures forall k :: k != keys[0] ==> Tails(paths + {keys}, k) == Tails(paths, k)
  {
  }

  lemma SomeLeaf(o: Tree) returns (keys: seq<string>)
    requires Clean(o) && (o.Object? ==> o.fields != map[])
    ensures LeafAt(o, keys).Some?
    decreases o
  {
    if !o.Object? {
      return [];
    }
    var k :| k in o.fields;
    CleanAt(o, k);
    var rest := SomeLeaf(o.fields[k]);
    LeafBelow(o, k, rest);
    return [k] + rest;
  }

  // With every leaf written the tree is complete, having no empty nested objects.
  lemma {:induction false} AllWritten(o: Tree, paths: set<seq<string>>)
    requires o.Object? && Clean(o)
    requires forall keys :: keys != [] && LeafAt(o, keys).Some? ==> keys in paths
    ensures Prune(o, paths) == o.fields
    decreases o
  {
    hide LeafAt, Clean;
    var all := Prune(o, paths);
    forall k | k in o.fields
      ensures k in Heads(paths) && (o.fields[k].Object? ==> Prune(o.fields[k], Tails(paths, k)) == o.fields[k].fields)
    {
      var child := o.fields[k];
      CleanAt(o, k);
      var leaf := SomeLeaf(child);
      LeafBelow(o, k, leaf);
      assert ([k] + leaf) in paths && ([k] + leaf)[0] == k;
      if child.Object? {
        forall keys | keys != [] && LeafAt(child, keys).Some?
          ensures keys in Tails(paths, k)
        {
          LeafBelow(o, k, keys);
          assert ([k] + keys) in paths && ([k] + keys)[0] == k && ([k] + keys)[1..] == keys;
        }
        AllWritten(child, Tails(paths, k));
      }
    }
  }

  function KeyLists(paths: seq<string>): set<seq<string>> {
    set p | p in ToSet(paths) :: Split(p, '.')
  }

  lemma {:induction false} LeafKeys(o: Tree, keys: seq<string>)
    requires Clean(o) && LeafAt(o, keys).Some?
    ensures Free(keys, '.') && PROTO !in keys
    ensures keys != [] ==> keys[|keys| - 1] != ""
    decreases o
  {
    hide Clean;
    if o.Object? {
      CleanAt(o, keys[0]);
      LeafKeys(o.fields[keys[0]], keys[1..]);
    }
  }

  lemma {:induction false} WritesPrune(o: Tree, flat: Fields, paths: seq<string>)
    requires o.Object? && Clean(o) && Describes(flat, "", o, o.fields.Keys) && ToSet(paths) <= flat.Keys
    ensures WriteAll(flat, paths) == Done(Prune(o, KeyLists(paths)))
    decreases |paths|
  {
    hide Clean, Prune, LeafAt, Split, Describes, SetAt, KeyLists, ToSet;
    if paths == [] {
      NothingPruned(o);
    } else {
      var n := |paths| - 1;
      TakeOne(paths, n);
      TakeEnds(paths);
      WritesPrune(o, flat, paths[..n]);
      var keys := Split(paths[n], '.');
      DescribedAt(o, flat, paths[n]);
      LeafKeys(o, keys);
      WriteOneMore(o, KeyLists(paths[..n]), keys);
      KeyListsNext(paths, n);
    }
  }

  lemma DescribedAt(o: Tree, flat: Fields, path: string)
    requires o.Object? && Describes(flat, "", o, o.fields.Keys) && path in flat
    ensures LeafAt(o, Split(path, '.')) == Some(flat[path])
  {
    hide LeafAt, Split;
    assert Split(path, '.') == KeysBelow(path, "");
  }

  lemma KeyListsNext(paths: seq<string>, n: nat)
    requires n < |paths|
    ensures KeyLists(paths[..n + 1]) == KeyLists(paths[..n]) + {Split(paths[n], '.')}
  {
    hide Split;
    TakeOne(paths, n);
  }

  lemma NothingPruned(o: Tree)
    requires o.Object?
    ensures Prune(o, KeyLists([])) == map[]
  {
  }

  // ---------------------------------------------------------------- what unflatten can build

  lemma {:induction false} SetKeepsClean(fields: Fields, keys: seq<string>, value: Tree)
    requires Clean(Object(fields)) && keys != [] && Free(keys, '.') && keys[|keys| - 1] != "" && !value.Object?
    ensures var r := SetAt(fields, keys, value);
      r.Done? ==> Clean(Object(r.fields)) && r.fields != map[] && ("" !in fields && keys[0] != "" ==> "" !in r.fields)
    decreases |keys|
  {
    hide Clean;
    var k := keys[0];
    if k != PROTO && |keys| == 1 {
      PutKeepsClean(fields, k, value);
    } else if k != PROTO && !(k in fields && fields[k].Null?) {
      var inner := if k in fields && fields[k].Object? then fields[k].fields else map[];
      CleanEmpty();
      if k in fields {
        CleanAt(Object(fields), k);
        assert fields[k].Object? ==> Object(inner) == fields[k];
      }
      SetKeepsClean(inner, keys[1..], value);
      var written := SetAt(inner, keys[1..], value);
      if written.Done? {
        PutKeepsClean(fields, k, Object(written.fields));
      }
    }
  }

  lemma CleanEmpty()
    ensures Clean(Object(map[]))
  {
  }

  lemma PutKeepsClean(fields: Fields, k: string, value: Tree)
    requires Clean(Object(fields)) && '.' !in k && k != PROTO && Clean(value)
    requires if value.Object? then value.fields != map[] else k != ""
    ensures Clean(Object(fields[k := value])) && fields[k := value] != map[]
  {
    assert k in fields[k := value];
  }

  // No path of a clean tree starts with a dot or is empty.
  lemma {:induction false} PathsStartWithKeys(o: Tree, keys: seq<string>, prefix: string, order: Order)
    requires o.Object? && Enumerates(order) && ToSet(keys) <= o.fields.Keys
    requires Clean(o) && (prefix == "" || prefix[0] != '.')
    ensures forall path :: path in FlattenKeys(o, keys, prefix, order) ==> path != "" && path[0] != '.'
    decreases o, |keys|
  {
    hide Clean;
    if keys != [] {
      var n := |keys| - 1;
      TakeOne(keys, n);
      TakeEnds(keys);
      CleanAt(o, keys[n]);
      PathsStartWithKeys(o, keys[..n], prefix, order);
      var child, below := o.fields[keys[n]], Under(prefix, keys[n]);
      assert below == "" || below[0] != '.';
      if child.Object? {
        PathsStartWithKeys(child, order(child.fields), below, order);
      }
    }
  }

  lemma {:induction false} LeavesOnly(o: Tree, keys: seq<string>, prefix: string, order: Order)
    requires o.Object? && Enumerates(order) && ToSet(keys) <= o.fields.Keys
    ensures forall path :: path in FlattenKeys(o, keys, prefix, order) ==>
      !FlattenKeys(o, keys, prefix, order)[path].Object?
    decreases o, |keys|
  {
    if keys != [] {
      var n := |keys| - 1;
      TakeOne(keys, n);
      TakeEnds(keys);
      LeavesOnly(o, keys[..n], prefix, order);
      var child := o.fields[keys[n]];
      if child.Object? {
        LeavesOnly(child, order(child.fields), Under(prefix, keys[n]), order);
      }
    }
  }

  lemma {:induction false} WritesKeepClean(flat: Fields, paths: seq<string>)
    requires ToSet(paths) <= flat.Keys && forall path :: path in flat ==> !flat[path].Object?
    ensures var r := WriteAll(flat, paths);
      r.Done? ==>
        && Clean(Object(r.fields))
        && ((forall path :: path in flat ==> path != "" && path[0] != '.') ==> "" !in r.fields)
    decreases |paths|
  {
    hide Clean, Split, SetAt;
    if paths == [] {
      CleanEmpty();
    } else {
      var n := |paths| - 1;
      TakeOne(paths, n);
      TakeEnds(paths);
      WritesKeepClean(flat, paths[..n]);
      var before := WriteAll(flat, paths[..n]);
      var keys := Split(paths[n], '.');
      SplitIsFree(paths[n], '.');
      FirstKey(paths[n]);
      if before.Done? && keys[|keys| - 1] != "" {
        SetKeepsClean(before.fields, keys, flat[paths[n]]);
      }
    }
  }

  lemma FirstKey(path: string)
    ensures path != "" && path[0] != '.' ==> Split(path, '.')[0] != ""
  {
  }

  // ---------------------------------------------------------------- main result

  // Flattening a tree and writing its paths back, each at least once and in any order,
  // rebuilds the tree exactly when it is tidy: no dots in keys, no key that names the
  // prototype, no empty key at the top, no leaf behind an empty key, no empty nested
  // object.
  lemma FlattenRoundTrip(o: Tree, order: Order, paths: seq<string>)
    requires o.Object? && Enumerates(order) && ToSet(paths) == FlattenObject(o, "", order).Keys
    ensures WriteAll(FlattenObject(o, "", order), paths) == Done(o.fields) <==> Tidy(o)
  {
    hide Clean, Describes, FlattenKeys, WriteAll, Prune;
    var keys := order(o.fields);
    var flat := FlattenObject(o, "", order);
    assert ToSet(keys) == o.fields.Keys;
    LeavesOnly(o, keys, "", order);
    WritesKeepClean(flat, paths);
    if Clean(o) {
      PathsStartWithKeys(o, keys, "", order);
    }
    if Tidy(o) {
      FlattenDescribes(o, keys, "", order);
      WritesPrune(o, flat, paths);
      CoversLeaves(o, flat, paths);
      AllWritten(o, KeyLists(paths));
    }
  }

  lemma CoversLeaves(o: Tree, flat: Fields, paths: seq<string>)
    requires o.Object? && Clean(o) && Describes(flat, "", o, o.fields.Keys) && ToSet(paths) == flat.Keys
    ensures forall keys :: keys != [] && LeafAt(o, keys).Some? ==> keys in KeyLists(paths)
  {
    hide Clean;
    forall keys | keys != [] && LeafAt(o, keys).Some?
      ensures keys in KeyLists(paths)
    {
      LeafKeys(o, keys);
      SplitJoin(keys, '.');
      assert Under("", Join(keys, '.')) in flat;
      assert Join(keys, '.') in ToSet(paths);
    }
  }

  // Non-empty dot-free keys other than that of the prototype and no empty nested objects
  // are enough.
  ghost predicate Plain(o: Tree)
    decreases o
  {
    o.Object? ==> forall k :: k in o.fields ==>
      k != "" && '.' !in k && k != PROTO && (o.fields[k].Object? ==> o.fields[k].fields != map[]) && Plain(o.fields[k])
  }

  lemma {:induction false} PlainIsTidy(o: Tree)
    requires o.Object? && Plain(o)
    ensures Tidy(o)
    decreases o
  {
    forall k | k in o.fields && o.fields[k].Object?
      ensures Clean(o.fields[k])
    {
      PlainIsTidy(o.fields[k]);
    }
  }

  // An object that owns a key "__proto__" is not rebuilt, in whatever order.
  lemma PrototypeInput(order: Order, paths: seq<string>)
    requires Enumerates(order)
    requires ToSet(paths) == FlattenObject(Object(map[PROTO := Object(map["a" := Leaf(1)])]), "", order).Keys
    ensures var o := Object(map[PROTO := Object(map["a" := Leaf(1)])]);
      WriteAll(FlattenObject(o, "", order), paths) != Done(o.fields)
  {
    var o := Object(map[PROTO := Object(map["a" := Leaf(1)])]);
    FlattenRoundTrip(o, order, paths);
    assert PROTO in o.fields;
  }
}
