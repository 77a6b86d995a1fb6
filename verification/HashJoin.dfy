// executeJoin (executor/executor.ts): an index over the right rows against the
// nested loop it stands for. Key expressions are functions of the row.
module HashJoin {
  import opened Seqs
  import opened JsMaps
  import opened JoinSpec
  import opened JoinOrder

  // ---------------------------------------------------------------- the index

  ghost predicate Indexes<K(!new)>(index: JsMap<K, seq<Row>>, right: seq<Row>, rightKey: Row -> K) {
    && index.Valid()
    && index.keys == FirstSeen(right, rightKey)
    && forall k :: k in index.at ==> index.at[k] == Matches(right, rightKey, k)
  }

  lemma {:induction false} MatchesIffKey<K>(right: seq<Row>, rightKey: Row -> K, k: K)
    ensures Matches(right, rightKey, k) != [] <==> k in KeysOf(right, rightKey)
    ensures k in KeysOf(right, rightKey) <==> k in FirstSeen(right, rightKey)
  {
    if right != [] {
      MatchesIffKey(right[..|right| - 1], rightKey, k);
    }
  }

  lemma FirstSeenNext<K>(rows: seq<Row>, r: Row, key: Row -> K)
    ensures FirstSeen(rows + [r], key) == FirstSeen(rows, key) + if key(r) in FirstSeen(rows, key) then [] else [key(r)]
  {
    assert (rows + [r])[..|rows|] == rows;
  }

  lemma IndexStep<K(!new)>(index: JsMap<K, seq<Row>>, right: seq<Row>, rightKey: Row -> K, r: Row)
    requires Indexes(index, right, rightKey)
    ensures var k := rightKey(r);
      Indexes(index.Put(k, (if k in index.at then index.at[k] else []) + [r]), right + [r], rightKey)
  {
    hide Distinct, Matches, FirstSeen;
    var k := rightKey(r);
    FirstSeenNext(right, r, rightKey);
    forall x
      ensures Matches(right + [r], rightKey, x) == Matches(right, rightKey, x) + if k == x then [r] else []
    {
      MatchesNext(right, r, rightKey, x);
    }
    MatchesIffKey(right, rightKey, k);
    assert k in index.at <==> k in ToSet(index.keys);
  }

  method BuildIndex<K(==,!new)>(right: seq<Row>, rightKey: Row -> K) returns (index: JsMap<K, seq<Row>>)
    ensures Indexes(index, right, rightKey)
  {
    hide Indexes;
    index := JsMaps.Empty();
    EmptyIndex(index, rightKey);
    for i := 0 to |right|
      invariant Indexes(index, right[..i], rightKey)
    {
      var rightItem := right[i];
      var k := rightKey(rightItem);
      IndexStep(index, right[..i], rightKey, rightItem);
      assert right[..i + 1] == right[..i] + [rightItem];
      assert [] + [rightItem] == [rightItem];
      if !index.Has(k) {
        index := index.Put(k, [rightItem]);
      } else {
        index := index.Put(k, index.at[k] + [rightItem]);
      }
    }
    assert right[..|right|] == right;
  }

  lemma EmptyIndex<K(!new)>(index: JsMap<K, seq<Row>>, rightKey: Row -> K)
    requires index == JsMaps.Empty()
    ensures Indexes(index, [], rightKey)
  {
  }

  lemma Lookup<K(!new)>(index: JsMap<K, seq<Row>>, right: seq<Row>, rightKey: Row -> K, k: K)
    requires Indexes(index, right, rightKey)
    ensures (if k in index.at then index.at[k] else []) == Matches(right, rightKey, k)
  {
    MatchesIffKey(right, rightKey, k);
    assert k in index.at <==> k in ToSet(index.keys);
  }

  // ---------------------------------------------------------------- the join

  method ExecuteJoin<K(==,!new)>(left: seq<Row>, right: seq<Row>, leftKey: Row -> K, rightKey: Row -> K, t: JoinType)
    returns (results: seq<Row>, ghost places: seq<Place>)
    ensures results == Expected(left, right, leftKey, rightKey, t)
    ensures Rows(left, right, places, results) && Ordered(right, rightKey, places)
    ensures forall p :: p in places <==> Belongs(left, right, leftKey, rightKey, t, p)
  {
    hide Indexes, NestedLoop, KeysOf, Groups, FirstSeen, Matches, Merged, Rows, Ordered, Belongs;
    places := JoinPlaces(left, right, leftKey, rightKey, t);
    JoinStarts(left, right, leftKey, rightKey);
    var index := BuildIndex(right, rightKey);
    var keep := t == LeftJoin || t == FullJoin;
    results := [];
    for i := 0 to |left|
      invariant results == NestedLoop(left[..i], right, leftKey, rightKey, keep)
    {
      var leftItem := left[i];
      var k := leftKey(leftItem);
      var matches := if index.Has(k) then index.at[k] else [];
      Lookup(index, right, rightKey, k);
      JoinNext(left, right, leftKey, rightKey, keep, i);
      if |matches| > 0 {
        results := results + Merged(leftItem, matches);
      } else if keep {
        results := results + [leftItem];
      }
    }
    assert left[..|left|] == left;
    if t == FullJoin {
      var matchedRightKeys: set<K> := {};
      for i := 0 to |left|
        invariant matchedRightKeys == KeysOf(left[..i], leftKey)
      {
        JoinNext(left, right, leftKey, rightKey, keep, i);
        matchedRightKeys := matchedRightKeys + {leftKey(left[i])};
      }
      var rest := Ungrouped(index, right, rightKey, matchedRightKeys);
      results := results + rest;
    }
    if t == RightJoin {
      var rest := Ungrouped(index, right, rightKey, {});
      results := results + rest;
    }
  }

  lemma JoinStarts<K>(left: seq<Row>, right: seq<Row>, leftKey: Row -> K, rightKey: Row -> K)
    ensures forall keep :: NestedLoop(left[..0], right, leftKey, rightKey, keep) == []
    ensures KeysOf(left[..0], leftKey) == {}
  {
  }

  lemma JoinNext<K>(left: seq<Row>, right: seq<Row>, leftKey: Row -> K, rightKey: Row -> K, keep: bool, i: nat)
    requires i < |left|
    ensures NestedLoop(left[..i + 1], right, leftKey, rightKey, keep) ==
      NestedLoop(left[..i], right, leftKey, rightKey, keep) +
        JoinOne(left[i], Matches(right, rightKey, leftKey(left[i])), keep)
    ensures KeysOf(left[..i + 1], leftKey) == KeysOf(left[..i], leftKey) + {leftKey(left[i])}
  {
    hide Matches, JoinOne;
    assert left[..i + 1][..i] == left[..i];
  }

  // The rows of the groups whose key is not among the matched ones.
  method Ungrouped<K(==,!new)>(index: JsMap<K, seq<Row>>, right: seq<Row>, rightKey: Row -> K, matched: set<K>)
    returns (rest: seq<Row>)
    requires Indexes(index, right, rightKey)
    ensures rest == Groups(FirstSeen(right, rightKey), right, rightKey, matched)
  {
    hide Distinct;
    rest := [];
    for i := 0 to |index.keys|
      invariant rest == Groups(index.keys[..i], right, rightKey, matched)
    {
      KeyAt(index, i);
      assert index.keys[..i + 1][..i] == index.keys[..i];
      if index.keys[i] !in matched {
        rest := rest + index.at[index.keys[i]];
      }
    }
    assert index.keys[..|index.keys|] == index.keys;
  }

  // ---------------------------------------------------------------- what the order of groups keeps

  lemma {:induction false} GroupsStep<K>(keys: seq<K>, right: seq<Row>, r: Row, rightKey: Row -> K, excluded: set<K>)
    requires Distinct(keys)
    ensures multiset(Groups(keys, right + [r], rightKey, excluded)) ==
      multiset(Groups(keys, right, rightKey, excluded)) +
      multiset(if rightKey(r) in keys && rightKey(r) !in excluded then [r] else [])
  {
    hide Matches;
    if keys != [] {
      var n := |keys| - 1;
      DistinctAt(keys, n);
      assert keys == keys[..n] + [keys[n]];
      Member(keys[..n], keys[n]);
      GroupsStep(keys[..n], right, r, rightKey, excluded);
      MatchesNext(right, r, rightKey, keys[n]);
    }
  }

  lemma MatchesNext<K>(right: seq<Row>, r: Row, rightKey: Row -> K, k: K)
    ensures Matches(right + [r], rightKey, k) == Matches(right, rightKey, k) + if rightKey(r) == k then [r] else []
  {
    assert (right + [r])[..|right|] == right;
  }

  lemma {:induction false} FirstSeenDistinct<K>(rows: seq<Row>, key: Row -> K)
    ensures Distinct(FirstSeen(rows, key))
  {
    if rows != [] {
      var n := |rows| - 1;
      FirstSeenDistinct(rows[..n], key);
      if key(rows[n]) !in FirstSeen(rows[..n], key) {
        DistinctAppend(FirstSeen(rows[..n], key), key(rows[n]));
      }
    }
  }

  // Grouping by key loses and repeats nothing: as a bag, the tail of a full join is
  // exactly the unmatched right rows.
  lemma {:induction false} GroupsAreUnmatched<K>(right: seq<Row>, rightKey: Row -> K, leftKeys: set<K>)
    ensures multiset(Groups(FirstSeen(right, rightKey), right, rightKey, leftKeys)) ==
      multiset(Unmatched(right, rightKey, leftKeys))
  {
    if right != [] {
      var n := |right| - 1;
      var front, r := right[..n], right[n];
      assert right == front + [r];
      GroupsAreUnmatched(front, rightKey, leftKeys);
      FirstSeenDistinct(front, rightKey);
      GroupsStep(FirstSeen(front, rightKey), front, r, rightKey, leftKeys);
      GroupsGrow(front, r, rightKey, leftKeys);
    }
  }

  // A further row joins its group, or opens a new one at the end.
  lemma GroupsGrow<K>(front: seq<Row>, r: Row, rightKey: Row -> K, leftKeys: set<K>)
    ensures var keys := FirstSeen(front, rightKey);
      Groups(FirstSeen(front + [r], rightKey), front + [r], rightKey, leftKeys) ==
        Groups(keys, front + [r], rightKey, leftKeys) +
        if rightKey(r) in keys || rightKey(r) in leftKeys then [] else [r]
  {
    var right, keys, k := front + [r], FirstSeen(front, rightKey), rightKey(r);
    assert right[..|front|] == front;
    if k !in keys {
      MatchesIffKey(front, rightKey, k);
      assert Matches(right, rightKey, k) == [] + [r];
      assert FirstSeen(right, rightKey) == keys + [k] && (keys + [k])[..|keys|] == keys;
    } else {
      assert FirstSeen(right, rightKey) == keys + [] == keys;
    }
    var old' := Groups(keys, right, rightKey, leftKeys);
    assert old' + [] == old';
  }

  // What a right join stands for: the matches, then the right rows without one.
  ghost function RightJoined<K>(left: seq<Row>, right: seq<Row>, leftKey: Row -> K, rightKey: Row -> K): seq<Row> {
    NestedLoop(left, right, leftKey, rightKey, false) + Unmatched(right, rightKey, KeysOf(left, leftKey))
  }

  // A right join as executed repeats every matched right row: it yields the rows of a
  // right join exactly when no right row has a match.
  lemma {:induction false} RightJoinOnlyWithoutMatches<K>(left: seq<Row>, right: seq<Row>, leftKey: Row -> K,
                                                          rightKey: Row -> K)
    ensures multiset(Expected(left, right, leftKey, rightKey, RightJoin)) ==
      multiset(RightJoined(left, right, leftKey, rightKey))
      <==> KeysOf(right, rightKey) !! KeysOf(left, leftKey)
  {
    hide NestedLoop, Groups, Unmatched, KeysOf, FirstSeen;
    var leftKeys := KeysOf(left, leftKey);
    var matches := NestedLoop(left, right, leftKey, rightKey, false);
    var tail, rest := Groups(FirstSeen(right, rightKey), right, rightKey, {}), Unmatched(right, rightKey, leftKeys);
    GroupsAreUnmatched(right, rightKey, {});
    UnmatchedCount(right, rightKey, leftKeys);
    assert |multiset(tail)| == |multiset(right)| == |right| && |multiset(rest)| == |rest|;
    assert multiset(matches + tail) == multiset(matches) + multiset(tail);
    assert multiset(matches + rest) == multiset(matches) + multiset(rest);
    if multiset(matches) + multiset(tail) == multiset(matches) + multiset(rest) {
      assert multiset(matches) + multiset(tail) - multiset(matches) == multiset(tail);
      assert multiset(matches) + multiset(rest) - multiset(matches) == multiset(rest);
    }
  }

  // A row joined with itself comes out twice, whatever the key.
  lemma RightJoinInput<K>(row: Row, key: Row -> K)
    ensures Expected([row], [row], key, key, RightJoin) == [row, row]
    ensures RightJoined([row], [row], key, key) == [row]
  {
    hide NestedLoop, Groups, Unmatched, KeysOf, FirstSeen;
    OneRow(row, key);
    OneGroup(row, key);
    assert [row] + [] == [row] && [row] + [row] == [row, row];
  }

  lemma OneRow<K>(row: Row, key: Row -> K)
    ensures Matches([row], key, key(row)) == [row]
    ensures NestedLoop([row], [row], key, key, false) == [row]
    ensures Unmatched([row], key, KeysOf([row], key)) == []
  {
    assert [row][..0] == [];
    assert row + row == row;
    assert Merged(row, [row]) == [] + [row + row];
    assert Matches([row], key, key(row)) == [] + [row];
    assert NestedLoop([row], [row], key, key, false) == [] + JoinOne(row, [row], false);
  }

  lemma OneGroup<K>(row: Row, key: Row -> K)
    ensures Groups(FirstSeen([row], key), [row], key, {}) == [row]
  {
    assert [row][..0] == [] && [key(row)][..0] == [];
    assert FirstSeen([row], key) == [] + [key(row)];
    assert Matches([row], key, key(row)) == [] + [row];
    assert Groups([key(row)], [row], key, {}) == [] + [row];
  }

  lemma {:induction false} UnmatchedCount<K>(right: seq<Row>, rightKey: Row -> K, leftKeys: set<K>)
    ensures Unmatched(right, rightKey, {}) == right
    ensures |Unmatched(right, rightKey, leftKeys)| <= |right|
    ensures |Unmatched(right, rightKey, leftKeys)| == |right| <==> KeysOf(right, rightKey) !! leftKeys
    ensures KeysOf(right, rightKey) !! leftKeys ==> Unmatched(right, rightKey, leftKeys) == right
  {
    if right != [] {
      var n := |right| - 1;
      assert right == right[..n] + [right[n]];
      UnmatchedCount(right[..n], rightKey, leftKeys);
    }
  }

  // ---------------------------------------------------------------- who is in the result

  lemma {:induction false} InMatches<K>(right: seq<Row>, rightKey: Row -> K, k: K, r: Row)
    ensures r in Matches(right, rightKey, k) <==> r in right && rightKey(r) == k
  {
    if right != [] {
      InMatches(right[..|right| - 1], rightKey, k, r);
      assert right == right[..|right| - 1] + [right[|right| - 1]];
    }
  }

  lemma {:induction false} InMerged(l: Row, matches: seq<Row>, x: Row)
    ensures x in Merged(l, matches) <==> exists r :: r in matches && x == l + r
  {
    if matches != [] {
      InMerged(l, matches[..|matches| - 1], x);
      assert matches == matches[..|matches| - 1] + [matches[|matches| - 1]];
    }
  }

  ghost predicate Joins<K>(l: Row, right: seq<Row>, leftKey: Row -> K, rightKey: Row -> K, keep: bool, x: Row) {
    || (exists r :: r in right && rightKey(r) == leftKey(l) && x == l + r)
    || (keep && x == l && forall r :: r in right ==> rightKey(r) != leftKey(l))
  }

  // A row is in the join exactly when it merges two rows of equal key, or is a kept
  // left row without a partner.
  lemma {:induction false} InJoin<K>(left: seq<Row>, right: seq<Row>, leftKey: Row -> K, rightKey: Row -> K,
                                     keep: bool, x: Row)
    ensures x in NestedLoop(left, right, leftKey, rightKey, keep) <==>
      exists l :: l in left && Joins(l, right, leftKey, rightKey, keep, x)
  {
    if left != [] {
      var n := |left| - 1;
      var l := left[n];
      var matches := Matches(right, rightKey, leftKey(l));
      assert left == left[..n] + [l];
      InJoin(left[..n], right, leftKey, rightKey, keep, x);
      InMerged(l, matches, x);
      forall r
        ensures r in matches <==> r in right && rightKey(r) == leftKey(l)
      {
        InMatches(right, rightKey, leftKey(l), r);
      }
      assert matches != [] ==> matches[0] in matches;
      assert x in JoinOne(l, matches, keep) <==> Joins(l, right, leftKey, rightKey, keep, x);
    }
  }
}
