// Which rows a join yields and in which order, told by the positions of the rows they
// come from.
module JoinOrder {
  import opened Seqs
  import opened JoinSpec

  // A row made from a left and a right row, from a left row alone or a right row alone.
  datatype Place = Pair(i: nat, j: nat) | Alone(i: nat) | Rest(j: nat)

  // The right row wins on shared columns.
  ghost predicate IsRow(left: seq<Row>, right: seq<Row>, p: Place, row: Row) {
    match p
    case Pair(i, j) => i < |left| && j < |right| && row == left[i] + right[j]
    case Alone(i) => i < |left| && row == left[i]
    case Rest(j) => j < |right| && row == right[j]
  }

  // Pairs of equal keys; left rows without a partner in a left or full join; right rows
  // without one in a full join, but all of them in a right join.
  ghost predicate Belongs<K(!new)>(left: seq<Row>, right: seq<Row>, leftKey: Row -> K, rightKey: Row -> K,
                                   t: JoinType, p: Place)
  {
    match p
    case Pair(i, j) => i < |left| && j < |right| && leftKey(left[i]) == rightKey(right[j])
    case Alone(i) =>
      && (t == LeftJoin || t == FullJoin) && i < |left|
      && forall j :: 0 <= j < |right| ==> rightKey(right[j]) != leftKey(left[i])
    case Rest(j) =>
      && j < |right|
      && (t == RightJoin || (t == FullJoin && forall i :: 0 <= i < |left| ==> leftKey(left[i]) != rightKey(right[j])))
  }

  // The first right row with key k.
  ghost function Lead<K>(right: seq<Row>, rightKey: Row -> K, k: K): (f: nat)
    ensures f <= |right| && (f < |right| ==> rightKey(right[f]) == k)
    ensures forall i :: 0 <= i < f ==> rightKey(right[i]) != k
  {
    if right == [] || rightKey(right[0]) == k then 0
    else
      var rest := Lead(right[1..], rightKey, k);
      assert forall i :: 0 < i < |right| ==> right[i] == right[1..][i - 1];
      1 + rest
  }

  // By the left row and then by the right row; the right rows that stand alone come last,
  // those of one key together.
  ghost predicate Before<K(!new)>(right: seq<Row>, rightKey: Row -> K, p: Place, q: Place) {
    match p
    case Pair(i, j) => q.Rest? || i < q.i || (q.Pair? && i == q.i && j < q.j)
    case Alone(i) => q.Rest? || i < q.i
    case Rest(j) =>
      && q.Rest? && j < |right| && q.j < |right|
      && var f, g := Lead(right, rightKey, rightKey(right[j])), Lead(right, rightKey, rightKey(right[q.j]));
         f < g || (f == g && j < q.j)
  }

  ghost predicate Ordered<K(!new)>(right: seq<Row>, rightKey: Row -> K, ps: seq<Place>) {
    forall a, b :: 0 <= a < b < |ps| ==> Before(right, rightKey, ps[a], ps[b])
  }

  ghost predicate Rows(left: seq<Row>, right: seq<Row>, ps: seq<Place>, rows: seq<Row>) {
    |ps| == |rows| && forall k :: 0 <= k < |ps| ==> IsRow(left, right, ps[k], rows[k])
  }

  // ---------------------------------------------------------------- the places, built alongside

  // Those of one key among the first n right rows.
  ghost function Positions<K>(right: seq<Row>, rightKey: Row -> K, k: K, n: nat): (js: seq<nat>)
    requires n <= |right|
    ensures forall x :: 0 <= x < |js| ==> js[x] < n && rightKey(right[js[x]]) == k
    ensures forall x, y :: 0 <= x < y < |js| ==> js[x] < js[y]
    ensures forall j :: 0 <= j < n && rightKey(right[j]) == k ==> j in js
  {
    if n == 0 then [] else Positions(right, rightKey, k, n - 1) + if rightKey(right[n - 1]) == k then [n - 1] else []
  }

  lemma {:induction false} PositionsMatch<K>(right: seq<Row>, rightKey: Row -> K, k: K, n: nat)
    requires n <= |right|
    ensures var js, rows := Positions(right, rightKey, k, n), Matches(right[..n], rightKey, k);
      |js| == |rows| && forall x :: 0 <= x < |js| ==> rows[x] == right[js[x]]
  {
    if n > 0 {
      assert right[..n][..n - 1] == right[..n - 1];
      PositionsMatch(right, rightKey, k, n - 1);
    }
  }

  lemma {:induction false} MergedAt(l: Row, matches: seq<Row>)
    ensures |Merged(l, matches)| == |matches|
    ensures forall x :: 0 <= x < |matches| ==> Merged(l, matches)[x] == l + matches[x]
  {
    if matches != [] {
      MergedAt(l, matches[..|matches| - 1]);
    }
  }

  ghost function PlacesAt(i: nat, js: seq<nat>, keep: bool): (ps: seq<Place>)
    ensures js != [] ==> |ps| == |js| && forall x :: 0 <= x < |js| ==> ps[x] == Pair(i, js[x])
  {
    if js != [] then seq(|js|, x requires 0 <= x < |js| => Pair(i, js[x])) else if keep then [Alone(i)] else []
  }

  ghost function LeftPlaces<K>(left: seq<Row>, right: seq<Row>, leftKey: Row -> K, rightKey: Row -> K, keep: bool,
                               n: nat): seq<Place>
    requires n <= |left|
  {
    if n == 0 then []
    else
      LeftPlaces(left, right, leftKey, rightKey, keep, n - 1) +
      PlacesAt(n - 1, Positions(right, rightKey, leftKey(left[n - 1]), |right|), keep)
  }

  lemma RowsConcat(left: seq<Row>, right: seq<Row>, ps: seq<Place>, rows: seq<Row>, qs: seq<Place>, more: seq<Row>)
    requires Rows(left, right, ps, rows) && Rows(left, right, qs, more)
    ensures Rows(left, right, ps + qs, rows + more)
  {
    hide IsRow;
  }

  lemma OrderedConcat<K(!new)>(right: seq<Row>, rightKey: Row -> K, ps: seq<Place>, qs: seq<Place>)
    requires Ordered(right, rightKey, ps) && Ordered(right, rightKey, qs)
    requires forall p, q :: p in ps && q in qs ==> Before(right, rightKey, p, q)
    ensures Ordered(right, rightKey, ps + qs)
  {
    hide Before;
    var all := ps + qs;
    forall a, b | 0 <= a < b < |all|
      ensures Before(right, rightKey, all[a], all[b])
    {
      if a < |ps| <= b {
        assert all[a] == ps[a] && all[b] == qs[b - |ps|] && qs[b - |ps|] in qs;
      }
    }
  }

  // ---------------------------------------------------------------- left rows

  lemma OneLeftRow<K(!new)>(left: seq<Row>, right: seq<Row>, leftKey: Row -> K, rightKey: Row -> K, keep: bool, i: nat)
    requires i < |left|
    ensures var ps := PlacesAt(i, Positions(right, rightKey, leftKey(left[i]), |right|), keep);
      && Rows(left, right, ps, JoinOne(left[i], Matches(right, rightKey, leftKey(left[i])), keep))
      && Ordered(right, rightKey, ps)
  {
    var k := leftKey(left[i]);
    assert right[..|right|] == right;
    PositionsMatch(right, rightKey, k, |right|);
    PlacesInOrder(i, Positions(right, rightKey, k, |right|), keep, right, rightKey);
    hide Matches, Positions, Ordered;
    PlacesAreRows(left, right, i, Positions(right, rightKey, k, |right|), Matches(right, rightKey, k), keep);
  }

  lemma PlacesInOrder<K(!new)>(i: nat, js: seq<nat>, keep: bool, right: seq<Row>, rightKey: Row -> K)
    requires forall x, y :: 0 <= x < y < |js| ==> js[x] < js[y]
    ensures Ordered(right, rightKey, PlacesAt(i, js, keep))
  {
  }

  lemma PlacesAreRows(left: seq<Row>, right: seq<Row>, i: nat, js: seq<nat>, matches: seq<Row>, keep: bool)
    requires i < |left| && |js| == |matches|
    requires forall x :: 0 <= x < |js| ==> js[x] < |right| && matches[x] == right[js[x]]
    ensures Rows(left, right, PlacesAt(i, js, keep), JoinOne(left[i], matches, keep))
  {
    MergedAt(left[i], matches);
    hide Merged;
  }

  lemma PlaceAt(i: nat, js: seq<nat>, keep: bool, p: Place)
    ensures p in PlacesAt(i, js, keep) <==>
      (p.Pair? && p.i == i && p.j in js) || (p == Alone(i) && keep && js == [])
  {
    var ps := PlacesAt(i, js, keep);
    if p.Pair? && p.i == i && p.j in js {
      var x :| 0 <= x < |js| && js[x] == p.j;
      assert ps[x] == p;
    }
  }

  lemma PositionHas<K>(right: seq<Row>, rightKey: Row -> K, k: K, j: nat)
    ensures j in Positions(right, rightKey, k, |right|) <==> j < |right| && rightKey(right[j]) == k
  {
  }

  lemma NoPosition<K>(right: seq<Row>, rightKey: Row -> K, k: K)
    ensures Positions(right, rightKey, k, |right|) == [] <==> forall j :: 0 <= j < |right| ==> rightKey(right[j]) != k
  {
    var js := Positions(right, rightKey, k, |right|);
    hide Positions;
    assert js != [] ==> rightKey(right[js[0]]) == k;
  }

  lemma OneLeftMembers<K(!new)>(left: seq<Row>, right: seq<Row>, leftKey: Row -> K, rightKey: Row -> K, t: JoinType,
                                i: nat, p: Place)
    requires i < |left|
    ensures var keep := t == LeftJoin || t == FullJoin;
      p in PlacesAt(i, Positions(right, rightKey, leftKey(left[i]), |right|), keep) <==>
      !p.Rest? && p.i == i && Belongs(left, right, leftKey, rightKey, t, p)
  {
    hide Positions, PlacesAt;
    var k := leftKey(left[i]);
    PlaceAt(i, Positions(right, rightKey, k, |right|), t == LeftJoin || t == FullJoin, p);
    match p
    case Pair(_, j) => PositionHas(right, rightKey, k, j);
    case Alone(_) => NoPosition(right, rightKey, k);
    case Rest(_) =>
  }

  lemma {:induction false} LeftMembers<K(!new)>(left: seq<Row>, right: seq<Row>, leftKey: Row -> K,
                                                rightKey: Row -> K, t: JoinType, n: nat, p: Place)
    requires n <= |left|
    ensures p in LeftPlaces(left, right, leftKey, rightKey, t == LeftJoin || t == FullJoin, n) <==>
      !p.Rest? && p.i < n && Belongs(left, right, leftKey, rightKey, t, p)
  {
    hide Belongs, PlacesAt, Positions;
    if n > 0 {
      LeftMembers(left, right, leftKey, rightKey, t, n - 1, p);
      OneLeftMembers(left, right, leftKey, rightKey, t, n - 1, p);
    }
  }

  lemma {:induction false} LeftRows<K(!new)>(left: seq<Row>, right: seq<Row>, leftKey: Row -> K, rightKey: Row -> K,
                                             t: JoinType, n: nat)
    requires n <= |left|
    ensures var keep := t == LeftJoin || t == FullJoin;
      var ps := LeftPlaces(left, right, leftKey, rightKey, keep, n);
      && Rows(left, right, ps, NestedLoop(left[..n], right, leftKey, rightKey, keep))
      && Ordered(right, rightKey, ps)
  {
    hide Belongs, IsRow, JoinOne, Matches, PlacesAt, Positions, Rows, Ordered, Before;
    if n == 0 {
      NoRows(left, right, rightKey);
    } else {
      var keep := t == LeftJoin || t == FullJoin;
      var ps := LeftPlaces(left, right, leftKey, rightKey, keep, n - 1);
      var qs := PlacesAt(n - 1, Positions(right, rightKey, leftKey(left[n - 1]), |right|), keep);
      LeftRows(left, right, leftKey, rightKey, t, n - 1);
      forall p, q | p in ps && q in qs
        ensures Before(right, rightKey, p, q)
      {
        LeftMembers(left, right, leftKey, rightKey, t, n - 1, p);
        OneLeftMembers(left, right, leftKey, rightKey, t, n - 1, q);
        EarlierRow(right, rightKey, p, q);
      }
      OneLeftRow(left, right, leftKey, rightKey, keep, n - 1);
      assert left[..n][..n - 1] == left[..n - 1];
      OrderedConcat(right, rightKey, ps, qs);
      RowsConcat(left, right, ps, NestedLoop(left[..n - 1], right, leftKey, rightKey, keep),
                 qs, JoinOne(left[n - 1], Matches(right, rightKey, leftKey(left[n - 1])), keep));
    }
  }

  lemma EarlierRow<K(!new)>(right: seq<Row>, rightKey: Row -> K, p: Place, q: Place)
    requires !p.Rest? && !q.Rest? && p.i < q.i
    ensures Before(right, rightKey, p, q)
  {
  }

  lemma NoRows<K(!new)>(left: seq<Row>, right: seq<Row>, rightKey: Row -> K)
    ensures Rows(left, right, [], []) && Ordered(right, rightKey, [])
  {
  }

  // ---------------------------------------------------------------- right rows that stand alone

  ghost function RestPlaces(js: seq<nat>): (ps: seq<Place>)
    ensures |ps| == |js| && forall x :: 0 <= x < |js| ==> ps[x] == Rest(js[x])
  {
    seq(|js|, x requires 0 <= x < |js| => Rest(js[x]))
  }

  ghost function TailPlaces<K>(keys: seq<K>, right: seq<Row>, rightKey: Row -> K, excluded: set<K>): seq<Place> {
    if keys == [] then []
    else
      var n := |keys| - 1;
      TailPlaces(keys[..n], right, rightKey, excluded) +
      if keys[n] in excluded then [] else RestPlaces(Positions(right, rightKey, keys[n], |right|))
  }

  // The keys come in the order of their first rows.
  ghost predicate Led<K>(keys: seq<K>, right: seq<Row>, rightKey: Row -> K) {
    forall a, b :: 0 <= a < b < |keys| ==> Lead(right, rightKey, keys[a]) < Lead(right, rightKey, keys[b])
  }

  lemma {:induction false} FirstSeenLed<K(!new)>(right: seq<Row>, rightKey: Row -> K, n: nat)
    requires n <= |right|
    ensures Led(FirstSeen(right[..n], rightKey), right, rightKey)
    ensures forall k :: k in FirstSeen(right[..n], rightKey) <==> Lead(right, rightKey, k) < n
  {
    hide Lead;
    if n > 0 {
      FirstSeenLed(right, rightKey, n - 1);
      assert right[..n][..n - 1] == right[..n - 1];
      var before, k := FirstSeen(right[..n - 1], rightKey), rightKey(right[n - 1]);
      assert Lead(right, rightKey, k) <= n - 1;
      assert forall a :: 0 <= a < |before| ==> before[a] in before;
    }
  }

  lemma GroupRows<K(!new)>(left: seq<Row>, right: seq<Row>, rightKey: Row -> K, k: K)
    ensures var qs := RestPlaces(Positions(right, rightKey, k, |right|));
      && Rows(left, right, qs, Matches(right, rightKey, k))
      && Ordered(right, rightKey, qs)
      && forall p :: p in qs <==> p.Rest? && p.j < |right| && rightKey(right[p.j]) == k
  {
    var js := Positions(right, rightKey, k, |right|);
    assert right[..|right|] == right;
    PositionsMatch(right, rightKey, k, |right|);
    forall j: nat
      ensures j in js <==> j < |right| && rightKey(right[j]) == k
    {
      PositionHas(right, rightKey, k, j);
    }
    hide Positions, Matches, Ordered, Rows;
    RestsAreRows(left, right, js, Matches(right, rightKey, k));
    RestsInOrder(right, rightKey, k, js);
    RestAt(js);
  }

  lemma RestsAreRows(left: seq<Row>, right: seq<Row>, js: seq<nat>, matches: seq<Row>)
    requires |js| == |matches| && forall x :: 0 <= x < |js| ==> js[x] < |right| && matches[x] == right[js[x]]
    ensures Rows(left, right, RestPlaces(js), matches)
  {
  }

  lemma RestsInOrder<K(!new)>(right: seq<Row>, rightKey: Row -> K, k: K, js: seq<nat>)
    requires forall x :: 0 <= x < |js| ==> js[x] < |right| && rightKey(right[js[x]]) == k
    requires forall x, y :: 0 <= x < y < |js| ==> js[x] < js[y]
    ensures Ordered(right, rightKey, RestPlaces(js))
  {
    hide Lead;
  }

  lemma RestAt(js: seq<nat>)
    ensures forall p :: p in RestPlaces(js) <==> p.Rest? && p.j in js
  {
    var qs := RestPlaces(js);
    forall p: Place
      ensures p in qs <==> p.Rest? && p.j in js
    {
      if p.Rest? && p.j in js {
        var x :| 0 <= x < |js| && js[x] == p.j;
        assert qs[x] == p;
      }
    }
  }

  lemma {:induction false} TailRows<K(!new)>(left: seq<Row>, right: seq<Row>, keys: seq<K>, rightKey: Row -> K,
                                             excluded: set<K>)
    requires Led(keys, right, rightKey)
    ensures var ps := TailPlaces(keys, right, rightKey, excluded);
      && Rows(left, right, ps, Groups(keys, right, rightKey, excluded))
      && Ordered(right, rightKey, ps)
      && forall p :: p in ps <==>
           p.Rest? && p.j < |right| && rightKey(right[p.j]) in keys && rightKey(right[p.j]) !in excluded
  {
    hide IsRow, Rows, Ordered, Matches, RestPlaces, Positions, Before;
    NoRows(left, right, rightKey);
    if keys != [] {
      var n := |keys| - 1;
      var ps, k := TailPlaces(keys[..n], right, rightKey, excluded), keys[n];
      assert keys == keys[..n] + [k];
      TailRows(left, right, keys[..n], rightKey, excluded);
      if k in excluded {
        RowsConcat(left, right, ps, Groups(keys[..n], right, rightKey, excluded), [], []);
        assert ps + [] == ps;
      } else {
        var qs := RestPlaces(Positions(right, rightKey, k, |right|));
        GroupRows(left, right, rightKey, k);
        RowsConcat(left, right, ps, Groups(keys[..n], right, rightKey, excluded), qs, Matches(right, rightKey, k));
        forall p, q | p in ps && q in qs
          ensures Before(right, rightKey, p, q)
        {
          LedBefore(keys, right, rightKey, p, q);
        }
        OrderedConcat(right, rightKey, ps, qs);
      }
    }
  }

  lemma LedBefore<K(!new)>(keys: seq<K>, right: seq<Row>, rightKey: Row -> K, p: Place, q: Place)
    requires Led(keys, right, rightKey) && keys != []
    requires p.Rest? && p.j < |right| && rightKey(right[p.j]) in keys[..|keys| - 1]
    requires q.Rest? && q.j < |right| && rightKey(right[q.j]) == keys[|keys| - 1]
    ensures Before(right, rightKey, p, q)
  {
    hide Lead;
    var a :| 0 <= a < |keys| - 1 && keys[a] == rightKey(right[p.j]);
  }

  lemma {:induction false} KeysOfHas<K>(rows: seq<Row>, key: Row -> K, k: K)
    ensures k in KeysOf(rows, key) <==> exists i :: 0 <= i < |rows| && key(rows[i]) == k
  {
    if rows != [] {
      KeysOfHas(rows[..|rows| - 1], key, k);
    }
  }

  // ---------------------------------------------------------------- main result

  // The rows of a join stand one for one at the places that belong to it, in order.
  lemma JoinPlaces<K(!new)>(left: seq<Row>, right: seq<Row>, leftKey: Row -> K, rightKey: Row -> K, t: JoinType)
    returns (ps: seq<Place>)
    ensures Rows(left, right, ps, Expected(left, right, leftKey, rightKey, t))
    ensures Ordered(right, rightKey, ps)
    ensures forall p :: p in ps <==> Belongs(left, right, leftKey, rightKey, t, p)
  {
    hide IsRow, Rows, Ordered, NestedLoop, Groups, FirstSeen, KeysOf, Lead, LeftPlaces, TailPlaces, Before;
    var keep, keys := t == LeftJoin || t == FullJoin, FirstSeen(right, rightKey);
    assert left[..|left|] == left && right[..|right|] == right;
    var front := LeftPlaces(left, right, leftKey, rightKey, keep, |left|);
    var matches := NestedLoop(left, right, leftKey, rightKey, keep);
    LeftRows(left, right, leftKey, rightKey, t, |left|);
    forall p
      ensures p in front <==> !p.Rest? && Belongs(left, right, leftKey, rightKey, t, p)
    {
      LeftMembers(left, right, leftKey, rightKey, t, |left|, p);
    }
    NoRows(left, right, rightKey);
    var tail, rest := [], [];
    if t == FullJoin || t == RightJoin {
      var excluded := if t == FullJoin then KeysOf(left, leftKey) else {};
      FirstSeenLed(right, rightKey, |right|);
      TailRows(left, right, keys, rightKey, excluded);
      tail, rest := TailPlaces(keys, right, rightKey, excluded), Groups(keys, right, rightKey, excluded);
      forall p
        ensures p in tail <==> p.Rest? && Belongs(left, right, leftKey, rightKey, t, p)
      {
        if p.Rest? && p.j < |right| { KeysOfHas(left, leftKey, rightKey(right[p.j])); }
      }
    }
    ps := front + tail;
    RowsConcat(left, right, front, matches, tail, rest);
    forall p, q | p in front && q in tail
      ensures Before(right, rightKey, p, q)
    {
      LastOfAll(right, rightKey, p, q);
    }
    OrderedConcat(right, rightKey, front, tail);
  }

  lemma LastOfAll<K(!new)>(right: seq<Row>, rightKey: Row -> K, p: Place, q: Place)
    requires !p.Rest? && q.Rest?
    ensures Before(right, rightKey, p, q)
  {
  }
}
