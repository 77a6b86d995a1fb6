// What the eviction loop of `set` drops, and when it ends, under every policy.
module Eviction {
  import opened Seqs
  import opened JsMaps
  import opened CacheSpec
  import opened CacheTheorems

  // ---------------------------------------------------------------- the order of eviction

  function ScoreOf(p: Policy, at: map<Key, Record>, k: Key): int {
    if k in at then Score(p, at[k].meta) else 0
  }

  // k behind everything of no greater score: a stable insertion.
  function InsertByScore(p: Policy, at: map<Key, Record>, sorted: seq<Key>, k: Key): seq<Key> {
    if sorted == [] || ScoreOf(p, at, sorted[|sorted| - 1]) <= ScoreOf(p, at, k) then sorted + [k]
    else InsertByScore(p, at, sorted[..|sorted| - 1], k) + [sorted[|sorted| - 1]]
  }

  function ByScore(p: Policy, at: map<Key, Record>, keys: seq<Key>): seq<Key> {
    if keys == [] then [] else InsertByScore(p, at, ByScore(p, at, keys[..|keys| - 1]), keys[|keys| - 1])
  }

  // All keys in the order in which they would go: under LRU from least to most
  // recently used, otherwise by score and, among equals, by age in the map.
  function EvictionOrder(s: State): seq<Key> {
    if s.config.policy == LRU then Reversed(s.recency) else ByScore(s.config.policy, s.entries.at, s.entries.keys)
  }

  // Whether a new entry of `size` fits once the first m of `order` are gone.
  ghost predicate HasRoom(s: State, order: seq<Key>, size: nat, m: nat)
    requires m <= |order|
  {
    || m == |order|
    || (|order| - m < s.config.maxEntries && TotalSize(order[m..], s.entries.at) + size <= s.config.maxSize)
  }

  // How many have to go: the least m not below `from` that makes room.
  ghost function Needed(s: State, order: seq<Key>, size: nat, from: nat): (m: nat)
    requires from <= |order|
    ensures from <= m <= |order| && HasRoom(s, order, size, m)
    ensures forall i :: from <= i < m ==> !HasRoom(s, order, size, i)
    decreases |order| - from
  {
    if HasRoom(s, order, size, from) then from else Needed(s, order, size, from + 1)
  }

  function WithoutAll(keys: seq<Key>, drop: seq<Key>): seq<Key>
    decreases |drop|
  {
    if drop == [] then keys else WithoutAll(Without(keys, drop[0]), drop[1..])
  }

  lemma WithoutAllCons(keys: seq<Key>, k: Key, drop: seq<Key>)
    ensures WithoutAll(keys, [k] + drop) == WithoutAll(Without(keys, k), drop)
    ensures WithoutAll(keys, [k]) == Without(keys, k)
  {
    hide Without;
    assert ([k] + drop)[1..] == drop;
    assert [k][1..] == [];
  }

  // ---------------------------------------------------------------- the order is one

  ghost predicate Precedes(p: Policy, at: map<Key, Record>, rank: Key -> int, a: Key, b: Key) {
    ScoreOf(p, at, a) < ScoreOf(p, at, b) || (ScoreOf(p, at, a) == ScoreOf(p, at, b) && rank(a) < rank(b))
  }

  // order lists the keys held so that each precedes the later ones; `rank` numbers
  // the keys by age.
  ghost predicate Queued(s: State, order: seq<Key>, rank: Key -> int) {
    && Distinct(order) && ToSet(order) == s.entries.at.Keys
    && if s.config.policy == LRU then order == Reversed(s.recency)
       else
         && Rising(s.entries.keys, rank)
         && Sorted(s.config.policy, s.entries.at, order, rank)
  }

  ghost predicate Rising(keys: seq<Key>, rank: Key -> int) {
    forall i, j :: 0 <= i < j < |keys| ==> rank(keys[i]) < rank(keys[j])
  }

  ghost predicate Sorted(p: Policy, at: map<Key, Record>, order: seq<Key>, rank: Key -> int) {
    forall i, j :: 0 <= i < j < |order| ==> Precedes(p, at, rank, order[i], order[j])
  }

  // Position in a sequence, the length for what is not there.
  function Position(keys: seq<Key>, k: Key): (i: int)
    ensures 0 <= i <= |keys| && (i < |keys| ==> keys[i] == k)
  {
    if keys == [] || keys[0] == k then 0 else 1 + Position(keys[1..], k)
  }

  lemma {:induction false} PositionAt(keys: seq<Key>, i: nat)
    requires Distinct(keys) && i < |keys|
    ensures Position(keys, keys[i]) == i
  {
    if i > 0 {
      PositionAt(keys[1..], i - 1);
    }
  }

  lemma PositionsRise(keys: seq<Key>)
    requires Distinct(keys)
    ensures Rising(keys, k => Position(keys, k))
  {
    forall i, j | 0 <= i < j < |keys|
      ensures Position(keys, keys[i]) < Position(keys, keys[j])
    {
      PositionAt(keys, i);
      PositionAt(keys, j);
    }
  }

  lemma {:induction false} InsertMembers(p: Policy, at: map<Key, Record>, sorted: seq<Key>, k: Key)
    ensures multiset(InsertByScore(p, at, sorted, k)) == multiset(sorted) + multiset{k}
  {
    if !(sorted == [] || ScoreOf(p, at, sorted[|sorted| - 1]) <= ScoreOf(p, at, k)) {
      InsertMembers(p, at, sorted[..|sorted| - 1], k);
      assert sorted == sorted[..|sorted| - 1] + [sorted[|sorted| - 1]];
    }
  }

  lemma {:induction false} InsertKeepsSorted(p: Policy, at: map<Key, Record>, sorted: seq<Key>, k: Key,
                                             rank: Key -> int)
    requires Sorted(p, at, sorted, rank) && forall x :: x in sorted ==> rank(x) < rank(k)
    ensures Sorted(p, at, InsertByScore(p, at, sorted, k), rank)
  {
    if !(sorted == [] || ScoreOf(p, at, sorted[|sorted| - 1]) <= ScoreOf(p, at, k)) {
      var n := |sorted| - 1;
      InsertKeepsSorted(p, at, sorted[..n], k, rank);
      InsertMembers(p, at, sorted[..n], k);
      var front := InsertByScore(p, at, sorted[..n], k);
      forall i | 0 <= i < |front|
        ensures Precedes(p, at, rank, front[i], sorted[n])
      {
        assert front[i] in multiset(front);
        if front[i] != k {
          assert front[i] in sorted[..n];
        }
      }
    } else {
      forall i | 0 <= i < |sorted|
        ensures Precedes(p, at, rank, sorted[i], k)
      {
        assert sorted[i] in sorted;
        assert i < |sorted| - 1 ==> Precedes(p, at, rank, sorted[i], sorted[|sorted| - 1]);
      }
    }
  }

  lemma {:induction false} ByScoreSorted(p: Policy, at: map<Key, Record>, keys: seq<Key>, rank: Key -> int)
    requires Rising(keys, rank)
    ensures Sorted(p, at, ByScore(p, at, keys), rank)
    ensures multiset(ByScore(p, at, keys)) == multiset(keys)
  {
    hide Sorted, InsertByScore;
    if keys == [] {
      NothingSorted(p, at, rank);
    } else {
      var n := |keys| - 1;
      assert keys == keys[..n] + [keys[n]];
      ByScoreSorted(p, at, keys[..n], rank);
      var front := ByScore(p, at, keys[..n]);
      forall x | x in front
        ensures rank(x) < rank(keys[n])
      {
        assert x in multiset(keys[..n]);
        var i :| 0 <= i < n && keys[i] == x;
      }
      InsertKeepsSorted(p, at, front, keys[n], rank);
      InsertMembers(p, at, front, keys[n]);
    }
  }

  lemma NothingSorted(p: Policy, at: map<Key, Record>, rank: Key -> int)
    ensures Sorted(p, at, [], rank)
  {
  }

  lemma OrderIsQueued(s: State)
    requires Inv(s)
    ensures Queued(s, EvictionOrder(s), k => Position(s.entries.keys, k))
    ensures |EvictionOrder(s)| == |s.entries.at|
  {
    hide TotalSize, Sorted, Rising, ByScore, Distinct, ToSet;
    var order, keys := EvictionOrder(s), s.entries.keys;
    RemoveCard(s.entries);
    if s.config.policy == LRU {
      ReverseMembers(s.recency);
    } else {
      PositionsRise(keys);
      ByScoreSorted(s.config.policy, s.entries.at, keys, k => Position(keys, k));
      SameMembers(keys, order);
    }
    DistinctCard(order);
    assert |s.entries.at.Keys| == |s.entries.at|;
  }

  lemma SameMembers(keys: seq<Key>, order: seq<Key>)
    requires Distinct(keys) && multiset(order) == multiset(keys)
    ensures Distinct(order) && ToSet(order) == ToSet(keys)
  {
    assert forall x :: x in order <==> x in multiset(order);
    assert forall x :: x in keys <==> x in multiset(keys);
    assert ToSet(order) == ToSet(keys);
    assert |order| == |multiset(order)| && |keys| == |multiset(keys)|;
    DistinctCard(keys);
    DistinctCard(order);
  }

  lemma ReverseMembers(keys: seq<Key>)
    requires Distinct(keys)
    ensures Distinct(Reversed(keys)) && ToSet(Reversed(keys)) == ToSet(keys)
  {
    var r := Reversed(keys);
    forall x
      ensures x in r <==> x in keys
    {
      if x in keys {
        var i :| 0 <= i < |keys| && keys[i] == x;
        assert r[|keys| - 1 - i] == x;
      }
    }
  }

  // ---------------------------------------------------------------- one eviction

  lemma RisingWithout(keys: seq<Key>, k: Key, rank: Key -> int)
    requires Rising(keys, rank)
    ensures Rising(Without(keys, k), rank)
  {
    hide Without;
    assert Falling(keys, x => -rank(x), 1);
    FallingWithout(keys, k, x => -rank(x), 1);
    var w := Without(keys, k);
    forall i, j | 0 <= i < j < |w|
      ensures rank(w[i]) < rank(w[j])
    {
      assert -rank(w[i]) >= -rank(w[j]) + 1;
    }
  }

  // The head of the queue is the victim.
  lemma HeadIsVictim(s: State, order: seq<Key>, rank: Key -> int)
    requires Inv(s) && Queued(s, order, rank) && order != []
    ensures Victim(s) == Some(order[0])
  {
    hide TotalSize, Distinct;
    if s.config.policy != LRU {
      var p, keys := s.config.policy, s.entries.keys;
      assert order[0] in ToSet(order);
      assert forall j :: 0 <= j < |keys| ==> keys[j] in ToSet(keys);
      var head :| 0 <= head < |keys| && keys[head] == order[0];
      var v := Victim(s).value;
      assert IsFirstLeast(p, s.entries, |keys|, v);
      var i :| 0 <= i < |keys| && keys[i] == v && LeastFrom(p, s.entries, |keys|, i);
      assert v in ToSet(keys);
      assert v in ToSet(order);
      var j :| 0 <= j < |order| && order[j] == v;
      FirstOfAll(s, order, rank, i, head, j);
    }
  }

  lemma FirstOfAll(s: State, order: seq<Key>, rank: Key -> int, i: nat, head: nat, j: nat)
    requires s.entries.Valid() && Rising(s.entries.keys, rank) && Sorted(s.config.policy, s.entries.at, order, rank)
    requires i < |s.entries.keys| && head < |s.entries.keys| && j < |order|
    requires s.entries.keys[i] == order[j] && s.entries.keys[head] == order[0]
    requires LeastFrom(s.config.policy, s.entries, |s.entries.keys|, i)
    ensures order[j] == order[0]
  {
    hide Distinct;
    var keys := s.entries.keys;
    assert keys[i] in ToSet(keys) && keys[head] in ToSet(keys);
    assert j > 0 ==> Precedes(s.config.policy, s.entries.at, rank, order[0], order[j]);
  }

  // What is left of s once `drop` has been evicted.
  ghost predicate After(s: State, drop: seq<Key>, t: State) {
    && Inv(t) && t.config == s.config
    && t.entries.at == s.entries.at - ToSet(drop)
    && t.entries.keys == WithoutAll(s.entries.keys, drop)
    && t.recency == WithoutAll(s.recency, drop)
    && t.stats.evictions == s.stats.evictions + |drop|
    && t.stats.hits == s.stats.hits && t.stats.misses == s.stats.misses && t.stats.hitRate == s.stats.hitRate
  }

  lemma Dequeue(s: State, order: seq<Key>, rank: Key -> int)
    requires Inv(s) && Queued(s, order, rank) && order != [] && order[0] != ""
    ensures var t := EvictOne(s);
      && After(s, [order[0]], t)
      && |t.entries.at| == |s.entries.at| - 1
      && Queued(t, order[1..], rank)
  {
    hide Queued, Inv, After, EvictOne;
    HeadIsVictim(s, order, rank);
    HeadIsHeld(s, order, rank);
    EvictFacts(s);
    EvictedParts(s, order[0]);
    QueueMoves(s, EvictOne(s), order, rank);
  }

  lemma HeadIsHeld(s: State, order: seq<Key>, rank: Key -> int)
    requires Queued(s, order, rank) && order != []
    ensures order[0] in s.entries.at && |s.entries.at| > 0
  {
    assert order[0] in ToSet(order);
  }

  lemma EvictedParts(s: State, k: Key)
    requires Inv(s) && Victim(s) == Some(k) && k != "" && k in s.entries.at
    ensures After(s, [k], EvictOne(s))
    ensures EvictOne(s).recency == Without(s.recency, k) && EvictOne(s).entries == s.entries.Remove(k)
    ensures EvictOne(s).config == s.config
  {
    hide Distinct, TotalSize, Without, Victim;
    EvictFacts(s);
    WithoutAllCons(s.entries.keys, k, []);
    WithoutAllCons(s.recency, k, []);
    assert ToSet([k]) == {k};
  }

  lemma QueueMoves(s: State, t: State, order: seq<Key>, rank: Key -> int)
    requires Inv(s) && Queued(s, order, rank) && order != []
    requires t.config == s.config && t.entries == s.entries.Remove(order[0]) &&
      t.recency == Without(s.recency, order[0])
    ensures Queued(t, order[1..], rank)
  {
    hide TotalSize, Distinct, Sorted, Rising, Without, Reversed, ToSet, JsMap.Valid;
    DistinctTail(order);
    if s.config.policy == LRU {
      ReverseMoves(s.recency);
    } else {
      RisingWithout(s.entries.keys, order[0], rank);
      TailSorted(s, order, rank);
    }
  }

  lemma ReverseMoves(keys: seq<Key>)
    requires Distinct(keys) && keys != []
    ensures Reversed(keys)[1..] == Reversed(Without(keys, Reversed(keys)[0]))
  {
    hide Distinct, Without;
    WithoutAt(keys, |keys| - 1);
    assert Reversed(keys)[1..] == Reversed(keys[..|keys| - 1]);
  }

  lemma TailSorted(s: State, order: seq<Key>, rank: Key -> int)
    requires Distinct(order) && order != [] && Sorted(s.config.policy, s.entries.at, order, rank)
    ensures Sorted(s.config.policy, s.entries.at - {order[0]}, order[1..], rank)
  {
    var rest := order[1..];
    forall i, j | 0 <= i < j < |rest|
      ensures Precedes(s.config.policy, s.entries.at - {order[0]}, rank, rest[i], rest[j])
    {
      assert rest[i] == order[i + 1] && rest[j] == order[j + 1];
      assert Precedes(s.config.policy, s.entries.at, rank, order[i + 1], order[j + 1]);
    }
  }

  // ---------------------------------------------------------------- room

  lemma GuardIsNoRoom(s: State, order: seq<Key>, rank: Key -> int, size: nat)
    requires Inv(s) && Queued(s, order, rank)
    ensures |order| == |s.entries.at|
    ensures MustEvict(s, size) <==> !HasRoom(s, order, size, 0)
  {
    hide Distinct, ToSet, Sorted, Rising;
    DistinctCard(order);
    assert |s.entries.at.Keys| == |s.entries.at|;
    TotalSizePermutes(order, s.entries.keys, s.entries.at);
    assert order[0..] == order;
  }

  lemma RoomShifts(s: State, t: State, order: seq<Key>, size: nat, i: nat)
    requires Distinct(order) && i < |order| && t.config == s.config
    requires t.entries.at == s.entries.at - {order[0]}
    ensures HasRoom(t, order[1..], size, i) == HasRoom(s, order, size, i + 1)
  {
    assert order[1..][i..] == order[i + 1..];
    forall k | k in order[i + 1..]
      ensures SizeOf(t.entries.at, k) == SizeOf(s.entries.at, k)
    {
    }
    TotalSizeSame(order[i + 1..], t.entries.at, s.entries.at);
  }

  lemma {:induction false} NeededShifts(s: State, t: State, order: seq<Key>, size: nat, from: nat)
    requires Distinct(order) && from < |order| && t.config == s.config
    requires t.entries.at == s.entries.at - {order[0]}
    ensures Needed(t, order[1..], size, from) + 1 == Needed(s, order, size, from + 1)
    decreases |order| - from
  {
    hide HasRoom, Distinct;
    RoomShifts(s, t, order, size, from);
    if !HasRoom(s, order, size, from + 1) {
      NoMoreThanAll(s, order, size);
      NeededShifts(s, t, order, size, from + 1);
    }
  }

  lemma NoMoreThanAll(s: State, order: seq<Key>, size: nat)
    ensures HasRoom(s, order, size, |order|)
  {
  }

  // ---------------------------------------------------------------- main results

  lemma {:induction false} DropsPrefix(s: State, order: seq<Key>, rank: Key -> int, size: nat)
    requires Inv(s) && Queued(s, order, rank)
    ensures var drop := order[..Needed(s, order, size, 0)];
      && (MakeRoom(s, size).None? <==> "" in drop)
      && (MakeRoom(s, size).Some? ==> After(s, drop, MakeRoom(s, size).value))
    decreases |order|
  {
    hide Queued, Victim, HasRoom, Inv, After, EvictOne, Distinct, Needed, MakeRoom, MustEvict;
    GuardIsNoRoom(s, order, rank, size);
    FirstNeeded(s, order, size);
    if !MustEvict(s, size) {
      MakeRoomStops(s, size);
      NothingDropped(s, order);
    } else {
      NoMoreThanAll(s, order, size);
      MustHold(s, size);
      HeadIsVictim(s, order, rank);
      QueuedDistinct(s, order, rank);
      MakeRoomTurns(s, size);
      EvictFacts(s);
      var m := Needed(s, order, size, 0);
      if order[0] == "" {
        assert order[..m][0] == "";
      } else {
        var t := EvictOne(s);
        Dequeue(s, order, rank);
        OneDropped(s, order[0], t);
        NeededShifts(s, t, order, size, 0);
        DropsPrefix(t, order[1..], rank, size);
        assert order[..m] == [order[0]] + order[1..][..m - 1];
        if MakeRoom(t, size).Some? {
          AfterThen(s, order[0], t, order[1..][..m - 1], MakeRoom(t, size).value);
        }
      }
    }
  }

  lemma FirstNeeded(s: State, order: seq<Key>, size: nat)
    ensures HasRoom(s, order, size, 0) ==> Needed(s, order, size, 0) == 0
    ensures !HasRoom(s, order, size, 0) ==> order != [] && Needed(s, order, size, 0) == Needed(s, order, size, 1)
  {
    hide TotalSize;
  }

  lemma MakeRoomStops(s: State, size: nat)
    requires Inv(s) && !MustEvict(s, size)
    ensures MakeRoom(s, size) == Some(s)
  {
    hide Inv;
  }

  lemma MustHold(s: State, size: nat)
    requires MustEvict(s, size)
    ensures |s.entries.at| > 0
  {
  }

  lemma QueuedDistinct(s: State, order: seq<Key>, rank: Key -> int)
    requires Queued(s, order, rank)
    ensures Distinct(order)
  {
  }

  lemma NothingDropped(s: State, order: seq<Key>)
    requires Inv(s)
    ensures After(s, order[..0], s) && "" !in order[..0]
  {
    assert s.entries.at - {} == s.entries.at;
    assert ToSet(order[..0]) == {};
  }

  lemma OneDropped(s: State, k: Key, t: State)
    requires After(s, [k], t)
    ensures t.config == s.config && t.entries.at == s.entries.at - {k} && Inv(t)
  {
    assert ToSet([k]) == {k};
  }

  lemma AfterThen(s: State, k: Key, t: State, drop: seq<Key>, u: State)
    requires After(s, [k], t) && After(t, drop, u)
    ensures After(s, [k] + drop, u)
  {
    hide Inv, Without;
    WithoutAllCons(s.entries.keys, k, drop);
    WithoutAllCons(s.recency, k, drop);
    assert ToSet([k]) == {k};
    assert ToSet([k] + drop) == {k} + ToSet(drop);
    assert s.entries.at - {k} - ToSet(drop) == s.entries.at - ({k} + ToSet(drop));
  }

  // The loop of `set` drops the shortest prefix of the eviction order that makes
  // room, and ends exactly when the key "" is not in that prefix. Both can be read
  // off the state before the loop.
  lemma EvictsShortestPrefix(s: State, size: nat)
    requires Inv(s)
    ensures var order := EvictionOrder(s);
      var drop := order[..Needed(s, order, size, 0)];
      && (MakeRoom(s, size).None? <==> "" in drop)
      && (MakeRoom(s, size).Some? ==> After(s, drop, MakeRoom(s, size).value))
  {
    hide Inv, Queued, After;
    OrderIsQueued(s);
    DropsPrefix(s, EvictionOrder(s), k => Position(s.entries.keys, k), size);
  }

  // A `set` returns exactly when the key "" need not go, the entry it replaces aside.
  lemma SetReturns(s: State, key: Key, value: Value, size: nat, ttl: Option<int>, now: int)
    requires Inv(s)
    ensures Inv(Delete(s, key))
    ensures var order := EvictionOrder(Delete(s, key));
      Set(s, key, value, size, ttl, now).Some? <==> "" !in order[..Needed(Delete(s, key), order, size, 0)]
  {
    hide Inv, Delete, After;
    DeleteInv(s, key);
    EvictsShortestPrefix(Delete(s, key), size);
  }

  // ---------------------------------------------------------------- the loop, turn by turn

  lemma EvictInv(s: State)
    requires Inv(s)
    ensures Inv(EvictOne(s)) && EvictOne(s).config == s.config
  {
    hide TotalSize, Distinct;
    if |s.entries.at| > 0 {
      EvictFacts(s);
    } else {
      RemoveCard(s.entries);
      assert s.entries.keys == [] && s.entries.at.Keys == {};
      NoneHeld(s.recency);
    }
  }

  lemma NoneHeld(keys: seq<Key>)
    ensures ToSet(keys) == {} ==> keys == []
  {
    assert keys != [] ==> keys[0] in ToSet(keys);
  }

  // The state after n calls of `evictOne`.
  ghost function Evicted(s: State, n: nat): (t: State)
    requires Inv(s)
    ensures Inv(t) && t.config == s.config
    decreases n
  {
    if n == 0 then s
    else
      EvictInv(s);
      Evicted(EvictOne(s), n - 1)
  }

  lemma {:induction false} EvictedFixed(s: State, n: nat)
    requires Inv(s) && EvictOne(s) == s
    ensures Evicted(s, n) == s
  {
    hide Inv, EvictOne;
    if n > 0 {
      EvictedFixed(s, n - 1);
    }
  }

  lemma EvictedNext(s: State, i: nat)
    requires Inv(s)
    ensures Inv(EvictOne(s))
    ensures i > 0 ==> Evicted(s, i) == Evicted(EvictOne(s), i - 1)
  {
    EvictInv(s);
  }

  // The guard of the loop still holds after i evictions.
  ghost predicate GoesOn(s: State, size: nat, i: nat)
    requires Inv(s)
  {
    MustEvict(Evicted(s, i), size)
  }

  lemma {:induction false} LoopEnds(s: State, order: seq<Key>, rank: Key -> int, size: nat)
    requires Inv(s) && Queued(s, order, rank) && MakeRoom(s, size).Some?
    ensures var m := Needed(s, order, size, 0);
      Evicted(s, m) == MakeRoom(s, size).value && !GoesOn(s, size, m) && forall i: nat :: i < m ==> GoesOn(s, size, i)
    decreases |order|
  {
    hide Queued, Victim, HasRoom, Inv, After, EvictOne, Distinct;
    GuardIsNoRoom(s, order, rank, size);
    if MustEvict(s, size) {
      var t := EvictOne(s);
      NoMoreThanAll(s, order, size);
      HeadIsVictim(s, order, rank);
      QueuedDistinct(s, order, rank);
      MakeRoomTurns(s, size);
      EvictFacts(s);
      Dequeue(s, order, rank);
      OneDropped(s, order[0], t);
      NeededShifts(s, t, order, size, 0);
      LoopEnds(t, order[1..], rank, size);
      var m := Needed(s, order, size, 0);
      assert m == Needed(t, order[1..], size, 0) + 1;
      forall i: nat | i < m
        ensures GoesOn(s, size, i)
      {
        EvictedNext(s, i);
        assert i > 0 ==> GoesOn(t, size, i - 1);
      }
      EvictedNext(s, m);
    }
  }

  lemma {:induction false} LoopSticks(s: State, order: seq<Key>, rank: Key -> int, size: nat)
    requires Inv(s) && Queued(s, order, rank) && MakeRoom(s, size).None?
    ensures var n := Position(order, "");
      && n < |order| && Victim(Evicted(s, n)) == Some("")
      && (forall i: nat :: GoesOn(s, size, i))
      && forall i: nat {:trigger Evicted(s, i)} :: i >= n ==> Evicted(s, i) == Evicted(s, n)
    decreases |order|
  {
    hide Queued, Victim, Inv, After, EvictOne, Distinct;
    GuardIsNoRoom(s, order, rank, size);
    var t := EvictOne(s);
    HeadIsVictim(s, order, rank);
    MakeRoomTurns(s, size);
    EvictFacts(s);
    if order[0] == "" {
      forall i: nat
        ensures GoesOn(s, size, i) && Evicted(s, i) == s
      {
        EvictedFixed(s, i);
      }
    } else {
      Dequeue(s, order, rank);
      LoopSticks(t, order[1..], rank, size);
      var n := Position(order, "");
      assert n == 1 + Position(order[1..], "");
      forall i: nat
        ensures GoesOn(s, size, i) && (i >= n ==> Evicted(s, i) == Evicted(s, n))
      {
        EvictedNext(s, i);
        EvictedNext(s, n);
        assert i > 0 ==> GoesOn(t, size, i - 1);
        assert i >= n ==> Evicted(t, i - 1) == Evicted(t, n - 1);
      }
      EvictedNext(s, n);
    }
  }

  // `set` fails to return exactly when the guard of its loop holds after every number
  // of evictions. Then the loop evicts what comes before "" in the eviction order and
  // stays with "" as its victim for ever.
  lemma StuckForever(s: State, size: nat)
    requires Inv(s)
    ensures MakeRoom(s, size).None? <==> forall i: nat :: GoesOn(s, size, i)
    ensures MakeRoom(s, size).None? ==>
      var n := Position(EvictionOrder(s), "");
      && n < |EvictionOrder(s)| && Victim(Evicted(s, n)) == Some("")
      && forall i: nat {:trigger Evicted(s, i)} :: i >= n ==> Evicted(s, i) == Evicted(s, n)
  {
    hide Inv, Queued, GoesOn, Victim;
    OrderIsQueued(s);
    var order := EvictionOrder(s);
    if MakeRoom(s, size).Some? {
      LoopEnds(s, order, k => Position(s.entries.keys, k), size);
      assert !GoesOn(s, size, Needed(s, order, size, 0));
    } else {
      LoopSticks(s, order, k => Position(s.entries.keys, k), size);
    }
  }

  // A `set` of the key "" and then of another key, in a cache for one entry.
  const FIRST: Event := Event(OpSet("", "x", 1, None), 0)
  const SECOND: Event := Event(OpSet("a", "y", 1, None), 0)

  // The second call never returns, whatever the policy.
  lemma StuckInput(p: Policy)
    ensures Run(Config(100, 1, 10, 10, p), [FIRST, SECOND]).None?
  {
    hide Step, Inv;
    var c := Config(100, 1, 10, 10, p);
    var events := [FIRST, SECOND];
    assert events[..1] == [FIRST] && [FIRST][..0] == [];
    assert Run(c, []) == Some(Initial(c));
    var t := StuckFirst(c);
    assert Run(c, [FIRST]) == Step(Initial(c), FIRST);
    StuckSecond(t);
  }

  lemma StuckFirst(c: Config) returns (t: State)
    requires c.maxSize == 100 && c.maxEntries == 1
    ensures Step(Initial(c), FIRST) == Some(t) && Inv(t) && t.config == c && t.entries.keys == [""]
  {
    var s := Initial(c);
    assert Delete(s, "") == s;
    MakeRoomStops(s, 1);
    t := Insert(s, "", "x", 1, EntryTTL(c, None), 0);
    assert Set(s, "", "x", 1, None, 0) == Some(t);
    SetInv(s, "", "x", 1, None, 0);
  }

  lemma StuckSecond(t: State)
    requires Inv(t) && t.config.maxEntries == 1 && t.entries.keys == [""]
    ensures Step(t, SECOND).None?
  {
    hide TotalSize, Distinct, Victim, EvictOne;
    assert "" in ToSet(t.entries.keys) && forall k :: k in ToSet(t.entries.keys) ==> k == "";
    assert Delete(t, "a") == t;
    RemoveCard(t.entries);
    EvictFacts(t);
    assert Victim(t).value in ToSet(t.entries.keys);
    assert MakeRoom(t, 1).None?;
  }

  // ---------------------------------------------------------------- FIFO: insertion order

  lemma {:induction false} AgedIsInOrder(at: map<Key, Record>, keys: seq<Key>)
    requires forall k :: k in keys ==> k in at
    requires Falling(keys, k => -CreatedAt(at, k), 0)
    ensures ByScore(FIFO, at, keys) == keys
  {
    hide Falling;
    if keys != [] {
      var n := |keys| - 1;
      FallingLast(keys, k => -CreatedAt(at, k));
      AgedIsInOrder(at, keys[..n]);
      assert keys[n] in keys && (n > 0 ==> keys[n - 1] in keys);
    }
  }

  lemma FallingLast(keys: seq<Key>, f: Key -> int)
    requires Falling(keys, f, 0) && keys != []
    ensures Falling(keys[..|keys| - 1], f, 0)
    ensures |keys| > 1 ==> f(keys[|keys| - 2]) >= f(keys[|keys| - 1])
  {
    assert |keys| > 1 ==> f(keys[|keys| - 2]) >= f(keys[|keys| - 1]) + 0;
  }

  lemma {:induction false} WithoutPrefix(keys: seq<Key>, m: nat)
    requires Distinct(keys) && m <= |keys|
    ensures WithoutAll(keys, keys[..m]) == keys[m..]
    decreases m
  {
    hide Without, Distinct, WithoutAll;
    if m == 0 {
      NothingWithout(keys);
    } else {
      WithoutAt(keys, 0);
      assert Without(keys, keys[0]) == keys[1..];
      DistinctTail(keys);
      WithoutPrefix(keys[1..], m - 1);
      assert keys[..m] == [keys[0]] + keys[1..][..m - 1];
      WithoutAllCons(keys, keys[0], keys[1..][..m - 1]);
    }
  }

  lemma NothingWithout(keys: seq<Key>)
    ensures WithoutAll(keys, keys[..0]) == keys
  {
  }

  // Under a clock that never runs back FIFO evicts in insertion order: in every
  // reachable state the eviction loop of a `set` drops the longest-held entries, no
  // more of them than needed.
  lemma FifoEvictsInInsertionOrder(c: Config, events: seq<Event>, key: Key, size: nat)
    requires c.policy == FIFO && SteadyClock(events) && Run(c, events).Some?
    ensures var s := Delete(Run(c, events).value, key);
      && Inv(s) && EvictionOrder(s) == s.entries.keys
      && (MakeRoom(s, size).Some? ==>
        MakeRoom(s, size).value.entries.keys == s.entries.keys[Needed(s, s.entries.keys, size, 0)..])
  {
    hide MakeRoom, Needed, Delete, Inv, Aged, EvictionOrder, WithoutAll, Distinct;
    var now := if events == [] then 0 else events[|events| - 1].now;
    SteadyRunsAge(c, events, now);
    DeleteInv(Run(c, events).value, key);
    AgedDelete(Run(c, events).value, key, now);
    var s := Delete(Run(c, events).value, key);
    DeleteConfig(Run(c, events).value, key);
    AgedOrder(s, now);
    EvictsShortestPrefix(s, size);
    WithoutPrefix(s.entries.keys, Needed(s, s.entries.keys, size, 0));
  }

  lemma DeleteConfig(s: State, key: Key)
    ensures Delete(s, key).config == s.config
  {
  }

  lemma AgedOrder(s: State, now: int)
    requires Inv(s) && s.config.policy == FIFO && Aged(s.entries, now)
    ensures EvictionOrder(s) == s.entries.keys && Distinct(s.entries.keys)
  {
    hide TotalSize, Distinct, ByScore, Falling;
    var keys := s.entries.keys;
    assert forall k :: k in keys ==> k in ToSet(keys);
    AgedIsInOrder(s.entries.at, keys);
  }
}
