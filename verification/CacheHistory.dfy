// What the cache holds after any run, told from the events of the run alone: what was
// stored, when, how often it was read since, and what LFU therefore evicts.
module CacheHistory {
  import opened Seqs
  import opened JsMaps
  import opened CacheSpec
  import opened CacheTheorems
  import opened Eviction

  ghost predicate Stores(e: Event, k: Key) {
    e.op.OpSet? && e.op.key == k
  }

  // The position of the last event that stored k, -1 if there is none.
  ghost function LastSet(events: seq<Event>, k: Key): (i: int)
    ensures -1 <= i < |events| && (i >= 0 ==> Stores(events[i], k))
  {
    if events == [] then -1
    else if Stores(events[|events| - 1], k) then |events| - 1
    else LastSet(events[..|events| - 1], k)
  }

  // e is a read of k that is answered with a value.
  ghost predicate Answers(s: State, e: Event, k: Key) {
    e.op.OpGet? && e.op.key == k && Get(s, k, e.now).1.Some?
  }

  // How many reads of k have been answered since it was last stored.
  ghost function Hits(c: Config, events: seq<Event>, k: Key): nat {
    if events == [] || Stores(events[|events| - 1], k) then 0
    else
      var front, e := events[..|events| - 1], events[|events| - 1];
      Hits(c, front, k) + if Run(c, front).Some? && Answers(Run(c, front).value, e, k) then 1 else 0
  }

  // The last event that stored k or answered a read of it.
  ghost function LastTouch(c: Config, events: seq<Event>, k: Key): (i: int)
    ensures -1 <= i < |events|
  {
    if events == [] then -1
    else
      var front, e := events[..|events| - 1], events[|events| - 1];
      if Stores(e, k) || (Run(c, front).Some? && Answers(Run(c, front).value, e, k)) then |events| - 1
      else LastTouch(c, front, k)
  }

  function Lesser(a: int, b: int): int {
    if a <= b then a else b
  }

  // The record of k is that of its last `set`, with the reads since then counted.
  ghost predicate AsStored(c: Config, events: seq<Event>, k: Key, r: Record) {
    var i, j := LastSet(events, k), LastTouch(c, events, k);
    && 0 <= i < |events| && 0 <= j < |events|
    && var e := events[i];
       var ttl := Lesser(match e.op.ttl case Some(t) => t case None => c.defaultTTL, c.maxTTL);
       && r.value == e.op.value && r.meta.size == e.op.size
       && r.meta.createdAt == e.now && r.meta.ttl == ttl && r.meta.expiresAt == e.now + ttl
       && r.meta.accessCount == Hits(c, events, k)
       && r.meta.accessedAt == events[j].now
  }

  // `has` agrees with what a read would answer.
  lemma HasAgrees(s: State, key: Key, now: int)
    ensures Has(s, key, now).1 <==> Get(s, key, now).1.Some?
    ensures Get(s, key, now).1.Some? ==>
      key in s.entries.at && now <= s.entries.at[key].meta.expiresAt
      && Get(s, key, now).1.value == s.entries.at[key].value
  {
  }

  // ---------------------------------------------------------------- one step

  // What is held after a step was held before, unless it has just been stored.
  ghost predicate Keeps(s: State, t: State) {
    forall k :: k in t.entries.at ==> k in s.entries.at && t.entries.at[k] == s.entries.at[k]
  }

  lemma DeleteKeeps(s: State, key: Key)
    requires Inv(s)
    ensures Keeps(s, Delete(s, key)) && key !in Delete(s, key).entries.at
  {
    hide Inv;
    DeleteInv(s, key);
  }

  lemma {:induction false} CleanupKeeps(s: State, keys: seq<Key>, now: int)
    requires Inv(s)
    ensures Keeps(s, CleanupKeys(s, keys, now).0)
  {
    hide Inv, Delete;
    if keys != [] {
      var n := |keys| - 1;
      CleanupKeeps(s, keys[..n], now);
      CleanupInv(s, keys[..n], now);
      DeleteKeeps(CleanupKeys(s, keys[..n], now).0, keys[n]);
    }
  }

  lemma RoomKeeps(s: State, size: nat)
    requires Inv(s) && MakeRoom(s, size).Some?
    ensures Keeps(s, MakeRoom(s, size).value)
    ensures exists drop :: MakeRoom(s, size).value.entries.keys == WithoutAll(s.entries.keys, drop)
    ensures var t := MakeRoom(s, size).value;
      t.stats.hits == s.stats.hits && t.stats.misses == s.stats.misses && t.stats.hitRate == s.stats.hitRate
  {
    hide Inv, MakeRoom, WithoutAll, EvictionOrder;
    EvictsShortestPrefix(s, size);
  }

  // The records after a step: a stored one is new, an answered one is touched, all
  // others are as before.
  lemma StepRecords(s: State, e: Event, k: Key)
    requires Inv(s) && Step(s, e).Some? && k in Step(s, e).value.entries.at
    ensures Stores(e, k) || k in s.entries.at
    ensures var r := Step(s, e).value.entries.at[k];
      if Stores(e, k) then
        var ttl := Lesser(match e.op.ttl case Some(t) => t case None => s.config.defaultTTL, s.config.maxTTL);
        r == Record(e.op.value, Meta(e.now, e.now, 0, e.op.size, ttl, e.now + ttl))
      else
        var old' := s.entries.at[k];
        if Answers(s, e, k) then
          r == old'.(meta := old'.meta.(accessedAt := e.now, accessCount := old'.meta.accessCount + 1))
        else r == old'
  {
    hide Inv, MakeRoom, Delete;
    match e.op
    case OpGet(key) => GetRecords(s, key, e.now, k);
    case OpSet(key, value, size, ttl) => SetRecords(s, e, k);
    case OpHas(key) => DeleteKeeps(s, key);
    case OpDelete(key) => DeleteKeeps(s, key);
    case OpCleanup => CleanupKeeps(s, s.entries.keys, e.now);
    case OpClear =>
  }

  lemma GetRecords(s: State, key: Key, now: int, k: Key)
    requires Inv(s) && k in Get(s, key, now).0.entries.at
    ensures k in s.entries.at
    ensures Get(s, key, now).0.entries.at[k] ==
      var r := s.entries.at[k];
      if k == key && Get(s, k, now).1.Some? then
        r.(meta := r.meta.(accessedAt := now, accessCount := r.meta.accessCount + 1))
      else r
  {
    hide Inv, Delete;
    DeleteKeeps(s, key);
  }

  lemma SetRecords(s: State, e: Event, k: Key)
    requires Inv(s) && e.op.OpSet? && Step(s, e).Some? && k in Step(s, e).value.entries.at
    ensures var r := Step(s, e).value.entries.at[k];
      if k == e.op.key then
        var ttl := Lesser(match e.op.ttl case Some(t) => t case None => s.config.defaultTTL, s.config.maxTTL);
        r == Record(e.op.value, Meta(e.now, e.now, 0, e.op.size, ttl, e.now + ttl))
      else k in s.entries.at && r == s.entries.at[k]
  {
    hide Inv, MakeRoom, Delete;
    DeleteInv(s, e.op.key);
    DeleteKeeps(s, e.op.key);
    RoomKeeps(Delete(s, e.op.key), e.op.size);
  }

  // ---------------------------------------------------------------- what is held is what was stored

  lemma {:induction false} HeldIsStored(c: Config, events: seq<Event>, k: Key)
    requires Run(c, events).Some? && k in Run(c, events).value.entries.at
    ensures AsStored(c, events, k, Run(c, events).value.entries.at[k])
  {
    hide Inv, Step, Answers;
    if events != [] {
      var front, e := events[..|events| - 1], events[|events| - 1];
      var s := Run(c, front).value;
      StepRecords(s, e, k);
      if !Stores(e, k) {
        HeldIsStored(c, front, k);
      }
    }
  }

  // ---------------------------------------------------------------- the order of the map

  lemma {:induction false} RisingAll(keys: seq<Key>, drop: seq<Key>, rank: Key -> int)
    requires Rising(keys, rank)
    ensures Rising(WithoutAll(keys, drop), rank)
    ensures forall k :: k in WithoutAll(keys, drop) ==> k in keys
    decreases |drop|
  {
    hide Rising, Without;
    if drop != [] {
      RisingWithout(keys, drop[0], rank);
      WithoutMembers(keys, drop[0]);
      RisingAll(Without(keys, drop[0]), drop[1..], rank);
    }
  }

  lemma {:induction false} RisingCleanup(s: State, keys: seq<Key>, now: int, rank: Key -> int)
    requires Rising(s.entries.keys, rank)
    ensures Rising(CleanupKeys(s, keys, now).0.entries.keys, rank)
  {
    hide Rising;
    if keys != [] {
      var n := |keys| - 1;
      RisingCleanup(s, keys[..n], now, rank);
      RisingWithout(CleanupKeys(s, keys[..n], now).0.entries.keys, keys[n], rank);
    }
  }

  lemma RisingSet(s: State, e: Event, rank: Key -> int)
    requires Inv(s) && e.op.OpSet? && Step(s, e).Some? && Rising(Delete(s, e.op.key).entries.keys, rank)
    requires forall k :: k in s.entries.at && k != e.op.key ==> rank(k) < rank(e.op.key)
    ensures Rising(Step(s, e).value.entries.keys, rank)
  {
    hide Inv, MakeRoom, WithoutAll, Rising;
    var s' := Delete(s, e.op.key);
    DeleteInv(s, e.op.key);
    DeleteKeeps(s, e.op.key);
    RoomKeeps(s', e.op.size);
    var room := MakeRoom(s', e.op.size).value;
    var drop :| room.entries.keys == WithoutAll(s'.entries.keys, drop);
    RisingAll(s'.entries.keys, drop, rank);
    MakeRoomFacts(s', e.op.size);
    RisingAppend(room, s', e.op.key, rank);
  }

  lemma RisingAppend(room: State, s: State, key: Key, rank: Key -> int)
    requires Inv(room) && Inv(s) && Rising(room.entries.keys, rank) && room.entries.at.Keys <= s.entries.at.Keys
    requires key !in s.entries.at && forall k :: k in s.entries.at ==> rank(k) < rank(key)
    ensures key !in room.entries.at && Rising(room.entries.keys + [key], rank)
  {
    hide Distinct;
    assert forall k :: k in room.entries.keys ==> k in ToSet(room.entries.keys);
  }

  lemma DeleteRises(s: State, key: Key, rank: Key -> int)
    requires Rising(s.entries.keys, rank)
    ensures Rising(Delete(s, key).entries.keys, rank)
  {
    hide Rising;
    RisingWithout(s.entries.keys, key, rank);
  }

  lemma RisingStep(s: State, e: Event, rank: Key -> int)
    requires Inv(s) && !e.op.OpSet? && Step(s, e).Some? && Rising(s.entries.keys, rank)
    ensures Rising(Step(s, e).value.entries.keys, rank)
  {
    hide Inv, Rising, Delete;
    match e.op
    case OpGet(key) => DeleteRises(s, key, rank);
    case OpHas(key) => DeleteRises(s, key, rank);
    case OpDelete(key) => DeleteRises(s, key, rank);
    case OpCleanup => RisingCleanup(s, s.entries.keys, e.now, rank);
    case OpClear => NothingRises(rank);
  }

  lemma NothingRises(rank: Key -> int)
    ensures Rising([], rank)
  {
  }

  lemma RisingSame(keys: seq<Key>, rank: Key -> int, rank': Key -> int)
    requires Rising(keys, rank) && forall k :: k in keys ==> rank'(k) == rank(k)
    ensures Rising(keys, rank')
  {
  }

  // The keys of the map stand in the order in which they were last stored.
  lemma {:induction false} KeysBySet(c: Config, events: seq<Event>)
    requires Run(c, events).Some?
    ensures Rising(Run(c, events).value.entries.keys, k => LastSet(events, k))
  {
    hide Inv, Step, Rising, Delete;
    if events == [] {
      NothingRises(k => LastSet(events, k));
    } else {
      var front, e := events[..|events| - 1], events[|events| - 1];
      var s := Run(c, front).value;
      KeysBySet(c, front);
      if e.op.OpSet? {
        DeleteRises(s, e.op.key, k => LastSet(front, k));
        NotHeld(s, e.op.key);
        RisingSame(Delete(s, e.op.key).entries.keys, k => LastSet(front, k), k => LastSet(events, k));
        RisingSet(s, e, k => LastSet(events, k));
      } else {
        RisingSame(s.entries.keys, k => LastSet(front, k), k => LastSet(events, k));
        RisingStep(s, e, k => LastSet(events, k));
      }
    }
  }

  lemma NotHeld(s: State, key: Key)
    requires Inv(s)
    ensures key !in Delete(s, key).entries.keys
  {
    hide Distinct;
    DeleteInv(s, key);
    assert forall k :: k in Delete(s, key).entries.keys ==> k in ToSet(Delete(s, key).entries.keys);
  }

  // ---------------------------------------------------------------- LFU: fewest hits first

  // k was read less often than x since it was stored, or as often but stored earlier.
  ghost predicate LessUsed(c: Config, events: seq<Event>, k: Key, x: Key) {
    var m, n := Hits(c, events, k), Hits(c, events, x);
    m < n || (m == n && LastSet(events, k) < LastSet(events, x))
  }

  // Under LFU a `set` evicts, of the keys it does not replace, those with the fewest
  // hits since they were stored, the oldest first among equals, and only as many as
  // needed.
  lemma LfuEvictsLeastUsed(c: Config, events: seq<Event>, key: Key, size: nat) returns (order: seq<Key>, m: nat)
    requires c.policy == LFU && Run(c, events).Some?
    ensures var s := Delete(Run(c, events).value, key);
      && Inv(s) && Distinct(order) && ToSet(order) == s.entries.at.Keys
      && (forall i, j :: 0 <= i < j < |order| ==> LessUsed(c, events, order[i], order[j]))
      && m <= |order| && HasRoom(s, order, size, m) && (forall i :: 0 <= i < m ==> !HasRoom(s, order, size, i))
      && (MakeRoom(s, size).None? <==> "" in order[..m])
      && (MakeRoom(s, size).Some? ==> MakeRoom(s, size).value.entries.at == s.entries.at - ToSet(order[..m]))
  {
    hide Inv, Delete, MakeRoom, HasRoom, Rising, Distinct, ByScore, LessUsed, Hits, LastSet;
    var held := Run(c, events).value;
    var s := Delete(held, key);
    DeleteInv(held, key);
    DeleteConfig(held, key);
    EvictsShortestPrefix(s, size);
    OrderIsQueued(s);
    order := EvictionOrder(s);
    m := Needed(s, order, size, 0);
    KeysBySet(c, events);
    DeleteRises(held, key, k => LastSet(events, k));
    ByScoreSorted(LFU, s.entries.at, s.entries.keys, k => LastSet(events, k));
    forall i, j | 0 <= i < j < |order|
      ensures LessUsed(c, events, order[i], order[j])
    {
      assert Precedes(LFU, s.entries.at, k => LastSet(events, k), order[i], order[j]);
      assert order[i] in ToSet(order) && order[j] in ToSet(order);
      ScoreIsHits(c, events, key, order[i]);
      ScoreIsHits(c, events, key, order[j]);
      PrecedesIsLessUsed(c, events, s.entries.at, order[i], order[j]);
    }
  }

  lemma ScoreIsHits(c: Config, events: seq<Event>, key: Key, k: Key)
    requires Run(c, events).Some? && k in Delete(Run(c, events).value, key).entries.at
    ensures ScoreOf(LFU, Delete(Run(c, events).value, key).entries.at, k) == Hits(c, events, k)
  {
    hide Inv, Delete, Hits;
    DeleteKeeps(Run(c, events).value, key);
    HeldIsStored(c, events, k);
  }

  lemma PrecedesIsLessUsed(c: Config, events: seq<Event>, at: map<Key, Record>, a: Key, b: Key)
    requires ScoreOf(LFU, at, a) == Hits(c, events, a) && ScoreOf(LFU, at, b) == Hits(c, events, b)
    requires Precedes(LFU, at, k => LastSet(events, k), a, b)
    ensures LessUsed(c, events, a, b)
  {
  }

  // ---------------------------------------------------------------- hits and misses

  // How many reads have been answered, and how many have not.
  ghost function Answered(c: Config, events: seq<Event>): (nat, nat) {
    if events == [] then (0, 0)
    else
      var front, e := events[..|events| - 1], events[|events| - 1];
      var (hits, misses) := Answered(c, front);
      if !e.op.OpGet? || Run(c, front).None? then (hits, misses)
      else if Answers(Run(c, front).value, e, e.op.key) then (hits + 1, misses)
      else (hits, misses + 1)
  }

  // The statistics count the answered and unanswered reads of the whole run.
  lemma {:induction false} StatsAreHistory(c: Config, events: seq<Event>)
    requires Run(c, events).Some?
    ensures var stats, (hits, misses) := Run(c, events).value.stats, Answered(c, events);
      && stats.hits == hits && stats.misses == misses
      && stats.hitRate == if hits + misses == 0 then 0.0 else hits as real / (hits + misses) as real
  {
    hide Inv, Step;
    if events != [] {
      var front, e := events[..|events| - 1], events[|events| - 1];
      StatsAreHistory(c, front);
      StepStats(Run(c, front).value, e);
    }
  }

  lemma StepStats(s: State, e: Event)
    requires Inv(s) && Step(s, e).Some?
    ensures var t := Step(s, e).value;
      if e.op.OpGet? then
        var hit := Answers(s, e, e.op.key);
        && t.stats.hits == s.stats.hits + (if hit then 1 else 0)
        && t.stats.misses == s.stats.misses + (if hit then 0 else 1)
        && t.stats.hitRate == t.stats.hits as real / (t.stats.hits + t.stats.misses) as real
      else t.stats.hits == s.stats.hits && t.stats.misses == s.stats.misses && t.stats.hitRate == s.stats.hitRate
  {
    hide Inv, MakeRoom;
    match e.op
    case OpGet(key) =>
    case OpSet(key, value, size, ttl) =>
      DeleteInv(s, key);
      RoomKeeps(Delete(s, key), size);
    case OpHas(key) =>
    case OpDelete(key) =>
    case OpCleanup => CleanupStats(s, s.entries.keys, e.now);
    case OpClear =>
  }

  lemma {:induction false} CleanupStats(s: State, keys: seq<Key>, now: int)
    ensures var t := CleanupKeys(s, keys, now).0;
      t.stats.hits == s.stats.hits && t.stats.misses == s.stats.misses && t.stats.hitRate == s.stats.hitRate
  {
    if keys != [] {
      CleanupStats(s, keys[..|keys| - 1], now);
    }
  }
}
