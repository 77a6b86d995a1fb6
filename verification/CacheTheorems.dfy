// What holds of the cache after any sequence of operations.
module CacheTheorems {
  import opened Seqs
  import opened JsMaps
  import opened CacheSpec

  datatype Op =
    | OpGet(key: Key)
    | OpSet(key: Key, value: Value, size: nat, ttl: Option<int>)
    | OpHas(key: Key)
    | OpDelete(key: Key)
    | OpCleanup
    | OpClear

  datatype Event = Event(op: Op, now: int)

  function Initial(c: Config): (s: State)
    ensures Inv(s)
  {
    State(c, JsMaps.Empty(), [], Stats(0, 0, 0, 0, 0, 0.0))
  }

  // None: the operation never returns.
  function Step(s: State, e: Event): (r: Option<State>)
    requires Inv(s)
    ensures r.Some? ==> Inv(r.value) && r.value.config == s.config
  {
    match e.op
    case OpGet(key) => GetInv(s, key, e.now); Some(Get(s, key, e.now).0)
    case OpSet(key, value, size, ttl) =>
      SetInv(s, key, value, size, ttl, e.now); Set(s, key, value, size, ttl, e.now)
    case OpHas(key) => DeleteInv(s, key); Some(Has(s, key, e.now).0)
    case OpDelete(key) => DeleteInv(s, key); Some(Delete(s, key))
    case OpCleanup => CleanupInv(s, s.entries.keys, e.now); Some(Cleanup(s, e.now).0)
    case OpClear => Some(Clear(s))
  }

  function Run(c: Config, events: seq<Event>): (r: Option<State>)
    ensures r.Some? ==> Inv(r.value) && r.value.config == c
  {
    if events == [] then Some(Initial(c))
    else
      var before := Run(c, events[..|events| - 1]);
      if before.None? then None else Step(before.value, events[|events| - 1])
  }

  // ---------------------------------------------------------------- every operation keeps Inv

  lemma GetInv(s: State, key: Key, now: int)
    requires Inv(s)
    ensures Inv(Get(s, key, now).0)
    ensures Get(s, key, now).0.entries.at.Keys ==
      if s.entries.Has(key) && Expired(s.entries.at[key].meta, now)
      then s.entries.at.Keys - {key} else s.entries.at.Keys
  {
    hide Distinct, ToSet, TotalSize, Without;
    DeleteInv(s, key);
    if s.entries.Has(key) && !Expired(s.entries.at[key].meta, now) {
      TouchedSize(s, key, now);
      if s.config.policy == LRU {
        FrontInv(s.recency, key);
      }
    }
  }

  lemma TouchedSize(s: State, key: Key, now: int)
    requires Inv(s) && s.entries.Has(key)
    ensures var t := s.entries.Put(key, Touched(s.entries.at[key], now));
      t.keys == s.entries.keys && TotalSize(t.keys, t.at) == s.stats.currentSize && |t.at| == |s.entries.at|
  {
    hide Distinct, ToSet;
    var t := s.entries.Put(key, Touched(s.entries.at[key], now));
    TotalSizeSame(s.entries.keys, s.entries.at, t.at);
    assert t.at.Keys == s.entries.at.Keys;
    assert |t.at.Keys| == |t.at| && |s.entries.at.Keys| == |s.entries.at|;
  }

  lemma FrontInv(recency: seq<Key>, key: Key)
    requires Distinct(recency)
    ensures Distinct([key] + Without(recency, key))
    ensures ToSet([key] + Without(recency, key)) == ToSet(recency) + {key}
  {
    var rest := Without(recency, key);
    WithoutMembers(recency, key);
    RemoveKeysDistinct(recency, key);
    var r := [key] + rest;
    forall i, j | 0 <= i < j < |r|
      ensures r[i] != r[j]
    {
      assert r[j] == rest[j - 1] && rest[j - 1] in rest;
    }
    forall x
      ensures x in r <==> x in recency || x == key
    {
      if x in recency && x != key { assert x in rest; }
      if x == key { assert r[0] == key; }
    }
  }

  lemma {:induction false} CleanupInv(s: State, keys: seq<Key>, now: int)
    requires Inv(s)
    ensures Inv(CleanupKeys(s, keys, now).0) && CleanupKeys(s, keys, now).0.config == s.config
  {
    if keys != [] {
      CleanupInv(s, keys[..|keys| - 1], now);
      DeleteInv(CleanupKeys(s, keys[..|keys| - 1], now).0, keys[|keys| - 1]);
    }
  }

  lemma {:induction false} MakeRoomFacts(s: State, size: nat)
    requires Inv(s)
    ensures var r := MakeRoom(s, size);
      r.Some? ==>
        && Inv(r.value) && r.value.config == s.config
        && !MustEvict(r.value, size) && r.value.entries.at.Keys <= s.entries.at.Keys
    decreases |s.entries.at|
  {
    if MustEvict(s, size) {
      EvictFacts(s);
      if |EvictOne(s).entries.at| != |s.entries.at| {
        MakeRoomFacts(EvictOne(s), size);
      }
    }
  }

  lemma SetInv(s: State, key: Key, value: Value, size: nat, ttl: Option<int>, now: int)
    requires Inv(s)
    ensures var r := Set(s, key, value, size, ttl, now);
      r.Some? ==> Inv(r.value) && r.value.config == s.config && Bounded(r.value)
  {
    DeleteInv(s, key);
    MakeRoomFacts(Delete(s, key), size);
    var room := MakeRoom(Delete(s, key), size);
    if room.Some? {
      InsertInv(room.value, key, value, size, EntryTTL(s.config, ttl), now);
    }
  }

  lemma InsertInv(s: State, key: Key, value: Value, size: nat, ttl: int, now: int)
    requires Inv(s) && key !in s.entries.at && !MustEvict(s, size)
    ensures Inv(Insert(s, key, value, size, ttl, now)) && Bounded(Insert(s, key, value, size, ttl, now))
    ensures Insert(s, key, value, size, ttl, now).entries.at.Keys == s.entries.at.Keys + {key}
  {
    hide Distinct, ToSet, Without;
    InsertedSize(s, key, Record(value, Meta(now, now, 0, size, ttl, now + ttl)));
    if s.config.policy == LRU {
      KeyAbsent(s.recency, key);
      FrontInv(s.recency, key);
    }
  }

  lemma KeyAbsent(keys: seq<Key>, key: Key)
    requires key !in ToSet(keys)
    ensures Without(keys, key) == keys
  {
    WithoutNone(keys, key);
  }

  lemma InsertedSize(s: State, key: Key, r: Record)
    requires Inv(s) && key !in s.entries.at
    ensures var t := s.entries.Put(key, r);
      && TotalSize(t.keys, t.at) == s.stats.currentSize + r.meta.size
      && |t.at| == |s.entries.at| + 1
    ensures |s.entries.at| == 0 ==> s.stats.currentSize == 0
  {
    hide Distinct;
    var t := s.entries.Put(key, r);
    assert key !in ToSet(s.entries.keys);
    assert t.keys == s.entries.keys + [key] && t.keys[..|s.entries.keys|] == s.entries.keys;
    TotalSizeSame(s.entries.keys, s.entries.at, t.at);
    assert t.at.Keys == s.entries.at.Keys + {key};
    assert |t.at.Keys| == |t.at| && |s.entries.at.Keys| == |s.entries.at|;
    RemoveCard(s.entries);
  }

  // ---------------------------------------------------------------- the limits

  // Only a single entry may exceed a limit: the size limit when it alone is too
  // big, the count limit when that is below one.
  ghost predicate Bounded(s: State) {
    && (s.stats.currentSize <= s.config.maxSize || |s.entries.at| <= 1)
    && (|s.entries.at| <= s.config.maxEntries || |s.entries.at| <= 1)
  }

  // Dropping entries keeps the bounds.
  lemma FewerBounded(s: State, t: State)
    requires Inv(s) && Inv(t) && Bounded(s) && t.config == s.config
    requires t.entries.at.Keys <= s.entries.at.Keys
    requires t.stats.currentSize <= s.stats.currentSize
    ensures Bounded(t)
  {
    SubsetCard(t.entries.at.Keys, s.entries.at.Keys);
    assert |t.entries.at.Keys| == |t.entries.at| && |s.entries.at.Keys| == |s.entries.at|;
  }

  // What every operation but `set` does to the key set and the size.
  ghost predicate Shrinks(s: State, t: State) {
    && Inv(t) && t.config == s.config
    && t.entries.at.Keys <= s.entries.at.Keys && t.stats.currentSize <= s.stats.currentSize
  }

  lemma DeleteShrinks(s: State, key: Key)
    requires Inv(s)
    ensures Shrinks(s, Delete(s, key))
  {
    DeleteInv(s, key);
  }

  lemma {:induction false} CleanupShrinks(s: State, keys: seq<Key>, now: int)
    requires Inv(s)
    ensures Shrinks(s, CleanupKeys(s, keys, now).0)
  {
    hide Inv, Delete;
    if keys != [] {
      CleanupShrinks(s, keys[..|keys| - 1], now);
      DeleteShrinks(CleanupKeys(s, keys[..|keys| - 1], now).0, keys[|keys| - 1]);
    }
  }

  lemma StepShrinks(s: State, e: Event)
    requires Inv(s) && !e.op.OpSet?
    ensures Shrinks(s, Step(s, e).value)
  {
    hide Distinct, ToSet, TotalSize;
    match e.op
    case OpGet(key) => GetInv(s, key, e.now); DeleteShrinks(s, key);
    case OpHas(key) => DeleteShrinks(s, key);
    case OpDelete(key) => DeleteShrinks(s, key);
    case OpCleanup => CleanupShrinks(s, s.entries.keys, e.now);
    case OpClear => TotalNonNegative(s);
  }

  lemma TotalNonNegative(s: State)
    requires Inv(s)
    ensures s.stats.currentSize >= 0
  {
  }

  // In every reachable state the counters are exact and the limits respected.
  lemma {:induction false} AllRunsBounded(c: Config, events: seq<Event>)
    requires Run(c, events).Some?
    ensures var s := Run(c, events).value;
      && s.stats.currentSize == TotalSize(s.entries.keys, s.entries.at)
      && s.stats.entryCount == |s.entries.at|
      && Bounded(s)
  {
    hide Bounded, TotalSize, Distinct, ToSet;
    if events == [] {
      InitialBounded(c);
    } else {
      var front := events[..|events| - 1];
      AllRunsBounded(c, front);
      var s, e := Run(c, front).value, events[|events| - 1];
      if e.op.OpSet? {
        SetInv(s, e.op.key, e.op.value, e.op.size, e.op.ttl, e.now);
      } else {
        StepShrinks(s, e);
        FewerBounded(s, Step(s, e).value);
      }
    }
  }

  lemma InitialBounded(c: Config)
    ensures Bounded(Initial(c))
  {
  }

  // ---------------------------------------------------------------- termination

  // A run is cut short only by the key "": without it every `set` returns.
  lemma {:induction false} RunsTerminate(c: Config, events: seq<Event>)
    requires forall e :: e in events && e.op.OpSet? ==> e.op.key != ""
    ensures Run(c, events).Some? && "" !in Run(c, events).value.entries.at
  {
    hide Inv;
    if events != [] {
      var front := events[..|events| - 1];
      RunsTerminate(c, front);
      var s, e := Run(c, front).value, events[|events| - 1];
      assert e in events;
      if e.op.OpSet? {
        SetTerminates(s, e.op.key, e.op.value, e.op.size, e.op.ttl, e.now);
      } else {
        StepShrinks(s, e);
      }
    }
  }

  lemma SetTerminates(s: State, key: Key, value: Value, size: nat, ttl: Option<int>, now: int)
    requires Inv(s) && "" !in s.entries.at && key != ""
    ensures Set(s, key, value, size, ttl, now).Some? && "" !in Set(s, key, value, size, ttl, now).value.entries.at
  {
    DeleteInv(s, key);
    hide Inv;
    RoomWithoutEmptyKey(Delete(s, key), size);
    MakeRoomFacts(Delete(s, key), size);
  }

  lemma {:induction false} RoomWithoutEmptyKey(s: State, size: nat)
    requires Inv(s) && "" !in s.entries.at
    ensures MakeRoom(s, size).Some?
    decreases |s.entries.at|
  {
    if MustEvict(s, size) {
      EvictFacts(s);
      RoomWithoutEmptyKey(EvictOne(s), size);
    }
  }

  // ---------------------------------------------------------------- LRU: what `set` drops

  lemma {:induction false} TotalSizePermutes(a: seq<Key>, b: seq<Key>, at: map<Key, Record>)
    requires Distinct(a) && Distinct(b) && ToSet(a) == ToSet(b)
    ensures TotalSize(a, at) == TotalSize(b, at)
  {
    hide Distinct;
    if a == [] {
      assert ToSet(b) == {};
      assert forall i :: 0 <= i < |b| ==> b[i] in ToSet(b);
    } else {
      var n := |a| - 1;
      var k := a[n];
      DistinctPrefix(a, n);
      TakeOne(a, n);
      assert a[..n + 1] == a;
      RemoveKeysDistinct(b, k);
      WithoutMembers(b, k);
      TotalSizePermutes(a[..n], Without(b, k), at);
      TotalSizeWithout(b, at, k);
      TotalSizeSame(Without(b, k), at, at - {k});
    }
  }

  lemma DistinctPrefix(a: seq<Key>, n: nat)
    requires Distinct(a) && n < |a|
    ensures Distinct(a[..n]) && a[n] !in ToSet(a[..n])
  {
  }

  // Room for a new entry of `size` beside the m most recent of `recency`.
  ghost predicate Fits(s: State, recency: seq<Key>, size: nat, m: nat)
    requires m <= |recency|
  {
    m == 0 || (m < s.config.maxEntries && TotalSize(recency[..m], s.entries.at) + size <= s.config.maxSize)
  }

  lemma MustEvictIsNoFit(s: State, size: nat)
    requires Inv(s) && s.config.policy == LRU
    ensures |s.recency| == |s.entries.at|
    ensures MustEvict(s, size) <==> !Fits(s, s.recency, size, |s.recency|)
  {
    hide Distinct, ToSet;
    DistinctCard(s.recency);
    RemoveCard(s.entries);
    TotalSizePermutes(s.recency, s.entries.keys, s.entries.at);
    assert s.recency[..|s.recency|] == s.recency;
    assert |s.entries.at.Keys| == |s.entries.at|;
  }

  lemma EvictRecency(s: State)
    requires Inv(s) && s.config.policy == LRU && s.recency != [] && s.recency[|s.recency| - 1] != ""
    ensures var t := EvictOne(s);
      && Inv(t) && t.config == s.config
      && t.recency == s.recency[..|s.recency| - 1]
      && t.entries.at == s.entries.at - {s.recency[|s.recency| - 1]}
  {
    hide Distinct, TotalSize, Without;
    TakeOne(s.recency, |s.recency| - 1);
    WithoutAt(s.recency, |s.recency| - 1);
    DeleteInv(s, s.recency[|s.recency| - 1]);
  }

  lemma EvictFits(s: State, t: State, size: nat, i: nat)
    requires Distinct(s.recency) && i < |s.recency| && t.config == s.config
    requires t.recency == s.recency[..|s.recency| - 1]
    requires t.entries.at == s.entries.at - {s.recency[|s.recency| - 1]}
    ensures Fits(t, t.recency, size, i) == Fits(s, s.recency, size, i)
  {
    var n := |s.recency| - 1;
    assert t.recency[..i] == s.recency[..i];
    DistinctPrefix(s.recency, n);
    hide Distinct;
    forall k | k in s.recency[..i]
      ensures SizeOf(t.entries.at, k) == SizeOf(s.entries.at, k)
    {
      assert k in s.recency[..n][..i];
      assert k in ToSet(s.recency[..n]);
    }
    TotalSizeSame(s.recency[..i], t.entries.at, s.entries.at);
  }

  // The loop drops the shortest tail of the recency list that makes room, and
  // returns unless the key "" lies on that tail.
  lemma {:induction false} LruDropsShortestTail(s: State, size: nat) returns (m: nat)
    requires Inv(s) && s.config.policy == LRU
    ensures m <= |s.recency| && Fits(s, s.recency, size, m)
    ensures m < |s.recency| ==> !Fits(s, s.recency, size, m + 1)
    ensures MakeRoom(s, size).None? <==> "" in s.recency[m..]
    ensures MakeRoom(s, size).Some? ==> MakeRoom(s, size).value.recency == s.recency[..m]
    decreases |s.recency|
  {
    hide Distinct, ToSet, TotalSize, Without, Delete, Fits;
    MustEvictIsNoFit(s, size);
    var n := |s.recency|;
    assert s.recency[..n] == s.recency;
    if !MustEvict(s, size) {
      m := n;
    } else {
      EvictFacts(s);
      var last := s.recency[n - 1];
      if last == "" {
        m := LargestFit(s, size, n);
        assert s.recency[m..][n - 1 - m] == "";
      } else {
        var t := EvictOne(s);
        EvictRecency(s);
        forall i | 0 <= i < n
          ensures Fits(t, t.recency, size, i) == Fits(s, s.recency, size, i)
        {
          EvictFits(s, t, size, i);
        }
        m := LruDropsShortestTail(t, size);
        assert s.recency[m..] == t.recency[m..] + [last];
        assert t.recency[..m] == s.recency[..m];
      }
    }
  }

  lemma LargestFit(s: State, size: nat, n: nat) returns (m: nat)
    requires n == |s.recency| && n > 0 && !Fits(s, s.recency, size, n)
    ensures m < n && Fits(s, s.recency, size, m) && !Fits(s, s.recency, size, m + 1)
  {
    m := n - 1;
    while m > 0 && !Fits(s, s.recency, size, m)
      invariant m < n && !Fits(s, s.recency, size, m + 1)
    {
      m := m - 1;
    }
  }

  // ---------------------------------------------------------------- LRU: recency is history

  ghost predicate Uses(s: State, e: Event, k: Key) {
    || (e.op.OpSet? && e.op.key == k)
    || (e.op.OpGet? && e.op.key == k && k in s.entries.at && !Expired(s.entries.at[k].meta, e.now))
  }

  // The position of the last event that stored k or read it successfully.
  ghost function LastUse(c: Config, events: seq<Event>, k: Key): int {
    if events == [] then -1
    else
      var front := events[..|events| - 1];
      if Run(c, front).Some? && Uses(Run(c, front).value, events[|events| - 1], k) then |events| - 1
      else LastUse(c, front, k)
  }

  lemma {:induction false} LastUseBefore(c: Config, events: seq<Event>, k: Key)
    ensures LastUse(c, events, k) < |events|
  {
    if events != [] {
      LastUseBefore(c, events[..|events| - 1], k);
    }
  }

  // f falls by at least `gap` from each key to any later one.
  ghost predicate Falling(keys: seq<Key>, f: Key -> int, gap: nat) {
    forall i, j :: 0 <= i < j < |keys| ==> f(keys[i]) >= f(keys[j]) + gap
  }

  lemma {:induction false} FallingWithout(keys: seq<Key>, k: Key, f: Key -> int, gap: nat)
    requires Falling(keys, f, gap)
    ensures Falling(Without(keys, k), f, gap)
  {
    if keys != [] {
      var n := |keys| - 1;
      FallingWithout(keys[..n], k, f, gap);
      var w := Without(keys[..n], k);
      WithoutMembers(keys[..n], k);
      forall i | 0 <= i < |w|
        ensures f(w[i]) >= f(keys[n]) + gap
      {
        assert w[i] in w;
        assert w[i] in keys[..n];
      }
    }
  }

  lemma FallingCons(k: Key, keys: seq<Key>, f: Key -> int, gap: nat)
    requires Falling(keys, f, gap) && forall x :: x in keys ==> f(k) >= f(x) + gap
    ensures Falling([k] + keys, f, gap)
  {
    var r := [k] + keys;
    forall i, j | 0 <= i < j < |r|
      ensures f(r[i]) >= f(r[j]) + gap
    {
      assert r[j] == keys[j - 1] && keys[j - 1] in keys;
      if i > 0 { assert r[i] == keys[i - 1]; }
    }
  }

  lemma {:induction false} FallingRoom(s: State, size: nat, f: Key -> int)
    requires Inv(s) && Falling(s.recency, f, 1) && MakeRoom(s, size).Some?
    ensures Falling(MakeRoom(s, size).value.recency, f, 1)
    ensures forall k :: k in MakeRoom(s, size).value.recency ==> k in s.recency
    decreases |s.entries.at|
  {
    if MustEvict(s, size) {
      EvictFacts(s);
      FallingWithout(s.recency, Victim(s).value, f, 1);
      WithoutMembers(s.recency, Victim(s).value);
      FallingRoom(EvictOne(s), size, f);
    }
  }

  lemma {:induction false} FallingCleanup(s: State, keys: seq<Key>, now: int, f: Key -> int)
    requires Falling(s.recency, f, 1)
    ensures Falling(CleanupKeys(s, keys, now).0.recency, f, 1)
  {
    if keys != [] {
      var front := keys[..|keys| - 1];
      FallingCleanup(s, front, now, f);
      FallingWithout(CleanupKeys(s, front, now).0.recency, keys[|keys| - 1], f, 1);
    }
  }

  lemma FallingSame(keys: seq<Key>, g: Key -> int, f: Key -> int, gap: nat)
    requires Falling(keys, g, gap) && forall k :: k in keys ==> f(k) == g(k)
    ensures Falling(keys, f, gap)
  {
  }

  // A ranking f that moves the keys just used to the top and otherwise agrees with g.
  ghost predicate Promotes(s: State, e: Event, g: Key -> int, f: Key -> int) {
    && (forall k :: !Uses(s, e, k) ==> f(k) == g(k))
    && (forall k, x :: Uses(s, e, k) && x != k ==> f(k) > f(x))
  }

  lemma FallingGet(s: State, e: Event, g: Key -> int, f: Key -> int)
    requires Inv(s) && s.config.policy == LRU && Falling(s.recency, g, 1) && e.op.OpGet? && Promotes(s, e, g, f)
    ensures Falling(Get(s, e.op.key, e.now).0.recency, f, 1)
  {
    hide Distinct, Falling, TotalSize;
    var key := e.op.key;
    FallingWithout(s.recency, key, g, 1);
    WithoutMembers(s.recency, key);
    if Uses(s, e, key) {
      FallingSame(Without(s.recency, key), g, f, 1);
      FallingCons(key, Without(s.recency, key), f, 1);
    } else {
      FallingSame(s.recency, g, f, 1);
      FallingSame(Without(s.recency, key), g, f, 1);
    }
  }

  lemma FallingSet(s: State, e: Event, g: Key -> int, f: Key -> int)
    requires Inv(s) && s.config.policy == LRU && Falling(s.recency, g, 1) && e.op.OpSet? && Promotes(s, e, g, f)
    requires Step(s, e).Some?
    ensures Falling(Step(s, e).value.recency, f, 1)
  {
    hide Distinct, Falling, TotalSize;
    var key := e.op.key;
    assert Uses(s, e, key);
    DeleteRecency(s, key);
    DeleteInv(s, key);
    FallingWithout(s.recency, key, g, 1);
    WithoutMembers(s.recency, key);
    FallingSame(Without(s.recency, key), g, f, 1);
    hide Inv, Delete;
    MakeRoomFacts(Delete(s, key), e.op.size);
    FallingRoom(Delete(s, key), e.op.size, f);
    FallingCons(key, MakeRoom(Delete(s, key), e.op.size).value.recency, f, 1);
  }

  lemma DeleteRecency(s: State, key: Key)
    requires Inv(s) && s.config.policy == LRU
    ensures Delete(s, key).recency == Without(s.recency, key)
  {
    hide Distinct;
    if !s.entries.Has(key) {
      assert key !in ToSet(s.recency);
      WithoutNone(s.recency, key);
    }
  }

  lemma {:induction false} FallingStep(s: State, e: Event, g: Key -> int, f: Key -> int)
    requires Inv(s) && s.config.policy == LRU && Falling(s.recency, g, 1) && Step(s, e).Some? && Promotes(s, e, g, f)
    ensures Falling(Step(s, e).value.recency, f, 1)
  {
    hide Distinct, Falling, TotalSize, Inv;
    match e.op
    case OpGet(key) => FallingGet(s, e, g, f);
    case OpSet(key, value, size, ttl) => FallingSet(s, e, g, f);
    case OpHas(key) => FallingSame(s.recency, g, f, 1); FallingWithout(s.recency, key, f, 1);
    case OpDelete(key) => FallingSame(s.recency, g, f, 1); FallingWithout(s.recency, key, f, 1);
    case OpCleanup => FallingSame(s.recency, g, f, 1); FallingCleanup(s, s.entries.keys, e.now, f);
    case OpClear => FallingNone(f);
  }

  lemma FallingNone(f: Key -> int)
    ensures Falling([], f, 1)
  {
  }

  // After any run the list from head to tail is ordered by last hit or insert, so
  // the tail, which LRU evicts, is the entry unused for the longest time.
  lemma {:induction false} RecencyIsHistory(c: Config, events: seq<Event>)
    requires c.policy == LRU && Run(c, events).Some?
    ensures Falling(Run(c, events).value.recency, k => LastUse(c, events, k), 1)
  {
    if events == [] {
      FallingNone(k => LastUse(c, events, k));
    } else {
      hide Falling, Inv, LastUse, Step;
      var front := events[..|events| - 1];
      RecencyIsHistory(c, front);
      LastUsePromotes(c, events);
      FallingStep(Run(c, front).value, events[|events| - 1], k => LastUse(c, front, k), k => LastUse(c, events, k));
    }
  }

  lemma LastUsePromotes(c: Config, events: seq<Event>)
    requires events != [] && Run(c, events[..|events| - 1]).Some?
    ensures var front := events[..|events| - 1];
      Promotes(Run(c, front).value, events[|events| - 1], k => LastUse(c, front, k), k => LastUse(c, events, k))
  {
    hide Uses, Inv;
    var front := events[..|events| - 1];
    var s, e := Run(c, front).value, events[|events| - 1];
    forall k
      ensures LastUse(c, events, k) == if Uses(s, e, k) then |events| - 1 else LastUse(c, front, k)
      ensures LastUse(c, front, k) < |events| - 1
    {
      LastUseBefore(c, front, k);
    }
    forall k, x | Uses(s, e, k) && x != k
      ensures LastUse(c, events, k) > LastUse(c, events, x)
    {
      UsesOne(s, e, k, x);
    }
  }

  lemma UsesOne(s: State, e: Event, k: Key, x: Key)
    requires Uses(s, e, k) && x != k
    ensures !Uses(s, e, x)
  {
  }

  // ---------------------------------------------------------------- FIFO: insertion order

  ghost function CreatedAt(at: map<Key, Record>, k: Key): int {
    if k in at then at[k].meta.createdAt else 0
  }

  // Creation times never decrease along the insertion order, and none is later than now.
  ghost predicate Aged(entries: Records, now: int) {
    && (forall k :: k in entries.at ==> CreatedAt(entries.at, k) <= now)
    && Falling(entries.keys, k => -CreatedAt(entries.at, k), 0)
  }

  lemma AgedDelete(s: State, key: Key, now: int)
    requires Inv(s) && Aged(s.entries, now)
    ensures Aged(Delete(s, key).entries, now)
  {
    if s.entries.Has(key) {
      hide Falling, Distinct, ToSet, TotalSize;
      var at, at' := s.entries.at, s.entries.at - {key};
      FallingWithout(s.entries.keys, key, k => -CreatedAt(at, k), 0);
      WithoutMembers(s.entries.keys, key);
      FallingSame(Without(s.entries.keys, key), k => -CreatedAt(at, k), k => -CreatedAt(at', k), 0);
    }
  }

  lemma AgedGet(s: State, key: Key, now: int)
    requires Inv(s) && Aged(s.entries, now)
    ensures Aged(Get(s, key, now).0.entries, now)
  {
    AgedDelete(s, key, now);
    hide Falling, Inv;
    if s.entries.Has(key) {
      var at := s.entries.at;
      var at' := at[key := Touched(at[key], now)];
      FallingSame(s.entries.keys, k => -CreatedAt(at, k), k => -CreatedAt(at', k), 0);
    }
  }

  lemma {:induction false} AgedRoom(s: State, size: nat, now: int)
    requires Inv(s) && Aged(s.entries, now) && MakeRoom(s, size).Some?
    ensures Aged(MakeRoom(s, size).value.entries, now)
    decreases |s.entries.at|
  {
    if MustEvict(s, size) {
      EvictFacts(s);
      AgedDelete(s, Victim(s).value, now);
      AgedRoom(EvictOne(s), size, now);
    }
  }

  lemma {:induction false} AgedCleanup(s: State, keys: seq<Key>, at: int, now: int)
    requires Inv(s) && Aged(s.entries, now)
    ensures Aged(CleanupKeys(s, keys, at).0.entries, now)
  {
    if keys != [] {
      hide Aged;
      AgedCleanup(s, keys[..|keys| - 1], at, now);
      CleanupInv(s, keys[..|keys| - 1], at);
      AgedDelete(CleanupKeys(s, keys[..|keys| - 1], at).0, keys[|keys| - 1], now);
    }
  }

  lemma AgedPut(entries: Records, key: Key, r: Record, now: int)
    requires entries.Valid() && Aged(entries, now) && key !in entries.at && r.meta.createdAt == now
    ensures Aged(entries.Put(key, r), now)
  {
    var at, at' := entries.at, entries.at[key := r];
    var keys := entries.keys;
    assert key !in ToSet(keys);
    forall i, j | 0 <= i < j < |keys + [key]|
      ensures CreatedAt(at', (keys + [key])[i]) <= CreatedAt(at', (keys + [key])[j])
    {
      assert keys[i] in ToSet(keys);
      if j < |keys| {
        assert keys[j] in ToSet(keys);
        assert -CreatedAt(at, keys[i]) >= -CreatedAt(at, keys[j]) + 0;
      }
    }
  }

  lemma AgedLater(entries: Records, now: int, later: int)
    requires Aged(entries, now) && now <= later
    ensures Aged(entries, later)
  {
  }

  lemma AgedStep(s: State, e: Event)
    requires Inv(s) && Aged(s.entries, e.now) && Step(s, e).Some?
    ensures Aged(Step(s, e).value.entries, e.now)
  {
    hide Aged, Distinct, ToSet, TotalSize;
    match e.op
    case OpGet(key) => AgedGet(s, key, e.now);
    case OpSet(key, value, size, ttl) =>
      AgedDelete(s, key, e.now);
      DeleteInv(s, key);
      AgedRoom(Delete(s, key), size, e.now);
      MakeRoomFacts(Delete(s, key), size);
      var t := EntryTTL(s.config, ttl);
      var meta := Meta(e.now, e.now, 0, size, t, e.now + t);
      AgedPut(MakeRoom(Delete(s, key), size).value.entries, key, Record(value, meta), e.now);
    case OpHas(key) => AgedDelete(s, key, e.now);
    case OpDelete(key) => AgedDelete(s, key, e.now);
    case OpCleanup => AgedCleanup(s, s.entries.keys, e.now, e.now);
    case OpClear => AgedNone(e.now);
  }

  lemma AgedNone(now: int)
    ensures Aged(JsMaps.Empty(), now)
  {
  }

  ghost predicate SteadyClock(events: seq<Event>) {
    forall i, j :: 0 <= i < j < |events| ==> events[i].now <= events[j].now
  }

  lemma {:induction false} SteadyRunsAge(c: Config, events: seq<Event>, now: int)
    requires SteadyClock(events) && Run(c, events).Some?
    requires events != [] ==> events[|events| - 1].now <= now
    ensures Aged(Run(c, events).value.entries, now)
  {
    if events == [] {
      AgedNone(now);
    } else {
      hide Aged, Step;
      var front, e := events[..|events| - 1], events[|events| - 1];
      SteadyRunsAge(c, front, e.now);
      AgedStep(Run(c, front).value, e);
      AgedLater(Run(c, events).value.entries, e.now, now);
    }
  }

  // ---------------------------------------------------------------- lookups

  // A stored value is returned until its time to live, given or by default, or maxTTL has
  // passed.
  lemma SetThenGet(s: State, key: Key, value: Value, size: nat, ttl: Option<int>, now: int, later: int)
    requires Inv(s) && Set(s, key, value, size, ttl, now).Some?
    ensures var wanted := match ttl case Some(t) => t case None => s.config.defaultTTL;
      Get(Set(s, key, value, size, ttl, now).value, key, later).1 ==
        if later - now <= wanted && later - now <= s.config.maxTTL then Some(value) else None
  {
    hide Inv;
  }

  ghost function Stale(at: map<Key, Record>, keys: set<Key>, now: int): set<Key> {
    set k | k in keys && k in at && Expired(at[k].meta, now)
  }

  lemma StaleStep(at: map<Key, Record>, keys: set<Key>, key: Key, now: int)
    requires key in at && key !in keys
    ensures var stale := Stale(at, keys, now);
      && key in at - stale && (at - stale)[key] == at[key]
      && Stale(at, keys + {key}, now) == stale + (if Expired(at[key].meta, now) then {key} else {})
      && (at - stale) - {key} == at - (stale + {key})
      && |stale + {key}| == |stale| + 1
  {
    var stale := Stale(at, keys, now);
    assert key !in stale;
    assert Stale(at, keys + {key}, now) == stale + if Expired(at[key].meta, now) then {key} else {};
    assert (at - stale) - {key} == at - (stale + {key});
  }

  // Cleaning up removes exactly the expired entries and counts them.
  lemma {:induction false} CleanupExact(s: State, keys: seq<Key>, now: int)
    requires Inv(s) && Distinct(keys) && ToSet(keys) <= s.entries.at.Keys
    ensures CleanupKeys(s, keys, now).0.entries.at == s.entries.at - Stale(s.entries.at, ToSet(keys), now)
    ensures CleanupKeys(s, keys, now).1 == |Stale(s.entries.at, ToSet(keys), now)|
  {
    hide Distinct, Inv, ToSet, Stale, Expired, Delete;
    if keys == [] {
      CleanupNone(s, now);
    } else {
      var at, n := s.entries.at, |keys| - 1;
      DistinctPrefix(keys, n);
      TakeOne(keys, n);
      assert keys[..n + 1] == keys;
      CleanupExact(s, keys[..n], now);
      CleanupInv(s, keys[..n], now);
      StaleStep(at, ToSet(keys[..n]), keys[n], now);
      DeleteInv(CleanupKeys(s, keys[..n], now).0, keys[n]);
      var stale := Stale(at, ToSet(keys[..n]), now);
      assert stale + {} == stale;
    }
  }

  lemma CleanupNone(s: State, now: int)
    ensures CleanupKeys(s, [], now) == (s, 0) && Stale(s.entries.at, ToSet([]), now) == {}
    ensures s.entries.at - {} == s.entries.at
  {
  }
}
