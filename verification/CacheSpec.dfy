// What the query cache (state/cache-manager.ts) computes, as functions on plain
// values: an insertion-ordered map, the recency list of the LRU policy and counters.
module CacheSpec {
  import opened Seqs
  import opened JsMaps

  type Key = string
  type Value = string

  datatype Policy = LRU | LFU | FIFO

  datatype Config = Config(maxSize: int, maxEntries: int, defaultTTL: int, maxTTL: int, policy: Policy)

  datatype Meta = Meta(createdAt: int, accessedAt: int, accessCount: nat, size: nat, ttl: int, expiresAt: int)

  datatype Record = Record(value: Value, meta: Meta)

  datatype Stats = Stats(hits: nat, misses: nat, evictions: nat, currentSize: int, entryCount: nat, hitRate: real)

  type Records = JsMap<Key, Record>

  // `recency` lists the keys from most to least recently used; it stays empty
  // under the other policies.
  datatype State = State(config: Config, entries: Records, recency: seq<Key>, stats: Stats)

  function Expired(m: Meta, now: int): bool {
    now > m.expiresAt
  }

  function Touched(r: Record, now: int): Record {
    r.(meta := r.meta.(accessedAt := now, accessCount := r.meta.accessCount + 1))
  }

  function Rated(s: Stats): Stats {
    var total := s.hits + s.misses;
    s.(hitRate := if total > 0 then s.hits as real / total as real else 0.0)
  }

  function WithHit(s: Stats): Stats {
    Rated(s.(hits := s.hits + 1))
  }

  function Missed(s: State): State {
    s.(stats := Rated(s.stats.(misses := s.stats.misses + 1)))
  }

  function Delete(s: State, key: Key): State {
    if !s.entries.Has(key) then s else
      var entries := s.entries.Remove(key);
      s.(entries := entries,
         recency := Without(s.recency, key),
         stats := s.stats.(currentSize := s.stats.currentSize - s.entries.at[key].meta.size,
                           entryCount := |entries.at|))
  }

  function Get(s: State, key: Key, now: int): (State, Option<Value>) {
    if !s.entries.Has(key) then (Missed(s), None)
    else if Expired(s.entries.at[key].meta, now) then (Missed(Delete(s, key)), None)
    else
      var r := Touched(s.entries.at[key], now);
      (s.(entries := s.entries.Put(key, r),
          recency := if s.config.policy == LRU then [key] + Without(s.recency, key) else s.recency,
          stats := WithHit(s.stats)),
       Some(r.value))
  }

  function Has(s: State, key: Key, now: int): (State, bool) {
    if !s.entries.Has(key) then (s, false)
    else if Expired(s.entries.at[key].meta, now) then (Delete(s, key), false)
    else (s, true)
  }

  function Clear(s: State): State {
    s.(entries := JsMaps.Empty(), recency := [], stats := s.stats.(currentSize := 0, entryCount := 0))
  }

  function CleanupOne(done: (State, nat), key: Key, now: int): (State, nat) {
    var (t, removed) := done;
    if t.entries.Has(key) && Expired(t.entries.at[key].meta, now) then (Delete(t, key), removed + 1) else (t, removed)
  }

  function CleanupKeys(s: State, keys: seq<Key>, now: int): (State, nat) {
    if keys == [] then (s, 0)
    else CleanupOne(CleanupKeys(s, keys[..|keys| - 1], now), keys[|keys| - 1], now)
  }

  function Cleanup(s: State, now: int): (State, nat) {
    CleanupKeys(s, s.entries.keys, now)
  }

  // ---------------------------------------------------------------- eviction

  // The score by which LFU and FIFO choose.
  function Score(p: Policy, m: Meta): int {
    if p == LFU then m.accessCount else m.createdAt
  }

  // key comes first, in insertion order, among the first n keys of least score.
  ghost predicate IsFirstLeast(p: Policy, entries: Records, n: nat, key: Key)
    requires n <= |entries.keys| && ToSet(entries.keys) <= entries.at.Keys
  {
    assert forall j :: 0 <= j < |entries.keys| ==> entries.keys[j] in ToSet(entries.keys);
    exists i :: 0 <= i < n && entries.keys[i] == key && LeastFrom(p, entries, n, i)
  }

  ghost predicate LeastFrom(p: Policy, entries: Records, n: nat, i: nat)
    requires i < n <= |entries.keys| && ToSet(entries.keys) <= entries.at.Keys
  {
    assert forall j :: 0 <= j < |entries.keys| ==> entries.keys[j] in ToSet(entries.keys);
    var least := Score(p, entries.at[entries.keys[i]].meta);
    && (forall j :: 0 <= j < n ==> least <= Score(p, entries.at[entries.keys[j]].meta))
    && (forall j :: 0 <= j < i ==> least < Score(p, entries.at[entries.keys[j]].meta))
  }

  function FirstLeast(p: Policy, entries: Records, n: nat): (r: Option<Key>)
    requires n <= |entries.keys| && ToSet(entries.keys) <= entries.at.Keys
    ensures n > 0 <==> r.Some?
    ensures r.Some? ==> IsFirstLeast(p, entries, n, r.value) && r.value in entries.keys
  {
    assert forall j :: 0 <= j < |entries.keys| ==> entries.keys[j] in ToSet(entries.keys);
    if n == 0 then None
    else
      var best := FirstLeast(p, entries, n - 1);
      var key := entries.keys[n - 1];
      if best.None? || Score(p, entries.at[key].meta) < Score(p, entries.at[best.value].meta) then Some(key)
      else best
  }

  ghost predicate Inv(s: State) {
    && s.entries.Valid()
    && s.stats.currentSize == TotalSize(s.entries.keys, s.entries.at)
    && s.stats.entryCount == |s.entries.at|
    && (if s.config.policy == LRU then Distinct(s.recency) && ToSet(s.recency) == s.entries.at.Keys
        else s.recency == [])
  }

  function Victim(s: State): Option<Key>
    requires Inv(s)
  {
    if s.config.policy == LRU then
      if s.recency == [] then None else Some(s.recency[|s.recency| - 1])
    else FirstLeast(s.config.policy, s.entries, |s.entries.keys|)
  }

  // A victim named "" reads as "none found": nothing happens.
  function EvictOne(s: State): State
    requires Inv(s)
  {
    var v := Victim(s);
    if v.None? || v.value == "" then s
    else
      var t := Delete(s, v.value);
      t.(stats := t.stats.(evictions := t.stats.evictions + 1))
  }

  predicate MustEvict(s: State, size: nat) {
    (|s.entries.at| >= s.config.maxEntries || s.stats.currentSize + size > s.config.maxSize) && |s.entries.at| > 0
  }

  // The state in which the eviction loop of `set` ends; None when it never does.
  function MakeRoom(s: State, size: nat): Option<State>
    requires Inv(s)
    decreases |s.entries.at|
  {
    if !MustEvict(s, size) then Some(s)
    else
      EvictFacts(s);
      var t := EvictOne(s);
      if |t.entries.at| == |s.entries.at| then None else MakeRoom(t, size)
  }

  lemma MakeRoomTurns(s: State, size: nat)
    requires Inv(s) && MustEvict(s, size)
    ensures var t := EvictOne(s);
      && Inv(t)
      && (|t.entries.at| == |s.entries.at| ==> MakeRoom(s, size) == None && t == s)
      && (|t.entries.at| != |s.entries.at| ==> MakeRoom(s, size) == MakeRoom(t, size))
  {
    hide Inv;
    EvictFacts(s);
  }

  function Insert(s: State, key: Key, value: Value, size: nat, ttl: int, now: int): State {
    var entries := s.entries.Put(key, Record(value, Meta(now, now, 0, size, ttl, now + ttl)));
    s.(entries := entries,
       recency := if s.config.policy == LRU then [key] + s.recency else s.recency,
       stats := s.stats.(currentSize := s.stats.currentSize + size, entryCount := |entries.at|))
  }

  function EntryTTL(c: Config, ttl: Option<int>): int {
    var t := if ttl.Some? then ttl.value else c.defaultTTL;
    if t <= c.maxTTL then t else c.maxTTL
  }

  function Set(s: State, key: Key, value: Value, size: nat, ttl: Option<int>, now: int): Option<State>
    requires Inv(s)
  {
    DeleteInv(s, key);
    var room := MakeRoom(Delete(s, key), size);
    if room.None? then None
    else Some(Insert(room.value, key, value, size, EntryTTL(s.config, ttl), now))
  }

  // ---------------------------------------------------------------- the counters

  ghost function SizeOf(at: map<Key, Record>, k: Key): nat {
    if k in at then at[k].meta.size else 0
  }

  ghost function TotalSize(keys: seq<Key>, at: map<Key, Record>): nat {
    if keys == [] then 0 else TotalSize(keys[..|keys| - 1], at) + SizeOf(at, keys[|keys| - 1])
  }

  lemma {:induction false} TotalSizeSame(keys: seq<Key>, at: map<Key, Record>, at': map<Key, Record>)
    requires forall k :: k in keys ==> SizeOf(at, k) == SizeOf(at', k)
    ensures TotalSize(keys, at) == TotalSize(keys, at')
  {
    if keys != [] {
      TotalSizeSame(keys[..|keys| - 1], at, at');
    }
  }

  lemma {:induction false} TotalSizeWithout(keys: seq<Key>, at: map<Key, Record>, k: Key)
    requires Distinct(keys)
    ensures TotalSize(Without(keys, k), at - {k}) == TotalSize(keys, at) - if k in keys then SizeOf(at, k) else 0
  {
    if keys != [] {
      var n := |keys| - 1;
      var front := keys[..n];
      assert keys == front + [keys[n]];
      DistinctAt(keys, n);
      TotalSizeWithout(front, at, k);
      if keys[n] != k {
        assert Without(keys, k) == Without(front, k) + [keys[n]];
        assert Without(keys, k)[..|Without(keys, k)| - 1] == Without(front, k);
      } else {
        assert k !in front;
        assert Without(keys, k) == Without(front, k);
      }
    }
  }

  lemma DeleteInv(s: State, key: Key)
    requires Inv(s)
    ensures Inv(Delete(s, key))
    ensures Delete(s, key).entries.at == s.entries.at - {key}
  {
    hide Distinct;
    if s.entries.Has(key) {
      assert key in ToSet(s.entries.keys);
      assert Distinct(s.entries.keys);
      TotalSizeWithout(s.entries.keys, s.entries.at, key);
      RemoveKeysDistinct(s.recency, key);
      if s.config.policy == LRU {
        WithoutMembers(s.recency, key);
      }
    } else {
      assert s.entries.at - {key} == s.entries.at;
    }
  }

  lemma {:induction false} EvictFacts(s: State)
    requires Inv(s) && |s.entries.at| > 0
    ensures Victim(s).Some? && Victim(s).value in s.entries.at
    ensures Inv(EvictOne(s))
    ensures if Victim(s).value == "" then EvictOne(s) == s
            else EvictOne(s).entries.at == s.entries.at - {Victim(s).value}
                 && |EvictOne(s).entries.at| == |s.entries.at| - 1
  {
    hide Distinct;
    RemoveCard(s.entries);
    if s.config.policy == LRU {
      DistinctCard(s.recency);
      assert s.recency[|s.recency| - 1] in ToSet(s.recency);
    } else {
      assert Victim(s).value in ToSet(s.entries.keys);
    }
    var v := Victim(s).value;
    DeleteInv(s, v);
    assert (s.entries.at - {v}).Keys == s.entries.at.Keys - {v};
  }
}
