// The cache as it is built: heap entries in a map, threaded on a hand-written
// doubly linked list (state/cache-manager.ts). Every method is tied to CacheSpec.
module Cache {
  import opened Seqs
  import opened JsMaps
  import opened CacheSpec
  import CacheTheorems

  class CacheEntry {
    var value: Value
    var metadata: Meta
    var prev: CacheEntry?
    var next: CacheEntry?

    constructor (value: Value, ttl: int, size: nat, now: int)
      ensures this.value == value && metadata == Meta(now, now, 0, size, ttl, now + ttl)
      ensures prev == null && next == null
    {
      this.value := value;
      metadata := Meta(now, now, 0, size, ttl, now + ttl);
      prev, next := null, null;
    }

    method Touch(now: int)
      modifies this`metadata
      ensures metadata == Touched(Record(value, old(metadata)), now).meta
    {
      metadata := metadata.(accessedAt := now, accessCount := metadata.accessCount + 1);
    }
  }

  // ---------------------------------------------------------------- the linked list

  ghost predicate Linked(nodes: seq<CacheEntry>, head: CacheEntry?, tail: CacheEntry?)
    reads nodes
  {
    && Distinct(nodes)
    && (nodes == [] ==> head == null && tail == null)
    && (nodes != [] ==>
          && head == nodes[0] && tail == nodes[|nodes| - 1]
          && nodes[0].prev == null && nodes[|nodes| - 1].next == null)
    && (forall i {:trigger nodes[i].next} :: 0 <= i < |nodes| - 1 ==> nodes[i].next == nodes[i + 1])
    && (forall i {:trigger nodes[i].prev} :: 0 < i < |nodes| ==> nodes[i].prev == nodes[i - 1])
  }

  ghost predicate Injective(at: map<Key, CacheEntry>) {
    forall j, k :: j in at && k in at && j != k ==> at[j] != at[k]
  }

  // names[i] is the key under which nodes[i] is held.
  ghost predicate Named(at: map<Key, CacheEntry>, names: seq<Key>, nodes: seq<CacheEntry>) {
    && |names| == |nodes|
    && forall i :: 0 <= i < |names| ==> names[i] in at && at[names[i]] == nodes[i]
  }

  // The records are what the entries hold.
  ghost predicate Mirrors(entries: JsMap<Key, CacheEntry>, records: Records)
    reads entries.at.Values`value, entries.at.Values`metadata
  {
    && records.keys == entries.keys && records.at.Keys == entries.at.Keys
    && forall k :: k in entries.at ==> records.at[k] == Record(entries.at[k].value, entries.at[k].metadata)
  }

  lemma MirrorsLess(entries: JsMap<Key, CacheEntry>, records: Records, key: Key)
    requires Mirrors(entries, records)
    ensures Mirrors(entries.Remove(key), records.Remove(key))
    ensures records.at.Keys == entries.at.Keys && records.keys == entries.keys
    ensures key in entries.at ==> records.at[key] == Record(entries.at[key].value, entries.at[key].metadata)
    ensures |records.at| == |entries.at| && |records.Remove(key).at| == |entries.Remove(key).at|
  {
    SameCard(records.at, entries.at);
    SameCard(records.at - {key}, entries.at - {key});
  }

  lemma SameCard<V, W>(a: map<Key, V>, b: map<Key, W>)
    requires a.Keys == b.Keys
    ensures |a| == |b|
  {
    assert |a.Keys| == |a| && |b.Keys| == |b|;
  }

  lemma InjectiveLess(at: map<Key, CacheEntry>, key: Key)
    requires Injective(at)
    ensures Injective(at - {key})
  {
  }

  lemma NamedLess(at: map<Key, CacheEntry>, names: seq<Key>, nodes: seq<CacheEntry>, k: nat)
    requires Named(at, names, nodes) && Distinct(names) && k < |names|
    ensures Named(at - {names[k]}, names[..k] + names[k + 1..], nodes[..k] + nodes[k + 1..])
  {
  }

  class QueryCacheManager {
    const config: Config
    var entries: JsMap<Key, CacheEntry>
    var head: CacheEntry?
    var tail: CacheEntry?
    var stats: Stats
    ghost var nodes: seq<CacheEntry>
    ghost var names: seq<Key>

    ghost var records: Records

    ghost function Abs(): State
      reads this
    {
      State(config, records, names, stats)
    }

    ghost predicate Valid()
      reads this, entries.at.Values, nodes
    {
      && Injective(entries.at)
      && Mirrors(entries, records)
      && Linked(nodes, head, tail)
      && Named(entries.at, names, nodes)
      && Inv(Abs())
    }

    constructor (config: Config)
      ensures Valid() && Abs() == State(config, JsMaps.Empty(), [], Stats(0, 0, 0, 0, 0, 0.0))
    {
      this.config := config;
      entries := JsMaps.Empty();
      head, tail, nodes, names, records := null, null, [], [], JsMaps.Empty();
      stats := Stats(0, 0, 0, 0, 0, 0.0);
    }

    method AddToFront(entry: CacheEntry)
      requires Linked(nodes, head, tail) && entry !in nodes
      modifies this`head, this`tail, this`nodes, entry`prev, entry`next, (set n | n in nodes)`prev
      ensures Linked(nodes, head, tail) && nodes == [entry] + old(nodes)
    {
      entry.next := head;
      entry.prev := null;
      if head != null {
        head.prev := entry;
      }
      head := entry;
      if tail == null {
        tail := entry;
      }
      nodes := [entry] + nodes;
    }

    method RemoveFromList(entry: CacheEntry, ghost k: nat)
      requires Linked(nodes, head, tail) && k < |nodes| && nodes[k] == entry
      modifies this`head, this`tail, this`nodes, (set n | n in nodes)`prev, (set n | n in nodes)`next
      ensures Linked(nodes, head, tail) && nodes == old(nodes)[..k] + old(nodes)[k + 1..]
      ensures entry.prev == null && entry.next == null
    {
      ghost var rest := nodes[..k] + nodes[k + 1..];
      RestDistinct(nodes, k);
      if entry.prev != null {
        entry.prev.next := entry.next;
      } else {
        head := entry.next;
      }
      if entry.next != null {
        entry.next.prev := entry.prev;
      } else {
        tail := entry.prev;
      }
      entry.prev := null;
      entry.next := null;
      assert forall i {:trigger rest[i].next} :: 0 <= i < |rest| - 1 ==> rest[i].next == rest[i + 1];
      assert forall i {:trigger rest[i].prev} :: 0 < i < |rest| ==> rest[i].prev == rest[i - 1];
      nodes := rest;
    }

    lemma RestDistinct(nodes: seq<CacheEntry>, k: nat)
      requires Distinct(nodes) && k < |nodes|
      ensures Distinct(nodes[..k] + nodes[k + 1..])
    {
    }

    method MoveToFront(entry: CacheEntry, ghost k: nat)
      requires Linked(nodes, head, tail) && k < |nodes| && nodes[k] == entry
      modifies this`head, this`tail, this`nodes, (set n | n in nodes)`prev, (set n | n in nodes)`next
      ensures Linked(nodes, head, tail) && nodes == [entry] + old(nodes)[..k] + old(nodes)[k + 1..]
    {
      if entry == head {
        return;
      }
      RemoveFromList(entry, k);
      AddToFront(entry);
    }

    // Takes the node of `key` off the list.
    method Unlink(entry: CacheEntry, ghost key: Key, ghost at: map<Key, CacheEntry>)
      requires Linked(nodes, head, tail) && Named(at, names, nodes) && Distinct(names)
      requires key in at && at[key] == entry && key in names
      modifies this`head, this`tail, this`nodes, this`names
      modifies (set n | n in nodes)`prev, (set n | n in nodes)`next
      ensures Linked(nodes, head, tail) && Named(at - {key}, names, nodes)
      ensures names == Without(old(names), key) && forall n :: n in nodes ==> n in old(nodes)
    {
      hide Linked, Distinct, Named;
      ghost var k :| 0 <= k < |names| && names[k] == key;
      NamedLess(at, names, nodes, k);
      WithoutAt(names, k);
      NamedAt(at, names, nodes, k);
      RemoveFromList(entry, k);
      names := names[..k] + names[k + 1..];
    }

    // The map and counter half of `delete`.
    method DropRecord(key: Key) returns (entry: CacheEntry)
      requires Mirrors(entries, records) && Linked(nodes, head, tail) && key in entries.at
      modifies this`entries, this`stats, this`records
      ensures Mirrors(entries, records) && Linked(nodes, head, tail)
      ensures entry == old(entries.at)[key] && entries.at == old(entries.at) - {key}
      ensures Abs() == Delete(old(Abs()), key).(recency := names)
    {
      hide Linked, Mirrors, JsMap.Valid, JsMap.Put, JsMap.Remove, Distinct, ToSet, Delete, Without;
      MirrorsLess(entries, records, key);
      DeleteParts(Abs(), key);
      entry := entries.at[key];
      entries := entries.Remove(key);
      stats := stats.(currentSize := stats.currentSize - entry.metadata.size, entryCount := |entries.at|);
      records := records.Remove(key);
    }

    method DeleteKey(key: Key) returns (removed: bool)
      requires Valid()
      modifies this`entries, this`head, this`tail, this`stats, this`nodes, this`names, this`records
      modifies (set n | n in nodes)`prev, (set n | n in nodes)`next
      ensures Valid() && Abs() == Delete(old(Abs()), key)
      ensures removed <==> key in old(entries.at)
      ensures entries.at == old(entries.at) - {key}
      ensures forall n :: n in nodes ==> n in old(nodes)
    {
      hide Linked, Mirrors, Distinct, ToSet, Named, Injective, Inv, Delete, JsMap.Valid, JsMap.Remove, Without;
      DeleteInv(Abs(), key);
      MirrorsLess(entries, records, key);
      if !entries.Has(key) {
        assert entries.at - {key} == entries.at;
        DeleteNothing(Abs(), key);
        return false;
      }
      InjectiveLess(entries.at, key);
      NamesOf(Abs(), key);
      ghost var at := entries.at;
      var entry := DropRecord(key);
      if config.policy == LRU {
        Unlink(entry, key, at);
      } else {
        NoneNamed(at, entries.at, names, nodes);
      }
      return true;
    }

    method UpdateHitRate()
      modifies this`stats
      ensures stats == Rated(old(stats))
    {
      var total := stats.hits + stats.misses;
      stats := stats.(hitRate := if total > 0 then stats.hits as real / total as real else 0.0);
    }

    method RecordMiss()
      requires Valid()
      modifies this`stats
      ensures Valid() && Abs() == Missed(old(Abs()))
    {
      hide Linked, Mirrors, Distinct, ToSet, Named, Injective, TotalSize;
      stats := stats.(misses := stats.misses + 1);
      UpdateHitRate();
    }

    method RecordHit()
      requires Mirrors(entries, records) && Linked(nodes, head, tail)
      modifies this`stats
      ensures Mirrors(entries, records) && Linked(nodes, head, tail)
      ensures stats == WithHit(old(stats))
      ensures records == old(records) && names == old(names)
    {
      hide Linked;
      stats := stats.(hits := stats.hits + 1);
      UpdateHitRate();
    }

    // `touch` on the entry of `key`.
    method TouchEntry(key: Key, now: int)
      requires Mirrors(entries, records) && Linked(nodes, head, tail) && Injective(entries.at) && key in entries.at
      modifies this`records, {entries.at[key]}`metadata
      ensures Mirrors(entries, records) && Linked(nodes, head, tail)
      ensures records == old(records).Put(key, Touched(old(records).at[key], now))
      ensures names == old(names) && stats == old(stats)
    {
      entries.at[key].Touch(now);
      records := records.Put(key, Touched(records.at[key], now));
    }

    // Under LRU, `moveToFront` on the entry of `key`.
    method Promote(entry: CacheEntry, ghost key: Key)
      requires Mirrors(entries, records) && Linked(nodes, head, tail) && Named(entries.at, names, nodes)
      requires key in entries.at && entries.at[key] == entry
      requires config.policy == LRU ==> Distinct(names) && key in names
      modifies this`head, this`tail, this`nodes, this`names
      modifies (set n | n in nodes)`prev, (set n | n in nodes)`next
      ensures Mirrors(entries, records) && Linked(nodes, head, tail) && Named(entries.at, names, nodes)
      ensures records == old(records) && stats == old(stats)
      ensures names == if config.policy == LRU then [key] + Without(old(names), key) else old(names)
    {
      hide Linked, Distinct, Named, Mirrors;
      if config.policy != LRU {
        return;
      }
      ghost var k :| 0 <= k < |names| && names[k] == key;
      WithoutAt(names, k);
      NamedAt(entries.at, names, nodes, k);
      NamedFirst(entries.at, names, nodes, k);
      MoveToFront(entry, k);
      names := [key] + (names[..k] + names[k + 1..]);
    }

    // A read that finds a live entry.
    method Hit(key: Key, now: int) returns (value: Value)
      requires Valid() && key in entries.at && !Expired(records.at[key].meta, now)
      modifies this`head, this`tail, this`stats, this`nodes, this`names, this`records, {entries.at[key]}`metadata
      modifies (set n | n in nodes)`prev, (set n | n in nodes)`next
      ensures Valid() && Abs() == CacheSpec.Get(old(Abs()), key, now).0
      ensures CacheSpec.Get(old(Abs()), key, now).1 == Some(value)
    {
      hide Linked, Distinct, ToSet, Named, Injective, Inv, Mirrors, Delete, Touched, WithHit, Without, CacheSpec.Get,
        JsMap.Put, JsMap.Remove, JsMap.Valid, TotalSize, Expired;
      ghost var before := Abs();
      MirrorsLess(entries, records, key);
      GetHit(before, key, now);
      NamesOf(before, key);
      var entry := entries.at[key];
      value := entry.value;
      TouchEntry(key, now);
      ghost var after := CacheSpec.Get(before, key, now).0;
      assert records == after.entries && names == before.recency && stats == before.stats;
      Promote(entry, key);
      assert records == after.entries && names == after.recency && stats == before.stats;
      RecordHit();
      assert stats == after.stats;
      assert Abs() == after;
    }

    method Get(key: Key, now: int) returns (r: Option<Value>)
      requires Valid()
      modifies this, entries.at.Values
      ensures Valid() && (Abs(), r) == CacheSpec.Get(old(Abs()), key, now)
    {
      hide Linked, Distinct, ToSet, Named, Injective, Inv, Delete, Mirrors, Missed;
      NodesAreEntries(entries.at, names, nodes);
      MirrorsLess(entries, records, key);
      if !entries.Has(key) {
        RecordMiss();
        return None;
      }
      if now > entries.at[key].metadata.expiresAt {
        var _ := DeleteKey(key);
        RecordMiss();
        return None;
      }
      var value := Hit(key, now);
      return Some(value);
    }

    method Has(key: Key, now: int) returns (present: bool)
      requires Valid()
      modifies this, entries.at.Values
      ensures Valid() && (Abs(), present) == CacheSpec.Has(old(Abs()), key, now)
    {
      hide Linked, Distinct, ToSet, Named, Injective, Inv, Delete, Mirrors;
      NodesAreEntries(entries.at, names, nodes);
      MirrorsLess(entries, records, key);
      if !entries.Has(key) {
        return false;
      }
      if now > entries.at[key].metadata.expiresAt {
        var _ := DeleteKey(key);
        return false;
      }
      return true;
    }

    // Reverse lookup: the key an entry is held under.
    method FindKeyForEntry(entry: CacheEntry) returns (key: Option<Key>)
      requires entries.Valid()
      ensures key.Some? ==> key.value in entries.at && entries.at[key.value] == entry
      ensures key.None? ==> entry !in entries.at.Values
    {
      hide JsMap.Valid, ToSet;
      AllKeys(entries);
      for i := 0 to |entries.keys|
        invariant forall k :: k in ToSet(entries.keys[..i]) && k in entries.at ==> entries.at[k] != entry
      {
        KeyAt(entries, i);
        if entries.at[entries.keys[i]] == entry {
          return Some(entries.keys[i]);
        }
      }
      return None;
    }

    // `findLFUKey` and `findOldestKey`: the same scan over different scores.
    method FindLeastKey(p: Policy) returns (key: Option<Key>)
      requires entries.Valid() && records.Valid() && Mirrors(entries, records)
      ensures key == FirstLeast(p, records, |records.keys|)
    {
      var least: Option<int> := None;
      key := None;
      assert forall j :: 0 <= j < |entries.keys| ==> entries.keys[j] in ToSet(entries.keys);
      for i := 0 to |entries.keys|
        invariant key == FirstLeast(p, records, i)
        invariant key.Some? ==> key.value in records.at && least == Some(Score(p, records.at[key.value].meta))
        invariant key.None? ==> least == None
      {
        var k := entries.keys[i];
        var score := Score(p, entries.at[k].metadata);
        if least.None? || score < least.value {
          least, key := Some(score), Some(k);
        }
      }
    }

    method FindVictim() returns (key: Option<Key>)
      requires Valid()
      ensures key == Victim(Abs())
    {
      hide Distinct, TotalSize, FirstLeast, JsMap.Valid;
      MapsValid(entries, records);
      if config.policy == LRU {
        if tail == null {
          return None;
        }
        TailIsNamed(entries.at, names, nodes);
        key := FindKeyForEntry(tail);
      } else {
        key := FindLeastKey(config.policy);
      }
    }

    method EvictOne()
      requires Valid()
      modifies this`entries, this`head, this`tail, this`stats, this`nodes, this`names, this`records
      modifies (set n | n in nodes)`prev, (set n | n in nodes)`next
      ensures Valid() && Abs() == CacheSpec.EvictOne(old(Abs()))
      ensures entries.at.Keys <= old(entries.at.Keys)
      ensures forall k :: k in entries.at ==> entries.at[k] == old(entries.at)[k]
      ensures forall n :: n in nodes ==> n in old(nodes)
    {
      hide Linked, Distinct, ToSet, Named, Injective, Inv, Delete, Mirrors, Victim;
      var keyToEvict := FindVictim();
      if keyToEvict.Some? && keyToEvict.value != "" {
        var _ := DeleteKey(keyToEvict.value);
        CountEviction();
      }
    }

    method CountEviction()
      requires Valid()
      modifies this`stats
      ensures Valid() && Abs() == old(Abs()).(stats := old(stats).(evictions := old(stats).evictions + 1))
    {
      hide Linked, Distinct, ToSet, Named, Injective, TotalSize;
      stats := stats.(evictions := stats.evictions + 1);
    }

    // The map and counter half of inserting a new entry.
    method AddRecord(key: Key, entry: CacheEntry)
      requires Mirrors(entries, records) && Linked(nodes, head, tail) && Named(entries.at, names, nodes)
      requires Injective(entries.at) && key !in entries.at && entry !in entries.at.Values
      modifies this`entries, this`stats, this`records
      ensures Mirrors(entries, records) && Linked(nodes, head, tail) && Injective(entries.at)
      ensures Named(entries.at, names, nodes) && Named(entries.at, [key] + names, [entry] + nodes)
      ensures entry !in nodes && entries.at == old(entries.at)[key := entry]
      ensures records == old(records).Put(key, Record(entry.value, entry.metadata))
      ensures stats ==
        old(stats).(currentSize := old(stats).currentSize + entry.metadata.size, entryCount := |records.at|)
    {
      hide Linked, Mirrors, Injective, Named;
      NewEntry(entries, records, names, nodes, key, entry);
      entries := entries.Put(key, entry);
      records := records.Put(key, Record(entry.value, entry.metadata));
      SizesAgree(entries, records);
      stats := stats.(currentSize := stats.currentSize + entry.metadata.size, entryCount := |entries.at|);
    }

    // Under LRU, `addToFront` for a new entry.
    method ThreadNew(entry: CacheEntry, ghost key: Key)
      requires Mirrors(entries, records) && Linked(nodes, head, tail) && entry !in nodes
      requires Named(entries.at, names, nodes) && Named(entries.at, [key] + names, [entry] + nodes)
      modifies this`head, this`tail, this`nodes, this`names, entry`prev, entry`next, (set n | n in nodes)`prev
      ensures Mirrors(entries, records) && Linked(nodes, head, tail) && Named(entries.at, names, nodes)
      ensures records == old(records) && stats == old(stats)
      ensures names == if config.policy == LRU then [key] + old(names) else old(names)
    {
      hide Linked, Mirrors, Named;
      if config.policy == LRU {
        AddToFront(entry);
        names := [key] + names;
      }
    }

    // The new entry of `set`, put in the map and at the front of the list.
    method InsertEntry(key: Key, value: Value, size: nat, entryTTL: int, now: int)
      requires Valid() && key !in entries.at && !MustEvict(Abs(), size)
      modifies this, (set n | n in nodes)`prev
      ensures Valid() && Abs() == Insert(old(Abs()), key, value, size, entryTTL, now)
    {
      hide Linked, Distinct, ToSet, Named, Injective, Inv, Mirrors;
      ghost var before := Abs();
      MirrorsLess(entries, records, key);
      CacheTheorems.InsertInv(before, key, value, size, entryTTL, now);
      var entry := new CacheEntry(value, entryTTL, size, now);
      AddRecord(key, entry);
      ghost var after := Insert(before, key, value, size, entryTTL, now);
      assert records == after.entries && stats == after.stats && names == before.recency;
      ThreadNew(entry, key);
      assert Abs() == after;
    }

    // The eviction loop of `set`; false where it would go round for ever.
    method EvictUntilFits(key: Key, size: nat) returns (fits: bool)
      requires Valid() && key !in entries.at
      modifies this`entries, this`head, this`tail, this`stats, this`nodes, this`names, this`records
      modifies (set n | n in nodes)`prev, (set n | n in nodes)`next
      ensures Valid() && key !in entries.at
      ensures MakeRoom(Abs(), size) == MakeRoom(old(Abs()), size)
      ensures fits <==> !MustEvict(Abs(), size)
      ensures !fits ==> MakeRoom(Abs(), size) == None && CacheSpec.EvictOne(Abs()) == Abs()
      ensures forall n :: n in nodes ==> n in old(nodes)
    {
      hide Linked, Distinct, ToSet, Named, Injective, Inv, Mirrors, CacheSpec.EvictOne, MakeRoom;
      SizesAgree(entries, records);
      while (|entries.at| >= config.maxEntries || stats.currentSize + size > config.maxSize) && |entries.at| > 0
        invariant Valid() && key !in entries.at
        invariant MakeRoom(Abs(), size) == MakeRoom(old(Abs()), size)
        invariant |entries.at| == |records.at|
        invariant forall n :: n in nodes ==> n in old(nodes)
        decreases |entries.at|
      {
        EvictFacts(Abs());
        MakeRoomTurns(Abs(), size);
        var before := |entries.at|;
        EvictOne();
        SizesAgree(entries, records);
        if |entries.at| == before {
          return false;
        }
      }
      return true;
    }

    // Returns false where the source's eviction loop spins for ever; nothing can
    // be observed after that, and nothing is claimed but that the loop is stuck.
    method Set(key: Key, value: Value, size: nat, ttl: Option<int>, now: int) returns (done: bool)
      requires Valid()
      modifies this, entries.at.Values
      ensures Valid() && (done <==> CacheSpec.Set(old(Abs()), key, value, size, ttl, now).Some?)
      ensures done ==> Abs() == CacheSpec.Set(old(Abs()), key, value, size, ttl, now).value
      ensures !done ==> MustEvict(Abs(), size) && CacheSpec.EvictOne(Abs()) == Abs()
    {
      hide Linked, Distinct, ToSet, Named, Injective, Inv, Mirrors, Delete, Insert, CacheSpec.EvictOne;
      ghost var before := Abs();
      NodesAreEntries(entries.at, names, nodes);
      DeleteInv(before, key);
      MirrorsLess(entries, records, key);
      var entryTTL := EntryTTL(config, ttl);
      if entries.Has(key) {
        var _ := DeleteKey(key);
      } else {
        DeleteNothing(before, key);
      }
      var fits := EvictUntilFits(key, size);
      if !fits {
        return false;
      }
      InsertEntry(key, value, size, entryTTL, now);
      return true;
    }

    method Cleanup(now: int) returns (removed: nat)
      requires Valid()
      modifies this, entries.at.Values
      ensures Valid() && (Abs(), removed) == CacheSpec.Cleanup(old(Abs()), now)
    {
      hide Linked, Distinct, ToSet, Named, Injective, Inv, Mirrors, CleanupOne;
      ghost var before := Abs();
      NodesAreEntries(entries.at, names, nodes);
      MirrorsLess(entries, records, "");
      var keys := entries.keys;
      removed := 0;
      for i := 0 to |keys|
        invariant Valid() && (Abs(), removed) == CleanupKeys(before, keys[..i], now)
        invariant forall n :: n in nodes ==> n in old(entries.at.Values)
      {
        assert keys[..i + 1][..i] == keys[..i];
        removed := RemoveIfExpired(keys[i], now, removed);
      }
      assert keys[..|keys|] == keys;
    }

    method RemoveIfExpired(key: Key, now: int, count: nat) returns (removed: nat)
      requires Valid()
      modifies this`entries, this`head, this`tail, this`stats, this`nodes, this`names, this`records
      modifies (set n | n in nodes)`prev, (set n | n in nodes)`next
      ensures Valid() && (Abs(), removed) == CleanupOne((old(Abs()), count), key, now)
      ensures forall n :: n in nodes ==> n in old(nodes)
    {
      hide Linked, Distinct, ToSet, Named, Injective, Inv, Mirrors, Delete;
      MirrorsLess(entries, records, key);
      removed := count;
      if entries.Has(key) && now > entries.at[key].metadata.expiresAt {
        var _ := DeleteKey(key);
        removed := removed + 1;
      }
    }

    method Clear()
      requires Valid()
      modifies this
      ensures Valid() && Abs() == CacheSpec.Clear(old(Abs()))
    {
      hide Linked, Distinct, ToSet, Named, Injective, Inv, Mirrors;
      NothingHeld(Abs());
      entries, records := JsMaps.Empty(), JsMaps.Empty();
      head, tail, nodes, names := null, null, [], [];
      stats := stats.(currentSize := 0, entryCount := 0);
    }
  }

  lemma DeleteParts(s: State, key: Key)
    requires key in s.entries.at
    ensures var t := Delete(s, key);
      && t.config == s.config && t.entries == s.entries.Remove(key)
      && t.stats == s.stats.(currentSize := s.stats.currentSize - s.entries.at[key].meta.size,
                             entryCount := |s.entries.Remove(key).at|)
  {
  }

  lemma GetHit(s: State, key: Key, now: int)
    requires Inv(s) && key in s.entries.at && !Expired(s.entries.at[key].meta, now)
    ensures var t := CacheSpec.Get(s, key, now).0;
      && t.config == s.config
      && t.entries == s.entries.Put(key, Touched(s.entries.at[key], now))
      && t.recency == (if s.config.policy == LRU then [key] + Without(s.recency, key) else s.recency)
      && t.stats == WithHit(s.stats)
    ensures CacheSpec.Get(s, key, now).1 == Some(s.entries.at[key].value)
    ensures Inv(CacheSpec.Get(s, key, now).0)
  {
    CacheTheorems.GetInv(s, key, now);
  }

  lemma NothingHeld(s: State)
    ensures Linked([], null, null) && Named(map[], [], []) && Injective(map[]) && Inv(CacheSpec.Clear(s))
    ensures Mirrors(JsMaps.Empty(), JsMaps.Empty())
  {
  }

  lemma SizesAgree(entries: JsMap<Key, CacheEntry>, records: Records)
    requires Mirrors(entries, records)
    ensures |entries.at| == |records.at|
  {
    SameCard(entries.at, records.at);
  }

  lemma NewEntry(entries: JsMap<Key, CacheEntry>, records: Records, names: seq<Key>, nodes: seq<CacheEntry>,
                 key: Key, entry: CacheEntry)
    requires Mirrors(entries, records) && Injective(entries.at) && Named(entries.at, names, nodes)
    requires key !in entries.at && entry !in entries.at.Values
    ensures Mirrors(entries.Put(key, entry), records.Put(key, Record(entry.value, entry.metadata)))
    ensures Injective(entries.at[key := entry]) && entry !in nodes
    ensures Named(entries.at[key := entry], names, nodes)
    ensures Named(entries.at[key := entry], [key] + names, [entry] + nodes)
  {
    NodesAreEntries(entries.at, names, nodes);
  }

  lemma MapsValid(entries: JsMap<Key, CacheEntry>, records: Records)
    requires Mirrors(entries, records) && records.Valid()
    ensures entries.Valid()
  {
  }

  lemma TailIsNamed(at: map<Key, CacheEntry>, names: seq<Key>, nodes: seq<CacheEntry>)
    requires Named(at, names, nodes) && Injective(at) && nodes != []
    ensures names != [] && nodes[|nodes| - 1] in at.Values
    ensures forall k :: k in at && at[k] == nodes[|nodes| - 1] ==> k == names[|names| - 1]
  {
    assert names[|names| - 1] in at;
  }

  lemma NamedFirst(at: map<Key, CacheEntry>, names: seq<Key>, nodes: seq<CacheEntry>, k: nat)
    requires Named(at, names, nodes) && k < |names|
    ensures |nodes| == |names|
    ensures Named(at, [names[k]] + (names[..k] + names[k + 1..]), [nodes[k]] + nodes[..k] + nodes[k + 1..])
  {
  }

  lemma NodesAreEntries(at: map<Key, CacheEntry>, names: seq<Key>, nodes: seq<CacheEntry>)
    requires Named(at, names, nodes)
    ensures forall n :: n in nodes ==> n in at.Values
  {
    forall n | n in nodes
      ensures n in at.Values
    {
      var i :| 0 <= i < |nodes| && nodes[i] == n;
      assert names[i] in at && at[names[i]] == n;
    }
  }

  lemma DeleteNothing(s: State, key: Key)
    requires key !in s.entries.at
    ensures Delete(s, key) == s
  {
  }

  lemma NamesOf(s: State, key: Key)
    requires Inv(s) && key in s.entries.at
    ensures s.config.policy == LRU ==> Distinct(s.recency) && key in s.recency
    ensures s.config.policy != LRU ==> s.recency == [] && Without(s.recency, key) == []
    ensures Delete(s, key).recency == Without(s.recency, key) && Delete(s, key).config == s.config
  {
    assert s.config.policy == LRU ==> key in ToSet(s.recency);
  }

  lemma NamedAt(at: map<Key, CacheEntry>, names: seq<Key>, nodes: seq<CacheEntry>, k: nat)
    requires Named(at, names, nodes) && k < |names|
    ensures |nodes| == |names| && names[k] in at && nodes[k] == at[names[k]]
  {
  }

  lemma NoneNamed(at: map<Key, CacheEntry>, at': map<Key, CacheEntry>, names: seq<Key>, nodes: seq<CacheEntry>)
    requires Named(at, names, nodes) && names == []
    ensures nodes == [] && Named(at', names, nodes)
  {
  }
}
