/** The read cache. A generation counter stamps every use, so the lowest generation marks the least recently used
    entry. */
module Caches {
  import opened Common

  datatype CacheEntry = CacheEntry(value: Bytes, generation: nat)

  type Entries = map<Bytes, CacheEntry>

  /** Uses are totally ordered in time: no two entries share a generation, none lies in the future. */
  ghost predicate Stamped(es: Entries, now: nat) {
    && (forall k | k in es :: es[k].generation <= now)
    && (forall j, k | j in es && k in es && j != k :: es[j].generation != es[k].generation)
  }

  /** Every other entry was used after `victim`. */
  ghost predicate LeastRecent(es: Entries, victim: Bytes) {
    victim in es && forall k | k in es && k != victim :: es[victim].generation < es[k].generation
  }

  lemma StampNewest(es: Entries, now: nat, k: Bytes, v: Bytes)
    requires Stamped(es, now)
    ensures Stamped(es[k := CacheEntry(v, now + 1)], now + 1)
  {
  }

  lemma StampFewer(es: Entries, now: nat, k: Bytes)
    requires Stamped(es, now)
    ensures Stamped(es - {k}, now)
  {
  }

  ghost function Contents(es: Entries): map<Bytes, Bytes> {
    map k | k in es :: es[k].value
  }

  lemma ContentsPut(es: Entries, k: Bytes, e: CacheEntry)
    ensures Contents(es[k := e]) == Contents(es)[k := e.value]
  {
  }

  lemma ContentsLess(es: Entries, k: Bytes)
    ensures Contents(es - {k}) == Contents(es) - {k}
  {
  }

  class LruCache {
    var entries: Entries
    var generation: nat
    const capacity: nat

    /** The cached values, without generations. */
    ghost var cached: map<Bytes, Bytes>

    ghost predicate Valid() reads this { Stamped(entries, generation) && cached == Contents(entries) }

    constructor (capacity: nat)
      ensures Valid() && entries == map[] && cached == map[] && this.capacity == capacity
    {
      entries, generation, cached := map[], 0, map[];
      this.capacity := capacity;
    }

    /** A hit returns the value and makes the key the most recently used. */
    method Get(key: Bytes) returns (r: Option<Bytes>)
      requires Valid()
      modifies this
      ensures Valid() && r == MapGet(cached, key) && cached == old(cached)
      ensures entries == if r.Some? then old(entries)[key := CacheEntry(r.value, old(generation) + 1)] else old(entries)
    {
      if key !in entries { return None; }
      generation := generation + 1;
      entries := entries[key := entries[key].(generation := generation)];
      r := Some(entries[key].value);
      assert cached == Contents(entries);
    }

    /** The eviction scan, over the entries in whatever order the map yields them. */
    method FindVictim() returns (victim: Option<Bytes>)
      requires Valid()
      ensures victim.None? <==> entries == map[]
      ensures victim.Some? ==> LeastRecent(entries, victim.value)
    {
      victim := None;
      var todo := entries.Keys;
      while todo != {}
        invariant todo <= entries.Keys
        invariant victim.None? ==> todo == entries.Keys
        invariant victim.Some? ==> victim.value in entries && victim.value !in todo
        invariant victim.Some? ==>
          forall k | k in entries && k !in todo :: entries[victim.value].generation <= entries[k].generation
        decreases |todo|
      {
        var k :| k in todo;
        todo := todo - {k};
        if victim.None? || entries[k].generation < entries[victim.value].generation {
          victim := Some(k);
        }
      }
    }

    /** A known key is refreshed. A new one takes a free place, or, in a full cache, the place of the least recently
        used entry. */
    method Insert(key: Bytes, value: Bytes) returns (ghost victim: Option<Bytes>)
      requires Valid()
      modifies this
      ensures Valid()
      ensures victim.Some? <==> key !in old(entries) && |old(entries)| >= capacity && old(entries) != map[]
      ensures victim.Some? ==> LeastRecent(old(entries), victim.value)
      ensures entries == (if victim.Some? then old(entries) - {victim.value} else old(entries))
                           [key := CacheEntry(value, old(generation) + 1)]
      ensures cached == (if victim.Some? then old(cached) - {victim.value} else old(cached))[key := value]
    {
      hide Stamped, Contents, LeastRecent;
      victim := None;
      StampNewest(entries, generation, key, value);
      if key !in entries && |entries| >= capacity {
        var found := FindVictim();
        victim := found;
        if found.Some? {
          StampFewer(entries, generation, found.value);
          StampNewest(entries - {found.value}, generation, key, value);
          ContentsLess(entries, found.value);
          entries, cached := entries - {found.value}, cached - {found.value};
        }
      }
      generation := generation + 1;
      ContentsPut(entries, key, CacheEntry(value, generation));
      entries, cached := entries[key := CacheEntry(value, generation)], cached[key := value];
    }

    method Invalidate(key: Bytes)
      requires Valid()
      modifies this
      ensures Valid() && entries == old(entries) - {key} && cached == old(cached) - {key}
    {
      entries, cached := entries - {key}, cached - {key};
    }

    method Clear()
      requires Valid()
      modifies this
      ensures Valid() && entries == map[] && cached == map[]
    {
      entries, cached := map[], map[];
    }
  }
}
