/** RawCacheService: reads through the two levels, deletes, and the read-through batch lookup.
    Within one call nothing else happens here; CacheProtocol has the interleavings. */
module RawCaches {
  import opened Collections
  import opened MemoryCaches

  function InRedis<V>(store: map<Key, Option<V>>, key: Key): Option<V> {
    if key in store then store[key] else None
  }

  /** What a read returns: memory first when asked for, Redis otherwise. */
  function ReadThrough<V>(cache: map<Key, V>, store: map<Key, Option<V>>, key: Key, memCache: bool): Option<V> {
    if memCache && key in cache then Some(cache[key]) else InRedis(store, key)
  }

  datatype Entry<V> = Entry(key: Key, value: V)

  function Stored<V>(store: map<Key, Option<V>>, entries: seq<Entry<V>>): map<Key, Option<V>> {
    if entries == [] then store
    else Stored(store, entries[..|entries| - 1])[entries[|entries| - 1].key := Some(entries[|entries| - 1].value)]
  }

  predicate NoKey<V>(entries: seq<Entry<V>>, key: Key) {
    forall i | 0 <= i < |entries| :: entries[i].key != key
  }

  /** No later entry has the key of the entry at i. */
  predicate LastOfKey<V>(entries: seq<Entry<V>>, i: int) {
    0 <= i < |entries| && forall j | i < j < |entries| :: entries[j].key != entries[i].key
  }

  /** Keys of no entry have what they had. */
  lemma {:induction false} StoredElsewhere<V>(store: map<Key, Option<V>>, entries: seq<Entry<V>>, key: Key)
    requires NoKey(entries, key)
    ensures key in Stored(store, entries) <==> key in store
    ensures key in store ==> Stored(store, entries)[key] == store[key]
  {
    if entries != [] {
      StoredElsewhere(store, entries[..|entries| - 1], key);
    }
  }

  /** A key has the value of its last entry. */
  lemma {:induction false} StoredLast<V>(store: map<Key, Option<V>>, entries: seq<Entry<V>>, i: nat)
    requires LastOfKey(entries, i)
    ensures entries[i].key in Stored(store, entries)
    ensures Stored(store, entries)[entries[i].key] == Some(entries[i].value)
    decreases |entries|
  {
    if i < |entries| - 1 {
      StoredLast(store, entries[..|entries| - 1], i);
    }
  }

  /** Each key has the value of its last entry, and keys of no entry have what they had. */
  ghost predicate Written<V>(before: map<Key, Option<V>>, entries: seq<Entry<V>>, after: map<Key, Option<V>>) {
    && (forall i | LastOfKey(entries, i) ::
          entries[i].key in after && after[entries[i].key] == Some(entries[i].value))
    && (forall k | NoKey(entries, k) :: (k in after <==> k in before) && (k in before ==> after[k] == before[k]))
  }

  lemma StoredIsWritten<V>(store: map<Key, Option<V>>, entries: seq<Entry<V>>)
    ensures Written(store, entries, Stored(store, entries))
  {
    var after := Stored(store, entries);
    forall i | LastOfKey(entries, i)
      ensures entries[i].key in after && after[entries[i].key] == Some(entries[i].value)
    {
      StoredLast(store, entries, i);
    }
    forall k | NoKey(entries, k)
      ensures (k in after <==> k in store) && (k in store ==> after[k] == store[k])
    {
      StoredElsewhere(store, entries, k);
    }
  }

  class RawCacheService<V(==)> {
    const redis: Redis<V>
    const memory: MemoryCacheService<V>

    ghost predicate Valid()
      reads this
    {
      memory.redis == redis
    }

    constructor (redis: Redis<V>, memory: MemoryCacheService<V>)
      requires memory.redis == redis
      ensures Valid() && this.redis == redis && this.memory == memory
    {
      this.redis, this.memory := redis, memory;
    }

    method Get(key: Key, memCache: bool) returns (value: Option<V>)
      requires Valid()
      modifies memory`cache
      ensures value == ReadThrough(old(memory.cache), redis.store, key, memCache)
      ensures memCache && key in old(memory.cache) ==> value == Some(old(memory.cache)[key])
      ensures !(memCache && key in old(memory.cache)) ==> value == if key in redis.store then redis.store[key] else None
      ensures memory.cache
              == if memCache && value.Some? then old(memory.cache)[key := value.value] else old(memory.cache)
    {
      if memCache {
        var hit := memory.Get(key);
        if hit.Some? {
          return hit;
        }
      }
      value := InRedis(redis.store, key);
      if memCache && value.Some? {
        memory.Set(key, value.value);
      }
    }

    method Del(key: Key)
      requires Valid()
      modifies redis, memory`cache
      ensures redis.store == old(redis.store) - {key} && memory.cache == old(memory.cache) - {key}
      ensures redis.published == old(redis.published) + [One(key)]
    {
      redis.store := redis.store - {key};
      memory.Invalidate(key);
    }

    method Mget(keys: seq<Key>) returns (values: seq<Option<V>>)
      ensures |values| == |keys|
      ensures forall i | 0 <= i < |keys| :: values[i] == if keys[i] in redis.store then redis.store[keys[i]] else None
    {
      values := seq(|keys|, i requires 0 <= i < |keys| reads redis => InRedis(redis.store, keys[i]));
    }

    method SetMany(entries: seq<Entry<V>>)
      modifies redis`store
      ensures redis.store == Stored(old(redis.store), entries)
      ensures Written(old(redis.store), entries, redis.store)
    {
      StoredIsWritten(redis.store, entries);
      for i := 0 to |entries|
        invariant redis.store == Stored(old(redis.store), entries[..i])
      {
        assert entries[..i + 1][..i] == entries[..i];
        redis.store := redis.store[entries[i].key := Some(entries[i].value)];
      }
      assert entries[..|entries|] == entries;
    }

    /** The rows of the missed ids, written back under their keys. */
    method FetchMissed<Row(==)>(missed: seq<string>, lookup: Query<Row, V>) returns (rows: seq<Row>)
      modifies redis`store
      ensures rows == lookup.fetch(missed) && redis.store == Stored(old(redis.store), EntriesOf(rows, lookup))
    {
      rows := lookup.fetch(missed);
      SetMany(EntriesOf(rows, lookup));
    }

    /** The batch lookup. `fetch` stands for the database query over the missed ids. */
    method CachedByKeys<Row(==)>(ids: seq<string>, lookup: Query<Row, V>) returns (result: map<string, V>)
      requires Valid()
      modifies redis`store
      ensures var missed := Missed(ids, old(redis.store), lookup);
              var rows := if missed == [] then [] else lookup.fetch(missed);
              && result == WithRows(Hits(ids, old(redis.store), lookup), rows, lookup)
              && redis.store == Stored(old(redis.store), EntriesOf(rows, lookup))
    {
      result := map[];
      if |ids| == 0 {
        return;
      }
      var cached := Mget(seq(|ids|, i requires 0 <= i < |ids| => lookup.cacheKey(ids[i])));
      var missed: seq<string> := [];
      for i := 0 to |ids|
        invariant result == Hits(ids[..i], redis.store, lookup)
        invariant missed == Missed(ids[..i], redis.store, lookup)
        invariant redis.store == old(redis.store)
      {
        assert ids[..i + 1][..i] == ids[..i];
        if cached[i].Some? {
          result := result[ids[i] := cached[i].value];
        } else {
          missed := missed + [ids[i]];
        }
      }
      assert ids[..|ids|] == ids;
      if |missed| > 0 {
        var rows := FetchMissed(missed, lookup);
        ghost var hits := result;
        for i := 0 to |rows|
          invariant result == WithRows(hits, rows[..i], lookup)
        {
          assert rows[..i + 1][..i] == rows[..i];
          result := result[lookup.rowId(rows[i]) := lookup.toValue(rows[i])];
        }
        assert rows[..|rows|] == rows;
      }
    }
  }

  // ---------------------------------------------------------------- what cachedByKeys computes

  datatype Query<!Row, V> = Query(
    cacheKey: string -> Key, fetch: seq<string> -> seq<Row>, rowId: Row -> string, toValue: Row -> V)

  function Hits<Row, V>(ids: seq<string>, store: map<Key, Option<V>>, q: Query<Row, V>): map<string, V> {
    if ids == [] then map[]
    else
      var front, id := Hits(ids[..|ids| - 1], store, q), ids[|ids| - 1];
      var hit := InRedis(store, q.cacheKey(id));
      if hit.Some? then front[id := hit.value] else front
  }

  function Missed<Row, V>(ids: seq<string>, store: map<Key, Option<V>>, q: Query<Row, V>): seq<string> {
    if ids == [] then []
    else
      var front, id := Missed(ids[..|ids| - 1], store, q), ids[|ids| - 1];
      if InRedis(store, q.cacheKey(id)).Some? then front else front + [id]
  }

  function WithRows<Row, V>(m: map<string, V>, rows: seq<Row>, q: Query<Row, V>): map<string, V> {
    if rows == [] then m
    else
      var row := rows[|rows| - 1];
      WithRows(m, rows[..|rows| - 1], q)[q.rowId(row) := q.toValue(row)]
  }

  function EntriesOf<Row, V>(rows: seq<Row>, q: Query<Row, V>): seq<Entry<V>> {
    seq(|rows|, i requires 0 <= i < |rows| => Entry(q.cacheKey(q.rowId(rows[i])), q.toValue(rows[i])))
  }

  /** The answer without any cache: each requested id that the source has, with its value. */
  function Direct<Row, V>(ids: seq<string>, source: map<string, Row>, q: Query<Row, V>): map<string, V> {
    map id | id in ids && id in source :: q.toValue(source[id])
  }

  ghost predicate KeysInjective<Row(!new), V(!new)>(q: Query<Row, V>) {
    forall a, b :: q.cacheKey(a) == q.cacheKey(b) ==> a == b
  }

  /** Every value cached under an id's key is the value of the id's row. */
  ghost predicate CacheCoherent<Row(!new), V(!new)>(
    store: map<Key, Option<V>>, source: map<string, Row>, q: Query<Row, V>)
  {
    forall id :: InRedis(store, q.cacheKey(id)).Some? ==>
      id in source && InRedis(store, q.cacheKey(id)).value == q.toValue(source[id])
  }

  /** The query returns the source rows of the ids it is asked for, in any order, and no others. */
  ghost predicate FetchExact<Row(!new), V(!new)>(source: map<string, Row>, q: Query<Row, V>) {
    && (forall id | id in source :: q.rowId(source[id]) == id)
    && (forall ids, row :: row in q.fetch(ids) <==> exists id :: id in ids && id in source && source[id] == row)
  }

  lemma {:induction false} HitsAre<Row(!new), V(!new)>(ids: seq<string>, store: map<Key, Option<V>>, q: Query<Row, V>)
    ensures forall id :: id in Hits(ids, store, q) <==> id in ids && InRedis(store, q.cacheKey(id)).Some?
    ensures forall id | id in Hits(ids, store, q) :: Hits(ids, store, q)[id] == InRedis(store, q.cacheKey(id)).value
    ensures forall id :: id in Missed(ids, store, q) <==> id in ids && InRedis(store, q.cacheKey(id)).None?
  {
    if ids != [] {
      HitsAre(ids[..|ids| - 1], store, q);
      assert ids == ids[..|ids| - 1] + [ids[|ids| - 1]];
    }
  }

  /** The row of this id is among the rows. */
  ghost predicate Among<Row(!new), V(!new)>(rows: seq<Row>, source: map<string, Row>, q: Query<Row, V>, id: string) {
    id in source && source[id] in rows && q.rowId(source[id]) == id
  }

  lemma {:induction false} WithRowsAre<Row(!new), V(!new)>(
    m: map<string, V>, rows: seq<Row>, source: map<string, Row>, q: Query<Row, V>)
    requires forall row | row in rows :: q.rowId(row) in source && source[q.rowId(row)] == row
    ensures forall id :: id in WithRows(m, rows, q) <==> id in m || Among(rows, source, q, id)
    ensures forall id | id in WithRows(m, rows, q) ::
              WithRows(m, rows, q)[id]
              == if Among(rows, source, q, id) then q.toValue(source[id]) else m[id]
  {
    if rows != [] {
      WithRowsAre(m, rows[..|rows| - 1], source, q);
      assert rows == rows[..|rows| - 1] + [rows[|rows| - 1]];
    }
  }

  lemma {:induction false} StoredAre<Row(!new), V(!new)>(
    store: map<Key, Option<V>>, rows: seq<Row>, source: map<string, Row>, q: Query<Row, V>)
    requires KeysInjective(q) && CacheCoherent(store, source, q)
    requires forall row | row in rows :: q.rowId(row) in source && source[q.rowId(row)] == row
    ensures CacheCoherent(Stored(store, EntriesOf(rows, q)), source, q)
  {
    if rows != [] {
      var front, row := rows[..|rows| - 1], rows[|rows| - 1];
      StoredAre(store, front, source, q);
      var entries := EntriesOf(rows, q);
      assert entries[..|entries| - 1] == EntriesOf(front, q);
      var before, after := Stored(store, EntriesOf(front, q)), Stored(store, entries);
      assert after == before[q.cacheKey(q.rowId(row)) := Some(q.toValue(row))];
      forall id | InRedis(after, q.cacheKey(id)).Some?
        ensures id in source && InRedis(after, q.cacheKey(id)).value == q.toValue(source[id])
      {
        if q.cacheKey(id) != q.cacheKey(q.rowId(row)) {
          assert InRedis(before, q.cacheKey(id)) == InRedis(after, q.cacheKey(id));
        }
      }
    }
  }

  /** Rows of the missed ids, and no others, complete the hits to the direct answer. */
  lemma RowsComplete<Row(!new), V(!new)>(
      ids: seq<string>, store: map<Key, Option<V>>, rows: seq<Row>, source: map<string, Row>, q: Query<Row, V>)
    requires CacheCoherent(store, source, q)
    requires forall row | row in rows ::
            q.rowId(row) in source && source[q.rowId(row)] == row && q.rowId(row) in Missed(ids, store, q)
    requires forall id | id in Missed(ids, store, q) && id in source :: source[id] in rows && q.rowId(source[id]) == id
    ensures WithRows(Hits(ids, store, q), rows, q) == Direct(ids, source, q)
  {
    HitsAre(ids, store, q);
    WithRowsAre(Hits(ids, store, q), rows, source, q);
  }

  /** The entry written last under the key of an id is that of its row. */
  lemma RowStored<Row(!new), V(!new)>(
    store: map<Key, Option<V>>, rows: seq<Row>, source: map<string, Row>, q: Query<Row, V>, id: string)
    requires KeysInjective(q) && id in source && source[id] in rows && q.rowId(source[id]) == id
    requires forall row | row in rows :: q.rowId(row) in source && source[q.rowId(row)] == row
    ensures InRedis(Stored(store, EntriesOf(rows, q)), q.cacheKey(id)) == Some(q.toValue(source[id]))
  {
    var entries := EntriesOf(rows, q);
    var j :| 0 <= j < |rows| && rows[j] == source[id];
    assert entries[j].key == q.cacheKey(id);
    var i := LastWith(entries, q.cacheKey(id));
    assert q.rowId(rows[i]) == id;
    StoredLast(store, entries, i);
  }

  /** A hit stays a hit with its value. */
  lemma HitKept<Row(!new), V(!new)>(
    store: map<Key, Option<V>>, rows: seq<Row>, source: map<string, Row>, q: Query<Row, V>, id: string)
    requires KeysInjective(q) && CacheCoherent(store, source, q) && InRedis(store, q.cacheKey(id)).Some?
    requires forall row | row in rows :: q.rowId(row) in source && source[q.rowId(row)] == row
    ensures InRedis(Stored(store, EntriesOf(rows, q)), q.cacheKey(id)) == InRedis(store, q.cacheKey(id))
  {
    var entries, key := EntriesOf(rows, q), q.cacheKey(id);
    if NoKey(entries, key) {
      StoredElsewhere(store, entries, key);
    } else {
      var i := LastWith(entries, key);
      assert q.rowId(rows[i]) == id;
      StoredLast(store, entries, i);
    }
  }

  lemma {:induction false} LastWith<V>(entries: seq<Entry<V>>, key: Key) returns (i: nat)
    requires !NoKey(entries, key)
    ensures LastOfKey(entries, i) && entries[i].key == key
  {
    var n := |entries| - 1;
    if entries[n].key == key {
      return n;
    }
    i := LastWith(entries[..n], key);
  }

  /** Refinement: whatever the cache holds and however ids repeat, the batch lookup answers like a
      direct lookup in the source, and leaves the cache coherent. Afterwards each requested id of the
      source is found in Redis with the value of its row, and asking again fetches no such id. */
  lemma CachedByKeysRefinesDirect<Row(!new), V(!new)>(
      ids: seq<string>, store: map<Key, Option<V>>, source: map<string, Row>, q: Query<Row, V>)
    requires KeysInjective(q) && CacheCoherent(store, source, q) && FetchExact(source, q)
    ensures var missed := Missed(ids, store, q);
            var rows := if missed == [] then [] else q.fetch(missed);
            && WithRows(Hits(ids, store, q), rows, q) == Direct(ids, source, q)
            && CacheCoherent(Stored(store, EntriesOf(rows, q)), source, q)
    ensures var missed := Missed(ids, store, q);
            var after := Stored(store, EntriesOf(if missed == [] then [] else q.fetch(missed), q));
            && (forall id | id in ids && id in source ::
                  InRedis(after, q.cacheKey(id)) == Some(q.toValue(source[id])))
            && (forall id :: id in Missed(ids, after, q) <==> id in ids && id !in source)
  {
    var missed := Missed(ids, store, q);
    var rows := if missed == [] then [] else q.fetch(missed);
    var after := Stored(store, EntriesOf(rows, q));
    RowsComplete(ids, store, rows, source, q);
    StoredAre(store, rows, source, q);
    HitsAre(ids, store, q);
    HitsAre(ids, after, q);
    forall id | id in ids && id in source ensures InRedis(after, q.cacheKey(id)) == Some(q.toValue(source[id])) {
      if id in missed {
        RowStored(store, rows, source, q, id);
      } else {
        HitKept(store, rows, source, q, id);
      }
    }
  }
}
