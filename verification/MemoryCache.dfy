/** The in-process level of the cache: its handlers, as functions that the protocol steps share and
    as the class that updates its fields in place. */
module MemoryCaches {
  import opened Collections

  type Key = string

  /** What travels on the invalidation channel: a key, or '*' for everything. */
  datatype Message = One(key: Key) | All

  function AfterMessage<V>(cache: map<Key, V>, m: Message): map<Key, V> {
    if m == All then map[] else cache - {m.key}
  }

  /** The first connection keeps the cache, every later one empties it. */
  function AfterReady<V>(cache: map<Key, V>, everConnected: bool): map<Key, V> {
    if everConnected then map[] else cache
  }

  function Lookup<V>(cache: map<Key, V>, key: Key): Option<V> {
    if key in cache then Some(cache[key]) else None
  }

  // ---------------------------------------------------------------- a hit over a whole history

  /** What can happen to the memory of a process; invalidating an own key is being told that key. */
  datatype Happening<V> = Kept(key: Key, value: V) | Told(m: Message) | Connected

  function Connections<V>(history: seq<Happening<V>>): nat {
    if history == [] then 0
    else Connections(history[..|history| - 1]) + if history[|history| - 1].Connected? then 1 else 0
  }

  function CacheAfter<V>(history: seq<Happening<V>>): map<Key, V> {
    if history == [] then map[]
    else
      var before := history[..|history| - 1];
      var cache := CacheAfter(before);
      match history[|history| - 1]
      case Kept(key, value) => cache[key := value]
      case Told(m) => AfterMessage(cache, m)
      case Connected => AfterReady(cache, Connections(before) > 0)
  }

  /** The happening at i replaces or removes the entry of the key: a value stored for it, its
      invalidation, the invalidation of everything, or a connection that is not the first. */
  predicate Ends<V>(history: seq<Happening<V>>, i: nat, key: Key)
    requires i < |history|
  {
    match history[i]
    case Kept(k, _) => k == key
    case Told(m) => m == All || m == One(key)
    case Connected => exists j | 0 <= j < i :: history[j].Connected?
  }

  lemma {:induction false} ConnectedBefore<V>(history: seq<Happening<V>>)
    ensures Connections(history) > 0 <==> exists j | 0 <= j < |history| :: history[j].Connected?
    decreases |history|
  {
    if history != [] {
      ConnectedBefore(history[..|history| - 1]);
    }
  }

  ghost predicate LastKept<V(!new)>(history: seq<Happening<V>>, key: Key, value: V, i: nat) {
    && i < |history| && history[i] == Kept(key, value)
    && forall j | i < j < |history| :: !Ends(history, j, key)
  }

  /** A hit is the value stored last for the key, and nothing has removed it since; every such value is
      a hit. */
  lemma {:induction false} HitIsLastKept<V(!new)>(history: seq<Happening<V>>, key: Key, value: V)
    ensures Lookup(CacheAfter(history), key) == Some(value) <==> exists i: nat :: LastKept(history, key, value, i)
  {
    if history != [] {
      var last := |history| - 1;
      var before := history[..last];
      HitIsLastKept(before, key, value);
      ConnectedBefore(before);
      forall j: nat | j < last ensures Ends(history, j, key) <==> Ends(before, j, key) {
      }
      if history[last] == Kept(key, value) {
        assert LastKept(history, key, value, last);
      }
      if i: nat :| LastKept(history, key, value, i) && i < last {
        assert LastKept(before, key, value, i);
      }
      if i: nat :| LastKept(before, key, value, i) && !Ends(history, last, key) {
        assert LastKept(history, key, value, i);
      }
    }
  }

  /** The shared Redis: its strings by the JSON value they spell (None is JSON null), and what was
      published on the channel. */
  class Redis<V(==)> {
    var store: map<Key, Option<V>>
    var published: seq<Message>

    constructor ()
      ensures store == map[] && published == []
    {
      store, published := map[], [];
    }
  }

  class MemoryCacheService<V(==)> {
    const redis: Redis<V>
    var cache: map<Key, V>
    var everConnected: bool

    constructor (redis: Redis<V>)
      ensures this.redis == redis && cache == map[] && !everConnected
    {
      this.redis, cache, everConnected := redis, map[], false;
    }

    method OnReady()
      modifies this
      ensures cache == AfterReady(old(cache), old(everConnected)) && everConnected
    {
      if everConnected {
        cache := map[];
      }
      everConnected := true;
    }

    method OnMessage(m: Message)
      modifies this`cache
      ensures cache == AfterMessage(old(cache), m)
    {
      match m
      case All => cache := map[];
      case One(key) => cache := cache - {key};
    }

    method Get(key: Key) returns (hit: Option<V>)
      ensures hit.Some? <==> key in cache
      ensures hit.Some? ==> hit.value == cache[key]
    {
      hit := if key in cache then Some(cache[key]) else None;
    }

    method Set(key: Key, value: V)
      modifies this`cache
      ensures cache == old(cache)[key := value]
    {
      cache := cache[key := value];
    }

    method Invalidate(key: Key)
      modifies this`cache, redis`published
      ensures cache == old(cache) - {key}
      ensures redis.published == old(redis.published) + [One(key)]
    {
      cache := cache - {key};
      redis.published := redis.published + [One(key)];
    }
  }
}
