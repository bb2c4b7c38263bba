/** The three races: runs that end with a process serving an outdated value and nothing pending. */
module CacheRaces {
  import opened Collections
  import opened MemoryCaches
  import opened CacheProtocol
  import opened CacheSchedules

  /** Nothing is pending anywhere and a subscribed process still serves an outdated value. */
  ghost predicate StaleAtRest(s: State) {
    && s.writers == []
    && exists p, k | p in s.processes && k in p.cache ::
         p.link == Subscribed && p.inbox == [] && !Current(s, k, p.cache[k])
  }

  /** The state is reached by these steps. */
  ghost predicate Reached(s: State, steps: seq<Step>) {
    exists run :: IsRun(run, steps) && run[|steps|] == s
  }

  lemma Reach(s: State, steps: seq<Step>, step: Step, s': State)
    requires Reached(s, steps) && Enabled(s, step) && s' == Next(s, step)
    ensures Reached(s', steps + [step])
  {
    var run :| IsRun(run, steps) && run[|steps|] == s;
    var run', steps' := run + [s'], steps + [step];
    forall n | 0 <= n < |steps'| ensures Enabled(run'[n], steps'[n]) && run'[n + 1] == Next(run'[n], steps'[n]) {
      if n < |steps| {
        assert run'[n] == run[n] && run'[n + 1] == run[n + 1] && steps'[n] == steps[n];
      }
    }
    assert IsRun(run', steps');
  }

  const OLD: Copy := Copy("old", 0)
  const BEFORE: map<Key, Value> := map["k" := "old"]
  const AFTER: map<Key, Value> := map["k" := "new"]
  const CHANGED: map<Key, seq<Option<Value>>> := map["k" := [Some("old")]]
  const NEVER: Process := Process(map[], false, false, Down, [], [])
  const CLEAN: Process := Process(map[], true, true, Subscribed, [], [])

  /** Process 0 reads, process 1 writes. */
  function Reader(redis: map<Key, Copy>, p: Process, loads: seq<Transfer>): State {
    State(BEFORE, map[], redis, [p, NEVER], [], loads)
  }

  function Written(redis: map<Key, Copy>, p: Process, ws: seq<Writer>, loads: seq<Transfer>): State {
    State(AFTER, CHANGED, redis, [p, NEVER], ws, loads)
  }

  lemma StartUp()
    ensures Reached(Reader(map[], CLEAN, []), [Ready(0), Subscribe(0)])
  {
    var s := Reader(map[], NEVER, []);
    var none: seq<Step> := [];
    assert Initial(s) && IsRun([s], none) && [s][|none|] == s;
    var up := NEVER.(everConnected := true, link := Up);
    assert [NEVER, NEVER][0 := up] == [up, NEVER] && [up, NEVER][0 := CLEAN] == [CLEAN, NEVER];
    Reach(s, none, Ready(0), Reader(map[], up, []));
    Reach(Reader(map[], up, []), [Ready(0)], Subscribe(0), Reader(map[], CLEAN, []));
    assert none + [Ready(0)] == [Ready(0)] && [Ready(0)] + [Subscribe(0)] == [Ready(0), Subscribe(0)];
  }

  const START: seq<Step> := [Ready(0), Subscribe(0)]
  const LOAD: seq<Step> := [ReadSource("k"), FillRedis(0)]
  const WRITE: seq<Step> := [Change(1, "k", Some("new")), DeleteInRedis(0), DeleteInMemory(0), Publish(0)]

  /** A load, from the source into Redis. */
  lemma Loads(p: Process, steps: seq<Step>)
    requires Reached(Reader(map[], p, []), steps)
    ensures Reached(Reader(map[], p, [Transfer("k", OLD)]), steps + [ReadSource("k")])
    ensures Reached(Reader(map["k" := OLD], p, []), steps + LOAD)
  {
    var t := Transfer("k", OLD);
    var s := Reader(map[], p, []);
    assert Log(s, "k") == [Some("old")] && s.loads + [t] == [t];
    Reach(s, steps, ReadSource("k"), Reader(map[], p, [t]));
    Reach(Reader(map[], p, [t]), steps + [ReadSource("k")], FillRedis(0), Reader(map["k" := OLD], p, []));
    assert steps + [ReadSource("k")] + [FillRedis(0)] == steps + LOAD;
  }

  /** A write by process 1, from the change of the source to the publishing of the key. */
  lemma Writes(p: Process, redis: map<Key, Copy>, loads: seq<Transfer>, steps: seq<Step>)
    requires redis.Keys <= {"k"} && Reached(Reader(redis, p, loads), steps)
    ensures Reached(Written(map[], Received(p, One("k")), [], loads), steps + WRITE)
  {
    var w := Writer(1, "k", Owed);
    assert Log(Reader(redis, p, loads), "k") == [Some("old")];
    Reach(Reader(redis, p, loads), steps, WRITE[0], Written(redis, p, [w], loads));
    assert redis - {"k"} == map[];
    Reach(Written(redis, p, [w], loads), steps + [WRITE[0]], WRITE[1],
        Written(map[], p, [w.(phase := Deleted)], loads));
    Announces(p, loads, steps + [WRITE[0]] + [WRITE[1]]);
    assert steps + [WRITE[0]] + [WRITE[1]] + [WRITE[2]] + [WRITE[3]] == steps + WRITE;
  }

  lemma Announces(p: Process, loads: seq<Transfer>, steps: seq<Step>)
    requires Reached(Written(map[], p, [Writer(1, "k", Deleted)], loads), steps)
    ensures Reached(Written(map[], Received(p, One("k")), [], loads), steps + [WRITE[2]] + [WRITE[3]])
  {
    var w := Writer(1, "k", Cleared);
    var none: map<Key, Copy> := map[];
    assert none - {"k"} == none && NEVER.(cache := none) == NEVER;
    assert [p, NEVER][1 := NEVER] == [p, NEVER];
    Reach(Written(map[], p, [Writer(1, "k", Deleted)], loads), steps, WRITE[2], Written(map[], p, [w], loads));
    assert Broadcast([p, NEVER], One("k")) == [Received(p, One("k")), NEVER];
    Reach(Written(map[], p, [w], loads), steps + [WRITE[2]], WRITE[3],
        Written(map[], Received(p, One("k")), [], loads));
  }

  lemma Rests(p: Process, redis: map<Key, Copy>, steps: seq<Step>)
    requires Reached(Written(redis, p, [], []), steps)
    requires p.link == Subscribed && p.inbox == [] && "k" in p.cache && p.cache["k"] == OLD
    ensures StaleAtRest(Written(redis, p, [], []))
  {
  }

  const AGAIN: seq<Step> := [Disconnect(0), Ready(0)]
  const READ: seq<Step> := [ReadRedis(0, "k"), FillMemory(0, 0)]

  lemma Reconnects(redis: map<Key, Copy>, steps: seq<Step>)
    requires Reached(Reader(redis, CLEAN, []), steps)
    ensures Reached(Reader(redis, CLEAN.(link := Up), []), steps + AGAIN)
  {
    var down, up := CLEAN.(link := Down), CLEAN.(link := Up);
    assert [CLEAN, NEVER][0 := down] == [down, NEVER] && [down, NEVER][0 := up] == [up, NEVER];
    Reach(Reader(redis, CLEAN, []), steps, Disconnect(0), Reader(redis, down, []));
    Reach(Reader(redis, down, []), steps + [Disconnect(0)], Ready(0), Reader(redis, up, []));
    assert steps + [Disconnect(0)] + [Ready(0)] == steps + AGAIN;
  }

  lemma SubscribesLate(redis: map<Key, Copy>, steps: seq<Step>)
    requires Reached(Written(redis, CLEAN.(link := Up, cache := map["k" := OLD]), [], []), steps)
    ensures exists s :: Reached(s, steps + [Subscribe(0)]) && StaleAtRest(s)
  {
    var holding, stale := CLEAN.(link := Up, cache := map["k" := OLD]), CLEAN.(cache := map["k" := OLD]);
    assert [holding, NEVER][0 := stale] == [stale, NEVER];
    Reach(Written(redis, holding, [], []), steps, Subscribe(0), Written(redis, stale, [], []));
    Rests(stale, redis, steps + [Subscribe(0)]);
  }

  lemma GapReads()
    ensures Reached(Reader(map["k" := OLD], CLEAN.(link := Up, cache := map["k" := OLD]), []),
            START + LOAD + AGAIN + READ)
  {
    var redis := map["k" := OLD];
    StartUp();
    Loads(CLEAN, START);
    Reconnects(redis, START + LOAD);
    GapRead(redis, CLEAN.(link := Up), START + LOAD + AGAIN);
  }

  lemma GapWrites(steps: seq<Step>)
    requires Reached(Reader(map["k" := OLD], CLEAN.(link := Up, cache := map["k" := OLD]), []), steps)
    ensures exists s :: Reached(s, steps + WRITE + [Subscribe(0)]) && StaleAtRest(s)
  {
    var holding := CLEAN.(link := Up, cache := map["k" := OLD]);
    Writes(holding, map["k" := OLD], [], steps);
    SubscribesLate(map[], steps + WRITE);
  }

  /** Even with atomic reads: between the clearing of its memory and its new subscription a process
      reads the old value; the key is changed and published before the subscription is there. */
  lemma SubscriptionGap()
    ensures exists s, steps :: Reached(s, steps) && AtomicReads(steps) && StaleAtRest(s)
  {
    GapReads();
    GapWrites(START + LOAD + AGAIN + READ);
    GapStepsAtomic();
  }

  lemma GapStepsAtomic()
    ensures AtomicReads(START + LOAD + AGAIN + READ + WRITE + [Subscribe(0)])
  {
  }

  lemma GapRead(redis: map<Key, Copy>, p: Process, steps: seq<Step>)
    requires redis == map["k" := OLD] && p.serving && p.cache == map[] && p.fills == []
    requires Reached(Reader(redis, p, []), steps)
    ensures Reached(Reader(redis, p.(fills := [Transfer("k", OLD)]), []), steps + [ReadRedis(0, "k")])
    ensures Reached(Reader(redis, p.(cache := redis), []), steps + READ)
  {
    var t := Transfer("k", OLD);
    var reading := p.(fills := [t]);
    assert p.fills + [t] == [t] && [p, NEVER][0 := reading] == [reading, NEVER];
    Reach(Reader(redis, p, []), steps, ReadRedis(0, "k"), Reader(redis, reading, []));
    var holding := p.(cache := redis);
    assert Filled(reading, 0) == holding && [reading, NEVER][0 := holding] == [holding, NEVER];
    Reach(Reader(redis, reading, []), steps + [ReadRedis(0, "k")], FillMemory(0, 0), Reader(redis, holding, []));
    assert steps + [ReadRedis(0, "k")] + [FillMemory(0, 0)] == steps + READ;
  }

  /** The message reaches the reader. */
  lemma Delivers(p: Process, redis: map<Key, Copy>, steps: seq<Step>, loads: seq<Transfer>)
    requires p.link == Subscribed && p.cache == map[] && p.inbox == []
    requires Reached(Written(redis, Received(p, One("k")), [], loads), steps)
    ensures Reached(Written(redis, p, [], loads), steps + [Deliver(0)])
  {
    var told := Received(p, One("k"));
    assert told.inbox == [One("k")] && told.inbox[1..] == [];
    var none: map<Key, Copy> := map[];
    assert none - {"k"} == none && Delivered(told) == p;
    assert [told, NEVER][0 := p] == [p, NEVER];
    Reach(Written(redis, told, [], loads), steps, Deliver(0), Written(redis, p, [], loads));
  }

  /** A read fetched the old value from Redis before the delete, and stores it in memory after the
      invalidation came through. */
  lemma MemoryFillRace()
    ensures exists s, steps :: Reached(s, steps) && StaleAtRest(s) && s.redis == map[]
  {
    var redis := map["k" := OLD];
    StartUp();
    Loads(CLEAN, START);
    GapRead(redis, CLEAN, START + LOAD);
    var s1 := START + LOAD + [ReadRedis(0, "k")];
    var reading := CLEAN.(fills := [Transfer("k", OLD)]);
    Writes(reading, redis, [], s1);
    Delivers(reading, map[], s1 + WRITE, []);
    StoresLate(map[], s1 + WRITE + [Deliver(0)]);
  }

  lemma StoresLate(redis: map<Key, Copy>, steps: seq<Step>)
    requires Reached(Written(redis, CLEAN.(fills := [Transfer("k", OLD)]), [], []), steps)
    ensures exists s, more :: Reached(s, more) && StaleAtRest(s) && s.redis == redis
  {
    var reading, stale := CLEAN.(fills := [Transfer("k", OLD)]), CLEAN.(cache := map["k" := OLD]);
    assert Filled(reading, 0) == stale && [reading, NEVER][0 := stale] == [stale, NEVER];
    Reach(Written(redis, reading, [], []), steps, FillMemory(0, 0), Written(redis, stale, [], []));
    Rests(stale, redis, steps + [FillMemory(0, 0)]);
  }

  /** A load fetched the old value from the database before the delete, and stores it in Redis, from
      where it reaches memory, after the invalidation came through. */
  lemma RedisFillRace()
    ensures exists s, steps :: Reached(s, steps) && StaleAtRest(s) && s.redis.Keys == {"k"}
  {
    StartUp();
    Loads(CLEAN, START);
    var s1 := START + [ReadSource("k")];
    Writes(CLEAN, map[], [Transfer("k", OLD)], s1);
    Delivers(CLEAN, map[], s1 + WRITE, [Transfer("k", OLD)]);
    LoadsLate(s1 + WRITE + [Deliver(0)]);
  }

  lemma LoadsLate(steps: seq<Step>)
    requires Reached(Written(map[], CLEAN, [], [Transfer("k", OLD)]), steps)
    ensures exists s, more :: Reached(s, more) && StaleAtRest(s) && s.redis.Keys == {"k"}
  {
    var t := Transfer("k", OLD);
    var redis := map["k" := OLD];
    Reach(Written(map[], CLEAN, [], [t]), steps, FillRedis(0), Written(redis, CLEAN, [], []));
    var reading := CLEAN.(fills := [t]);
    assert CLEAN.fills + [t] == [t] && [CLEAN, NEVER][0 := reading] == [reading, NEVER];
    Reach(Written(redis, CLEAN, [], []), steps + [FillRedis(0)], ReadRedis(0, "k"), Written(redis, reading, [], []));
    StoresLate(redis, steps + [FillRedis(0)] + [ReadRedis(0, "k")]);
  }
}
