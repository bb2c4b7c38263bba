/** The gap of a reconnect: a process that is up but not yet subscribed misses what is published. With atomic
    reads this alone decides whether a run stays in step. */
module CacheGap {
  import opened Collections
  import opened MemoryCaches
  import opened CacheProtocol
  import opened CacheSchedules

  /** Process p is up, not yet subscribed, and holds the key, which was changed since p's copy was read,
      when a writer publishes it. */
  predicate Misses(s: State, step: Step, p: nat, key: Key)
    requires Enabled(s, step)
  {
    && step.Publish? && s.writers[step.w].key == key
    && HeldInGap(s, p, key) && !Unchanged(s, key, s.processes[p].cache[key])
  }

  predicate HeldInGap(s: State, p: nat, key: Key) {
    p < |s.processes| && s.processes[p].link == Up && key in s.processes[p].cache
  }

  /** The process has held the copy it holds at n ever since it missed a publishing at m. */
  ghost predicate MissedAt(run: seq<State>, steps: seq<Step>, m: nat, n: nat, p: nat, key: Key)
    requires IsRun(run, steps) && n < |run|
  {
    && m < n && Misses(run[m], steps[m], p, key)
    && forall j | m <= j <= n ::
         HeldInGap(run[j], p, key) && run[j].processes[p].cache[key] == run[m].processes[p].cache[key]
  }

  ghost predicate HasMissed(run: seq<State>, steps: seq<Step>, n: nat, p: nat, key: Key)
    requires IsRun(run, steps) && n < |run|
  {
    exists m: nat :: MissedAt(run, steps, m, n, p, key)
  }

  lemma OrderlyStep(s: State, step: Step)
    requires Enabled(s, step) && forall i | 0 <= i < |s.processes| :: Orderly(s.processes[i])
    ensures forall i | 0 <= i < |Next(s, step).processes| :: Orderly(Next(s, step).processes[i])
  {
    var s' := Next(s, step);
    forall i | 0 <= i < |s'.processes| ensures Orderly(s'.processes[i]) {
      assert Orderly(s.processes[i]);
    }
  }

  lemma {:induction false} OrderlyRun(run: seq<State>, steps: seq<Step>, n: nat)
    requires IsRun(run, steps) && n < |run|
    ensures forall i | 0 <= i < |run[n].processes| :: Orderly(run[n].processes[i])
  {
    if n == 0 {
      assert forall i | 0 <= i < |run[0].processes| :: run[0].processes[i] in run[0].processes;
    } else {
      OrderlyRun(run, steps, n - 1);
      OrderlyStep(run[n - 1], steps[n - 1]);
    }
  }

  /** A load that is stored at once is unchanged, so Redis stays in step whatever happens in memory. */
  lemma LoadAtOnce(s: State, key: Key, k: Key)
    requires Enabled(s, ReadSource(k)) && NothingInTransit(s)
    ensures Enabled(Next(s, ReadSource(k)), FillRedis(0))
    ensures !Strands(Next(s, ReadSource(k)), FillRedis(0), key)
  {
  }

  lemma {:induction false} AtomicRedis(run: seq<State>, steps: seq<Step>, n: nat, key: Key)
    requires IsRun(run, steps) && AtomicReads(steps) && n < |run|
    ensures RedisInStep(run[n], key)
  {
    if n == 0 {
      StartsInStep(run[0], key);
    } else {
      AtomicRedis(run, steps, n - 1, key);
      RedisStep(run[n - 1], steps[n - 1], key);
      if steps[n - 1].FillRedis? {
        AtomicLoad(run, steps, n - 1, key);
      }
    }
  }

  lemma AtomicLoad(run: seq<State>, steps: seq<Step>, n: nat, key: Key)
    requires IsRun(run, steps) && AtomicReads(steps) && n < |steps| && steps[n].FillRedis?
    ensures !Strands(run[n], steps[n], key)
  {
    AtomicTransit(run, steps, n);
    if !NothingInTransit(run[n]) {
      AtomicTransit(run, steps, n - 1);
      assert steps[n - 1].ReadSource?;
      if NothingInTransit(run[n - 1]) {
        LoadAtOnce(run[n - 1], key, steps[n - 1].key);
      }
    }
  }

  /** What is stored in memory at once, from a Redis in step, is unchanged or announced. */
  lemma AtomicRead(run: seq<State>, steps: seq<Step>, n: nat, key: Key)
    requires IsRun(run, steps) && AtomicReads(steps) && n < |steps| && steps[n].FillMemory?
    requires run[n].processes[steps[n].p].fills[steps[n].f].key == key
    ensures Unchanged(run[n], key, run[n].processes[steps[n].p].fills[steps[n].f].copy) || Announced(run[n], key)
  {
    AtomicTransit(run, steps, n);
    if !NothingInTransit(run[n]) {
      AtomicTransit(run, steps, n - 1);
      assert steps[n - 1].ReadRedis?;
      if NothingInTransit(run[n - 1]) {
        AtomicRedis(run, steps, n - 1, key);
      }
    }
  }

  /** What a process holds in the gap. */
  ghost predicate GapAccounted(run: seq<State>, steps: seq<Step>, n: nat, p: nat, key: Key)
    requires IsRun(run, steps) && n < |run|
  {
    HeldInGap(run[n], p, key) ==>
      || Unchanged(run[n], key, run[n].processes[p].cache[key]) || Announced(run[n], key)
      || HasMissed(run, steps, n, p, key)
  }

  lemma KeepsMissed(run: seq<State>, steps: seq<Step>, n: nat, p: nat, key: Key)
    requires IsRun(run, steps) && n + 1 < |run|
    requires HeldInGap(run[n], p, key) && HeldInGap(run[n + 1], p, key)
    requires run[n + 1].processes[p].cache[key] == run[n].processes[p].cache[key]
    requires HasMissed(run, steps, n, p, key) || Misses(run[n], steps[n], p, key)
    ensures HasMissed(run, steps, n + 1, p, key)
  {
    if HasMissed(run, steps, n, p, key) {
      var m: nat :| MissedAt(run, steps, m, n, p, key);
      assert MissedAt(run, steps, m, n + 1, p, key);
    } else {
      assert MissedAt(run, steps, n, n + 1, p, key);
    }
  }

  lemma GapStep(run: seq<State>, steps: seq<Step>, n: nat, p: nat, key: Key)
    requires IsRun(run, steps) && AtomicReads(steps) && n < |steps| && GapAccounted(run, steps, n, p, key)
    requires p < |run[n].processes| && Orderly(run[n].processes[p])
    ensures GapAccounted(run, steps, n + 1, p, key)
  {
    var s, step := run[n], steps[n];
    if HeldInGap(run[n + 1], p, key) {
      AnnouncedUnlessPublished(s, step, key);
      if HeldInGap(s, p, key) && run[n + 1].processes[p].cache[key] == s.processes[p].cache[key] {
        if HasMissed(run, steps, n, p, key) || Misses(s, step, p, key) {
          KeepsMissed(run, steps, n, p, key);
        }
      } else {
        AtomicRead(run, steps, n, key);
      }
    }
  }

  lemma {:induction false} GapRun(run: seq<State>, steps: seq<Step>, n: nat, p: nat, key: Key)
    requires IsRun(run, steps) && AtomicReads(steps) && n < |run|
    ensures |run[n].processes| == |run[0].processes| && GapAccounted(run, steps, n, p, key)
  {
    if n == 0 {
      assert forall i | 0 <= i < |run[0].processes| :: run[0].processes[i] in run[0].processes;
    } else {
      GapRun(run, steps, n - 1, p, key);
      OrderlyRun(run, steps, n - 1);
      if p < |run[n - 1].processes| {
        GapStep(run, steps, n - 1, p, key);
      }
    }
  }

  lemma {:induction false} LogsGrow(run: seq<State>, steps: seq<Step>, m: nat, n: nat, key: Key)
    requires IsRun(run, steps) && m <= n < |run|
    ensures Stamp(run[m], key) <= Stamp(run[n], key)
    decreases n
  {
    if m < n {
      LogsGrow(run, steps, m, n - 1, key);
    }
  }

  /** Subscribing strands a copy exactly when the process has missed a publishing of its key since it read
      the copy, after a change, and no further publishing is to come. */
  lemma SubscribeStrandsExactly(run: seq<State>, steps: seq<Step>, n: nat, key: Key)
    requires IsRun(run, steps) && AtomicReads(steps) && n < |steps| && steps[n].Subscribe?
    ensures Strands(run[n], steps[n], key)
       <==> HasMissed(run, steps, n, steps[n].p, key) && !Announced(run[n], key)
  {
    var p := steps[n].p;
    OrderlyRun(run, steps, n);
    assert Orderly(run[n].processes[p]);
    GapRun(run, steps, n, p, key);
    if HasMissed(run, steps, n, p, key) {
      var m: nat :| MissedAt(run, steps, m, n, p, key);
      RunIsTruthful(run, steps, m);
      LogsGrow(run, steps, m, n, key);
      assert Truthful(run[m], key, run[m].processes[p].cache[key]);
    }
  }

  /** With atomic reads, by publishings: a run stays in step exactly when no process subscribes that has
      missed a publishing of a key it holds, changed since it read it, with no further one to come. */
  lemma AtomicRunsByPublishings(run: seq<State>, steps: seq<Step>, key: Key)
    requires IsRun(run, steps) && AtomicReads(steps)
    ensures (forall n | 0 <= n < |run| :: InStep(run[n], key))
       <==> forall n | 0 <= n < |steps| && steps[n].Subscribe? ::
              HasMissed(run, steps, n, steps[n].p, key) ==> Announced(run[n], key)
  {
    AtomicRunsExactly(run, steps, key);
    forall n: nat | n < |steps| && steps[n].Subscribe?
      ensures Strands(run[n], steps[n], key)
         <==> HasMissed(run, steps, n, steps[n].p, key) && !Announced(run[n], key)
    {
      SubscribeStrandsExactly(run, steps, n, key);
    }
  }
}
