/** Schedules that keep the two-level cache coherent: reads that finish in time, and reads that store at once. */
module CacheSchedules {
  import opened Collections
  import opened MemoryCaches
  import opened CacheProtocol

  // ---------------------------------------------------------------- reads that finish in time

  /** No invalidation of the key passes a copy of it by: none is processed, lost or missed where a
      transfer of the key is on its way, and none is published while a process that is up but not
      subscribed holds the key. */
  ghost predicate Prompt(s: State, step: Step, key: Key)
    requires Enabled(s, step)
  {
    match step
    case Deliver(p) => s.processes[p].inbox[0] == One(key) ==> NoFill(s.processes[p], key)
    case Disconnect(p) => One(key) in s.processes[p].inbox ==> NoFill(s.processes[p], key)
    case DeleteInRedis(w) => s.writers[w].key == key ==> forall t | t in s.loads :: t.key != key
    case Publish(w) =>
      s.writers[w].key == key ==>
        forall i | 0 <= i < |s.processes| && s.processes[i].link != Subscribed ::
          NoFill(s.processes[i], key) && (s.processes[i].link == Up ==> key !in s.processes[i].cache)
    case _ => true
  }

  predicate NoFill(p: Process, key: Key) {
    forall t | t in p.fills :: t.key != key
  }

  ghost predicate Expected(s: State, p: Process, key: Key) {
    Announced(s, key) || One(key) in p.inbox
  }

  /** Copies on their way are in time as well. */
  ghost predicate RedisInTime(s: State, key: Key) {
    && (key in s.redis ==> Unchanged(s, key, s.redis[key]) || DeleteOwed(s, key))
    && (forall t | t in s.loads && t.key == key :: Unchanged(s, key, t.copy) || DeleteOwed(s, key))
  }

  /** A process without a connection since its start has nothing; one that is not subscribed has no messages. */
  predicate Orderly(p: Process) {
    && (p.serving ==> p.everConnected) && (!p.serving ==> p.cache == map[] && p.fills == [])
    && (p.link == Subscribed ==> p.serving) && (p.link != Down ==> p.everConnected)
    && (p.link != Subscribed ==> p.inbox == [])
  }

  ghost predicate MemoryInTime(s: State, p: Process, key: Key) {
    && Orderly(p)
    && (p.link != Down && key in p.cache ==> Unchanged(s, key, p.cache[key]) || Expected(s, p, key))
    && (forall t | t in p.fills && t.key == key :: Unchanged(s, key, t.copy) || Expected(s, p, key))
  }

  ghost predicate InTime(s: State, key: Key) {
    RedisInTime(s, key) && forall i | 0 <= i < |s.processes| :: MemoryInTime(s, s.processes[i], key)
  }

  lemma PromptRedisStep(s: State, step: Step, key: Key)
    requires Enabled(s, step) && RedisInTime(s, key) && Prompt(s, step, key)
    ensures RedisInTime(Next(s, step), key)
  {
    match step
    case Change(p, k, value) => ChangeAnnounces(s, p, k, value, key);
    case DeleteInRedis(w) =>
      if DeleteOwed(s, key) && s.writers[w].key != key {
        OwedElsewhere(s, w, Deleted, key);
      }
    case DeleteInMemory(w) =>
      if DeleteOwed(s, key) {
        OwedElsewhere(s, w, Cleared, key);
      }
    case Publish(w) => PublishRemoves(s, w, key);
    case FillRedis(l) => assert s.loads[l] in s.loads;
    case _ =>
  }

  lemma PromptBystander(s: State, step: Step, i: nat, key: Key)
    requires Enabled(s, step) && i < |s.processes| && MemoryInTime(s, s.processes[i], key) && Prompt(s, step, key)
    requires OfWriter(step)
    ensures MemoryInTime(Next(s, step), Next(s, step).processes[i], key)
  {
    var s', p := Next(s, step), s.processes[i];
    AnnouncedUnlessPublished(s, step, key);
    match step
    case Change(_, _, _) =>
    case DeleteInRedis(_) =>
    case DeleteInMemory(w) =>
      assert s'.processes[i] == p || s'.processes[i] == p.(cache := p.cache - {s.writers[w].key});
    case Publish(w) => PromptPublish(s, w, i, key);
    case PublishAll =>
      assert forall m | m in p.inbox :: m in p.inbox + [All];
  }

  lemma PromptPublish(s: State, w: nat, i: nat, key: Key)
    requires Enabled(s, Publish(w)) && i < |s.processes|
    requires MemoryInTime(s, s.processes[i], key) && Prompt(s, Publish(w), key)
    ensures MemoryInTime(Next(s, Publish(w)), Next(s, Publish(w)).processes[i], key)
  {
    PublishRemoves(s, w, key);
    var p := s.processes[i];
    if p.link == Subscribed {
      var m := One(s.writers[w].key);
      assert m in p.inbox + [m];
      assert forall x | x in p.inbox :: x in p.inbox + [m];
    }
  }

  lemma PromptDeliver(s: State, p: nat, key: Key)
    requires Enabled(s, Deliver(p)) && MemoryInTime(s, s.processes[p], key) && Prompt(s, Deliver(p), key)
    ensures MemoryInTime(Next(s, Deliver(p)), Next(s, Deliver(p)).processes[p], key)
  {
    var inbox := s.processes[p].inbox;
    assert forall m | m in inbox :: m == inbox[0] || m in inbox[1..];
  }

  lemma PromptFill(s: State, p: nat, f: nat, key: Key)
    requires Enabled(s, FillMemory(p, f)) && MemoryInTime(s, s.processes[p], key)
    ensures MemoryInTime(Next(s, FillMemory(p, f)), Next(s, FillMemory(p, f)).processes[p], key)
  {
    assert s.processes[p].fills[f] in s.processes[p].fills;
  }

  lemma PromptOwn(s: State, step: Step, key: Key)
    requires Enabled(s, step) && Prompt(s, step, key) && RedisInTime(s, key)
    requires OfProcess(step)
    requires MemoryInTime(s, s.processes[step.p], key)
    ensures MemoryInTime(Next(s, step), Next(s, step).processes[step.p], key)
  {
    match step
    case Deliver(p) => PromptDeliver(s, p, key);
    case FillMemory(p, f) => PromptFill(s, p, f, key);
    case ReadRedis(p, k) =>
    case _ =>
  }

  lemma PromptStep(s: State, step: Step, key: Key)
    requires Enabled(s, step) && Prompt(s, step, key) && InTime(s, key)
    ensures InTime(Next(s, step), key)
  {
    var s' := Next(s, step);
    PromptRedisStep(s, step, key);
    if OfWriter(step) {
      forall i | 0 <= i < |s'.processes| ensures MemoryInTime(s', s'.processes[i], key) {
        PromptBystander(s, step, i, key);
      }
    } else if OfProcess(step) {
      PromptOwn(s, step, key);
      OthersInTime(s, step, key);
    }
  }

  lemma OthersInTime(s: State, step: Step, key: Key)
    requires Enabled(s, step) && InTime(s, key) && OfProcess(step)
    ensures forall i | 0 <= i < |s.processes| && i != step.p ::
              MemoryInTime(Next(s, step), Next(s, step).processes[i], key)
  {
    var s' := Next(s, step);
    forall i | 0 <= i < |s.processes| && i != step.p ensures MemoryInTime(s', s'.processes[i], key) {
      assert s'.processes[i] == s.processes[i] && s'.writers == s.writers;
    }
  }

  lemma {:induction false} PromptRun(run: seq<State>, steps: seq<Step>, n: nat, key: Key)
    requires IsRun(run, steps) && n < |run|
    requires forall m | 0 <= m < |steps| :: Prompt(run[m], steps[m], key)
    ensures InTime(run[n], key)
  {
    if n == 0 {
      assert forall i | 0 <= i < |run[0].processes| :: run[0].processes[i] in run[0].processes;
    } else {
      PromptRun(run, steps, n - 1, key);
      PromptStep(run[n - 1], steps[n - 1], key);
    }
  }

  /** When no invalidation of the key passes a copy of it by, the key is coherent throughout. */
  lemma PromptRunsAreCoherent(run: seq<State>, steps: seq<Step>, n: nat, key: Key)
    requires IsRun(run, steps) && n < |run|
    requires forall m | 0 <= m < |steps| :: Prompt(run[m], steps[m], key)
    ensures Coherent(run[n], key)
  {
    PromptRun(run, steps, n, key);
    RunIsTruthful(run, steps, n);
    CoherentByChanges(run[n], key);
  }

  // ---------------------------------------------------------------- get-and-fill as one step

  /** Whatever a read fetched is stored by the very next step. */
  predicate AtomicReads(steps: seq<Step>) {
    forall n | 0 <= n < |steps| ::
      match steps[n]
      case ReadRedis(p, _) => n + 1 < |steps| && steps[n + 1] == FillMemory(p, 0)
      case ReadSource(_) => n + 1 < |steps| && steps[n + 1] == FillRedis(0)
      case _ => true
  }

  predicate NothingInTransit(s: State) {
    s.loads == [] && forall i | 0 <= i < |s.processes| :: s.processes[i].fills == []
  }

  /** What the read just made is all that is on its way. */
  predicate OneInTransit(s: State, read: Step) {
    match read
    case ReadRedis(p, key) =>
      && s.loads == [] && p < |s.processes| && |s.processes[p].fills| == 1
      && forall i | 0 <= i < |s.processes| && i != p :: s.processes[i].fills == []
    case ReadSource(_) => |s.loads| == 1 && forall i | 0 <= i < |s.processes| :: s.processes[i].fills == []
    case _ => false
  }

  lemma TransitStarts(s: State, step: Step)
    requires Enabled(s, step) && NothingInTransit(s)
    ensures NothingInTransit(Next(s, step)) || OneInTransit(Next(s, step), step)
  {
    var s' := Next(s, step);
    match step
    case ReadRedis(p, _) =>
      assert forall i | 0 <= i < |s.processes| && i != p :: s'.processes[i] == s.processes[i];
    case _ =>
  }

  lemma {:induction false} AtomicTransit(run: seq<State>, steps: seq<Step>, n: nat)
    requires IsRun(run, steps) && AtomicReads(steps) && n < |run|
    ensures NothingInTransit(run[n]) || (n > 0 && OneInTransit(run[n], steps[n - 1]))
  {
    if n == 0 {
      assert forall i | 0 <= i < |run[0].processes| :: run[0].processes[i] in run[0].processes;
    } else {
      AtomicTransit(run, steps, n - 1);
      if NothingInTransit(run[n - 1]) {
        TransitStarts(run[n - 1], steps[n - 1]);
      }
    }
  }

  lemma AtomicFill(run: seq<State>, steps: seq<Step>, n: nat, key: Key)
    requires IsRun(run, steps) && AtomicReads(steps) && n < |steps|
    requires steps[n].FillMemory? || steps[n].FillRedis?
    requires forall m | 0 <= m < n :: InStep(run[m], key)
    ensures !Strands(run[n], steps[n], key)
  {
    AtomicTransit(run, steps, n);
    if !NothingInTransit(run[n]) {
      AtomicTransit(run, steps, n - 1);
      assert steps[n - 1].ReadRedis? || steps[n - 1].ReadSource?;
    }
  }

  lemma {:induction false} AtomicInStep(run: seq<State>, steps: seq<Step>, n: nat, key: Key)
    requires IsRun(run, steps) && AtomicReads(steps) && n < |run|
    requires forall m | 0 <= m < |steps| && steps[m].Subscribe? :: !Strands(run[m], steps[m], key)
    ensures forall m | 0 <= m <= n :: InStep(run[m], key)
  {
    if n == 0 {
      StartsInStep(run[0], key);
    } else {
      AtomicInStep(run, steps, n - 1, key);
      if steps[n - 1].FillMemory? || steps[n - 1].FillRedis? {
        AtomicFill(run, steps, n - 1, key);
      }
      StepExactly(run[n - 1], steps[n - 1], key);
    }
  }

  /** With atomic reads only the gap of a reconnect can strand a copy: a run stays in step exactly when
      no process subscribes while it holds a copy changed since it was read, and no writer is left to
      publish it. Such a run is coherent. */
  lemma AtomicRunsExactly(run: seq<State>, steps: seq<Step>, key: Key)
    requires IsRun(run, steps) && AtomicReads(steps)
    ensures (forall n | 0 <= n < |run| :: InStep(run[n], key))
       <==> (forall n | 0 <= n < |steps| && steps[n].Subscribe? :: !Strands(run[n], steps[n], key))
    ensures (forall n | 0 <= n < |steps| && steps[n].Subscribe? :: !Strands(run[n], steps[n], key)) ==>
              forall n | 0 <= n < |run| :: Coherent(run[n], key)
  {
    if forall n | 0 <= n < |steps| && steps[n].Subscribe? :: !Strands(run[n], steps[n], key) {
      AtomicInStep(run, steps, |steps|, key);
    }
    RunInStepExactly(run, steps, key);
    RunCoherentExactly(run, steps, key);
  }

  /** A process that is up but not yet subscribed holds the key while it is published. */
  ghost predicate Missed(s: State, step: Step, key: Key)
    requires Enabled(s, step)
  {
    && step.Publish? && s.writers[step.w].key == key
    && exists i :: 0 <= i < |s.processes| && s.processes[i].link == Up && key in s.processes[i].cache
  }

  lemma AtomicIsPrompt(run: seq<State>, steps: seq<Step>, n: nat, key: Key)
    requires IsRun(run, steps) && AtomicReads(steps) && n < |steps|
    requires !Missed(run[n], steps[n], key)
    ensures Prompt(run[n], steps[n], key)
  {
    AtomicTransit(run, steps, n);
    if n > 0 && OneInTransit(run[n], steps[n - 1]) {
      assert steps[n].FillMemory? || steps[n].FillRedis?;
    }
  }

  /** With atomic reads a key is coherent throughout when no publishing of it falls into the gap of a
      process that has read it since it was cleared. */
  lemma AtomicRunsAreCoherent(run: seq<State>, steps: seq<Step>, n: nat, key: Key)
    requires IsRun(run, steps) && AtomicReads(steps) && n < |run|
    requires forall m | 0 <= m < |steps| :: !Missed(run[m], steps[m], key)
    ensures Coherent(run[n], key)
  {
    forall m | 0 <= m < |steps| ensures Prompt(run[m], steps[m], key) {
      AtomicIsPrompt(run, steps, m, key);
    }
    PromptRunsAreCoherent(run, steps, n, key);
  }
}
