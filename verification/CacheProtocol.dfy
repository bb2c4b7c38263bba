/** The two-level cache as a protocol. Any number of processes keep values in memory (level one) in
    front of one shared Redis (level two), which is filled from the database (the source). A writer
    changes the source, deletes the Redis key, deletes its own copy and publishes the key; every
    other subscribed process deletes its copy when the message reaches it.

    Every `await` separates two steps, so a value may be on its way into a cache while its key is
    being invalidated. A process whose connection was lost clears its memory when it is up again and
    is subscribed only some time later; it serves reads all the while. */
module CacheProtocol {
  import opened Collections
  import opened MemoryCaches

  type Value = string

  /** `stamp` is history: how often the key's row had been changed when the value was read. */
  datatype Copy = Copy(value: Value, stamp: nat)

  /** A value on its way: from Redis into the memory of a process, or from the source into Redis. */
  datatype Transfer = Transfer(key: Key, copy: Copy)

  /** No connection; connected and cleared; subscribed to the channel. */
  datatype Link = Down | Up | Subscribed

  datatype Process = Process(
    cache: map<Key, Copy>, everConnected: bool, serving: bool, link: Link,
    inbox: seq<Message>, fills: seq<Transfer>)

  /** How far `del` has got: source changed; Redis key deleted; own copy deleted. */
  datatype Phase = Owed | Deleted | Cleared
  datatype Writer = Writer(process: nat, key: Key, phase: Phase)

  /** `past` is history: the earlier states of a key's row. */
  datatype State = State(
    source: map<Key, Value>, past: map<Key, seq<Option<Value>>>, redis: map<Key, Copy>,
    processes: seq<Process>, writers: seq<Writer>, loads: seq<Transfer>)

  datatype Step =
    | Change(p: nat, key: Key, value: Option<Value>) // the database row is written or removed
    | DeleteInRedis(w: nat)
    | DeleteInMemory(w: nat)
    | Publish(w: nat)
    | PublishAll
    | Deliver(p: nat)
    | ReadRedis(p: nat, key: Key)  // a read missed in memory and found the key in Redis
    | FillMemory(p: nat, f: nat)
    | ReadSource(key: Key)         // a read missed in Redis too and asked the database
    | FillRedis(l: nat)
    | ExpireInRedis(key: Key)
    | EvictFromMemory(p: nat, key: Key)
    | Disconnect(p: nat)
    | Ready(p: nat)
    | Subscribe(p: nat)

  // ---------------------------------------------------------------- steps

  function Without<T>(s: seq<T>, i: nat): (r: seq<T>)
    requires i < |s|
    ensures forall x | x in r :: x in s
    ensures forall x | x in s && x != s[i] :: x in r
  {
    forall x | x in s && x != s[i] ensures x in s[..i] + s[i + 1..] {
      var j :| 0 <= j < |s| && s[j] == x;
      assert (s[..i] + s[i + 1..])[if j < i then j else j - 1] == x;
    }
    s[..i] + s[i + 1..]
  }

  function Received(p: Process, m: Message): Process {
    if p.link == Subscribed then p.(inbox := p.inbox + [m]) else p
  }

  function Broadcast(ps: seq<Process>, m: Message): (r: seq<Process>)
    ensures |r| == |ps| && forall i | 0 <= i < |ps| :: r[i] == Received(ps[i], m)
  {
    seq(|ps|, i requires 0 <= i < |ps| => Received(ps[i], m))
  }

  function Delivered(p: Process): Process
    requires p.inbox != []
  {
    p.(cache := AfterMessage(p.cache, p.inbox[0]), inbox := p.inbox[1..])
  }

  function Readied(p: Process): Process {
    p.(cache := AfterReady(p.cache, p.everConnected), everConnected := true, link := Up)
  }

  function Filled(p: Process, f: nat): Process
    requires f < |p.fills|
  {
    p.(cache := p.cache[p.fills[f].key := p.fills[f].copy], fills := Without(p.fills, f))
  }

  function RowOf(s: State, key: Key): Option<Value> {
    if key in s.source then Some(s.source[key]) else None
  }

  /** All states of a key's row so far, the present one last. */
  function Log(s: State, key: Key): (r: seq<Option<Value>>)
    ensures |r| > 0
  {
    (if key in s.past then s.past[key] else []) + [RowOf(s, key)]
  }

  function Stamp(s: State, key: Key): nat {
    |Log(s, key)| - 1
  }

  predicate Enabled(s: State, step: Step) {
    match step
    case Change(p, _, _) => p < |s.processes|
    case DeleteInRedis(w) => w < |s.writers| && s.writers[w].phase == Owed
    case DeleteInMemory(w) =>
      w < |s.writers| && s.writers[w].phase == Deleted && s.writers[w].process < |s.processes|
    case Publish(w) => w < |s.writers| && s.writers[w].phase == Cleared
    case PublishAll => true
    case Deliver(p) => p < |s.processes| && s.processes[p].link == Subscribed && s.processes[p].inbox != []
    // reads are served once the first subscription, which start-up waits for, is there
    case ReadRedis(p, key) =>
      p < |s.processes| && s.processes[p].serving && key !in s.processes[p].cache && key in s.redis
    case FillMemory(p, f) => p < |s.processes| && f < |s.processes[p].fills|
    case ReadSource(key) => key in s.source
    case FillRedis(l) => l < |s.loads|
    case ExpireInRedis(_) => true
    case EvictFromMemory(p, _) => p < |s.processes|
    case Disconnect(p) => p < |s.processes| && s.processes[p].link != Down
    case Ready(p) => p < |s.processes| && s.processes[p].link == Down
    case Subscribe(p) => p < |s.processes| && s.processes[p].link == Up
  }

  function WithProcess(s: State, p: nat, q: Process): State
    requires p < |s.processes|
  {
    s.(processes := s.processes[p := q])
  }

  function Next(s: State, step: Step): State
    requires Enabled(s, step)
  {
    match step
    case Change(p, key, value) =>
      s.(source := if value.Some? then s.source[key := value.value] else s.source - {key},
         past := s.past[key := Log(s, key)],
         writers := s.writers + [Writer(p, key, Owed)])
    case DeleteInRedis(w) =>
      s.(redis := s.redis - {s.writers[w].key}, writers := s.writers[w := s.writers[w].(phase := Deleted)])
    case DeleteInMemory(w) =>
      var writer := s.writers[w];
      var p := s.processes[writer.process];
      WithProcess(s.(writers := s.writers[w := writer.(phase := Cleared)]),
                  writer.process, p.(cache := p.cache - {writer.key}))
    case Publish(w) =>
      s.(processes := Broadcast(s.processes, One(s.writers[w].key)), writers := Without(s.writers, w))
    case PublishAll => s.(processes := Broadcast(s.processes, All))
    case Deliver(p) => WithProcess(s, p, Delivered(s.processes[p]))
    case ReadRedis(p, key) =>
      WithProcess(s, p, s.processes[p].(fills := s.processes[p].fills + [Transfer(key, s.redis[key])]))
    case FillMemory(p, f) => WithProcess(s, p, Filled(s.processes[p], f))
    case ReadSource(key) => s.(loads := s.loads + [Transfer(key, Copy(s.source[key], Stamp(s, key)))])
    case FillRedis(l) => s.(redis := s.redis[s.loads[l].key := s.loads[l].copy], loads := Without(s.loads, l))
    case ExpireInRedis(key) => s.(redis := s.redis - {key})
    case EvictFromMemory(p, key) =>
      WithProcess(s, p, s.processes[p].(cache := s.processes[p].cache - {key}))
    case Disconnect(p) => WithProcess(s, p, s.processes[p].(link := Down, inbox := []))
    case Ready(p) => WithProcess(s, p, Readied(s.processes[p]))
    case Subscribe(p) => WithProcess(s, p, s.processes[p].(link := Subscribed, serving := true))
  }

  predicate Initial(s: State) {
    && s.past == map[] && s.redis == map[] && s.writers == [] && s.loads == []
    && forall p | p in s.processes :: p == Process(map[], false, false, Down, [], [])
  }

  ghost predicate IsRun(run: seq<State>, steps: seq<Step>) {
    && |run| == |steps| + 1
    && Initial(run[0])
    && forall n | 0 <= n < |steps| :: Enabled(run[n], steps[n]) && run[n + 1] == Next(run[n], steps[n])
  }

  // ---------------------------------------------------------------- coherence, key by key

  /** The value is the source's. */
  predicate Current(s: State, key: Key, copy: Copy) {
    RowOf(s, key) == Some(copy.value)
  }

  /** The key was not changed since the copy was read. */
  predicate Unchanged(s: State, key: Key, copy: Copy) {
    copy.stamp == Stamp(s, key)
  }

  /** Some writer still has to delete the key in Redis. */
  ghost predicate DeleteOwed(s: State, key: Key) {
    exists w | w in s.writers :: w.key == key && w.phase == Owed
  }

  /** Some writer still has to publish the key. */
  ghost predicate Announced(s: State, key: Key) {
    exists w | w in s.writers :: w.key == key
  }

  /** An invalidation of the key has yet to reach the process: unpublished, or in its queue. */
  ghost predicate Pending(s: State, p: Process, key: Key) {
    Announced(s, key) || One(key) in p.inbox || All in p.inbox
  }

  /** Whatever Redis and the memories of subscribed processes hold under the key is the source's value,
      or an invalidation is on its way to it. */
  ghost predicate Coherent(s: State, key: Key) {
    && (key in s.redis ==> Current(s, key, s.redis[key]) || DeleteOwed(s, key))
    && (forall p | p in s.processes && p.link == Subscribed && key in p.cache ::
          Current(s, key, p.cache[key]) || Pending(s, p, key))
  }

  ghost predicate RedisInStep(s: State, key: Key) {
    key in s.redis ==> Unchanged(s, key, s.redis[key]) || DeleteOwed(s, key)
  }

  ghost predicate MemoryInStep(s: State, p: Process, key: Key) {
    p.link == Subscribed && key in p.cache ==> Unchanged(s, key, p.cache[key]) || Pending(s, p, key)
  }

  /** The same by changes in place of values. */
  ghost predicate InStep(s: State, key: Key) {
    RedisInStep(s, key) && forall i | 0 <= i < |s.processes| :: MemoryInStep(s, s.processes[i], key)
  }

  /** The step leaves a copy of the key behind that nothing will remove: it stores a value read before a
      change of the key, or subscribes a process that holds one, when no writer has the key still to
      delete (in Redis) or to publish, and no message is queued. */
  ghost predicate Strands(s: State, step: Step, key: Key)
    requires Enabled(s, step)
  {
    match step
    case FillMemory(p, f) =>
      var q := s.processes[p];
      && q.fills[f].key == key && q.link == Subscribed
      && !Unchanged(s, key, q.fills[f].copy) && !Pending(s, q, key)
    case FillRedis(l) => s.loads[l].key == key && !Unchanged(s, key, s.loads[l].copy) && !DeleteOwed(s, key)
    case Subscribe(p) =>
      var q := s.processes[p];
      key in q.cache && !Unchanged(s, key, q.cache[key]) && !Pending(s, q, key)
    case _ => false
  }

  // How the pending work moves along a step.

  lemma WriterAdvances(s: State, w: nat, phase: Phase, key: Key)
    requires w < |s.writers|
    ensures Announced(s.(writers := s.writers[w := s.writers[w].(phase := phase)]), key) <==> Announced(s, key)
  {
    var ws := s.writers[w := s.writers[w].(phase := phase)];
    if Announced(s, key) {
      var x :| x in s.writers && x.key == key;
      var i :| 0 <= i < |s.writers| && s.writers[i] == x;
      assert ws[i] in ws && ws[i].key == key;
    }
    if Announced(s.(writers := ws), key) {
      var x :| x in ws && x.key == key;
      var i :| 0 <= i < |ws| && ws[i] == x;
      assert s.writers[i] in s.writers && s.writers[i].key == key;
    }
  }

  lemma OwedElsewhere(s: State, w: nat, phase: Phase, key: Key)
    requires w < |s.writers| && DeleteOwed(s, key)
    requires s.writers[w].key != key || s.writers[w].phase != Owed
    ensures DeleteOwed(s.(writers := s.writers[w := s.writers[w].(phase := phase)]), key)
  {
    var ws := s.writers[w := s.writers[w].(phase := phase)];
    var x :| x in s.writers && x.key == key && x.phase == Owed;
    var i :| 0 <= i < |s.writers| && s.writers[i] == x;
    assert ws[i] == x && x in ws;
  }

  lemma ChangeAnnounces(s: State, p: nat, key: Key, value: Option<Value>, k: Key)
    requires Enabled(s, Change(p, key, value))
    ensures var s' := Next(s, Change(p, key, value));
            && (DeleteOwed(s', k) <==> DeleteOwed(s, k) || k == key)
            && (Announced(s', k) <==> Announced(s, k) || k == key)
  {
  }

  lemma AnnouncedUnlessPublished(s: State, step: Step, key: Key)
    requires Enabled(s, step)
    ensures Announced(s, key) && !(step.Publish? && s.writers[step.w].key == key) ==> Announced(Next(s, step), key)
    ensures step.Change? && step.key == key ==> Announced(Next(s, step), key)
  {
    match step
    case Change(p, k, value) => ChangeAnnounces(s, p, k, value, key);
    case DeleteInRedis(w) => WriterAdvances(s, w, Deleted, key);
    case DeleteInMemory(w) => WriterAdvances(s, w, Cleared, key);
    case Publish(w) => PublishRemoves(s, w, key);
    case _ =>
  }

  lemma PublishRemoves(s: State, w: nat, key: Key)
    requires Enabled(s, Publish(w))
    ensures DeleteOwed(Next(s, Publish(w)), key) <==> DeleteOwed(s, key)
    ensures s.writers[w].key != key ==> (Announced(Next(s, Publish(w)), key) <==> Announced(s, key))
  {
  }

  // ---------------------------------------------------------------- one step

  predicate OfWriter(step: Step) {
    step.Change? || step.DeleteInRedis? || step.DeleteInMemory? || step.Publish? || step.PublishAll?
  }

  predicate OfProcess(step: Step) {
    || step.Deliver? || step.ReadRedis? || step.FillMemory? || step.EvictFromMemory?
    || step.Disconnect? || step.Ready? || step.Subscribe?
  }

  lemma RedisStep(s: State, step: Step, key: Key)
    requires Enabled(s, step) && RedisInStep(s, key)
    ensures RedisInStep(Next(s, step), key) <==> !(step.FillRedis? && Strands(s, step, key))
  {
    match step
    case Change(p, k, value) => ChangeAnnounces(s, p, k, value, key);
    case DeleteInRedis(w) =>
      if DeleteOwed(s, key) && s.writers[w].key != key {
        OwedElsewhere(s, w, Deleted, key);
      }
    case DeleteInMemory(w) =>
      if DeleteOwed(s, key) {
        OwedElsewhere(s, w, Cleared, key);
      }
    case Publish(w) => PublishRemoves(s, w, key);
    case _ =>
  }

  /** A process that the step leaves as it is, apart from a message. */
  lemma BystanderStep(s: State, step: Step, i: nat, key: Key)
    requires Enabled(s, step) && i < |s.processes| && MemoryInStep(s, s.processes[i], key)
    requires OfWriter(step)
    ensures MemoryInStep(Next(s, step), Next(s, step).processes[i], key)
  {
    match step
    case Change(p, k, value) => ChangeAnnounces(s, p, k, value, key);
    case DeleteInRedis(w) => WriterAdvances(s, w, Deleted, key);
    case DeleteInMemory(w) => WriterAdvances(s, w, Cleared, key);
    case Publish(w) => PublishStep(s, w, i, key);
    case PublishAll =>
  }

  lemma PublishStep(s: State, w: nat, i: nat, key: Key)
    requires Enabled(s, Publish(w)) && i < |s.processes| && MemoryInStep(s, s.processes[i], key)
    ensures MemoryInStep(Next(s, Publish(w)), Next(s, Publish(w)).processes[i], key)
  {
  }

  lemma DeliverStep(s: State, p: nat, key: Key)
    requires Enabled(s, Deliver(p)) && MemoryInStep(s, s.processes[p], key)
    ensures MemoryInStep(Next(s, Deliver(p)), Next(s, Deliver(p)).processes[p], key)
  {
  }

  /** A step of one process. */
  lemma OwnStep(s: State, step: Step, key: Key)
    requires Enabled(s, step)
    requires OfProcess(step)
    requires MemoryInStep(s, s.processes[step.p], key)
    ensures MemoryInStep(Next(s, step), Next(s, step).processes[step.p], key) <==> !Strands(s, step, key)
  {
    match step
    case Deliver(p) => DeliverStep(s, p, key);
    case _ =>
  }

  /** A key stays in step along a step exactly when the step strands no copy of it. */
  lemma StepExactly(s: State, step: Step, key: Key)
    requires Enabled(s, step) && InStep(s, key)
    ensures InStep(Next(s, step), key) <==> !Strands(s, step, key)
  {
    RedisStep(s, step, key);
    if OfWriter(step) {
      Bystanders(s, step, key);
    } else if OfProcess(step) {
      OwnStep(s, step, key);
      OthersInStep(s, step, key);
    }
  }

  lemma OthersInStep(s: State, step: Step, key: Key)
    requires Enabled(s, step) && InStep(s, key) && OfProcess(step)
    ensures forall i | 0 <= i < |s.processes| && i != step.p ::
            MemoryInStep(Next(s, step), Next(s, step).processes[i], key)
  {
    assert forall i | 0 <= i < |s.processes| && i != step.p :: Next(s, step).processes[i] == s.processes[i];
  }

  lemma Bystanders(s: State, step: Step, key: Key)
    requires Enabled(s, step) && InStep(s, key)
    requires OfWriter(step)
    ensures forall i | 0 <= i < |Next(s, step).processes| ::
            MemoryInStep(Next(s, step), Next(s, step).processes[i], key)
  {
    forall i | 0 <= i < |Next(s, step).processes|
      ensures MemoryInStep(Next(s, step), Next(s, step).processes[i], key)
    {
      BystanderStep(s, step, i, key);
    }
  }

  // ---------------------------------------------------------------- whole runs

  lemma StartsInStep(s: State, key: Key)
    requires Initial(s)
    ensures InStep(s, key)
  {
    assert forall i | 0 <= i < |s.processes| :: s.processes[i] in s.processes;
  }

  lemma {:induction false} NotStranded(run: seq<State>, steps: seq<Step>, n: nat, key: Key)
    requires IsRun(run, steps) && n < |run|
    requires forall m | 0 <= m < n :: !Strands(run[m], steps[m], key)
    ensures InStep(run[n], key)
  {
    if n == 0 {
      StartsInStep(run[0], key);
    } else {
      NotStranded(run, steps, n - 1, key);
      StepExactly(run[n - 1], steps[n - 1], key);
    }
  }

  /** A key is in step throughout a run exactly when no step of the run strands a copy of it. */
  lemma RunInStepExactly(run: seq<State>, steps: seq<Step>, key: Key)
    requires IsRun(run, steps)
    ensures (forall n | 0 <= n < |run| :: InStep(run[n], key))
       <==> (forall n | 0 <= n < |steps| :: !Strands(run[n], steps[n], key))
  {
    if forall n | 0 <= n < |steps| :: !Strands(run[n], steps[n], key) {
      forall n | 0 <= n < |run| ensures InStep(run[n], key) {
        NotStranded(run, steps, n, key);
      }
    } else {
      var n :| 0 <= n < |steps| && Strands(run[n], steps[n], key);
      if InStep(run[n], key) {
        StepExactly(run[n], steps[n], key);
        assert !InStep(run[n + 1], key);
      }
    }
  }

  // Stamps tell the truth: a copy holds the value that the row had when it had been changed that often.

  predicate Truthful(s: State, key: Key, copy: Copy) {
    copy.stamp < |Log(s, key)| && Log(s, key)[copy.stamp] == Some(copy.value)
  }

  ghost predicate AllTruthful(s: State) {
    && (forall k | k in s.redis :: Truthful(s, k, s.redis[k]))
    && (forall t | t in s.loads :: Truthful(s, t.key, t.copy))
    && (forall i, k | 0 <= i < |s.processes| && k in s.processes[i].cache :: Truthful(s, k, s.processes[i].cache[k]))
    && (forall i, t | 0 <= i < |s.processes| && t in s.processes[i].fills :: Truthful(s, t.key, t.copy))
  }

  lemma TruthStays(s: State, step: Step, key: Key, copy: Copy)
    requires Enabled(s, step) && Truthful(s, key, copy)
    ensures Truthful(Next(s, step), key, copy)
  {
  }

  /** What a step leaves in the caches and under way was there before, or was read just now. */
  lemma NothingInvented(s: State, step: Step)
    requires Enabled(s, step)
    ensures var s' := Next(s, step);
            && (forall k | k in s'.redis ::
                  (k in s.redis && s'.redis[k] == s.redis[k]) || Transfer(k, s'.redis[k]) in s.loads)
            && (forall t | t in s'.loads ::
                  t in s.loads || (t.key in s.source && t.copy == Copy(s.source[t.key], Stamp(s, t.key))))
            && |s'.processes| == |s.processes|
  {
  }

  lemma NothingInventedInMemory(s: State, step: Step, i: nat)
    requires Enabled(s, step) && i < |s.processes|
    ensures var p, p' := s.processes[i], Next(s, step).processes[i];
            && (forall k | k in p'.cache ::
                (k in p.cache && p'.cache[k] == p.cache[k]) || Transfer(k, p'.cache[k]) in p.fills)
            && (forall t | t in p'.fills :: t in p.fills || (t.key in s.redis && t.copy == s.redis[t.key]))
  {
    match step
    case FillMemory(p, f) => assert s.processes[p].fills[f] in s.processes[p].fills;
    case _ =>
  }

  lemma JustRead(s: State, key: Key)
    requires key in s.source
    ensures Truthful(s, key, Copy(s.source[key], Stamp(s, key)))
  {
  }

  lemma StepIsTruthful(s: State, step: Step)
    requires Enabled(s, step) && AllTruthful(s)
    ensures AllTruthful(Next(s, step))
  {
    var s' := Next(s, step);
    NothingInvented(s, step);
    forall k | k in s'.redis ensures Truthful(s', k, s'.redis[k]) {
      assert Truthful(s, k, s'.redis[k]) by {
        if !(k in s.redis && s'.redis[k] == s.redis[k]) {
          assert Transfer(k, s'.redis[k]) in s.loads;
        }
      }
      TruthStays(s, step, k, s'.redis[k]);
    }
    forall t | t in s'.loads ensures Truthful(s', t.key, t.copy) {
      if t !in s.loads {
        JustRead(s, t.key);
      }
      TruthStays(s, step, t.key, t.copy);
    }
    forall i, k | 0 <= i < |s'.processes| && k in s'.processes[i].cache
      ensures Truthful(s', k, s'.processes[i].cache[k])
    {
      NothingInventedInMemory(s, step, i);
      var copy := s'.processes[i].cache[k];
      assert Truthful(s, k, copy) by {
        if !(k in s.processes[i].cache && s.processes[i].cache[k] == copy) {
          assert Transfer(k, copy) in s.processes[i].fills;
        }
      }
      TruthStays(s, step, k, copy);
    }
    forall i, t | 0 <= i < |s'.processes| && t in s'.processes[i].fills ensures Truthful(s', t.key, t.copy) {
      NothingInventedInMemory(s, step, i);
      TruthStays(s, step, t.key, t.copy);
    }
  }

  lemma {:induction false} RunIsTruthful(run: seq<State>, steps: seq<Step>, n: nat)
    requires IsRun(run, steps) && n < |run|
    ensures AllTruthful(run[n])
  {
    if n == 0 {
      assert forall i | 0 <= i < |run[0].processes| :: run[0].processes[i] in run[0].processes;
    } else {
      RunIsTruthful(run, steps, n - 1);
      StepIsTruthful(run[n - 1], steps[n - 1]);
    }
  }

  /** No write brings back a value that the row has had before. */
  ghost predicate FreshWrites(run: seq<State>, steps: seq<Step>, key: Key)
    requires |run| == |steps| + 1
  {
    forall n | 0 <= n < |steps| ::
      match steps[n]
      case Change(_, k, Some(value)) => k == key ==> Some(value) !in Log(run[n], key)
      case _ => true
  }

  ghost predicate NeverTwice(log: seq<Option<Value>>) {
    forall i, j | 0 <= i < j < |log| && log[j].Some? :: log[i] != log[j]
  }

  lemma {:induction false} FreshLog(run: seq<State>, steps: seq<Step>, n: nat, key: Key)
    requires IsRun(run, steps) && n < |run| && FreshWrites(run, steps, key)
    ensures NeverTwice(Log(run[n], key))
  {
    if n > 0 {
      FreshLog(run, steps, n - 1, key);
      var step := steps[n - 1];
      if step.Change? && step.key == key && step.value.Some? {
        assert step.value !in Log(run[n - 1], key);
      }
    }
  }

  /** By values: an unchanged copy is current, and a changed one is not if no value comes back. */
  lemma CurrentIsUnchanged(s: State, key: Key, copy: Copy)
    requires Truthful(s, key, copy)
    ensures Unchanged(s, key, copy) ==> Current(s, key, copy)
    ensures NeverTwice(Log(s, key)) ==> (Current(s, key, copy) <==> Unchanged(s, key, copy))
  {
    assert Log(s, key)[Stamp(s, key)] == RowOf(s, key);
  }

  lemma MemoryByChanges(s: State, i: nat, key: Key)
    requires AllTruthful(s) && i < |s.processes| && key in s.processes[i].cache
    ensures var copy := s.processes[i].cache[key];
            && (Unchanged(s, key, copy) ==> Current(s, key, copy))
            && (NeverTwice(Log(s, key)) ==> (Current(s, key, copy) <==> Unchanged(s, key, copy)))
  {
    CurrentIsUnchanged(s, key, s.processes[i].cache[key]);
  }

  lemma CoherentByChanges(s: State, key: Key)
    requires AllTruthful(s)
    ensures InStep(s, key) ==> Coherent(s, key)
    ensures NeverTwice(Log(s, key)) && Coherent(s, key) ==> InStep(s, key)
  {
    if key in s.redis {
      CurrentIsUnchanged(s, key, s.redis[key]);
    }
    if InStep(s, key) {
      forall p | p in s.processes && p.link == Subscribed && key in p.cache
        ensures Current(s, key, p.cache[key]) || Pending(s, p, key)
      {
        var i: nat :| i < |s.processes| && s.processes[i] == p;
        MemoryByChanges(s, i, key);
        assert MemoryInStep(s, s.processes[i], key);
      }
    }
    if NeverTwice(Log(s, key)) && Coherent(s, key) {
      forall i: nat | i < |s.processes| ensures MemoryInStep(s, s.processes[i], key) {
        assert s.processes[i] in s.processes;
        if key in s.processes[i].cache {
          MemoryByChanges(s, i, key);
        }
      }
    }
  }

  /** A run in which no step strands a copy of the key is coherent throughout. For runs whose writes
      bring no value back the converse holds as well. */
  lemma RunCoherentExactly(run: seq<State>, steps: seq<Step>, key: Key)
    requires IsRun(run, steps)
    ensures (forall n | 0 <= n < |steps| :: !Strands(run[n], steps[n], key)) ==>
              forall n | 0 <= n < |run| :: Coherent(run[n], key)
    ensures FreshWrites(run, steps, key) ==>
              ((forall n | 0 <= n < |run| :: Coherent(run[n], key))
               <==> forall n | 0 <= n < |steps| :: !Strands(run[n], steps[n], key))
  {
    RunInStepExactly(run, steps, key);
    forall n | 0 <= n < |run|
      ensures InStep(run[n], key) ==> Coherent(run[n], key)
      ensures FreshWrites(run, steps, key) ==> (Coherent(run[n], key) <==> InStep(run[n], key))
    {
      RunIsTruthful(run, steps, n);
      CoherentByChanges(run[n], key);
      if FreshWrites(run, steps, key) {
        FreshLog(run, steps, n, key);
      }
    }
  }

  /** Every outdated hit of a subscribed process whose invalidation is not on its way goes back to an
      earlier step that stranded a copy of the key. */
  lemma OutdatedHitWasStranded(run: seq<State>, steps: seq<Step>, n: nat, i: nat, key: Key)
    requires IsRun(run, steps) && n < |run| && i < |run[n].processes|
    requires run[n].processes[i].link == Subscribed && key in run[n].processes[i].cache
    requires !Current(run[n], key, run[n].processes[i].cache[key]) && !Pending(run[n], run[n].processes[i], key)
    ensures exists m :: 0 <= m < n && Strands(run[m], steps[m], key)
  {
    if forall m | 0 <= m < n :: !Strands(run[m], steps[m], key) {
      RunIsTruthful(run, steps, n);
      MemoryByChanges(run[n], i, key);
      NotStranded(run, steps, n, key);
    }
  }
}
