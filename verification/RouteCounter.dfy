/** Request counters: every API process counts in memory and now and then adds its counts to one
    Redis hash. A flush is asynchronous: its first step drains the counters, its second step learns
    whether the pipeline resolved or rejected, and requests are counted in between. */
module RouteCounters {
  type Key = string

  datatype Delta = Delta(field: Key, delta: nat)

  /** One process. Every entry of `flights` is a flush suspended at `await pipe.exec()`. */
  datatype Instance = Instance(
    keys: seq<Key>, counts: seq<nat>, slotByKey: map<Key, nat>,
    isFlushing: bool, flights: seq<seq<Delta>>)

  /** `made` is history: every increment made so far, by key. */
  datatype State = State(redis: map<Key, nat>, instances: seq<Instance>, made: multiset<Key>)

  // ---------------------------------------------------------------- what each step does

  function Registered(s: Instance, key: Key): Instance {
    if key in s.slotByKey then s
    else s.(keys := s.keys + [key], counts := s.counts + [0], slotByKey := s.slotByKey[key := |s.keys|])
  }

  function Incremented(s: Instance, slot: nat): Instance
    requires slot < |s.counts|
  {
    s.(counts := s.counts[slot := s.counts[slot] + 1])
  }

  /** The non-zero counters from slot i on, in slot order. */
  function Drained(keys: seq<Key>, counts: seq<nat>, i: nat): seq<Delta>
    requires i <= |counts| <= |keys|
    decreases |counts| - i
  {
    if i == |counts| then []
    else (if counts[i] > 0 then [Delta(keys[i], counts[i])] else []) + Drained(keys, counts, i + 1)
  }

  function FlushStarted(s: Instance): Instance
    requires |s.counts| <= |s.keys|
  {
    var drained := Drained(s.keys, s.counts, 0);
    if s.isFlushing || drained == [] then s
    else s.(counts := seq(|s.counts|, _ => 0), isFlushing := true, flights := s.flights + [drained])
  }

  function GivenBack(counts: seq<nat>, slotByKey: map<Key, nat>, drained: seq<Delta>): (r: seq<nat>)
    requires forall d | d in drained :: d.field in slotByKey && slotByKey[d.field] < |counts|
    ensures |r| == |counts|
    decreases |drained|
  {
    if drained == [] then counts
    else
      var slot := slotByKey[drained[0].field];
      GivenBack(counts[slot := counts[slot] + drained[0].delta], slotByKey, drained[1..])
  }

  function FlushEnded(s: Instance, flight: nat, resolved: bool): Instance
    requires flight < |s.flights|
    requires forall d | d in s.flights[flight] :: d.field in s.slotByKey && s.slotByKey[d.field] < |s.counts|
  {
    s.(counts := if resolved then s.counts else GivenBack(s.counts, s.slotByKey, s.flights[flight]),
       isFlushing := false,
       flights := s.flights[..flight] + s.flights[flight + 1..])
  }

  function Stored(redis: map<Key, nat>, key: Key): nat {
    if key in redis then redis[key] else 0
  }

  /** HINCRBY for every drained field that Redis really applied. */
  function Applied(redis: map<Key, nat>, drained: seq<Delta>, applied: set<Key>): map<Key, nat>
    decreases |drained|
  {
    if drained == [] then redis
    else
      var Delta(field, delta) := drained[0];
      var next := if field in applied then redis[field := Stored(redis, field) + delta] else redis;
      Applied(next, drained[1..], applied)
  }

  // ---------------------------------------------------------------- the step system

  datatype Step =
    | Register(i: nat, key: Key)
    | Increment(i: nat, slot: nat)
    | StartFlush(i: nat)
    | EndFlush(i: nat, flight: nat, resolved: bool, applied: set<Key>)

  predicate Enabled(s: State, step: Step) {
    && step.i < |s.instances|
    && var p := s.instances[step.i];
    match step
    case Register(_, _) => true
    case Increment(_, slot) => slot < |p.counts|
    case StartFlush(_) => true
    case EndFlush(_, flight, _, _) => flight < |p.flights|
  }

  ghost predicate InstanceOk(p: Instance) {
    && |p.keys| == |p.counts|
    && (forall k | k in p.slotByKey :: p.slotByKey[k] < |p.keys| && p.keys[p.slotByKey[k]] == k)
    && (forall i | 0 <= i < |p.keys| :: p.keys[i] in p.slotByKey && p.slotByKey[p.keys[i]] == i)
    && |p.flights| <= 1
    && p.isFlushing == (p.flights != [])
    && (forall f, d: Delta | f in p.flights && d in f :: d.field in p.slotByKey)
    && (forall f: seq<Delta>, i, j | f in p.flights && 0 <= i < j < |f| :: f[i].field != f[j].field)
    && (forall f, d: Delta | f in p.flights && d in f :: d.delta > 0)
  }

  ghost predicate StateOk(s: State) {
    forall i | 0 <= i < |s.instances| :: InstanceOk(s.instances[i])
  }

  ghost function Next(s: State, step: Step): State
    requires StateOk(s) && Enabled(s, step)
  {
    var p := s.instances[step.i];
    match step
    case Register(i, key) => s.(instances := s.instances[i := Registered(p, key)])
    case Increment(i, slot) =>
      s.(instances := s.instances[i := Incremented(p, slot)], made := s.made + multiset{p.keys[slot]})
    case StartFlush(i) => s.(instances := s.instances[i := FlushStarted(p)])
    case EndFlush(i, flight, resolved, applied) =>
      assert p.flights[flight] in p.flights;
      State(Applied(s.redis, p.flights[flight], applied),
            s.instances[i := FlushEnded(p, flight, resolved)], s.made)
  }

  // ---------------------------------------------------------------- conservation

  function Counted(p: Instance, key: Key): nat {
    if key in p.slotByKey && p.slotByKey[key] < |p.counts| then p.counts[p.slotByKey[key]] else 0
  }

  function DeltaOf(drained: seq<Delta>, key: Key): nat {
    if drained == [] then 0
    else (if drained[0].field == key then drained[0].delta else 0) + DeltaOf(drained[1..], key)
  }

  function InFlight(flights: seq<seq<Delta>>, key: Key): nat {
    if flights == [] then 0 else DeltaOf(flights[0], key) + InFlight(flights[1..], key)
  }

  function HeldBy(p: Instance, key: Key): nat {
    Counted(p, key) + InFlight(p.flights, key)
  }

  function HeldByAll(instances: seq<Instance>, key: Key): nat {
    if instances == [] then 0 else HeldBy(instances[0], key) + HeldByAll(instances[1..], key)
  }

  /** Redis total + local counts + deltas in flight, over all processes. */
  function Total(s: State, key: Key): nat {
    Stored(s.redis, key) + HeldByAll(s.instances, key)
  }

  ghost predicate Conserved(s: State) {
    forall key :: Total(s, key) == s.made[key]
  }

  lemma {:induction false} HeldByAllUpdate(instances: seq<Instance>, i: nat, p: Instance, key: Key)
    requires i < |instances|
    ensures HeldByAll(instances[i := p], key) + HeldBy(instances[i], key) == HeldByAll(instances, key) + HeldBy(p, key)
  {
    if i == 0 {
      assert instances[i := p][1..] == instances[1..];
    } else {
      assert instances[i := p][1..] == instances[1..][i - 1 := p];
      HeldByAllUpdate(instances[1..], i - 1, p, key);
    }
  }

  lemma {:induction false} DrainedFields(keys: seq<Key>, counts: seq<nat>, i: nat)
    requires i <= |counts| == |keys|
    requires forall a, b | 0 <= a < b < |keys| :: keys[a] != keys[b]
    ensures forall d | d in Drained(keys, counts, i) ::
              d.delta > 0 && exists a :: i <= a < |keys| && keys[a] == d.field
    ensures forall a, b | 0 <= a < b < |Drained(keys, counts, i)| ::
              Drained(keys, counts, i)[a].field != Drained(keys, counts, i)[b].field
    ensures Drained(keys, counts, i) == [] <==> forall a | i <= a < |counts| :: counts[a] == 0
    decreases |counts| - i
  {
    if i < |counts| {
      DrainedFields(keys, counts, i + 1);
      var rest := Drained(keys, counts, i + 1);
      assert forall b | 0 <= b < |rest| :: rest[b] in rest;
    }
  }

  lemma {:induction false} DeltaOfConcat(a: seq<Delta>, b: seq<Delta>, key: Key)
    ensures DeltaOf(a + b, key) == DeltaOf(a, key) + DeltaOf(b, key)
  {
    if a == [] {
      assert a + b == b;
    } else {
      assert (a + b)[1..] == a[1..] + b;
      DeltaOfConcat(a[1..], b, key);
    }
  }

  /** What a drain takes for a key is what the key's slot held. */
  lemma {:induction false} DrainedDelta(keys: seq<Key>, counts: seq<nat>, i: nat, slot: nat)
    requires i <= |counts| == |keys| && slot < |keys|
    requires forall a, b | 0 <= a < b < |keys| :: keys[a] != keys[b]
    ensures DeltaOf(Drained(keys, counts, i), keys[slot]) == if slot >= i then counts[slot] else 0
    decreases |counts| - i
  {
    if i < |counts| {
      DrainedDelta(keys, counts, i + 1, slot);
      var first := if counts[i] > 0 then [Delta(keys[i], counts[i])] else [];
      DeltaOfConcat(first, Drained(keys, counts, i + 1), keys[slot]);
      if counts[i] > 0 {
        assert first[1..] == [];
      }
    }
  }

  lemma {:induction false} NoDelta(drained: seq<Delta>, key: Key)
    requires forall d | d in drained :: d.field != key
    ensures DeltaOf(drained, key) == 0
  {
    if drained != [] {
      NoDelta(drained[1..], key);
    }
  }

  lemma {:induction false} GivenBackAt(counts: seq<nat>, slotByKey: map<Key, nat>, drained: seq<Delta>, key: Key)
    requires forall d | d in drained :: d.field in slotByKey && slotByKey[d.field] < |counts|
    requires key in slotByKey && slotByKey[key] < |counts|
    requires forall k | k in slotByKey && slotByKey[k] == slotByKey[key] :: k == key
    ensures GivenBack(counts, slotByKey, drained)[slotByKey[key]] == counts[slotByKey[key]] + DeltaOf(drained, key)
    decreases |drained|
  {
    if drained != [] {
      var slot := slotByKey[drained[0].field];
      assert drained[0] in drained;
      GivenBackAt(counts[slot := counts[slot] + drained[0].delta], slotByKey, drained[1..], key);
    }
  }

  lemma {:induction false} AppliedAt(redis: map<Key, nat>, drained: seq<Delta>, applied: set<Key>, key: Key)
    ensures Stored(Applied(redis, drained, applied), key)
         == Stored(redis, key) + if key in applied then DeltaOf(drained, key) else 0
    decreases |drained|
  {
    if drained != [] {
      var Delta(field, delta) := drained[0];
      var next := if field in applied then redis[field := Stored(redis, field) + delta] else redis;
      AppliedAt(next, drained[1..], applied, key);
    }
  }

  // One lemma a step: the process stays well formed, and what it holds changes by a known amount.

  lemma RegisterHolds(p: Instance, key: Key, k: Key)
    requires InstanceOk(p)
    ensures InstanceOk(Registered(p, key))
    ensures HeldBy(Registered(p, key), k) == HeldBy(p, k)
  {
  }

  lemma IncrementHolds(p: Instance, slot: nat, k: Key)
    requires InstanceOk(p) && slot < |p.counts|
    ensures InstanceOk(Incremented(p, slot))
    ensures HeldBy(Incremented(p, slot), k) == HeldBy(p, k) + if k == p.keys[slot] then 1 else 0
  {
  }

  lemma StartFlushOk(p: Instance)
    requires InstanceOk(p)
    ensures InstanceOk(FlushStarted(p))
  {
    DrainedFields(p.keys, p.counts, 0);
  }

  lemma StartFlushHolds(p: Instance, k: Key)
    requires InstanceOk(p)
    ensures HeldBy(FlushStarted(p), k) == HeldBy(p, k)
  {
    var drained := Drained(p.keys, p.counts, 0);
    DrainedFields(p.keys, p.counts, 0);
    if k in p.slotByKey {
      DrainedDelta(p.keys, p.counts, 0, p.slotByKey[k]);
    } else {
      forall d | d in drained ensures d.field != k {
        var a :| 0 <= a < |p.keys| && p.keys[a] == d.field;
      }
      NoDelta(drained, k);
    }
    if !p.isFlushing {
      assert ([drained])[1..] == [];
      assert p.flights + [drained] == [drained];
    }
  }

  /** A finished flush gives the process's share of the delta away, or keeps it. */
  lemma EndFlushHolds(p: Instance, flight: nat, resolved: bool, k: Key)
    requires InstanceOk(p) && flight < |p.flights|
    requires forall d | d in p.flights[flight] :: d.field in p.slotByKey && p.slotByKey[d.field] < |p.counts|
    ensures HeldBy(FlushEnded(p, flight, resolved), k)
         == HeldBy(p, k) - if resolved then DeltaOf(p.flights[flight], k) else 0
  {
    var drained := p.flights[flight];
    assert drained in p.flights;
    assert p.flights == [drained] && p.flights[1..] == [];
    if k in p.slotByKey {
      GivenBackAt(p.counts, p.slotByKey, drained, k);
    } else {
      NoDelta(drained, k);
    }
  }

  /** What a step does to its process; no other process notices. Registering gives the key a slot and keeps
      the counts; counting adds one in one slot; a flush that finds counts takes them all, and none while
      another is in flight; its end touches counts only when it was rejected. */
  lemma StepDoes(s: State, step: Step)
    requires StateOk(s) && Enabled(s, step)
    ensures var s' := Next(s, step);
            && s'.instances == s.instances[step.i := s'.instances[step.i]]
            && (s'.made == if step.Increment? then s.made + multiset{s.instances[step.i].keys[step.slot]} else s.made)
            && (!step.EndFlush? ==> s'.redis == s.redis)
    ensures var p, p' := s.instances[step.i], Next(s, step).instances[step.i];
            match step
            case Register(_, key) =>
              && key in p'.slotByKey && p.keys <= p'.keys && p.counts <= p'.counts && p'.flights == p.flights
              && (forall k :: k in p'.slotByKey <==> k in p.slotByKey || k == key)
            case Increment(_, slot) =>
              p' == p.(counts := p'.counts) && p'.counts == p.counts[slot := p.counts[slot] + 1]
            case StartFlush(_) =>
              var starts := !p.isFlushing && exists c :: c in p.counts && c > 0;
              && (starts ==> |p'.flights| == 1 && p'.isFlushing && forall c | c in p'.counts :: c == 0)
              && (!starts ==> p' == p)
            case EndFlush(_, _, resolved, _) =>
              !p'.isFlushing && p'.flights == [] && (resolved ==> p'.counts == p.counts)
  {
    var p := s.instances[step.i];
    if step.StartFlush? {
      DrainedFields(p.keys, p.counts, 0);
      if a: nat :| a < |p.counts| && p.counts[a] != 0 {
        assert p.counts[a] in p.counts;
      }
    }
  }

  /** All-or-nothing: the pipeline resolves with every field applied or rejects with none. */
  ghost predicate AllOrNothing(s: State, step: Step)
    requires Enabled(s, step)
  {
    step.EndFlush? ==>
      forall d | d in s.instances[step.i].flights[step.flight] :: d.field in step.applied <==> step.resolved
  }

  lemma StepOk(s: State, step: Step)
    requires StateOk(s) && Enabled(s, step)
    ensures StateOk(Next(s, step))
  {
    var p := s.instances[step.i];
    match step
    case Register(_, key) => RegisterHolds(p, key, key);
    case Increment(_, slot) => IncrementHolds(p, slot, p.keys[slot]);
    case StartFlush(_) => StartFlushOk(p);
    case EndFlush(_, flight, resolved, _) =>
  }

  /** How far one step moves a key's total away from the number of increments made: only the end of
      a flush can, by exactly the delta that was both applied and given back, or neither. */
  ghost function Drift(s: State, step: Step, key: Key): int
    requires Enabled(s, step)
  {
    if !step.EndFlush? then 0
    else
      var delta := DeltaOf(s.instances[step.i].flights[step.flight], key);
      (if key in step.applied then delta else 0) - (if step.resolved then delta else 0)
  }

  lemma StepDrift(s: State, step: Step, key: Key)
    requires StateOk(s) && Enabled(s, step)
    ensures Total(Next(s, step), key) - Next(s, step).made[key] == Total(s, key) - s.made[key] + Drift(s, step, key)
  {
    var p := s.instances[step.i];
    HeldByAllUpdate(s.instances, step.i, Next(s, step).instances[step.i], key);
    match step
    case Register(_, k) => RegisterHolds(p, k, key);
    case Increment(_, slot) => IncrementHolds(p, slot, key);
    case StartFlush(_) => StartFlushHolds(p, key);
    case EndFlush(_, flight, resolved, applied) =>
      EndFlushHolds(p, flight, resolved, key);
      AppliedAt(s.redis, p.flights[flight], applied, key);
  }

  lemma {:induction false} DeltaOfMember(drained: seq<Delta>, d: Delta)
    requires d in drained && d.delta > 0
    ensures DeltaOf(drained, d.field) > 0
  {
    if drained[0] != d {
      DeltaOfMember(drained[1..], d);
    }
  }

  /** Exactly when a step conserves every total: unless a flush ends half applied, or rejects after
      having been applied, or resolves without. */
  lemma StepConservesExactly(s: State, step: Step)
    requires StateOk(s) && Enabled(s, step) && Conserved(s)
    ensures Conserved(Next(s, step)) <==> AllOrNothing(s, step)
  {
    if AllOrNothing(s, step) {
      forall key ensures Total(Next(s, step), key) == Next(s, step).made[key] {
        StepDrift(s, step, key);
        if step.EndFlush? && Drift(s, step, key) != 0 {
          NoDeltaUnless(s.instances[step.i].flights[step.flight], key);
        }
      }
    } else {
      var flight := s.instances[step.i].flights[step.flight];
      assert flight in s.instances[step.i].flights;
      var d :| d in flight && !(d.field in step.applied <==> step.resolved);
      DeltaOfMember(flight, d);
      StepDrift(s, step, d.field);
    }
  }

  lemma NoDeltaUnless(drained: seq<Delta>, key: Key)
    ensures DeltaOf(drained, key) == 0 || exists d :: d in drained && d.field == key
  {
  }

  // ---------------------------------------------------------------- whole runs

  /** `run` visits the states that `steps` lead through. Nothing is assumed of a state that has lost
      its well-formedness; RunStaysOk shows that there is none. */
  ghost predicate IsRun(run: seq<State>, steps: seq<Step>) {
    && |run| == |steps| + 1
    && StateOk(run[0])
    && forall n | 0 <= n < |steps| ::
         Enabled(run[n], steps[n]) && (StateOk(run[n]) ==> run[n + 1] == Next(run[n], steps[n]))
  }

  lemma {:induction false} RunStaysOk(run: seq<State>, steps: seq<Step>, n: nat)
    requires IsRun(run, steps) && n < |run|
    ensures StateOk(run[n])
  {
    if n > 0 {
      RunStaysOk(run, steps, n - 1);
      StepOk(run[n - 1], steps[n - 1]);
    }
  }

  /** Conservation over every interleaving of every number of processes. */
  lemma {:induction false} RunConserves(run: seq<State>, steps: seq<Step>, n: nat)
    requires IsRun(run, steps) && Conserved(run[0]) && n < |run|
    requires forall m | 0 <= m < |steps| :: Enabled(run[m], steps[m]) && AllOrNothing(run[m], steps[m])
    ensures Conserved(run[n])
  {
    if n > 0 {
      var m := n - 1;
      RunConserves(run, steps, m);
      RunStaysOk(run, steps, m);
      assert run[n] == Next(run[m], steps[m]);
      StepConservesExactly(run[m], steps[m]);
    }
  }

  /** Over a whole run: every total is right in every state if and only if every flush ends all-or-nothing. */
  lemma RunConservesExactly(run: seq<State>, steps: seq<Step>)
    requires IsRun(run, steps) && Conserved(run[0])
    ensures (forall n | 0 <= n < |run| :: Conserved(run[n]))
            <==> (forall n | 0 <= n < |steps| :: AllOrNothing(run[n], steps[n]))
  {
    if forall n | 0 <= n < |steps| :: AllOrNothing(run[n], steps[n]) {
      forall n | 0 <= n < |run| ensures Conserved(run[n]) {
        RunConserves(run, steps, n);
      }
    } else if forall n | 0 <= n < |run| :: Conserved(run[n]) {
      forall n | 0 <= n < |steps| ensures AllOrNothing(run[n], steps[n]) {
        RunStaysOk(run, steps, n);
        StepConservesExactly(run[n], steps[n]);
        assert Conserved(run[n + 1]);
      }
    }
  }

  /** One process that knows one key. */
  function OneKey(count: nat, isFlushing: bool, flights: seq<seq<Delta>>): Instance {
    Instance(["k"], [count], map["k" := 0], isFlushing, flights)
  }

  function Alone(p: Instance, made: multiset<Key>): State {
    State(map[], [p], made)
  }

  const NEW: Instance := Instance([], [], map[], false, [])

  const FLIGHTS: seq<seq<Delta>> := [[Delta("k", 1)]]

  lemma Registers()
    ensures var s := Alone(NEW, multiset{});
            StateOk(s) && Next(s, Register(0, "k")) == Alone(OneKey(0, false, []), multiset{})
  {
    assert Registered(NEW, "k") == OneKey(0, false, []);
  }

  lemma Increments()
    ensures var s := Alone(OneKey(0, false, []), multiset{});
            StateOk(s) && Next(s, Increment(0, 0)) == Alone(OneKey(1, false, []), multiset{"k"})
  {
    assert Incremented(OneKey(0, false, []), 0) == OneKey(1, false, []);
  }

  lemma Starts()
    ensures var s := Alone(OneKey(1, false, []), multiset{"k"});
            StateOk(s) && Next(s, StartFlush(0)) == Alone(OneKey(0, true, FLIGHTS), multiset{"k"})
  {
    assert Drained(["k"], [1], 1) == [];
    assert Drained(["k"], [1], 0) == [Delta("k", 1)];
    assert FlushStarted(OneKey(1, false, [])) == OneKey(0, true, FLIGHTS);
  }

  /** The pipeline resolves although its command was not applied. */
  lemma EndsUnapplied()
    ensures var s := Alone(OneKey(0, true, FLIGHTS), multiset{"k"});
            StateOk(s) && Next(s, EndFlush(0, 0, true, {})) == Alone(OneKey(0, false, []), multiset{"k"})
  {
    assert FLIGHTS[..0] + FLIGHTS[1..] == [] && [Delta("k", 1)][1..] == [];
    assert FlushEnded(OneKey(0, true, FLIGHTS), 0, true) == OneKey(0, false, []);
    assert Applied(map[], [Delta("k", 1)], {}) == map[];
  }

  lemma LostTotals()
    ensures Conserved(Alone(NEW, multiset{})) && !Conserved(Alone(OneKey(0, false, []), multiset{"k"}))
  {
    forall key ensures Total(Alone(NEW, multiset{}), key) == 0 {
      NothingHeld([NEW], key);
    }
    var s := Alone(OneKey(0, false, []), multiset{"k"});
    NothingHeld(s.instances, "k");
    assert Total(s, "k") == 0 && s.made["k"] == 1;
  }

  /** The state is reached from the start by these steps. */
  ghost predicate Reached(s: State, steps: seq<Step>) {
    exists run :: IsRun(run, steps) && run[0] == Alone(NEW, multiset{}) && run[|steps|] == s
  }

  lemma Reach(s: State, steps: seq<Step>, step: Step, s': State)
    requires Reached(s, steps) && StateOk(s) && Enabled(s, step) && Next(s, step) == s'
    ensures Reached(s', steps + [step])
  {
    var run :| IsRun(run, steps) && run[0] == Alone(NEW, multiset{}) && run[|steps|] == s;
    var run', steps' := run + [s'], steps + [step];
    forall n | 0 <= n < |steps'|
      ensures Enabled(run'[n], steps'[n]) && (StateOk(run'[n]) ==> run'[n + 1] == Next(run'[n], steps'[n]))
    {
      if n < |steps| {
        assert run'[n] == run[n] && run'[n + 1] == run[n + 1] && steps'[n] == steps[n];
      }
    }
    assert IsRun(run', steps');
  }

  lemma CountsOne() returns (steps: seq<Step>)
    ensures Reached(Alone(OneKey(1, false, []), multiset{"k"}), steps)
  {
    Registers();
    Increments();
    steps := [];
    assert IsRun([Alone(NEW, multiset{})], steps);
    Reach(Alone(NEW, multiset{}), steps, Register(0, "k"), Alone(OneKey(0, false, []), multiset{}));
    steps := steps + [Register(0, "k")];
    Reach(Alone(OneKey(0, false, []), multiset{}), steps, Increment(0, 0), Alone(OneKey(1, false, []), multiset{"k"}));
    steps := steps + [Increment(0, 0)];
  }

  lemma LosesOne(counted: seq<Step>) returns (steps: seq<Step>)
    requires Reached(Alone(OneKey(1, false, []), multiset{"k"}), counted)
    ensures Reached(Alone(OneKey(0, false, []), multiset{"k"}), steps)
  {
    var flushing, lost := Alone(OneKey(0, true, FLIGHTS), multiset{"k"}), Alone(OneKey(0, false, []), multiset{"k"});
    Starts();
    EndsUnapplied();
    Reach(Alone(OneKey(1, false, []), multiset{"k"}), counted, StartFlush(0), flushing);
    Reach(flushing, counted + [StartFlush(0)], EndFlush(0, 0, true, {}), lost);
    steps := counted + [StartFlush(0)] + [EndFlush(0, 0, true, {})];
  }

  /** A count is lost: registered, counted once, drained, resolved without being applied. */
  lemma LostCount()
    ensures exists run: seq<State>, steps: seq<Step> ::
              IsRun(run, steps) && Conserved(run[0]) && !Conserved(run[|steps|])
  {
    var counted := CountsOne();
    var steps := LosesOne(counted);
    LostTotals();
  }

  /** In every process of every reachable state at most one flush is in flight. */
  lemma AtMostOneFlush(run: seq<State>, steps: seq<Step>, n: nat, i: nat)
    requires IsRun(run, steps) && n < |run| && i < |run[n].instances|
    ensures |run[n].instances[i].flights| == if run[n].instances[i].isFlushing then 1 else 0
  {
    RunStaysOk(run, steps, n);
  }

  /** Slots never move: once a key has a slot in a process it keeps it, and no other key gets it. */
  lemma {:induction false} SlotsNeverMove(run: seq<State>, steps: seq<Step>, m: nat, n: nat, i: nat, key: Key)
    requires IsRun(run, steps) && m <= n < |run|
    requires i < |run[m].instances| && key in run[m].instances[i].slotByKey
    ensures i < |run[n].instances| && key in run[n].instances[i].slotByKey
    ensures run[n].instances[i].slotByKey[key] == run[m].instances[i].slotByKey[key]
    ensures forall other | other in run[n].instances[i].slotByKey && other != key ::
              run[n].instances[i].slotByKey[other] != run[m].instances[i].slotByKey[key]
    decreases n - m
  {
    RunStaysOk(run, steps, m);
    if m < n {
      StepKeepsSlots(run[m], steps[m], i, key);
      SlotsNeverMove(run, steps, m + 1, n, i, key);
    }
  }

  lemma StepKeepsSlots(s: State, step: Step, i: nat, key: Key)
    requires StateOk(s) && Enabled(s, step)
    requires i < |s.instances| && key in s.instances[i].slotByKey
    ensures i < |Next(s, step).instances| && key in Next(s, step).instances[i].slotByKey
    ensures Next(s, step).instances[i].slotByKey[key] == s.instances[i].slotByKey[key]
  {
  }

  /** At rest, with every counter flushed, the Redis hash alone tells how often a key was counted. */
  lemma AtRestRedisIsExact(s: State, key: Key)
    requires StateOk(s) && Conserved(s)
    requires forall p | p in s.instances :: p.flights == [] && forall c | c in p.counts :: c == 0
    ensures Stored(s.redis, key) == s.made[key]
  {
    NothingHeld(s.instances, key);
  }

  lemma {:induction false} NothingHeld(instances: seq<Instance>, key: Key)
    requires forall p | p in instances :: p.flights == [] && forall c | c in p.counts :: c == 0
    ensures HeldByAll(instances, key) == 0
  {
    if instances != [] {
      var p := instances[0];
      assert p in instances;
      if key in p.slotByKey && p.slotByKey[key] < |p.counts| {
        assert p.counts[p.slotByKey[key]] in p.counts;
      }
      assert forall q | q in instances[1..] :: q in instances;
      NothingHeld(instances[1..], key);
    }
  }
}
