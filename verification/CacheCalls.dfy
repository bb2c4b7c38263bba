/** The calls of the cache services when nothing happens between their steps: what the protocol does then
    is what the classes of MemoryCaches and RawCaches do. */
module CacheCalls {
  import opened Collections
  import opened MemoryCaches
  import opened CacheProtocol

  /** The steps are enabled one after the other and lead from s to the last state. */
  ghost predicate Leads(s: State, steps: seq<Step>, s': State)
    decreases |steps|
  {
    if steps == [] then s == s' else Enabled(s, steps[0]) && Leads(Next(s, steps[0]), steps[1..], s')
  }

  lemma {:induction false} LeadsOn(s: State, steps: seq<Step>, mid: State, step: Step, s': State)
    requires Leads(s, steps, mid) && Enabled(mid, step) && Next(mid, step) == s'
    ensures Leads(s, steps + [step], s')
    decreases |steps|
  {
    if steps == [] {
      assert [step][1..] == [];
    } else {
      assert (steps + [step])[1..] == steps[1..] + [step];
      LeadsOn(Next(s, steps[0]), steps[1..], mid, step, s');
    }
  }

  lemma DroppedLast<T>(s: seq<T>, x: T)
    ensures Without(s + [x], |s|) == s
  {
  }

  /** Changing a row and `del` of its key: the key is gone from Redis and from the process's own memory, every
      subscribed process has been told, and nothing else has changed. */
  lemma ChangeAndDelete(s: State, p: nat, key: Key, value: Option<Value>) returns (s': State)
    requires p < |s.processes|
    ensures var w := |s.writers|;
            Leads(s, [Change(p, key, value), DeleteInRedis(w), DeleteInMemory(w), Publish(w)], s')
    ensures s'.source == if value.Some? then s.source[key := value.value] else s.source - {key}
    ensures s'.redis == s.redis - {key} && s'.writers == s.writers && s'.loads == s.loads
    ensures |s'.processes| == |s.processes|
    ensures forall i | 0 <= i < |s.processes| ::
              var q := s.processes[i];
              s'.processes[i] == q.(
                cache := if i == p then q.cache - {key} else q.cache,
                inbox := if q.link == Subscribed then q.inbox + [One(key)] else q.inbox)
  {
    var w := |s.writers|;
    var s1 := Next(s, Change(p, key, value));
    assert s1.writers[w] == Writer(p, key, Owed);
    var s2 := Next(s1, DeleteInRedis(w));
    var s3 := Next(s2, DeleteInMemory(w));
    assert s3.writers == s.writers + [Writer(p, key, Cleared)];
    s' := Next(s3, Publish(w));
    DroppedLast(s.writers, Writer(p, key, Cleared));
    var change, deleteInRedis, deleteInMemory := Change(p, key, value), DeleteInRedis(w), DeleteInMemory(w);
    LeadsOn(s, [], s, change, s1);
    assert [] + [change] == [change];
    LeadsOn(s, [change], s1, deleteInRedis, s2);
    assert [change] + [deleteInRedis] == [change, deleteInRedis];
    LeadsOn(s, [change, deleteInRedis], s2, deleteInMemory, s3);
    assert [change, deleteInRedis] + [deleteInMemory] == [change, deleteInRedis, deleteInMemory];
    LeadsOn(s, [change, deleteInRedis, deleteInMemory], s3, Publish(w), s');
    assert [change, deleteInRedis, deleteInMemory] + [Publish(w)]
        == [change, deleteInRedis, deleteInMemory, Publish(w)];
  }

  /** A read that misses in memory and hits in Redis: the process keeps what Redis has. */
  lemma GetFromRedis(s: State, p: nat, key: Key) returns (s': State)
    requires p < |s.processes| && s.processes[p].serving && key !in s.processes[p].cache && key in s.redis
    ensures var f := |s.processes[p].fills|;
            Leads(s, [ReadRedis(p, key), FillMemory(p, f)], s')
    ensures var q := s.processes[p];
            s' == s.(processes := s.processes[p := q.(cache := q.cache[key := s.redis[key]])])
  {
    var q := s.processes[p];
    var read, fill := ReadRedis(p, key), FillMemory(p, |q.fills|);
    var s1 := Next(s, read);
    s' := Next(s1, fill);
    DroppedLast(q.fills, Transfer(key, s.redis[key]));
    LeadsOn(s, [], s, read, s1);
    assert [] + [read] == [read];
    LeadsOn(s, [read], s1, fill, s');
    assert [read] + [fill] == [read, fill];
  }

  /** A read that misses in Redis too: the row goes to Redis, marked with the changes it has seen. */
  lemma GetFromSource(s: State, key: Key) returns (s': State)
    requires key in s.source
    ensures Leads(s, [ReadSource(key), FillRedis(|s.loads|)], s')
    ensures s' == s.(redis := s.redis[key := Copy(s.source[key], Stamp(s, key))])
    ensures Stamp(s, key) == if key in s.past then |s.past[key]| else 0
  {
    var read, fill := ReadSource(key), FillRedis(|s.loads|);
    var s1 := Next(s, read);
    s' := Next(s1, fill);
    DroppedLast(s.loads, Transfer(key, Copy(s.source[key], Stamp(s, key))));
    LeadsOn(s, [], s, read, s1);
    assert [] + [read] == [read];
    LeadsOn(s, [read], s1, fill, s');
    assert [read] + [fill] == [read, fill];
  }

  /** A lost connection and its return: what was queued is lost, the memory is empty unless the process had
      never been connected, and messages reach the process again. No other process notices. */
  lemma Reconnect(s: State, p: nat) returns (s': State)
    requires p < |s.processes| && s.processes[p].link != Down
    ensures Leads(s, [Disconnect(p), Ready(p), Subscribe(p)], s')
    ensures var q := s.processes[p];
            s' == s.(processes := s.processes[p := Process(
                       if q.everConnected then map[] else q.cache, true, true, Subscribed, [], q.fills)])
  {
    var lost, ready, subscribe := Disconnect(p), Ready(p), Subscribe(p);
    var s1 := Next(s, lost);
    var s2 := Next(s1, ready);
    s' := Next(s2, subscribe);
    LeadsOn(s, [], s, lost, s1);
    assert [] + [lost] == [lost];
    LeadsOn(s, [lost], s1, ready, s2);
    assert [lost] + [ready] == [lost, ready];
    LeadsOn(s, [lost, ready], s2, subscribe, s');
    assert [lost, ready] + [subscribe] == [lost, ready, subscribe];
  }

  /** Messages: everything is broadcast to the subscribed; a process handles its oldest message, which takes
      the key, or everything, from its memory. */
  lemma Messages(s: State, p: nat)
    requires p < |s.processes|
    ensures Enabled(s, PublishAll)
    ensures Enabled(s, Deliver(p)) <==> s.processes[p].link == Subscribed && s.processes[p].inbox != []
    ensures forall i | 0 <= i < |s.processes| ::
              var q := s.processes[i];
              && |Next(s, PublishAll).processes| == |s.processes|
              && Next(s, PublishAll).processes[i].inbox == if q.link == Subscribed then q.inbox + [All] else q.inbox
    ensures Enabled(s, Deliver(p)) ==>
              var q := s.processes[p];
              Next(s, Deliver(p)) == s.(processes := s.processes[p := q.(
                inbox := q.inbox[1..],
                cache := match q.inbox[0] case All => map[] case One(key) => q.cache - {key})])
  {
  }

  /** Entries may leave either level at any time. */
  lemma Losses(s: State, p: nat, key: Key)
    requires p < |s.processes|
    ensures Enabled(s, ExpireInRedis(key)) && Enabled(s, EvictFromMemory(p, key))
    ensures Next(s, ExpireInRedis(key)) == s.(redis := s.redis - {key})
    ensures var q := s.processes[p];
            Next(s, EvictFromMemory(p, key)) == s.(processes := s.processes[p := q.(cache := q.cache - {key})])
  {
  }
}
