/** RouteCounterService itself: the fields it updates in place, its two loops, and its report. */
module RouteCounterServices {
  import opened RouteCounters

  class RouteCounterService {
    var keys: seq<Key>
    var counts: seq<nat>
    var slotByKey: map<Key, nat>
    var isFlushing: bool
    ghost var flights: seq<seq<Delta>> // flushes suspended at their await

    ghost function View(): Instance
      reads this
    {
      Instance(keys, counts, slotByKey, isFlushing, flights)
    }

    constructor ()
      ensures View() == Instance([], [], map[], false, []) && InstanceOk(View())
    {
      keys, counts, slotByKey, isFlushing, flights := [], [], map[], false, [];
    }

    method Register(key: Key) returns (slot: nat)
      requires InstanceOk(View())
      modifies this
      ensures InstanceOk(View()) && View() == Registered(old(View()), key)
      ensures slot < |keys| && keys[slot] == key
      ensures key in old(slotByKey) ==> slot == old(slotByKey)[key]
    {
      RegisterHolds(View(), key, key);
      if key in slotByKey {
        slot := slotByKey[key];
      } else {
        slot := |keys|;
        keys := keys + [key];
        counts := counts + [0];
        slotByKey := slotByKey[key := slot];
      }
    }

    method Increment(slot: nat)
      requires InstanceOk(View()) && slot < |counts|
      modifies this
      ensures InstanceOk(View()) && View() == Incremented(old(View()), slot)
    {
      counts := counts[slot := counts[slot] + 1];
    }

    /** The first loop of flush(): takes every non-zero counter. */
    method DrainCounts() returns (drained: seq<Delta>)
      requires |counts| == |keys|
      modifies this`counts
      ensures drained == Drained(keys, old(counts), 0)
      ensures counts == seq(|old(counts)|, _ => 0)
    {
      ghost var before := counts;
      drained := [];
      for i := 0 to |counts|
        invariant |counts| == |before|
        invariant forall j | 0 <= j < |counts| :: counts[j] == if j < i then 0 else before[j]
        invariant drained + Drained(keys, before, i) == Drained(keys, before, 0)
      {
        var delta := counts[i];
        if delta > 0 {
          drained := drained + [Delta(keys[i], delta)];
          counts := counts[i := 0];
        }
      }
    }

    /** The last loop of flush(): a rejected pipeline gives every delta back to its slot. */
    method GiveBack(drained: seq<Delta>)
      requires forall d | d in drained :: d.field in slotByKey && slotByKey[d.field] < |counts|
      modifies this`counts
      ensures counts == GivenBack(old(counts), slotByKey, drained)
    {
      ghost var before := counts;
      for i := 0 to |drained|
        invariant |counts| == |before|
        invariant forall d | d in drained[i..] :: d in drained
        invariant GivenBack(counts, slotByKey, drained[i..]) == GivenBack(before, slotByKey, drained)
      {
        var slot := slotByKey[drained[i].field];
        assert drained[i..][1..] == drained[i + 1..];
        counts := counts[slot := counts[slot] + drained[i].delta];
      }
    }

    /** flush() up to its await. `awaiting` is false when it returns early. */
    method FlushUntilAwait() returns (drained: seq<Delta>, awaiting: bool)
      requires InstanceOk(View())
      modifies this
      ensures InstanceOk(View()) && View() == FlushStarted(old(View()))
      ensures awaiting <==> !old(isFlushing) && exists c :: c in old(counts) && c > 0
      ensures awaiting ==> flights == [drained]
    {
      StartFlushOk(View());
      DrainedFields(keys, counts, 0);
      drained, awaiting := [], false;
      if isFlushing {
        return;
      }
      isFlushing := true;
      drained := DrainCounts();
      if |drained| == 0 {
        isFlushing := false;
        assert counts == old(counts);
        return;
      }
      awaiting := true;
      flights := flights + [drained];
      ghost var a :| 0 <= a < |old(counts)| && old(counts)[a] != 0;
      assert old(counts)[a] in old(counts);
    }

    /** flush() from its await on: nothing more on success, everything back on failure. */
    method FlushAfterAwait(drained: seq<Delta>, resolved: bool)
      requires InstanceOk(View()) && flights == [drained]
      modifies this
      ensures InstanceOk(View())
      ensures forall d | d in old(flights[0]) :: d.field in old(slotByKey) && old(slotByKey)[d.field] < old(|counts|)
      ensures View() == FlushEnded(old(View()), 0, resolved)
    {
      if !resolved {
        GiveBack(drained);
      }
      isFlushing := false;
      flights := [];
    }
  }

  // ---------------------------------------------------------------- getStats

  datatype Route = Route(verb: string, path: string, count: nat)

  /** indexOf(' '): the position of the first space, or the length when there is none. */
  function FirstSpace(key: Key): (n: nat)
    ensures n <= |key| && ' ' !in key[..n] && (n < |key| ==> key[n] == ' ')
  {
    if key == [] then 0 else if key[0] == ' ' then 0 else 1 + FirstSpace(key[1..])
  }

  function ParseRoute(key: Key, count: nat): Route {
    var at := FirstSpace(key);
    if at == |key| then Route("", key, count) else Route(key[..at], key[at + 1..], count)
  }

  /** The key that the interceptor builds is taken apart again, even when the path has spaces. */
  lemma ParseRouteOfKey(verb: string, path: string, count: nat)
    requires ' ' !in verb
    ensures ParseRoute(verb + " " + path, count) == Route(verb, path, count)
  {
    var key := verb + " " + path;
    FirstSpaceAfter(verb, path);
    assert key[..|verb|] == verb && key[|verb| + 1..] == path;
  }

  /** A key without a space is a path without a verb. */
  lemma ParseRouteWithoutVerb(key: Key, count: nat)
    requires ' ' !in key
    ensures ParseRoute(key, count) == Route("", key, count)
  {
  }

  lemma {:induction false} FirstSpaceAfter(verb: string, path: string)
    requires ' ' !in verb
    ensures FirstSpace(verb + " " + path) == |verb|
  {
    if verb != [] {
      FirstSpaceAfter(verb[1..], path);
      assert (verb + " " + path)[1..] == verb[1..] + " " + path;
    }
  }

  ghost predicate Descending(routes: seq<Route>) {
    forall i, j | 0 <= i < j < |routes| :: routes[i].count >= routes[j].count
  }

  function Insert(routes: seq<Route>, r: Route): seq<Route> {
    if routes == [] then [r]
    else if routes[|routes| - 1].count >= r.count then routes + [r]
    else Insert(routes[..|routes| - 1], r) + [routes[|routes| - 1]]
  }

  lemma {:induction false} InsertSorts(routes: seq<Route>, r: Route)
    requires Descending(routes)
    ensures Descending(Insert(routes, r))
  {
    if routes != [] && routes[|routes| - 1].count < r.count {
      var front, last := routes[..|routes| - 1], routes[|routes| - 1];
      InsertSorts(front, r);
      InsertAdds(front, r);
      var ins := Insert(front, r);
      forall i | 0 <= i < |ins| ensures ins[i].count >= last.count {
        assert ins[i] in multiset(ins);
      }
    }
  }

  lemma {:induction false} InsertAdds(routes: seq<Route>, r: Route)
    ensures multiset(Insert(routes, r)) == multiset(routes) + multiset{r}
  {
    if routes != [] && routes[|routes| - 1].count < r.count {
      InsertAdds(routes[..|routes| - 1], r);
      assert routes == routes[..|routes| - 1] + [routes[|routes| - 1]];
    }
  }

  function SumOfCounts(entries: seq<(Key, nat)>): nat {
    if entries == [] then 0 else SumOfCounts(entries[..|entries| - 1]) + entries[|entries| - 1].1
  }

  function Parsed(entries: seq<(Key, nat)>): seq<Route> {
    seq(|entries|, i requires 0 <= i < |entries| => ParseRoute(entries[i].0, entries[i].1))
  }

  lemma OneMore(entries: seq<(Key, nat)>, i: nat)
    requires i < |entries|
    ensures multiset(Parsed(entries[..i + 1]))
         == multiset(Parsed(entries[..i])) + multiset{ParseRoute(entries[i].0, entries[i].1)}
    ensures SumOfCounts(entries[..i + 1]) == SumOfCounts(entries[..i]) + entries[i].1
  {
    assert entries[..i + 1][..i] == entries[..i];
    assert Parsed(entries[..i + 1]) == Parsed(entries[..i]) + [ParseRoute(entries[i].0, entries[i].1)];
  }

  /** The report: every entry once, the largest count first, and the sum of all counts. */
  method GetStats(entries: seq<(Key, nat)>) returns (routes: seq<Route>, total: nat)
    ensures Descending(routes)
    ensures multiset(routes) == multiset(Parsed(entries))
    ensures total == SumOfCounts(entries)
  {
    routes, total := [], 0;
    for i := 0 to |entries|
      invariant Descending(routes)
      invariant multiset(routes) == multiset(Parsed(entries[..i]))
      invariant total == SumOfCounts(entries[..i])
    {
      var route := ParseRoute(entries[i].0, entries[i].1);
      InsertSorts(routes, route);
      InsertAdds(routes, route);
      OneMore(entries, i);
      routes := Insert(routes, route);
      total := total + entries[i].1;
    }
    assert entries[..|entries|] == entries;
  }

  /** `entries` lists the hash: every field once, with its value. */
  ghost predicate Lists(entries: seq<(Key, nat)>, redis: map<Key, nat>) {
    && (forall i, j | 0 <= i < j < |entries| :: entries[i].0 != entries[j].0)
    && (forall e | e in entries :: e.0 in redis && redis[e.0] == e.1)
    && (forall k | k in redis :: exists i :: 0 <= i < |entries| && entries[i].0 == k)
  }

  lemma {:induction false} SumOverMultiset(entries: seq<(Key, nat)>, made: multiset<Key>)
    requires forall i, j | 0 <= i < j < |entries| :: entries[i].0 != entries[j].0
    requires forall i | 0 <= i < |entries| :: made[entries[i].0] == entries[i].1
    requires forall k | k in made :: exists i :: 0 <= i < |entries| && entries[i].0 == k
    ensures SumOfCounts(entries) == |made|
  {
    if entries == [] {
      assert made == multiset{};
    } else {
      var front, last := entries[..|entries| - 1], entries[|entries| - 1];
      var rest := made[last.0 := 0];
      assert made == rest[last.0 := last.1];
      forall k | k in rest ensures exists i :: 0 <= i < |front| && front[i].0 == k {
        var i :| 0 <= i < |entries| && entries[i].0 == k;
        assert front[i].0 == k;
      }
      SumOverMultiset(front, rest);
    }
  }

  /** Across the whole path: with nothing in memory and nothing in flight, in any number of
      processes, the reported total is the number of requests counted. */
  lemma StatsTotalIsExact(s: State, entries: seq<(Key, nat)>)
    requires StateOk(s) && Conserved(s)
    requires forall p | p in s.instances :: p.flights == [] && forall c | c in p.counts :: c == 0
    requires Lists(entries, s.redis)
    ensures SumOfCounts(entries) == |s.made|
  {
    forall key ensures Stored(s.redis, key) == s.made[key] {
      AtRestRedisIsExact(s, key);
    }
    forall i | 0 <= i < |entries| ensures s.made[entries[i].0] == entries[i].1 {
      assert entries[i] in entries;
      assert Stored(s.redis, entries[i].0) == s.made[entries[i].0];
    }
    forall k | k in s.made ensures exists i :: 0 <= i < |entries| && entries[i].0 == k {
      assert Stored(s.redis, k) == s.made[k];
    }
    SumOverMultiset(entries, s.made);
  }
}
