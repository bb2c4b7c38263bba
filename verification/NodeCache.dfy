/** The cached state of nodes: many nodes read through one pipeline, or one node by single reads. */
module NodeCaches {
  import opened Collections

  type Uuid = string

  datatype Field = Info | Stats | Online | Versions | Uptime
  datatype Key = Key(field: Field, node: Uuid)

  /** A reply to a read: an error, or the stored text if there is one. */
  datatype Reply = Reply(err: bool, raw: Option<string>)

  /** JSON and number parsing. Text that is not JSON has no parse. */
  datatype Codec<!V> = Codec(parse: string -> Option<V>, truthy: V -> bool, number: string -> int)

  datatype System<V> = System(info: V, stats: V)
  datatype Hot<V> = Hot(system: Option<System<V>>, versions: Option<V>, xrayUptime: int, onlineUsers: int)
  datatype Returned<T> = Ok(value: T) | Throws

  function Unknown<V>(): Hot<V> {
    Hot(None, None, 0, 0)
  }

  /** Redis as it answers at one moment. */
  datatype Store = Store(values: map<Key, string>, failing: set<Key>) {
    function Read(k: Key): Reply {
      if k in failing then Reply(true, None) else Reply(false, if k in values then Some(values[k]) else None)
    }
  }

  /** The reply holds text: neither an error, nor nothing, nor the empty string. */
  predicate HasText(r: Reply) {
    !r.err && r.raw.Some? && r.raw.value != ""
  }

  function Value<V>(c: Codec<V>, r: Reply): Option<V>
    requires HasText(r)
  {
    c.parse(r.raw.value)
  }

  predicate Malformed<V>(c: Codec<V>, r: Reply) {
    HasText(r) && Value(c, r).None?
  }

  predicate Falsy<V>(c: Codec<V>, r: Reply) {
    HasText(r) && Value(c, r).Some? && !c.truthy(Value(c, r).value)
  }

  function NumberOr0<V>(c: Codec<V>, r: Reply): int {
    if HasText(r) then c.number(r.raw.value) else 0
  }

  // ---------------------------------------------------------------- one node, read either way

  /** What the pipelined read makes of a node. A text that it does not need is not parsed. */
  function Pipelined<V>(c: Codec<V>, s: Store, node: Uuid): Returned<Hot<V>> {
    var info, stats, versions := s.Read(Key(Info, node)), s.Read(Key(Stats, node)), s.Read(Key(Versions, node));
    var both := HasText(info) && HasText(stats);
    if both && (Value(c, info).None? || Value(c, stats).None?) then Throws
    else if Malformed(c, versions) then Throws
    else Ok(Hot(
      if both then Some(System(Value(c, info).value, Value(c, stats).value)) else None,
      if HasText(versions) then Value(c, versions) else None,
      NumberOr0(c, s.Read(Key(Uptime, node))),
      NumberOr0(c, s.Read(Key(Online, node)))))
  }

  /** The text under a key, if it can be used: stored, not empty, and read by a command that did not fail. */
  function TextAt(s: Store, k: Key): Option<string> {
    if k in s.values.Keys - s.failing && |s.values[k]| > 0 then Some(s.values[k]) else None
  }

  /** What a reply means for the store that gave it. */
  lemma ReplyMeans<V>(c: Codec<V>, s: Store, k: Key)
    ensures s.Read(k).err <==> k in s.failing
    ensures HasText(s.Read(k)) <==> TextAt(s, k).Some?
    ensures Malformed(c, s.Read(k)) <==> TextAt(s, k).Some? && c.parse(TextAt(s, k).value).None?
    ensures Falsy(c, s.Read(k)) <==>
            TextAt(s, k).Some? && exists v :: c.parse(TextAt(s, k).value) == Some(v) && !c.truthy(v)
  {
  }

  /** What is reported for a node: the numbers and the versions that are stored, or nothing; a system if
      both of its texts are there. */
  lemma PipelinedReports<V>(c: Codec<V>, s: Store, node: Uuid)
    requires Pipelined(c, s, node).Ok?
    ensures var h := Pipelined(c, s, node).value;
            var online, uptime := TextAt(s, Key(Online, node)), TextAt(s, Key(Uptime, node));
            && h.onlineUsers == (if online.Some? then c.number(online.value) else 0)
            && h.xrayUptime == (if uptime.Some? then c.number(uptime.value) else 0)
    ensures var h, versions := Pipelined(c, s, node).value, TextAt(s, Key(Versions, node));
            (versions.None? && h.versions.None?) || (versions.Some? && h.versions == c.parse(versions.value))
    ensures var h, info, stats := Pipelined(c, s, node).value, TextAt(s, Key(Info, node)), TextAt(s, Key(Stats, node));
            && (h.system.Some? <==> info.Some? && stats.Some?)
            && (h.system.Some? ==>
                  && c.parse(info.value) == Some(h.system.value.info)
                  && c.parse(stats.value) == Some(h.system.value.stats))
  {
  }

  /** A single read of a JSON value: an error is thrown on, absent or empty text is null. */
  function ReadJson<V>(c: Codec<V>, r: Reply): Returned<Option<V>> {
    if r.err || Malformed(c, r) then Throws
    else if HasText(r) then Ok(Value(c, r)) else Ok(None)
  }

  function ReadNumber<V>(c: Codec<V>, r: Reply): Returned<int> {
    if r.err then Throws else Ok(NumberOr0(c, r))
  }

  predicate Truthy<V>(c: Codec<V>, v: Option<V>) {
    v.Some? && c.truthy(v.value)
  }

  /** What the single reads make of a node. */
  function Single<V>(c: Codec<V>, s: Store, node: Uuid): Returned<Hot<V>> {
    var info, stats := ReadJson(c, s.Read(Key(Info, node))), ReadJson(c, s.Read(Key(Stats, node)));
    var versions := ReadJson(c, s.Read(Key(Versions, node)));
    var uptime, online := ReadNumber(c, s.Read(Key(Uptime, node))), ReadNumber(c, s.Read(Key(Online, node)));
    if info.Throws? || stats.Throws? || versions.Throws? || uptime.Throws? || online.Throws? then Throws
    else Ok(Hot(
      if Truthy(c, info.value) && Truthy(c, stats.value)
      then Some(System(info.value.value, stats.value.value)) else None,
      versions.value, uptime.value, online.value))
  }

  /** Both texts of a system are stored, and one of them is falsy: null, zero, false or "". */
  predicate FalsySystem<V>(c: Codec<V>, s: Store, node: Uuid) {
    var info, stats := s.Read(Key(Info, node)), s.Read(Key(Stats, node));
    HasText(info) && HasText(stats) && (Falsy(c, info) || Falsy(c, stats))
  }

  /** One half of a system is malformed while the other half is not there. */
  predicate MalformedHalf<V>(c: Codec<V>, s: Store, node: Uuid) {
    var info, stats := s.Read(Key(Info, node)), s.Read(Key(Stats, node));
    (Malformed(c, info) && !HasText(stats)) || (Malformed(c, stats) && !HasText(info))
  }

  predicate SomeReadFails(s: Store, node: Uuid) {
    exists f: Field :: Key(f, node) in s.failing
  }

  /** A malformed text that the pipelined read parses: of a whole system, or the versions. */
  predicate MalformedParsed<V>(c: Codec<V>, s: Store, node: Uuid) {
    var info, stats := s.Read(Key(Info, node)), s.Read(Key(Stats, node));
    || (HasText(info) && HasText(stats) && (Malformed(c, info) || Malformed(c, stats)))
    || Malformed(c, s.Read(Key(Versions, node)))
  }

  lemma FailingFields(s: Store, node: Uuid)
    ensures SomeReadFails(s, node)
       <==> || s.Read(Key(Info, node)).err || s.Read(Key(Stats, node)).err || s.Read(Key(Online, node)).err
            || s.Read(Key(Versions, node)).err || s.Read(Key(Uptime, node)).err
  {
    forall f: Field | Key(f, node) in s.failing ensures f.Info? || f.Stats? || f.Online? || f.Versions? || f.Uptime? {
    }
    assert Key(Info, node) in s.failing ==> SomeReadFails(s, node);
    assert Key(Stats, node) in s.failing ==> SomeReadFails(s, node);
    assert Key(Online, node) in s.failing ==> SomeReadFails(s, node);
    assert Key(Versions, node) in s.failing ==> SomeReadFails(s, node);
    assert Key(Uptime, node) in s.failing ==> SomeReadFails(s, node);
  }

  /** When the pipelined read of a node and its single reads have the same outcome, for every store:
      both throw on a malformed text the pipelined read parses; otherwise they agree unless a command
      fails, one half of a system is malformed and the other not stored, or a stored system is falsy. */
  lemma ReadsAgreeExactly<V>(c: Codec<V>, s: Store, node: Uuid)
    ensures Pipelined(c, s, node) == Single(c, s, node)
       <==> || MalformedParsed(c, s, node)
            || !(SomeReadFails(s, node) || MalformedHalf(c, s, node) || FalsySystem(c, s, node))
    ensures Pipelined(c, s, node).Throws? <==> MalformedParsed(c, s, node)
    ensures Pipelined(c, s, node).Throws? ==> Single(c, s, node).Throws?
  {
    FailingFields(s, node);
  }

  /** Some text that a single read parses is malformed. */
  predicate MalformedText<V>(c: Codec<V>, s: Store, node: Uuid) {
    || Malformed(c, s.Read(Key(Info, node))) || Malformed(c, s.Read(Key(Stats, node)))
    || Malformed(c, s.Read(Key(Versions, node)))
  }

  /** The single reads throw on any failed command and any malformed text; otherwise they return what the
      pipelined read returns, but for a falsy system, which they report as none. */
  lemma SingleExactly<V>(c: Codec<V>, s: Store, node: Uuid)
    ensures Single(c, s, node).Throws? <==> SomeReadFails(s, node) || MalformedText(c, s, node)
    ensures Single(c, s, node).Ok? ==>
              && Pipelined(c, s, node).Ok?
              && Single(c, s, node).value
                 == if FalsySystem(c, s, node)
                    then Pipelined(c, s, node).value.(system := None) else Pipelined(c, s, node).value
  {
    FailingFields(s, node);
  }

  /** A store on which the two ways of reading differ: the stored text of a half of the system is null. */
  lemma ReadsDiffer()
    ensures var c := Codec((t: string) => Some(t), (t: string) => t != "null", (t: string) => 0);
            var s := Store(map[Key(Info, "n") := "null", Key(Stats, "n") := "{}"], {});
            FalsySystem(c, s, "n") && Pipelined(c, s, "n") != Single(c, s, "n")
  {
  }

  // ---------------------------------------------------------------- the pipeline

  function KeysOf(node: Uuid): seq<Key> {
    [Key(Info, node), Key(Stats, node), Key(Online, node), Key(Versions, node), Key(Uptime, node)]
  }

  const KEYS_PER_NODE: nat := 5

  function Pipeline(nodes: seq<Uuid>): seq<Key> {
    if nodes == [] then [] else Pipeline(nodes[..|nodes| - 1]) + KeysOf(nodes[|nodes| - 1])
  }

  /** The replies for the node at i begin at five times i. */
  lemma {:induction false} PipelineAt(nodes: seq<Uuid>, i: nat)
    requires i < |nodes|
    ensures |Pipeline(nodes)| == |nodes| * KEYS_PER_NODE
    ensures Pipeline(nodes)[i * KEYS_PER_NODE..i * KEYS_PER_NODE + KEYS_PER_NODE] == KeysOf(nodes[i])
    decreases |nodes|
  {
    var front := nodes[..|nodes| - 1];
    if i < |front| {
      PipelineAt(front, i);
    } else if front != [] {
      PipelineAt(front, 0);
    }
  }

  // ---------------------------------------------------------------- the service

  function SumOf(nodes: seq<Uuid>, online: Uuid -> int): int {
    if nodes == [] then 0 else SumOf(nodes[..|nodes| - 1], online) + online(nodes[|nodes| - 1])
  }

  /** What the service reports for a node: nothing known while no pipeline can be run. */
  function Reported<V>(c: Codec<V>, s: Option<Store>, node: Uuid): Returned<Hot<V>> {
    if s.None? then Ok(Unknown()) else Pipelined(c, s.value, node)
  }

  function OnlineOf<V>(c: Codec<V>, s: Option<Store>): Uuid -> int {
    node => if s.None? then 0 else NumberOr0(c, s.value.Read(Key(Online, node)))
  }

  /** The map has an entry for every listed node, whether or not the list repeats nodes, and no other. */
  ghost predicate Maps<V(!new)>(m: map<Uuid, Hot<V>>, c: Codec<V>, s: Option<Store>, nodes: seq<Uuid>) {
    && m.Keys == AsSet(nodes)
    && forall u | u in m :: Reported(c, s, u) == Ok(m[u])
  }

  class NodesSystemCacheService<V(!new)> {
    const codec: Codec<V>
    const store: Option<Store> // None while no command can be sent

    constructor (codec: Codec<V>, store: Option<Store>)
      ensures this.codec == codec && this.store == store
    {
      this.codec := codec;
      this.store := store;
    }

    method Exec(pipe: seq<Key>) returns (results: Option<seq<Reply>>)
      ensures results.None? <==> store.None?
      ensures store.Some? ==> results.value == seq(|pipe|, i requires 0 <= i < |pipe| => store.value.Read(pipe[i]))
    {
      results := match store
        case None => None
        case Some(s) => Some(seq(|pipe|, i requires 0 <= i < |pipe| => s.Read(pipe[i])));
    }

    method CreatePipeline(nodes: seq<Uuid>) returns (pipe: seq<Key>)
      ensures pipe == Pipeline(nodes)
    {
      pipe := [];
      for i := 0 to |nodes|
        invariant pipe == Pipeline(nodes[..i])
      {
        assert nodes[..i + 1][..i] == nodes[..i];
        pipe := pipe + KeysOf(nodes[i]);
      }
      assert nodes[..|nodes|] == nodes;
    }

    method GetMany(nodes: seq<Uuid>) returns (r: Returned<map<Uuid, Hot<V>>>)
      ensures r.Ok? ==> Maps(r.value, codec, store, nodes)
      ensures r.Throws? <==> exists i | 0 <= i < |nodes| :: Reported(codec, store, nodes[i]).Throws?
      ensures store.None? ==> r.Ok? && forall u | u in r.value :: r.value[u] == Hot(None, None, 0, 0)
    {
      var pipe := CreatePipeline(nodes);
      var results := Exec(pipe);
      var m: map<Uuid, Hot<V>> := map[];
      assert nodes[..|nodes|] == nodes;
      if results.None? {
        for i := 0 to |nodes|
          invariant Maps(m, codec, store, nodes[..i])
        {
          m := m[nodes[i] := Unknown()];
        }
        return Ok(m);
      }

      for i := 0 to |nodes|
        invariant Maps(m, codec, store, nodes[..i])
        invariant forall j | 0 <= j < i :: Reported(codec, store, nodes[j]).Ok?
      {
        var hot := NodeAt(nodes, results.value, i);
        if hot.Throws? {
          return Throws;
        }
        m := m[nodes[i] := hot.value];
      }
      return Ok(m);
    }

    /** The five replies for the node at i. */
    method NodeAt(nodes: seq<Uuid>, results: seq<Reply>, i: nat) returns (hot: Returned<Hot<V>>)
      requires store.Some? && i < |nodes| && |results| == |Pipeline(nodes)|
      requires forall k | 0 <= k < |results| :: results[k] == store.value.Read(Pipeline(nodes)[k])
      ensures hot == Reported(codec, store, nodes[i])
    {
      PipelineReplies(nodes, i);
      var base := i * KEYS_PER_NODE;
      hot := Decode(results[base], results[base + 1], results[base + 2], results[base + 3], results[base + 4],
          nodes[i]);
    }

    /** The body of the loop: the five replies for a node. */
    method Decode(info: Reply, stats: Reply, online: Reply, versions: Reply, uptime: Reply, ghost node: Uuid)
      returns (hot: Returned<Hot<V>>)
      requires store.Some?
      requires info == store.value.Read(Key(Info, node)) && stats == store.value.Read(Key(Stats, node))
      requires online == store.value.Read(Key(Online, node)) && versions == store.value.Read(Key(Versions, node))
      requires uptime == store.value.Read(Key(Uptime, node))
      ensures hot == Pipelined(codec, store.value, node)
    {
      var system := None;
      if !info.err && !stats.err && HasText(info) && HasText(stats) {
        var parsedInfo := codec.parse(info.raw.value);
        if parsedInfo.None? {
          return Throws;
        }
        var parsedStats := codec.parse(stats.raw.value);
        if parsedStats.None? {
          return Throws;
        }
        system := Some(System(parsedInfo.value, parsedStats.value));
      }
      var versionsValue := None;
      if HasText(versions) {
        versionsValue := codec.parse(versions.raw.value);
        if versionsValue.None? {
          return Throws;
        }
      }
      var xrayUptime := if HasText(uptime) then codec.number(uptime.raw.value) else 0;
      var onlineUsers := if HasText(online) then codec.number(online.raw.value) else 0;
      return Ok(Hot(system, versionsValue, xrayUptime, onlineUsers));
    }

    method GetOne(node: Uuid) returns (r: Returned<Hot<V>>)
      ensures r.Throws? <==> store.None? || SomeReadFails(store.value, node) || MalformedText(codec, store.value, node)
      ensures r.Ok? ==>
                && Reported(codec, store, node).Ok?
                && r.value == if FalsySystem(codec, store.value, node)
                   then Reported(codec, store, node).value.(system := None) else Reported(codec, store, node).value
    {
      if store.Some? {
        SingleExactly(codec, store.value, node);
      }
      if store.None? {
        return Throws;
      }
      var s := store.value;
      var info, stats := ReadJson(codec, s.Read(Key(Info, node))), ReadJson(codec, s.Read(Key(Stats, node)));
      var versions := ReadJson(codec, s.Read(Key(Versions, node)));
      var uptime, online := ReadNumber(codec, s.Read(Key(Uptime, node))), ReadNumber(codec, s.Read(Key(Online, node)));
      if info.Throws? || stats.Throws? || versions.Throws? || uptime.Throws? || online.Throws? {
        return Throws;
      }
      var system := None;
      if Truthy(codec, info.value) && Truthy(codec, stats.value) {
        system := Some(System(info.value.value, stats.value.value));
      }
      r := Ok(Hot(system, versions.value, uptime.value, online.value));
      assert r == Single(codec, s, node);
    }

    method GetTotalOnlineUsers(nodes: seq<Uuid>) returns (total: int)
      ensures total == SumOf(nodes, OnlineOf(codec, store))
    {
      var pipe: seq<Key> := [];
      for i := 0 to |nodes|
        invariant |pipe| == i && forall k | 0 <= k < i :: pipe[k] == Key(Online, nodes[k])
      {
        pipe := pipe + [Key(Online, nodes[i])];
      }
      var results := Exec(pipe);
      ghost var online := OnlineOf(codec, store);
      if results.None? {
        SumOfZeros(nodes, online);
        return 0;
      }
      total := 0;
      for i := 0 to |nodes|
        invariant total == SumOf(nodes[..i], online)
      {
        assert nodes[..i + 1][..i] == nodes[..i];
        var raw := results.value[i];
        assert online(nodes[i]) == NumberOr0(codec, raw);
        total := total + if HasText(raw) then codec.number(raw.raw.value) else 0;
      }
      assert nodes[..|nodes|] == nodes;
    }
  }

  lemma PipelineReplies(nodes: seq<Uuid>, i: nat)
    requires i < |nodes|
    ensures var base := i * KEYS_PER_NODE;
            && base + 4 < |Pipeline(nodes)|
            && Pipeline(nodes)[base] == Key(Info, nodes[i]) && Pipeline(nodes)[base + 1] == Key(Stats, nodes[i])
            && Pipeline(nodes)[base + 2] == Key(Online, nodes[i])
            && Pipeline(nodes)[base + 3] == Key(Versions, nodes[i])
            && Pipeline(nodes)[base + 4] == Key(Uptime, nodes[i])
  {
    PipelineAt(nodes, i);
    var base := i * KEYS_PER_NODE;
    var own := Pipeline(nodes)[base..base + 5];
    assert own[0] == Pipeline(nodes)[base] && own[1] == Pipeline(nodes)[base + 1];
    assert own[2] == Pipeline(nodes)[base + 2];
    assert own[3] == Pipeline(nodes)[base + 3] && own[4] == Pipeline(nodes)[base + 4];
  }

  lemma {:induction false} SumOfZeros(nodes: seq<Uuid>, online: Uuid -> int)
    requires forall u :: online(u) == 0
    ensures SumOf(nodes, online) == 0
    decreases |nodes|
  {
    if nodes != [] {
      SumOfZeros(nodes[..|nodes| - 1], online);
    }
  }

  function OnlineIn<V>(m: map<Uuid, Hot<V>>): Uuid -> int {
    node => if node in m then m[node].onlineUsers else 0
  }

  /** A sum over a list: of the parts of the list together, and of one node its own number. */
  lemma {:induction false} SumSplits(a: seq<Uuid>, b: seq<Uuid>, online: Uuid -> int)
    ensures SumOf(a + b, online) == SumOf(a, online) + SumOf(b, online)
    ensures |b| == 1 ==> SumOf(b, online) == online(b[0])
    decreases |b|
  {
    if b == [] {
      assert a + b == a;
    } else {
      var front := b[..|b| - 1];
      SumSplits(a, front, online);
      assert (a + b)[..|a + b| - 1] == a + front;
    }
  }

  /** The total is the sum, over the list, of the online users reported for each node. */
  lemma {:induction false} TotalIsSum<V(!new)>(m: map<Uuid, Hot<V>>, c: Codec<V>, s: Option<Store>, nodes: seq<Uuid>)
    requires forall u | u in nodes :: u in m && Reported(c, s, u) == Ok(m[u])
    ensures SumOf(nodes, OnlineOf(c, s)) == SumOf(nodes, OnlineIn(m))
    decreases |nodes|
  {
    if nodes != [] {
      var front, last := nodes[..|nodes| - 1], nodes[|nodes| - 1];
      TotalIsSum(m, c, s, front);
      assert Reported(c, s, last) == Ok(m[last]);
    }
  }
}
