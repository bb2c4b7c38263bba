/** Reconciling the stored inbounds of a configuration profile with the inbounds of its
    configuration: delete, add, or, when there is nothing to delete or add, update in place. */
module InboundSync {
  import opened Collections

  type Uuid = string
  type Tag = string

  datatype Inbound = Inbound(
    tag: Tag, kind: string, network: Option<string>, security: Option<string>, port: Option<int>, raw: string)

  datatype Row = Row(profile: Uuid, inbound: Inbound)

  /** The table of all profiles' inbounds. The database keeps tags unique over the whole table. */
  type Table = map<Uuid, Row>

  ghost predicate UniqueTags(t: Table) {
    forall u, v | u in t && v in t && t[u].inbound.tag == t[v].inbound.tag :: u == v
  }

  /** Configurations with a repeated tag are rejected before they get here. */
  predicate DistinctTags(config: seq<Inbound>) {
    forall i, j | 0 <= i < j < |config| :: config[i].tag != config[j].tag
  }

  /** config.find(ci => ci.tag === tag) */
  function Find(config: seq<Inbound>, tag: Tag): Option<Inbound> {
    if config == [] then None
    else if config[0].tag == tag then Some(config[0])
    else Find(config[1..], tag)
  }

  lemma {:induction false} FindFinds(config: seq<Inbound>, tag: Tag)
    ensures Find(config, tag).Some? <==> exists c :: c in config && c.tag == tag
    ensures Find(config, tag).Some? ==> Find(config, tag).value in config && Find(config, tag).value.tag == tag
    ensures DistinctTags(config) ==> forall c | c in config && c.tag == tag :: Find(config, tag) == Some(c)
  {
    if config != [] {
      FindFinds(config[1..], tag);
      assert config == [config[0]] + config[1..];
    }
  }

  predicate Outdated(row: Row, config: seq<Inbound>) {
    var c := Find(config, row.inbound.tag);
    c.None? || c.value.kind != row.inbound.kind
  }

  function ToRemove(t: Table, profile: Uuid, config: seq<Inbound>): set<Uuid> {
    set u | u in t && t[u].profile == profile && Outdated(t[u], config)
  }

  /** Some stored inbound of the profile has this tag and this kind. */
  predicate Held(t: Table, profile: Uuid, c: Inbound) {
    exists u | u in t :: t[u].profile == profile && t[u].inbound.tag == c.tag && t[u].inbound.kind == c.kind
  }

  function ToAdd(t: Table, profile: Uuid, config: seq<Inbound>): seq<Inbound> {
    if config == [] then []
    else (if Held(t, profile, config[0]) then [] else [config[0]]) + ToAdd(t, profile, config[1..])
  }

  /** createMany under the table's tag constraint: all rows or none. `uuids` are the uuids that the
      database generates. */
  ghost predicate Creatable(t: Table, added: seq<Inbound>) {
    && DistinctTags(added)
    && forall u, c | u in t && c in added :: t[u].inbound.tag != c.tag
  }

  function Created(t: Table, profile: Uuid, added: seq<Inbound>, uuids: seq<Uuid>): Table
    requires |uuids| >= |added|
  {
    if added == [] then t
    else Created(t, profile, added[1..], uuids[1..])[uuids[0] := Row(profile, added[0])]
  }

  predicate Changed(row: Row, profile: Uuid, config: seq<Inbound>) {
    row.profile == profile && var c := Find(config, row.inbound.tag); c.Some? && c.value != row.inbound
  }

  function ToUpdate(t: Table, profile: Uuid, config: seq<Inbound>): set<Uuid> {
    set u | u in t && Changed(t[u], profile, config)
  }

  function Updated(t: Table, profile: Uuid, config: seq<Inbound>): Table {
    map u | u in t ::
      if Changed(t[u], profile, config) then Row(profile, Find(config, t[u].inbound.tag).value) else t[u]
  }

  /** Conflict is the database's refusal to create a second row with a tag; what was deleted before
      stays deleted unless a transaction takes it back. */
  datatype Outcome = Synced(table: Table, writes: nat) | Conflict(table: Table)

  ghost function Sync(t: Table, profile: Uuid, config: seq<Inbound>, uuids: seq<Uuid>): Outcome
    requires |uuids| >= |config|
  {
    AddFits(t, profile, config);
    var removed, added := ToRemove(t, profile, config), ToAdd(t, profile, config);
    var rest := t - removed;
    if !Creatable(rest, added) then Conflict(rest)
    else if removed == {} && added == [] then
      Synced(Updated(t, profile, config), |ToUpdate(t, profile, config)|)
    else Synced(Created(rest, profile, added, uuids), |removed| + |added|)
  }

  lemma {:induction false} AddMembers(t: Table, profile: Uuid, config: seq<Inbound>)
    ensures |ToAdd(t, profile, config)| <= |config|
    ensures forall c :: c in ToAdd(t, profile, config) <==> c in config && !Held(t, profile, c)
    ensures ToAdd(t, profile, config) == [] <==> forall c | c in config :: Held(t, profile, c)
  {
    if config != [] {
      AddMembers(t, profile, config[1..]);
      assert config == [config[0]] + config[1..];
    }
  }

  lemma {:induction false} AddDistinct(t: Table, profile: Uuid, config: seq<Inbound>)
    requires DistinctTags(config)
    ensures DistinctTags(ToAdd(t, profile, config))
  {
    if config != [] {
      var rest := ToAdd(t, profile, config[1..]);
      AddDistinct(t, profile, config[1..]);
      AddMembers(t, profile, config[1..]);
      forall j | 0 <= j < |rest| ensures rest[j].tag != config[0].tag {
        assert rest[j] in rest;
        assert rest[j] in config[1..];
      }
    }
  }

  lemma AddFits(t: Table, profile: Uuid, config: seq<Inbound>)
    ensures |ToAdd(t, profile, config)| <= |config|
    ensures forall c :: c in ToAdd(t, profile, config) <==> c in config && !Held(t, profile, c)
    ensures DistinctTags(config) ==> DistinctTags(ToAdd(t, profile, config))
    ensures ToAdd(t, profile, config) == [] <==> forall c | c in config :: Held(t, profile, c)
  {
    AddMembers(t, profile, config);
    if DistinctTags(config) {
      AddDistinct(t, profile, config);
    }
  }

  // ---------------------------------------------------------------- one run

  /** Uuids that the database may generate: distinct and unused. */
  predicate Unused(t: Table, uuids: seq<Uuid>) {
    && (forall i | 0 <= i < |uuids| :: uuids[i] !in t)
    && (forall i, j | 0 <= i < j < |uuids| :: uuids[i] != uuids[j])
  }

  ghost predicate SyncInput(t: Table, config: seq<Inbound>, uuids: seq<Uuid>) {
    UniqueTags(t) && DistinctTags(config) && |uuids| >= |config| && Unused(t, uuids)
  }

  /** A stored inbound of the profile and an inbound of the configuration name the same thing. */
  ghost predicate KindsAgree(t: Table, profile: Uuid, config: seq<Inbound>) {
    && (forall u | u in t && t[u].profile == profile ::
          exists c :: c in config && c.tag == t[u].inbound.tag && c.kind == t[u].inbound.kind)
    && (forall c | c in config :: Held(t, profile, c))
  }

  /** Every field agrees. */
  ghost predicate Settled(t: Table, profile: Uuid, config: seq<Inbound>) {
    && (forall u | u in t && t[u].profile == profile :: t[u].inbound in config)
    && (forall c | c in config :: exists u :: u in t && t[u] == Row(profile, c))
  }

  lemma {:induction false} CreatedRows(t: Table, profile: Uuid, added: seq<Inbound>, uuids: seq<Uuid>)
    requires |uuids| >= |added| && Unused(t, uuids)
    ensures forall u ::
              u in Created(t, profile, added, uuids) <==> u in t || exists i :: 0 <= i < |added| && uuids[i] == u
    ensures forall u | u in t :: Created(t, profile, added, uuids)[u] == t[u]
    ensures forall i | 0 <= i < |added| :: Created(t, profile, added, uuids)[uuids[i]] == Row(profile, added[i])
  {
    if added != [] {
      CreatedRows(t, profile, added[1..], uuids[1..]);
      var before, after := Created(t, profile, added[1..], uuids[1..]), Created(t, profile, added, uuids);
      forall u ensures u in after <==> u in t || exists i :: 0 <= i < |added| && uuids[i] == u {
        if u in before && u !in t {
          var i :| 0 <= i < |added[1..]| && uuids[1..][i] == u;
          assert uuids[i + 1] == u;
        }
        if i :| 0 <= i < |added| && uuids[i] == u {
          if i > 0 {
            assert uuids[1..][i - 1] == u;
          }
        }
      }
      forall i | 0 <= i < |added| ensures after[uuids[i]] == Row(profile, added[i]) {
        if i > 0 {
          assert uuids[i] == uuids[1..][i - 1] && added[i] == added[1..][i - 1];
        }
      }
    }
  }

  ghost predicate TagElsewhere(t: Table, profile: Uuid, config: seq<Inbound>) {
    exists u, c :: u in t && c in config && t[u].profile != profile && t[u].inbound.tag == c.tag
  }

  /** A conflict happens exactly when an inbound of the configuration has a tag that another profile
      holds; between the delete and the add the tags to be created are free otherwise. */
  lemma ConflictExactly(t: Table, profile: Uuid, config: seq<Inbound>, uuids: seq<Uuid>)
    requires SyncInput(t, config, uuids)
    ensures Sync(t, profile, config, uuids).Conflict?
       <==> TagElsewhere(t, profile, config)
  {
    var added := ToAdd(t, profile, config);
    var rest := t - ToRemove(t, profile, config);
    AddFits(t, profile, config);
    if u, c :| u in t && c in config && t[u].profile != profile && t[u].inbound.tag == c.tag {
      assert u in rest && !Held(t, profile, c);
    }
    if !Creatable(rest, added) {
      var u, c :| u in rest && c in added && rest[u].inbound.tag == c.tag;
      if t[u].profile == profile {
        FindFinds(config, c.tag);
      }
    }
  }

  const WEB: Inbound := Inbound("web", "vless", None, None, None, "")

  /** An input that is refused: the tag is on a row of profile q. */
  lemma ForeignTagConflicts()
    ensures var t := map["u" := Row("q", WEB)];
            SyncInput(t, [WEB], ["v"]) && TagElsewhere(t, "p", [WEB]) && Sync(t, "p", [WEB], ["v"]) == Conflict(t)
  {
    var t := map["u" := Row("q", WEB)];
    assert t["u"].inbound.tag == WEB.tag;
    ConflictExactly(t, "p", [WEB], ["v"]);
  }

  /** After one run tags and kinds agree, rows whose tag and kind are wanted keep their uuid, and
      no other profile's row is touched. */
  lemma AfterOneRun(t: Table, profile: Uuid, config: seq<Inbound>, uuids: seq<Uuid>)
    requires SyncInput(t, config, uuids) && Sync(t, profile, config, uuids).Synced?
    ensures var t' := Sync(t, profile, config, uuids).table;
            && UniqueTags(t') && UniqueTags(t - ToRemove(t, profile, config))
            && KindsAgree(t', profile, config)
            && (forall u | u in t && t[u].profile == profile && !Outdated(t[u], config) ::
                  u in t' && t'[u].profile == profile
                  && t'[u].inbound.tag == t[u].inbound.tag && t'[u].inbound.kind == t[u].inbound.kind)
            && (forall u | u in t && t[u].profile != profile :: u in t' && t'[u] == t[u])
            && (forall u | u in t' && t'[u].profile != profile :: u in t && t[u] == t'[u])
  {
    var removed, added := ToRemove(t, profile, config), ToAdd(t, profile, config);
    AddFits(t, profile, config);
    if removed == {} && added == [] {
      UpdateRun(t, profile, config);
    } else {
      CreateRun(t, profile, config, uuids);
    }
  }

  lemma UpdateRun(t: Table, profile: Uuid, config: seq<Inbound>)
    requires UniqueTags(t) && DistinctTags(config)
    requires ToRemove(t, profile, config) == {} && ToAdd(t, profile, config) == []
    ensures var t' := Updated(t, profile, config);
            && UniqueTags(t') && KindsAgree(t', profile, config) && Settled(t', profile, config)
            && (forall u | u in t :: t'[u].profile == t[u].profile && t'[u].inbound.tag == t[u].inbound.tag
                                     && t'[u].inbound.kind == t[u].inbound.kind)
  {
    var t' := Updated(t, profile, config);
    AddFits(t, profile, config);
    forall u | u in t
      ensures t'[u].profile == t[u].profile
      ensures t'[u].inbound.tag == t[u].inbound.tag && t'[u].inbound.kind == t[u].inbound.kind
      ensures t[u].profile == profile ==> t'[u].inbound in config
    {
      FindFinds(config, t[u].inbound.tag);
      assert u !in ToRemove(t, profile, config);
    }
    forall c | c in config ensures exists u :: u in t' && t'[u] == Row(profile, c) {
      assert Held(t, profile, c);
      var u :| u in t && t[u].profile == profile && t[u].inbound.tag == c.tag && t[u].inbound.kind == c.kind;
      FindFinds(config, c.tag);
      assert t'[u] == Row(profile, c);
    }
  }

  lemma CreateRun(t: Table, profile: Uuid, config: seq<Inbound>, uuids: seq<Uuid>)
    requires SyncInput(t, config, uuids)
    requires Creatable(t - ToRemove(t, profile, config), ToAdd(t, profile, config))
    requires |ToAdd(t, profile, config)| <= |config|
    ensures var t' := Created(t - ToRemove(t, profile, config), profile, ToAdd(t, profile, config), uuids);
            && UniqueTags(t') && KindsAgree(t', profile, config)
            && (forall u | u in t && !(u in ToRemove(t, profile, config)) :: u in t' && t'[u] == t[u])
            && (forall u | u in t' && t'[u].profile != profile :: u in t && t[u] == t'[u])
  {
    var rest, added := t - ToRemove(t, profile, config), ToAdd(t, profile, config);
    var t' := Created(rest, profile, added, uuids);
    CreatedRows(rest, profile, added, uuids);
    forall u, v | u in t' && v in t' && t'[u].inbound.tag == t'[v].inbound.tag ensures u == v {
      CreatedUnique(rest, t', profile, added, uuids, u, v);
    }
    CreatedAgrees(t, t', profile, config, added, uuids);
  }

  lemma CreatedAgrees(t: Table, t': Table, profile: Uuid, config: seq<Inbound>, added: seq<Inbound>, uuids: seq<Uuid>)
    requires DistinctTags(config) && added == ToAdd(t, profile, config) && |uuids| >= |added|
    requires forall u | u in t' ::
               (u in t && u !in ToRemove(t, profile, config)) || exists i :: 0 <= i < |added| && uuids[i] == u
    requires forall u | u in t && u !in ToRemove(t, profile, config) :: u in t' && t'[u] == t[u]
    requires forall i | 0 <= i < |added| :: uuids[i] in t' && t'[uuids[i]] == Row(profile, added[i])
    ensures KindsAgree(t', profile, config)
  {
    AddMembers(t, profile, config);
    forall u | u in t' && t'[u].profile == profile
      ensures exists c :: c in config && c.tag == t'[u].inbound.tag && c.kind == t'[u].inbound.kind
    {
      if u in t && u !in ToRemove(t, profile, config) {
        FindFinds(config, t[u].inbound.tag);
      } else {
        var i :| 0 <= i < |added| && uuids[i] == u;
        assert added[i] in added;
      }
    }
    forall c | c in config ensures Held(t', profile, c) {
      if Held(t, profile, c) {
        var u :| u in t && t[u].profile == profile && t[u].inbound.tag == c.tag && t[u].inbound.kind == c.kind;
        FindFinds(config, c.tag);
        assert t'[u] == t[u];
      } else {
        var i :| 0 <= i < |added| && added[i] == c;
        assert t'[uuids[i]] == Row(profile, c);
      }
    }
  }

  lemma CreatedUnique(rest: Table, t': Table, profile: Uuid, added: seq<Inbound>, uuids: seq<Uuid>, u: Uuid, v: Uuid)
    requires UniqueTags(rest) && Creatable(rest, added) && |uuids| >= |added|
    requires forall w | w in t' :: w in rest || exists i :: 0 <= i < |added| && uuids[i] == w
    requires forall w | w in rest :: w in t' && t'[w] == rest[w]
    requires forall i | 0 <= i < |added| :: uuids[i] in t' && t'[uuids[i]] == Row(profile, added[i])
    requires u in t' && v in t' && t'[u].inbound.tag == t'[v].inbound.tag
    ensures u == v
  {
  }

  // ---------------------------------------------------------------- what one run writes

  /** The configuration has an inbound of this row's tag and kind. */
  ghost predicate Wanted(row: Row, config: seq<Inbound>) {
    exists c :: c in config && c.tag == row.inbound.tag && c.kind == row.inbound.kind
  }

  lemma WantedExactly(row: Row, config: seq<Inbound>)
    requires DistinctTags(config)
    ensures Wanted(row, config) <==> !Outdated(row, config)
  {
    FindFinds(config, row.inbound.tag);
  }

  /** A refused run leaves what it has deleted deleted, and nothing else changed. */
  lemma RefusedRun(t: Table, profile: Uuid, config: seq<Inbound>, uuids: seq<Uuid>)
    requires SyncInput(t, config, uuids) && Sync(t, profile, config, uuids).Conflict?
    ensures var t' := Sync(t, profile, config, uuids).table;
            && (forall u :: u in t' <==> u in t && (t[u].profile == profile ==> Wanted(t[u], config)))
            && (forall u | u in t' :: t'[u] == t[u])
  {
    forall u | u in t ensures Wanted(t[u], config) <==> !Outdated(t[u], config) {
      WantedExactly(t[u], config);
    }
  }

  lemma NothingToDoExactly(t: Table, profile: Uuid, config: seq<Inbound>)
    requires DistinctTags(config)
    ensures KindsAgree(t, profile, config) <==> ToRemove(t, profile, config) == {} && ToAdd(t, profile, config) == []
  {
    AddMembers(t, profile, config);
    forall u | u in t ensures Wanted(t[u], config) <==> !Outdated(t[u], config) {
      WantedExactly(t[u], config);
    }
    if ToRemove(t, profile, config) == {} {
      forall u | u in t && t[u].profile == profile
        ensures exists c :: c in config && c.tag == t[u].inbound.tag && c.kind == t[u].inbound.kind
      {
        assert u !in ToRemove(t, profile, config);
        assert Wanted(t[u], config);
      }
    }
  }

  /** The rows that are in one table only or differ. */
  function Differing(t: Table, t': Table): set<Uuid> {
    set u | u in t.Keys + t'.Keys && !(u in t && u in t' && t[u] == t'[u])
  }

  /** A run that finds tags and kinds in agreement changes rows in place; any other deletes the rows that are
      not wanted, adds the inbounds that are not held, each under a new uuid, and changes no row. Either way
      it counts one write for each row in which the table differs afterwards. */
  lemma WrittenExactly(t: Table, profile: Uuid, config: seq<Inbound>, uuids: seq<Uuid>)
    requires SyncInput(t, config, uuids) && Sync(t, profile, config, uuids).Synced?
    ensures var t' := Sync(t, profile, config, uuids).table;
            if KindsAgree(t, profile, config)
            then t'.Keys == t.Keys && forall u | u in t && t[u].profile == profile :: t'[u].inbound in config
            else && (forall u | u in t :: u in t' <==> (t[u].profile == profile ==> Wanted(t[u], config)))
                 && (forall u | u in t && u in t' :: t'[u] == t[u])
                 && (forall u | u in t' && u !in t ::
                       u in uuids && exists c :: c in config && !Held(t, profile, c) && t'[u] == Row(profile, c))
    ensures var r := Sync(t, profile, config, uuids);
            r.writes == |Differing(t, r.table)|
  {
    AddFits(t, profile, config);
    NothingToDoExactly(t, profile, config);
    if KindsAgree(t, profile, config) {
      WrittenInPlace(t, profile, config);
    } else {
      WrittenByDeleteAndAdd(t, profile, config, uuids);
    }
  }

  lemma WrittenInPlace(t: Table, profile: Uuid, config: seq<Inbound>)
    requires UniqueTags(t) && DistinctTags(config)
    requires ToRemove(t, profile, config) == {} && ToAdd(t, profile, config) == []
    ensures var t' := Updated(t, profile, config);
            && t'.Keys == t.Keys && (forall u | u in t && t[u].profile == profile :: t'[u].inbound in config)
            && Differing(t, t') == ToUpdate(t, profile, config)
  {
    UpdateRun(t, profile, config);
  }

  lemma WrittenByDeleteAndAdd(t: Table, profile: Uuid, config: seq<Inbound>, uuids: seq<Uuid>)
    requires SyncInput(t, config, uuids) && |ToAdd(t, profile, config)| <= |config|
    ensures var removed, added := ToRemove(t, profile, config), ToAdd(t, profile, config);
            var t' := Created(t - removed, profile, added, uuids);
            && (forall u | u in t :: u in t' <==> (t[u].profile == profile ==> Wanted(t[u], config)))
            && (forall u | u in t && u in t' :: t'[u] == t[u])
            && (forall u | u in t' && u !in t ::
                  u in uuids && exists c :: c in config && !Held(t, profile, c) && t'[u] == Row(profile, c))
            && |Differing(t, t')| == |removed| + |added|
  {
    var removed, added := ToRemove(t, profile, config), ToAdd(t, profile, config);
    var t' := Created(t - removed, profile, added, uuids);
    AddMembers(t, profile, config);
    CreatedRows(t - removed, profile, added, uuids);
    forall u | u in t ensures Wanted(t[u], config) <==> !Outdated(t[u], config) {
      WantedExactly(t[u], config);
    }
    forall u | u in t' && u !in t
      ensures u in uuids && exists c :: c in config && !Held(t, profile, c) && t'[u] == Row(profile, c)
    {
      var i :| 0 <= i < |added| && uuids[i] == u;
      assert added[i] in added;
    }
    DeletedAndAdded(t, t', removed, uuids[..|added|]);
  }

  lemma DeletedAndAdded(t: Table, t': Table, removed: set<Uuid>, used: seq<Uuid>)
    requires removed <= t.Keys && Unused(t, used)
    requires forall u :: u in t' <==> u in t - removed || u in used
    requires forall u | u in t - removed :: t'[u] == t[u]
    ensures |Differing(t, t')| == |removed| + |used|
  {
    SizeOf(used);
    assert Differing(t, t') == removed + AsSet(used);
    assert removed !! AsSet(used);
  }

  // ---------------------------------------------------------------- repeated runs

  /** With tags and kinds in agreement a run neither deletes nor adds, and settles the profile. */
  lemma AgreedRunSettles(t: Table, profile: Uuid, config: seq<Inbound>, uuids: seq<Uuid>)
    requires SyncInput(t, config, uuids) && KindsAgree(t, profile, config)
    ensures Sync(t, profile, config, uuids) == Synced(Updated(t, profile, config), |ToUpdate(t, profile, config)|)
    ensures Settled(Updated(t, profile, config), profile, config) && UniqueTags(Updated(t, profile, config))
  {
    AddFits(t, profile, config);
    forall u | u in t && t[u].profile == profile ensures !Outdated(t[u], config) {
      FindFinds(config, t[u].inbound.tag);
    }
    assert ToRemove(t, profile, config) == {};
    UpdateRun(t, profile, config);
  }

  /** A settled profile is a fixed point, and a run writes nothing exactly when it is settled. */
  lemma SettledExactly(t: Table, profile: Uuid, config: seq<Inbound>, uuids: seq<Uuid>)
    requires SyncInput(t, config, uuids)
    ensures Settled(t, profile, config) <==> Sync(t, profile, config, uuids) == Synced(t, 0)
  {
    AddFits(t, profile, config);
    if Settled(t, profile, config) {
      forall c | c in config ensures Held(t, profile, c) {
      }
      AgreedRunSettles(t, profile, config, uuids);
      forall u | u in t ensures !Changed(t[u], profile, config) {
        FindFinds(config, t[u].inbound.tag);
      }
      assert ToUpdate(t, profile, config) == {} && Updated(t, profile, config) == t;
    } else if Sync(t, profile, config, uuids) == Synced(t, 0) {
      assert |ToRemove(t, profile, config)| == 0 || ToRemove(t, profile, config) == {};
      UpdateRun(t, profile, config);
    }
  }

  /** Convergence: unless the first run hits a tag of another profile, the second leaves every field
      in agreement and the third writes nothing. */
  lemma Converges(t: Table, profile: Uuid, config: seq<Inbound>, f1: seq<Uuid>, f2: seq<Uuid>, f3: seq<Uuid>)
    requires SyncInput(t, config, f1) && Sync(t, profile, config, f1).Synced?
    requires |f2| >= |config| && |f3| >= |config|
    requires Unused(Sync(t, profile, config, f1).table, f2) && Unused(Sync(t, profile, config, f1).table, f3)
    ensures var once := Sync(t, profile, config, f1).table;
            var second := Sync(once, profile, config, f2);
            && second.Synced? && Settled(second.table, profile, config)
            && Sync(second.table, profile, config, f3) == Synced(second.table, 0)
  {
    AfterOneRun(t, profile, config, f1);
    var once := Sync(t, profile, config, f1).table;
    AgreedRunSettles(once, profile, config, f2);
    SettledExactly(Updated(once, profile, config), profile, config, f3);
  }

  /** One run is enough exactly when it has nothing to delete or add, or no kept row has changed. */
  lemma OneRunSettlesExactly(t: Table, profile: Uuid, config: seq<Inbound>, uuids: seq<Uuid>)
    requires SyncInput(t, config, uuids) && Sync(t, profile, config, uuids).Synced?
    ensures Settled(Sync(t, profile, config, uuids).table, profile, config)
       <==> (ToRemove(t, profile, config) == {} && ToAdd(t, profile, config) == [])
            || (forall u | u in t && t[u].profile == profile && !Outdated(t[u], config) :: t[u].inbound in config)
  {
    var removed, added := ToRemove(t, profile, config), ToAdd(t, profile, config);
    AddFits(t, profile, config);
    if removed == {} && added == [] {
      UpdateRun(t, profile, config);
    } else {
      CreateRun(t, profile, config, uuids);
      CreatedSettledExactly(t, profile, config, uuids);
    }
  }

  lemma CreatedSettledExactly(t: Table, profile: Uuid, config: seq<Inbound>, uuids: seq<Uuid>)
    requires SyncInput(t, config, uuids)
    requires Creatable(t - ToRemove(t, profile, config), ToAdd(t, profile, config))
    requires |ToAdd(t, profile, config)| <= |config|
    ensures var t' := Created(t - ToRemove(t, profile, config), profile, ToAdd(t, profile, config), uuids);
            Settled(t', profile, config)
            <==> forall u | u in t && t[u].profile == profile && !Outdated(t[u], config) :: t[u].inbound in config
  {
    var rest, added := t - ToRemove(t, profile, config), ToAdd(t, profile, config);
    var t' := Created(rest, profile, added, uuids);
    CreatedRows(rest, profile, added, uuids);
    AddFits(t, profile, config);
    if forall u | u in t && t[u].profile == profile && !Outdated(t[u], config) :: t[u].inbound in config {
      forall u | u in t' && t'[u].profile == profile ensures t'[u].inbound in config {
        if u !in rest {
          var i :| 0 <= i < |added| && uuids[i] == u;
          assert added[i] in added;
        }
      }
      forall c | c in config ensures exists u :: u in t' && t'[u] == Row(profile, c) {
        if Held(t, profile, c) {
          var u :| u in t && t[u].profile == profile && t[u].inbound.tag == c.tag && t[u].inbound.kind == c.kind;
          FindFinds(config, c.tag);
          assert t[u].inbound in config && t'[u] == Row(profile, c);
        } else {
          var i :| 0 <= i < |added| && added[i] == c;
          assert t'[uuids[i]] == Row(profile, c);
        }
      }
    } else {
      var u :| u in t && t[u].profile == profile && !Outdated(t[u], config) && t[u].inbound !in config;
      assert u in rest && t'[u] == t[u];
    }
  }
}
