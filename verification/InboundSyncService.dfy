/** The reconciliation as the program carries it out: fetched entities are changed in place and saved
    one by one; the service wraps it in a transaction, the start-up seed does not. */
module InboundSyncServices {
  import opened Collections
  import opened InboundSync

  /** A fetched row: its fields are assigned in place before it is saved. */
  class InboundEntity {
    const uuid: Uuid
    const profile: Uuid
    const tag: Tag
    var kind: string
    var network: Option<string>
    var security: Option<string>
    var port: Option<int>
    var raw: string

    constructor (uuid: Uuid, row: Row)
      ensures this.uuid == uuid && profile == row.profile && tag == row.inbound.tag && Value() == row.inbound
    {
      this.uuid, this.profile, this.tag := uuid, row.profile, row.inbound.tag;
      kind, network, security := row.inbound.kind, row.inbound.network, row.inbound.security;
      port, raw := row.inbound.port, row.inbound.raw;
    }

    function Value(): Inbound
      reads this
    {
      Inbound(tag, kind, network, security, port, raw)
    }

    method Assign(c: Inbound)
      requires c.tag == tag
      modifies this
      ensures Value() == c
    {
      security, network, kind, port, raw := c.security, c.network, c.kind, c.port, c.raw;
    }
  }

  class InboundRepository {
    var table: Table

    constructor (table: Table)
      ensures this.table == table
    {
      this.table := table;
    }

    method DeleteMany(uuids: set<Uuid>)
      modifies this
      ensures table == old(table) - uuids
    {
      table := table - uuids;
    }

    /** Refuses, without a change, when a tag would occur twice. */
    method CreateMany(profile: Uuid, added: seq<Inbound>, uuids: seq<Uuid>) returns (created: bool)
      requires |uuids| >= |added|
      modifies this
      ensures created <==> Creatable(old(table), added)
      ensures table == if created then Created(old(table), profile, added, uuids) else old(table)
    {
      created :=
        && (forall i, j | 0 <= i < j < |added| :: added[i].tag != added[j].tag)
        && (forall u, c | u in table && c in added :: table[u].inbound.tag != c.tag);
      if created {
        table := Created(table, profile, added, uuids);
      }
    }

    method Update(e: InboundEntity)
      requires e.uuid in table
      modifies this
      ensures table == old(table)[e.uuid := Row(e.profile, e.Value())]
    {
      table := table[e.uuid := Row(e.profile, e.Value())];
    }
  }

  /** `existing` holds the fetched rows of the profile, each once. */
  ghost predicate Fetched(existing: seq<InboundEntity>, t: Table, profile: Uuid)
    reads existing
  {
    && (forall e | e in existing :: e.uuid in t && e.profile == profile && t[e.uuid] == Row(profile, e.Value()))
    && (forall i, j | 0 <= i < j < |existing| :: existing[i] != existing[j] && existing[i].uuid != existing[j].uuid)
    && (forall u | u in t && t[u].profile == profile :: exists e :: e in existing && e.uuid == u)
  }

  datatype Result = Done | TagTaken | NotFound

  method FindEntity(existing: seq<InboundEntity>, tag: Tag) returns (found: InboundEntity?)
    ensures found == null ==> forall e | e in existing :: e.tag != tag
    ensures found != null ==> found in existing && found.tag == tag
  {
    for i := 0 to |existing|
      invariant forall j | 0 <= j < i :: existing[j].tag != tag
    {
      if existing[i].tag == tag {
        return existing[i];
      }
    }
    return null;
  }

  /** config.filter(...): the inbounds of the configuration that differ from their fetched row. */
  method ChangedInbounds(existing: seq<InboundEntity>, config: seq<Inbound>) returns (changed: seq<Inbound>)
    ensures DistinctTags(config) ==> DistinctTags(changed)
    ensures forall c | c in changed :: c in config && exists e :: e in existing && e.tag == c.tag
    ensures (forall i, j | 0 <= i < j < |existing| :: existing[i].tag != existing[j].tag) ==>
              forall c, e | c in config && e in existing && e.tag == c.tag :: c in changed <==> c != e.Value()
  {
    changed := [];
    for i := 0 to |config|
      invariant DistinctTags(config) ==> DistinctTags(changed)
      invariant forall c | c in changed :: c in config[..i] && exists e :: e in existing && e.tag == c.tag
      invariant (forall k, j | 0 <= k < j < |existing| :: existing[k].tag != existing[j].tag) ==>
                  forall c, e | c in config[..i] && e in existing && e.tag == c.tag :: c in changed <==> c != e.Value()
    {
      assert config[..i + 1] == config[..i] + [config[i]];
      assert DistinctTags(config) ==> forall c | c in config[..i] :: c.tag != config[i].tag;
      var e := FindEntity(existing, config[i].tag);
      if e != null && config[i] != e.Value() {
        assert DistinctTags(config) ==> forall j | 0 <= j < |changed| :: changed[j] in config[..i];
        changed := changed + [config[i]];
      }
    }
    assert config[..|config|] == config;
  }

  /** .map(...): assigns the fields in place; `missing` would be the error "not found". */
  method AssignAll(existing: seq<InboundEntity>, changed: seq<Inbound>)
      returns (updated: seq<InboundEntity>, missing: bool)
    requires DistinctTags(changed)
    requires forall i, j | 0 <= i < j < |existing| :: existing[i] != existing[j] && existing[i].tag != existing[j].tag
    requires forall c | c in changed :: exists e :: e in existing && e.tag == c.tag
    modifies existing
    ensures !missing && |updated| == |changed|
    ensures forall i | 0 <= i < |updated| :: updated[i] in existing && updated[i].Value() == changed[i]
  {
    updated := [];
    for i := 0 to |changed|
      invariant |updated| == i
      invariant forall j | 0 <= j < i :: updated[j] in existing && updated[j].Value() == changed[j]
    {
      var e := FindEntity(existing, changed[i].tag);
      assert changed[i] in changed;
      if e == null {
        return updated, true;
      }
      e.Assign(changed[i]);
      updated := updated + [e];
    }
    missing := false;
  }

  method SaveAll(repo: InboundRepository, updated: seq<InboundEntity>, ghost profile: Uuid)
    requires forall e | e in updated :: e.uuid in repo.table && e.profile == profile
    requires forall i, j | 0 <= i < j < |updated| :: updated[i].uuid != updated[j].uuid
    modifies repo
    ensures repo.table.Keys == old(repo.table).Keys
    ensures forall e | e in updated :: repo.table[e.uuid] == Row(profile, e.Value())
    ensures forall u | u in old(repo.table) && (forall e | e in updated :: e.uuid != u) ::
            repo.table[u] == old(repo.table)[u]
  {
    for i := 0 to |updated|
      invariant repo.table.Keys == old(repo.table).Keys
      invariant forall j | 0 <= j < i :: repo.table[updated[j].uuid] == Row(profile, updated[j].Value())
      invariant forall u | u in repo.table && (forall j | 0 <= j < i :: updated[j].uuid != u) ::
              repo.table[u] == old(repo.table)[u]
    {
      repo.Update(updated[i]);
    }
  }

  method SyncInbounds(repo: InboundRepository, existing: seq<InboundEntity>, config: seq<Inbound>,
                      profile: Uuid, uuids: seq<Uuid>)
      returns (result: Result)
    requires SyncInput(repo.table, config, uuids) && Fetched(existing, repo.table, profile)
    modifies repo, existing
    ensures result != NotFound
    ensures var outcome := Sync(old(repo.table), profile, config, uuids);
            repo.table == outcome.table && (result == Done <==> outcome.Synced?)
  {
    ghost var t := repo.table;
    AddFits(t, profile, config);
    var removed := set e | e in existing && Outdated(Row(profile, e.Value()), config) :: e.uuid;
    assert removed == ToRemove(t, profile, config);
    var added := InboundsToAdd(existing, config, t, profile);
    if removed != {} {
      repo.DeleteMany(removed);
    }
    assert repo.table == t - removed;
    if added != [] {
      var created := repo.CreateMany(profile, added, uuids);
      if !created {
        return TagTaken;
      }
    }
    if added == [] && removed == {} {
      result := UpdateInPlace(repo, existing, config, profile);
    } else {
      result := Done;
    }
  }

  method InboundsToAdd(existing: seq<InboundEntity>, config: seq<Inbound>, ghost t: Table, ghost profile: Uuid)
      returns (added: seq<Inbound>)
    requires UniqueTags(t) && Fetched(existing, t, profile)
    ensures added == ToAdd(t, profile, config)
  {
    added := [];
    for i := 0 to |config|
      invariant added + ToAdd(t, profile, config[i..]) == ToAdd(t, profile, config)
    {
      AddedStep(added, t, profile, config, i);
      var e := FindEntity(existing, config[i].tag);
      HeldByFound(existing, t, profile, config[i], e);
      if e == null || e.kind != config[i].kind {
        added := added + [config[i]];
      }
    }
  }

  lemma HeldByFound(existing: seq<InboundEntity>, t: Table, profile: Uuid, c: Inbound, found: InboundEntity?)
    requires UniqueTags(t) && Fetched(existing, t, profile)
    requires found == null ==> forall e | e in existing :: e.tag != c.tag
    requires found != null ==> found in existing && found.tag == c.tag
    ensures Held(t, profile, c) <==> found != null && found.kind == c.kind
  {
  }

  lemma AddedStep(added: seq<Inbound>, t: Table, profile: Uuid, config: seq<Inbound>, i: nat)
    requires i < |config|
    ensures added + ToAdd(t, profile, config[i..])
         == (if Held(t, profile, config[i]) then added else added + [config[i]]) + ToAdd(t, profile, config[i + 1..])
  {
  }

  lemma FetchedTags(existing: seq<InboundEntity>, t: Table, profile: Uuid)
    requires UniqueTags(t) && Fetched(existing, t, profile)
    ensures forall i, j | 0 <= i < j < |existing| :: existing[i].tag != existing[j].tag
  {
  }

  method UpdateInPlace(repo: InboundRepository, existing: seq<InboundEntity>, config: seq<Inbound>, profile: Uuid)
      returns (result: Result)
    requires UniqueTags(repo.table) && DistinctTags(config) && Fetched(existing, repo.table, profile)
    modifies repo, existing
    ensures result == Done
    ensures repo.table == Updated(old(repo.table), profile, config)
  {
    ghost var t := repo.table;
    var changed := InboundsToUpdate(existing, config, t, profile);
    ghost var us;
    result, us := SaveChanged(repo, existing, changed, profile);
    UpdateResult(t, repo.table, profile, config, changed, us);
  }

  method InboundsToUpdate(existing: seq<InboundEntity>, config: seq<Inbound>, ghost t: Table, ghost profile: Uuid)
      returns (changed: seq<Inbound>)
    requires UniqueTags(t) && DistinctTags(config) && Fetched(existing, t, profile)
    ensures DistinctTags(changed)
    ensures forall c | c in changed :: c in config && exists e :: e in existing && e.tag == c.tag
    ensures forall c, u | c in changed && u in t && t[u].inbound.tag == c.tag :: Changed(t[u], profile, config)
    ensures forall u | u in t && Changed(t[u], profile, config) :: exists c :: c in changed && c.tag == t[u].inbound.tag
  {
    FetchedTags(existing, t, profile);
    changed := ChangedInbounds(existing, config);
    ChangedRows(existing, config, t, profile, changed);
  }

  method SaveChanged(repo: InboundRepository, existing: seq<InboundEntity>, changed: seq<Inbound>, profile: Uuid)
      returns (result: Result, ghost us: seq<Uuid>)
    requires UniqueTags(repo.table) && DistinctTags(changed) && Fetched(existing, repo.table, profile)
    requires forall c | c in changed :: exists e :: e in existing && e.tag == c.tag
    modifies repo, existing
    ensures result == Done && repo.table.Keys == old(repo.table).Keys && |us| == |changed|
    ensures forall i | 0 <= i < |us| ::
              us[i] in old(repo.table) && old(repo.table)[us[i]].inbound.tag == changed[i].tag
              && repo.table[us[i]] == Row(profile, changed[i])
    ensures forall u | u in old(repo.table) && u !in us :: repo.table[u] == old(repo.table)[u]
  {
    ghost var t := repo.table;
    FetchedTags(existing, t, profile);
    us := [];
    var updated, missing := AssignAll(existing, changed);
    if missing {
      return NotFound, us;
    }
    us := seq(|updated|, i requires 0 <= i < |updated| => updated[i].uuid);
    forall i | 0 <= i < |updated| ensures us[i] in t && t[us[i]].inbound.tag == changed[i].tag {
      assert updated[i] in existing;
    }
    SaveAll(repo, updated, profile);
    result := Done;
  }

  /** Every changed inbound differs from the row with its tag, and every changed row has its inbound. */
  lemma ChangedRows(existing: seq<InboundEntity>, config: seq<Inbound>, t: Table, profile: Uuid, changed: seq<Inbound>)
    requires UniqueTags(t) && DistinctTags(config) && Fetched(existing, t, profile)
    requires forall c | c in changed :: c in config && exists e :: e in existing && e.tag == c.tag
    requires forall c, e | c in config && e in existing && e.tag == c.tag :: c in changed <==> c != e.Value()
    ensures forall c, u | c in changed && u in t && t[u].inbound.tag == c.tag :: Changed(t[u], profile, config)
    ensures forall u | u in t && Changed(t[u], profile, config) :: exists c :: c in changed && c.tag == t[u].inbound.tag
  {
    forall c, u | c in changed && u in t && t[u].inbound.tag == c.tag ensures Changed(t[u], profile, config) {
      var e :| e in existing && e.tag == c.tag;
      assert t[e.uuid] == Row(profile, e.Value());
      assert e.uuid == u;
      FindFinds(config, c.tag);
    }
    forall u | u in t && Changed(t[u], profile, config) ensures exists c :: c in changed && c.tag == t[u].inbound.tag {
      var e :| e in existing && e.uuid == u;
      FindFinds(config, e.tag);
      assert Find(config, e.tag).value in changed;
    }
  }

  lemma UpdateResult(t: Table, t': Table, profile: Uuid, config: seq<Inbound>, changed: seq<Inbound>, us: seq<Uuid>)
    requires UniqueTags(t) && DistinctTags(config) && t'.Keys == t.Keys && |us| == |changed|
    requires forall i | 0 <= i < |us| ::
               us[i] in t && t[us[i]].inbound.tag == changed[i].tag && t'[us[i]] == Row(profile, changed[i])
    requires forall c | c in changed :: c in config
    requires forall u | u in t && u !in us :: t'[u] == t[u]
    requires forall c, u | c in changed && u in t && t[u].inbound.tag == c.tag :: Changed(t[u], profile, config)
    requires forall u | u in t && Changed(t[u], profile, config) ::
               exists c :: c in changed && c.tag == t[u].inbound.tag
    ensures t' == Updated(t, profile, config)
  {
    forall u | u in t ensures t'[u] == Updated(t, profile, config)[u] {
      FindFinds(config, t[u].inbound.tag);
      if Changed(t[u], profile, config) {
        var c :| c in changed && c.tag == t[u].inbound.tag;
        var i :| 0 <= i < |changed| && changed[i] == c;
        assert us[i] == u;
      }
      if u in us {
        var i :| 0 <= i < |us| && us[i] == u;
        assert changed[i] in changed;
      }
    }
  }

  /** The service's call is a transaction: what fails leaves the table as it was. It fails exactly
      when the new configuration uses a tag of another profile. */
  method UpdateConfigProfileTransactional(repo: InboundRepository, existing: seq<InboundEntity>, config: seq<Inbound>,
                                          profile: Uuid, uuids: seq<Uuid>)
      returns (result: Result)
    requires SyncInput(repo.table, config, uuids) && Fetched(existing, repo.table, profile)
    modifies repo, existing
    ensures result == Done || result == TagTaken
    ensures result == TagTaken <==> TagElsewhere(old(repo.table), profile, config)
    ensures result == TagTaken ==> repo.table == old(repo.table)
    ensures result == Done ==> repo.table == Sync(old(repo.table), profile, config, uuids).table
                               && KindsAgree(repo.table, profile, config) && UniqueTags(repo.table)
  {
    var before := repo.table;
    ConflictExactly(before, profile, config, uuids);
    result := SyncInbounds(repo, existing, config, profile, uuids);
    if result == Done {
      AfterOneRun(before, profile, config, uuids);
    } else {
      repo.table := before;
    }
  }
}
