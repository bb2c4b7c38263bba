/** Changing the inbounds of an internal squad, and which profiles' nodes that restarts. */
module Squads {
  import opened Collections

  type Uuid = string

  datatype Link = Link(squad: Uuid, inbound: Uuid)
  datatype Row = Row(inbound: Uuid, profile: Uuid)
  datatype Outcome = Updated | NotFound | NameOrInboundsRequired | NameExists | UpdateError

  /** The inbounds a squad is linked to. */
  function Linked(links: set<Link>, squad: Uuid): set<Uuid> {
    set l | l in links && l.squad == squad :: l.inbound
  }

  function OfProfile(inbounds: set<Uuid>, profileOf: map<Uuid, Uuid>, profile: Uuid): set<Uuid> {
    set i | i in inbounds && i in profileOf && profileOf[i] == profile
  }

  /** The profiles of which the two sets do not hold the same inbounds. */
  function Changed(before: set<Uuid>, after: set<Uuid>, profileOf: map<Uuid, Uuid>): set<Uuid> {
    set p | p in profileOf.Values && OfProfile(before, profileOf, p) != OfProfile(after, profileOf, p)
  }

  /** The list can replace a squad's inbounds: the database refuses repeated and unknown ones. */
  predicate Creatable(inbounds: seq<Uuid>, profileOf: map<Uuid, Uuid>) {
    NoDuplicates(inbounds) && AsSet(inbounds) <= profileOf.Keys
  }

  function WithInbounds(links: set<Link>, squad: Uuid, inbounds: set<Uuid>): set<Link> {
    (set l | l in links && l.squad != squad) + set i | i in inbounds :: Link(squad, i)
  }

  // ---------------------------------------------------------------- what the restarts mean

  /** A profile is restarted exactly when one of its inbounds was gained or lost. */
  lemma ChangedExactly(before: set<Uuid>, after: set<Uuid>, profileOf: map<Uuid, Uuid>, profile: Uuid)
    requires before <= profileOf.Keys && after <= profileOf.Keys
    ensures profile in Changed(before, after, profileOf)
       <==> exists i :: i in (before - after) + (after - before) && profileOf[i] == profile
  {
    var a, b := OfProfile(before, profileOf, profile), OfProfile(after, profileOf, profile);
    if profile in Changed(before, after, profileOf) {
      var i :| i in (a - b) + (b - a);
      assert i in (before - after) + (after - before) && profileOf[i] == profile;
    }
    if i: Uuid :| i in (before - after) + (after - before) && profileOf[i] == profile {
      assert (i in a <==> i in before) && (i in b <==> i in after);
      assert a != b;
    }
  }

  /** Nothing is restarted exactly when nothing changed. */
  lemma NoRestartExactly(before: set<Uuid>, after: set<Uuid>, profileOf: map<Uuid, Uuid>)
    requires before <= profileOf.Keys && after <= profileOf.Keys
    ensures Changed(before, after, profileOf) == {} <==> before == after
  {
    if before != after {
      var i :| i in (before - after) + (after - before);
      ChangedExactly(before, after, profileOf, profileOf[i]);
    }
  }

  lemma LinkedAfter(links: set<Link>, squad: Uuid, inbounds: set<Uuid>, other: Uuid)
    ensures Linked(WithInbounds(links, squad, inbounds), other)
         == if other == squad then inbounds else Linked(links, other)
  {
  }

  // ---------------------------------------------------------------- runs of the service

  /** The links of all squads, and the profiles whose nodes were asked to restart so far. */
  datatype Squadron = Squadron(links: set<Link>, restarts: seq<Uuid>)

  /** What one call of the update may do: nothing, or replace a squad's inbounds and ask for the
      restarts that this takes. */
  ghost predicate IsUpdate(before: Squadron, after: Squadron, squad: Uuid, profileOf: map<Uuid, Uuid>) {
    && before.restarts <= after.restarts
    && var inbounds := Linked(after.links, squad);
       && inbounds <= profileOf.Keys
       && after.links == WithInbounds(before.links, squad, inbounds)
       && AsSet(after.restarts[|before.restarts|..]) == Changed(Linked(before.links, squad), inbounds, profileOf)
  }

  ghost predicate IsRun(run: seq<Squadron>, squads: seq<Uuid>, profileOf: map<Uuid, Uuid>) {
    && |run| == |squads| + 1
    && forall n | 0 <= n < |squads| :: run[n + 1] == run[n] || IsUpdate(run[n], run[n + 1], squads[n], profileOf)
  }

  lemma UpdateKeepsUnlessRestarted(
    before: Squadron, after: Squadron, squad: Uuid, profileOf: map<Uuid, Uuid>, profile: Uuid, other: Uuid)
    requires IsUpdate(before, after, squad, profileOf) && profile in profileOf.Values
    requires profile !in after.restarts[|before.restarts|..]
    ensures OfProfile(Linked(after.links, other), profileOf, profile)
            == OfProfile(Linked(before.links, other), profileOf, profile)
  {
    LinkedAfter(before.links, squad, Linked(after.links, squad), other);
    assert profile !in AsSet(after.restarts[|before.restarts|..]);
  }

  lemma {:induction false} RestartsGrow(run: seq<Squadron>, squads: seq<Uuid>, profileOf: map<Uuid, Uuid>)
    requires IsRun(run, squads, profileOf)
    ensures run[0].restarts <= run[|squads|].restarts
    decreases |squads|
  {
    if squads != [] {
      RestartsGrow(run[..|squads|], squads[..|squads| - 1], profileOf);
    }
  }

  /** What a list has gained at its end. */
  function Since(before: seq<Uuid>, after: seq<Uuid>): seq<Uuid> {
    if |before| <= |after| then after[|before|..] else []
  }

  /** Over any run of updates of any squads: a profile whose nodes were not asked to restart since has, in
      every squad, the inbounds it had at the beginning. Nodes that restart when asked never run with
      others. */
  lemma {:induction false} NotRestartedIsCurrent(
    run: seq<Squadron>, squads: seq<Uuid>, profileOf: map<Uuid, Uuid>, profile: Uuid, squad: Uuid)
    requires IsRun(run, squads, profileOf) && profile in profileOf.Values
    requires profile !in Since(run[0].restarts, run[|squads|].restarts)
    ensures OfProfile(Linked(run[|squads|].links, squad), profileOf, profile)
         == OfProfile(Linked(run[0].links, squad), profileOf, profile)
    decreases |squads|
  {
    RestartsGrow(run, squads, profileOf);
    if squads != [] {
      var last := |squads| - 1;
      var earlier := run[..|squads|];
      RestartsGrow(earlier, squads[..last], profileOf);
      var first, before, after := run[0].restarts, run[last].restarts, run[|squads|].restarts;
      assert before <= after;
      assert after[|first|..] == before[|first|..] + after[|before|..];
      NotRestartedIsCurrent(earlier, squads[..last], profileOf, profile, squad);
      if run[|squads|] != run[last] {
        UpdateKeepsUnlessRestarted(run[last], run[|squads|], squads[last], profileOf, profile, squad);
      }
    }
  }

  // ---------------------------------------------------------------- the loops

  /** The row of one of the inbounds, with its profile. */
  predicate IsRow(r: Row, inbounds: set<Uuid>, profileOf: map<Uuid, Uuid>) {
    r.inbound in inbounds && r.inbound in profileOf && r.profile == profileOf[r.inbound]
  }

  /** The inbounds listed for a profile. */
  function ListedFor(rows: seq<Row>, profile: Uuid): set<Uuid> {
    set r | r in rows && r.profile == profile :: r.inbound
  }

  method ProfilesMap(rows: seq<Row>) returns (m: map<Uuid, set<Uuid>>)
    ensures m.Keys == set r | r in rows :: r.profile
    ensures forall p | p in m :: m[p] == ListedFor(rows, p)
  {
    m := map[];
    for i := 0 to |rows|
      invariant m.Keys == set r | r in rows[..i] :: r.profile
      invariant forall p | p in m :: m[p] == ListedFor(rows[..i], p)
    {
      var r := rows[i];
      assert rows[..i + 1] == rows[..i] + [r];
      assert forall p | p != r.profile :: ListedFor(rows[..i + 1], p) == ListedFor(rows[..i], p);
      assert ListedFor(rows[..i + 1], r.profile) == ListedFor(rows[..i], r.profile) + {r.inbound};
      if r.profile !in m {
        assert ListedFor(rows[..i], r.profile) == {};
        m := m[r.profile := {}];
      }
      m := m[r.profile := m[r.profile] + {r.inbound}];
    }
    assert rows[..|rows|] == rows;
  }

  function OrEmpty(m: map<Uuid, set<Uuid>>, p: Uuid): set<Uuid> {
    if p in m then m[p] else {}
  }

  predicate Differs(current: map<Uuid, set<Uuid>>, later: map<Uuid, set<Uuid>>, p: Uuid) {
    OrEmpty(current, p) != OrEmpty(later, p)
  }

  method AffectedProfiles(current: map<Uuid, set<Uuid>>, later: map<Uuid, set<Uuid>>) returns (affected: seq<Uuid>)
    ensures NoDuplicates(affected)
    ensures forall p :: p in affected <==> p in current.Keys + later.Keys && Differs(current, later, p)
  {
    affected := [];
    var rest := current.Keys + later.Keys;
    while rest != {}
      invariant rest <= current.Keys + later.Keys && NoDuplicates(affected)
      invariant forall p :: p in affected <==> p in current.Keys + later.Keys - rest && Differs(current, later, p)
    {
      var p :| p in rest;
      rest := rest - {p};
      var currentSet, newSet := OrEmpty(current, p), OrEmpty(later, p);
      var difference := (currentSet - newSet) + (newSet - currentSet);
      assert difference == {} ==> currentSet == newSet;
      assert p !in affected;
      if |difference| > 0 {
        affected := affected + [p];
      }
    }
  }

  // ---------------------------------------------------------------- the service

  class InternalSquadService {
    var names: map<Uuid, string>     // the squads, each with its name
    var links: set<Link>             // the table between squads and inbounds
    const profileOf: map<Uuid, Uuid> // the table of inbounds, each with its profile
    var restarts: seq<Uuid>          // the profiles whose nodes were asked to restart

    ghost predicate Valid()
      reads this
    {
      && (forall l | l in links :: l.squad in names && l.inbound in profileOf)
      && (forall s, t | s in names && t in names && s != t :: names[s] != names[t])
    }

    ghost function View(): Squadron
      reads this
    {
      Squadron(links, restarts)
    }

    constructor (profileOf: map<Uuid, Uuid>)
      ensures Valid() && this.profileOf == profileOf && names == map[] && links == {} && restarts == []
    {
      this.profileOf := profileOf;
      names, links, restarts := map[], {}, [];
    }

    /** The rows of one squad, in whatever order the database returns them. */
    method InboundsBySquad(squad: Uuid) returns (rows: seq<Row>)
      ensures forall r :: r in rows <==> IsRow(r, Linked(links, squad), profileOf)
    {
      rows := [];
      var rest := Linked(links, squad);
      while rest != {}
        invariant rest <= Linked(links, squad)
        invariant forall r :: r in rows <==>
                    IsRow(r, Linked(links, squad) - rest, profileOf)
      {
        var i :| i in rest;
        rest := rest - {i};
        if i in profileOf {
          rows := rows + [Row(i, profileOf[i])];
        }
      }
    }

    method CleanInbounds(squad: Uuid)
      modifies this`links
      ensures links == set l | l in old(links) && l.squad != squad
    {
      links := set l | l in links && l.squad != squad;
    }

    /** Inserts every row or fails: no duplicate of a row, no row for an unknown inbound. */
    method CreateInbounds(inbounds: seq<Uuid>, squad: Uuid) returns (ok: bool)
      requires Linked(links, squad) == {}
      modifies this`links
      ensures ok <==> Creatable(inbounds, profileOf)
      ensures ok ==> links == old(links) + set i | i in AsSet(inbounds) :: Link(squad, i)
    {
      var before := links;
      for k := 0 to |inbounds|
        invariant Creatable(inbounds[..k], profileOf)
        invariant links == before + set i | i in AsSet(inbounds[..k]) :: Link(squad, i)
      {
        assert inbounds[..k + 1] == inbounds[..k] + [inbounds[k]];
        assert Link(squad, inbounds[k]) !in before by {
          assert inbounds[k] !in Linked(before, squad);
        }
        if Link(squad, inbounds[k]) in links {
          assert inbounds[k] in AsSet(inbounds[..k]);
          var j :| 0 <= j < k && inbounds[j] == inbounds[k];
          assert !NoDuplicates(inbounds);
          return false;
        }
        if inbounds[k] !in profileOf {
          assert inbounds[k] in AsSet(inbounds);
          return false;
        }
        assert inbounds[k] !in inbounds[..k] by {
          assert inbounds[k] !in AsSet(inbounds[..k]);
        }
        links := links + {Link(squad, inbounds[k])};
      }
      assert inbounds[..|inbounds|] == inbounds;
      return true;
    }

    /** Clean and create in one transaction. */
    method SyncInternalSquadInbounds(squad: Uuid, inbounds: seq<Uuid>) returns (ok: bool)
      modifies this`links
      ensures ok <==> Creatable(inbounds, profileOf)
      ensures links == if ok then WithInbounds(old(links), squad, AsSet(inbounds)) else old(links)
    {
      var before := links;
      CleanInbounds(squad);
      ok := true;
      if |inbounds| > 0 {
        ok := CreateInbounds(inbounds, squad);
      } else {
        assert inbounds == [] && AsSet(inbounds) == {};
      }
      if !ok {
        links := before;
      }
    }

    /** Replaces the inbounds and asks for the restarts. */
    method ReplaceInbounds(squad: Uuid, inbounds: seq<Uuid>) returns (ok: bool)
      requires Valid() && squad in names
      modifies this`links, this`restarts
      ensures Valid() && (ok <==> Creatable(inbounds, profileOf))
      ensures links == if ok then WithInbounds(old(links), squad, AsSet(inbounds)) else old(links)
      ensures old(restarts) <= restarts && NoDuplicates(restarts[|old(restarts)|..])
      ensures AsSet(restarts[|old(restarts)|..])
           == if ok then Changed(Linked(old(links), squad), AsSet(inbounds), profileOf) else {}
    {
      var currentRows := InboundsBySquad(squad);
      var current := ProfilesMap(currentRows);
      ok := SyncInternalSquadInbounds(squad, inbounds);
      if !ok {
        assert restarts[|old(restarts)|..] == [];
        return;
      }
      LinkedAfter(old(links), squad, AsSet(inbounds), squad);
      var newRows := InboundsBySquad(squad);
      var later := ProfilesMap(newRows);
      var affected := AffectedProfiles(current, later);
      RowsByProfile(currentRows, current, Linked(old(links), squad), profileOf);
      RowsByProfile(newRows, later, AsSet(inbounds), profileOf);
      restarts := restarts + affected;
      assert restarts[|old(restarts)|..] == affected;
    }

    /** A name of no characters counts as none; an empty list of inbounds counts as a list. The name is
        stored before the inbounds are tried, and stays when they are refused. */
    method UpdateInternalSquad(squad: Uuid, name: Option<string>, inbounds: Option<seq<Uuid>>) returns (r: Outcome)
      requires Valid()
      modifies this`names, this`links, this`restarts
      ensures Valid()
      ensures r == OutcomeOf(old(names), profileOf, squad, name, inbounds)
      ensures names
           == if r in {Updated, UpdateError} && Named(name) then old(names)[squad := name.value] else old(names)
      ensures links
           == if r == Updated && inbounds.Some?
              then WithInbounds(old(links), squad, AsSet(inbounds.value)) else old(links)
      ensures old(restarts) <= restarts && NoDuplicates(restarts[|old(restarts)|..])
      ensures AsSet(restarts[|old(restarts)|..])
           == if r == Updated && inbounds.Some?
              then Changed(Linked(old(links), squad), AsSet(inbounds.value), profileOf) else {}
      ensures View() == old(View()) || IsUpdate(old(View()), View(), squad, profileOf)
    {
      assert restarts[|old(restarts)|..] == [];
      if squad !in names {
        return NotFound;
      }
      if !Named(name) && inbounds.None? {
        return NameOrInboundsRequired;
      }
      if Named(name) {
        if exists s | s in names :: s != squad && names[s] == name.value {
          return NameExists;
        }
        names := names[squad := name.value];
      }
      if inbounds.Some? {
        var ok := ReplaceInbounds(squad, inbounds.value);
        if !ok {
          RestartedNothing(old(restarts), restarts);
          return UpdateError;
        }
        LinkedAfter(old(links), squad, AsSet(inbounds.value), squad);
      }
      return Updated;
    }
  }

  lemma HoldsSome(s: seq<Uuid>)
    requires s != []
    ensures AsSet(s) != {}
  {
    assert s[0] in AsSet(s);
  }

  lemma RestartedNothing(before: seq<Uuid>, after: seq<Uuid>)
    requires before <= after && AsSet(after[|before|..]) == {}
    ensures after == before
  {
    var rest := after[|before|..];
    if rest != [] {
      HoldsSome(rest);
    }
    assert after == before + rest;
  }

  predicate Named(name: Option<string>) {
    name.Some? && name.value != ""
  }

  function OutcomeOf(
    names: map<Uuid, string>, profileOf: map<Uuid, Uuid>,
    squad: Uuid, name: Option<string>, inbounds: Option<seq<Uuid>>): Outcome
  {
    if squad !in names then NotFound
    else if !Named(name) && inbounds.None? then NameOrInboundsRequired
    else if Named(name) && exists s | s in names :: s != squad && names[s] == name.value then NameExists
    else if inbounds.Some? && !Creatable(inbounds.value, profileOf) then UpdateError
    else Updated
  }

  /** The outcomes: an unknown squad; neither a name of some characters nor a list; the name of another squad;
      a list that names an inbound twice or an unknown one; and success in all other cases. */
  lemma OutcomeExactly(
    names: map<Uuid, string>, profileOf: map<Uuid, Uuid>,
    squad: Uuid, name: Option<string>, inbounds: Option<seq<Uuid>>)
    ensures Named(name) <==> name != None && name != Some("")
    ensures var r := OutcomeOf(names, profileOf, squad, name, inbounds);
            && (r == NotFound <==> squad !in names)
            && (r == NameOrInboundsRequired <==> squad in names && name in {None, Some("")} && inbounds == None)
            && (r == NameExists <==>
                  squad in names && exists s | s in names :: s != squad && names[s] != "" && name == Some(names[s]))
            && (r == UpdateError <==>
                  && squad in names && r != NameExists && inbounds.Some?
                  && ((exists i, j :: 0 <= i < j < |inbounds.value| && inbounds.value[i] == inbounds.value[j])
                      || exists i | i in inbounds.value :: i !in profileOf))
            && (r == Updated || r == NotFound || r == NameOrInboundsRequired || r == NameExists || r == UpdateError)
  {
    if inbounds.Some? {
      assert AsSet(inbounds.value) <= profileOf.Keys <==> forall i | i in inbounds.value :: i in profileOf;
    }
  }

  lemma RowsByProfile(rows: seq<Row>, m: map<Uuid, set<Uuid>>, inbounds: set<Uuid>, profileOf: map<Uuid, Uuid>)
    requires forall r :: r in rows <==> IsRow(r, inbounds, profileOf)
    requires m.Keys == set r | r in rows :: r.profile
    requires forall p | p in m :: m[p] == ListedFor(rows, p)
    ensures m.Keys <= profileOf.Values
    ensures forall p :: OrEmpty(m, p) == OfProfile(inbounds, profileOf, p)
  {
    forall p ensures OrEmpty(m, p) == OfProfile(inbounds, profileOf, p) {
      forall i ensures i in ListedFor(rows, p) <==> i in OfProfile(inbounds, profileOf, p) {
        assert i in ListedFor(rows, p) <==> Row(i, p) in rows;
      }
    }
  }

}
