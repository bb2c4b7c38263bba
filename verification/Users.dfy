/** Users and the events that tell the nodes about them. Status changes and node events are published
    by different branches of different operations; over a whole run they have to stay in step. */
module Users {
  import opened Collections

  type Id = nat
  type Uuid = string

  datatype Status = ACTIVE | DISABLED | LIMITED | EXPIRED

  datatype User = User(status: Status, trafficLimit: nat, expireAt: int, squads: seq<Uuid>, vlessUuid: Uuid)

  datatype Event =
    | AddToNode(id: Id, prevVlessUuid: Option<Uuid>)
    | RemoveFromNode(id: Id, vlessUuid: Uuid)

  /** Two kinds of queued jobs. `notices` are the watchdog's: users it has limited or expired whose removal
      from the nodes is still to be published. `welcomes` are the periodic reset's: users it has made active
      that are still to be added. */
  datatype State = State(
    users: map<Id, User>, nextId: Id, events: seq<Event>, notices: multiset<Id>, welcomes: multiset<Id>)

  /** An update accepts no other status. Absent fields stay as they are. */
  datatype Update = Update(
    enable: Option<bool>, trafficLimit: Option<nat>, expireAt: Option<int>, squads: Option<seq<Uuid>>)

  datatype Operation =
    | Create(user: User)
    | UpdateUser(id: Id, dto: Update, now: int)
    | Revoke(id: Id, vlessUuid: Uuid)
    | Delete(id: Id)
    | Disable(id: Id)
    | Enable(id: Id)
    | Extend(id: Id, days: int, now: int)
    | ResetTraffic(id: Id)
    | Watch(id: Id, to: Status)  // the watchdog limits or expires a user and queues a notice
    | Notify(id: Id)             // a queued notice is handled
    | PeriodicReset(id: Id)      // the periodic reset lifts a limit and queues a welcome
    | Welcome(id: Id)            // a queued welcome is handled

  // ---------------------------------------------------------------- what each operation does

  /** newActiveInternalSquads.length !== current.length || !every(includes) */
  predicate HasChanges(requested: seq<Uuid>, current: seq<Uuid>) {
    |requested| != |current| || exists u | u in requested :: u !in current
  }

  predicate TrafficLifts(u: User, dto: Update) {
    u.status == LIMITED && dto.trafficLimit.Some?
    && (dto.trafficLimit.value > u.trafficLimit || dto.trafficLimit.value == 0)
  }

  predicate ExpiryLifts(u: User, dto: Update, now: int) {
    u.status == EXPIRED && dto.expireAt.Some? && dto.enable.None?
    && dto.expireAt.value != u.expireAt && dto.expireAt.value > now
  }

  function StatusAfter(u: User, dto: Update, now: int): Status {
    if u.status == ACTIVE then if dto.enable == Some(false) then DISABLED else ACTIVE
    else if dto.enable == Some(true) || TrafficLifts(u, dto) || ExpiryLifts(u, dto, now) then ACTIVE
    else u.status
  }

  predicate SquadsChange(u: User, dto: Update) {
    dto.squads.Some? && HasChanges(dto.squads.value, u.squads)
  }

  function UserAfter(u: User, dto: Update, now: int): User {
    User(StatusAfter(u, dto, now),
         if dto.trafficLimit.Some? then dto.trafficLimit.value else u.trafficLimit,
         if dto.expireAt.Some? then dto.expireAt.value else u.expireAt,
         if SquadsChange(u, dto) then dto.squads.value else u.squads,
         u.vlessUuid)
  }

  /** A change of squads overrides what the change of status would have published. */
  function UpdateEvents(id: Id, u: User, dto: Update, now: int): seq<Event> {
    var after := StatusAfter(u, dto, now);
    if SquadsChange(u, dto) then
      if dto.squads.value == [] then [RemoveFromNode(id, u.vlessUuid)]
      else if after == ACTIVE then [AddToNode(id, None)] else []
    else if u.status == ACTIVE && after != ACTIVE then [RemoveFromNode(id, u.vlessUuid)]
    else if u.status != ACTIVE && after == ACTIVE then [AddToNode(id, None)]
    else []
  }

  const DAY_MS: int := 86_400_000

  /** An expiry date in the future is extended; one in the past starts again from now. */
  function ExtendedFrom(expireAt: int, now: int): int {
    if expireAt > now then expireAt else now
  }

  function WithUser(s: State, id: Id, u: User, events: seq<Event>): State {
    s.(users := s.users[id := u], events := s.events + events)
  }

  function Next(s: State, op: Operation): State {
    match op
    case Create(user) =>
      var events := if user.status == ACTIVE then [AddToNode(s.nextId, None)] else [];
      WithUser(s.(nextId := s.nextId + 1), s.nextId, user, events)
    case Notify(id) =>
      if id !in s.notices then s
      else if id !in s.users then s.(notices := s.notices - multiset{id})
      else s.(notices := s.notices - multiset{id}, events := s.events + [RemoveFromNode(id, s.users[id].vlessUuid)])
    case Welcome(id) =>
      if id !in s.welcomes then s
      else if id !in s.users then s.(welcomes := s.welcomes - multiset{id})
      else s.(welcomes := s.welcomes - multiset{id}, events := s.events + [AddToNode(id, None)])
    case _ => if op.id !in s.users then s else NextOf(s, op, s.users[op.id])
  }

  function NextOf(s: State, op: Operation, u: User): State
    requires !op.Create? && !op.Notify? && !op.Welcome?
  {
    match op
    case UpdateUser(id, dto, now) => WithUser(s, id, UserAfter(u, dto, now), UpdateEvents(id, u, dto, now))
    case Revoke(id, uuid) =>
      WithUser(s, id, u.(vlessUuid := uuid), if u.status == ACTIVE then [AddToNode(id, Some(u.vlessUuid))] else [])
    case Delete(id) => s.(users := s.users - {id}, events := s.events + [RemoveFromNode(id, u.vlessUuid)])
    case Disable(id) =>
      if u.status == DISABLED then s
      else WithUser(s, id, u.(status := DISABLED), [RemoveFromNode(id, u.vlessUuid)])
    case Enable(id) =>
      if u.status == ACTIVE then s else WithUser(s, id, u.(status := ACTIVE), [AddToNode(id, None)])
    case Extend(id, days, now) =>
      var until := ExtendedFrom(u.expireAt, now) + days * DAY_MS;
      if u.status == EXPIRED then WithUser(s, id, u.(status := ACTIVE, expireAt := until), [AddToNode(id, None)])
      else WithUser(s, id, u.(expireAt := until), [])
    case ResetTraffic(id) =>
      if u.status == LIMITED then WithUser(s, id, u.(status := ACTIVE), [AddToNode(id, None)]) else s
    case Watch(id, to) =>
      if (to == LIMITED && u.status == ACTIVE) || (to == EXPIRED && (u.status == ACTIVE || u.status == LIMITED))
      then WithUser(s.(notices := s.notices + multiset{id}), id, u.(status := to), [])
      else s
    case PeriodicReset(id) =>
      if u.status == LIMITED then WithUser(s.(welcomes := s.welcomes + multiset{id}), id, u.(status := ACTIVE), [])
      else s
  }

  // ---------------------------------------------------------------- what an update leads to

  /** Whether the squads asked for replace the stored ones: there are more or fewer of them, or one is new. */
  predicate Moves(u: User, dto: Update) {
    match dto.squads
    case None => false
    case Some(asked) => !(|asked| == |u.squads| && forall i | 0 <= i < |asked| :: asked[i] in u.squads)
  }

  /** The status that an update leaves. An inactive user becomes active if and only if it is enabled, or is
      limited and given a higher limit or none, or is expired and, without being given a status, gets
      another expiry that lies ahead. An active one becomes disabled if and only if it is told so. */
  lemma UpdatedStatus(s: State, id: Id, dto: Update, now: int)
    requires id in s.users
    ensures var u, s' := s.users[id], Next(s, UpdateUser(id, dto, now));
            && id in s'.users
            && (u.status == ACTIVE ==>
                  s'.users[id].status == if dto.enable == Some(false) then DISABLED else ACTIVE)
            && (u.status != ACTIVE ==>
                  && (s'.users[id].status == ACTIVE <==>
                        || dto.enable == Some(true)
                        || (u.status == LIMITED
                            && exists l :: dto.trafficLimit == Some(l) && (l > u.trafficLimit || l == 0))
                        || (u.status == EXPIRED && dto.enable == None
                            && exists t :: dto.expireAt == Some(t) && t != u.expireAt && t > now))
                  && (s'.users[id].status != ACTIVE ==> s'.users[id].status == u.status))
  {
  }

  /** What else an update stores: the limit, the expiry and the squads given, and nothing not given. */
  lemma UpdatedFields(s: State, id: Id, dto: Update, now: int)
    requires id in s.users
    ensures var u, s' := s.users[id], Next(s, UpdateUser(id, dto, now));
            && s'.users == s.users[id := s'.users[id]]
            && s'.users[id].trafficLimit == (match dto.trafficLimit case Some(l) => l case None => u.trafficLimit)
            && s'.users[id].expireAt == (match dto.expireAt case Some(t) => t case None => u.expireAt)
            && s'.users[id].squads == (if Moves(u, dto) then dto.squads.value else u.squads)
            && s'.users[id].vlessUuid == u.vlessUuid
            && s'.nextId == s.nextId && s'.notices == s.notices && s'.welcomes == s.welcomes
  {
  }

  /** What an update publishes, by the user before and after it: a user moved out of all squads is removed,
      one moved to others is added if it is active now; a user that stays is removed or added when it
      stops or starts being active. */
  lemma UpdatedEvents(s: State, id: Id, dto: Update, now: int)
    requires id in s.users
    ensures var u, s' := s.users[id], Next(s, UpdateUser(id, dto, now));
            var was, active := u.status == ACTIVE, s'.users[id].status == ACTIVE;
            s'.events
            == if (if Moves(u, dto) then s'.users[id].squads == [] else was && !active)
               then s.events + [RemoveFromNode(id, u.vlessUuid)]
               else if active && (Moves(u, dto) || !was) then s.events + [AddToNode(id, None)] else s.events
  {
  }

  // ---------------------------------------------------------------- in step

  function LastEvent(events: seq<Event>, id: Id): Option<Event> {
    if events == [] then None
    else if events[|events| - 1].id == id then Some(events[|events| - 1])
    else LastEvent(events[..|events| - 1], id)
  }

  predicate OnNodes(s: State, id: Id) {
    var e := LastEvent(s.events, id);
    e.Some? && e.value.AddToNode?
  }

  /** A user that is not active is off the nodes, or its notice is queued; an active user that belongs
      to a squad is on the nodes, or its welcome is queued. */
  predicate UserInStep(s: State, id: Id)
    requires id in s.users
  {
    var u := s.users[id];
    && (u.status != ACTIVE ==> !OnNodes(s, id) || id in s.notices)
    && (u.status == ACTIVE && u.squads != [] ==> OnNodes(s, id) || id in s.welcomes)
  }

  ghost predicate InStep(s: State) {
    && (forall id | id in s.users :: id < s.nextId && UserInStep(s, id))
    && (forall e | e in s.events :: e.id < s.nextId)
  }

  /** The three ways to fall out of step. An update may disable an active user and move it to other
      squads at once: nothing is published. A notice may be handled after its user became active again:
      the user is removed. A welcome may be handled after its user became inactive again: it is added. */
  predicate Desyncs(s: State, op: Operation) {
    match op
    case UpdateUser(id, dto, now) =>
      && id in s.users && s.users[id].status == ACTIVE && dto.enable == Some(false)
      && SquadsChange(s.users[id], dto) && dto.squads.value != []
      && OnNodes(s, id) && id !in s.notices
    case Notify(id) =>
      && id in s.notices && id in s.users && s.users[id].status == ACTIVE && s.users[id].squads != []
      && id !in s.welcomes
    case Welcome(id) => id in s.welcomes && id in s.users && s.users[id].status != ACTIVE && id !in s.notices
    case _ => false
  }

  lemma LastOfConcat(events: seq<Event>, more: seq<Event>, id: Id)
    requires |more| <= 1
    ensures LastEvent(events + more, id)
         == if more != [] && more[0].id == id then Some(more[0]) else LastEvent(events, id)
  {
    if more == [] {
      assert events + more == events;
    } else {
      assert (events + more)[..|events + more| - 1] == events;
    }
  }

  lemma {:induction false} NoEvents(events: seq<Event>, id: Id)
    requires forall e | e in events :: e.id != id
    ensures LastEvent(events, id) == None
  {
    if events != [] {
      NoEvents(events[..|events| - 1], id);
    }
  }

  /** What an operation may append, and to whom it happens. */
  function Appended(s: State, op: Operation): seq<Event> {
    Next(s, op).events[|s.events|..]
  }

  function Subject(s: State, op: Operation): Id {
    if op.Create? then s.nextId else op.id
  }

  lemma NextAppends(s: State, op: Operation)
    ensures |Next(s, op).events| <= |s.events| + 1
    ensures s.events <= Next(s, op).events
    ensures Next(s, op).events == s.events + Appended(s, op)
    ensures forall e | e in Appended(s, op) :: e.id == Subject(s, op)
  {
    assert s.events + [] == s.events;
  }

  lemma OthersKept(s: State, op: Operation, id: Id)
    requires id != Subject(s, op)
    ensures id in Next(s, op).users <==> id in s.users
    ensures id in s.users ==> Next(s, op).users[id] == s.users[id]
  {
  }

  lemma QueuesKept(s: State, op: Operation, id: Id)
    requires id != Subject(s, op)
    ensures Next(s, op).notices[id] == s.notices[id] && Next(s, op).welcomes[id] == s.welcomes[id]
  {
    match op
    case Watch(_, _) =>
    case Notify(_) =>
    case PeriodicReset(_) =>
    case Welcome(_) =>
    case _ =>
  }

  lemma OthersStayInStep(s: State, op: Operation, id: Id)
    requires InStep(s) && id in s.users && id != Subject(s, op)
    ensures id in Next(s, op).users && UserInStep(Next(s, op), id)
  {
    OthersKept(s, op, id);
    QueuesKept(s, op, id);
    NextAppends(s, op);
    LastOfConcat(s.events, Appended(s, op), id);
  }

  lemma LastOfSubject(s: State, op: Operation)
    ensures LastEvent(Next(s, op).events, Subject(s, op))
         == if Appended(s, op) != [] then Some(Appended(s, op)[0]) else LastEvent(s.events, Subject(s, op))
  {
    NextAppends(s, op);
    LastOfConcat(s.events, Appended(s, op), Subject(s, op));
  }

  lemma UpdatedInStep(s: State, op: Operation)
    requires InStep(s) && op.UpdateUser? && op.id in s.users
    ensures UserInStep(Next(s, op), op.id) <==> !Desyncs(s, op)
  {
    LastOfSubject(s, op);
    assert Appended(s, op) == UpdateEvents(op.id, s.users[op.id], op.dto, op.now);
  }

  lemma WelcomedInStep(s: State, op: Operation)
    requires InStep(s) && op.Welcome? && op.id in s.users
    ensures UserInStep(Next(s, op), op.id) <==> !Desyncs(s, op)
  {
    LastOfSubject(s, op);
    if op.id in s.welcomes {
      assert Appended(s, op) == [AddToNode(op.id, None)];
    }
  }

  lemma PeriodicResetInStep(s: State, op: Operation)
    requires InStep(s) && op.PeriodicReset? && op.id in s.users
    ensures UserInStep(Next(s, op), op.id)
  {
    LastOfSubject(s, op);
    assert Appended(s, op) == [];
  }

  lemma CreatedInStep(s: State, op: Operation)
    requires InStep(s) && op.Create?
    ensures UserInStep(Next(s, op), s.nextId)
  {
    LastOfSubject(s, op);
    NoEvents(s.events, s.nextId);
  }

  lemma ServedInStep(s: State, op: Operation)
    requires InStep(s) && !op.Create? && !op.UpdateUser? && !op.Watch? && !op.Notify?
    requires !op.PeriodicReset? && !op.Welcome?
    requires op.id in s.users && op.id in Next(s, op).users
    ensures UserInStep(Next(s, op), op.id)
  {
    LastOfSubject(s, op);
  }

  lemma SubjectInStep(s: State, op: Operation)
    requires InStep(s) && Subject(s, op) in Next(s, op).users
    ensures UserInStep(Next(s, op), Subject(s, op)) <==> !Desyncs(s, op)
  {
    match op
    case Create(_) => CreatedInStep(s, op);
    case UpdateUser(_, _, _) => UpdatedInStep(s, op);
    case Watch(_, _) =>
    case Notify(_) =>
    case PeriodicReset(_) => PeriodicResetInStep(s, op);
    case Welcome(_) => WelcomedInStep(s, op);
    case Revoke(_, _) | Delete(_) | Disable(_) | Enable(_) | Extend(_, _, _) | ResetTraffic(_) => ServedInStep(s, op);
  }

  /** An operation takes a state out of step exactly in the three ways named above. */
  lemma StepExactly(s: State, op: Operation)
    requires InStep(s)
    ensures InStep(Next(s, op)) <==> !Desyncs(s, op)
  {
    var s' := Next(s, op);
    forall id | id in s'.users && id != Subject(s, op) ensures id in s.users && UserInStep(s', id) {
      OthersKept(s, op, id);
      OthersStayInStep(s, op, id);
    }
    if Subject(s, op) in s'.users {
      SubjectInStep(s, op);
    }
    if Desyncs(s, op) {
    } else {
      EventsStayKnown(s, op);
    }
  }

  lemma EventsStayKnown(s: State, op: Operation)
    requires InStep(s)
    ensures forall e | e in Next(s, op).events :: e.id < Next(s, op).nextId
  {
    NextAppends(s, op);
    forall e | e in Next(s, op).events ensures e.id < Next(s, op).nextId {
      if e !in s.events {
        assert e in Appended(s, op);
      }
    }
  }

  ghost predicate IsRun(run: seq<State>, ops: seq<Operation>) {
    && |run| == |ops| + 1
    && run[0] == State(map[], 0, [], multiset{}, multiset{})
    && forall n | 0 <= n < |ops| :: run[n + 1] == Next(run[n], ops[n])
  }

  lemma {:induction false} RunInStep(run: seq<State>, ops: seq<Operation>, n: nat)
    requires IsRun(run, ops) && n < |run|
    requires forall m | 0 <= m < n :: !Desyncs(run[m], ops[m])
    ensures InStep(run[n])
  {
    if n > 0 {
      RunInStep(run, ops, n - 1);
      StepExactly(run[n - 1], ops[n - 1]);
      assert run[n] == Next(run[n - 1], ops[n - 1]);
    }
  }

  /** A run stays in step throughout exactly when none of its operations falls out of step. */
  lemma RunInStepExactly(run: seq<State>, ops: seq<Operation>)
    requires IsRun(run, ops)
    ensures (forall n | 0 <= n < |run| :: InStep(run[n])) <==> (forall n | 0 <= n < |ops| :: !Desyncs(run[n], ops[n]))
  {
    if forall n | 0 <= n < |ops| :: !Desyncs(run[n], ops[n]) {
      forall n | 0 <= n < |run| ensures InStep(run[n]) {
        RunInStep(run, ops, n);
      }
    } else {
      var n :| 0 <= n < |ops| && Desyncs(run[n], ops[n]);
      if InStep(run[n]) {
        StepExactly(run[n], ops[n]);
        assert run[n + 1] == Next(run[n], ops[n]);
      }
    }
  }

  /** The operations of the users service alone, without the watchdog and the periodic reset: no user that
      is not active has an Add as its last event, unless an update disabled it and moved it at once. */
  lemma {:induction false} ServiceRun(run: seq<State>, ops: seq<Operation>, n: nat)
    requires IsRun(run, ops) && n < |run|
    requires forall op | op in ops :: !op.Watch? && !op.PeriodicReset?
    requires forall m | 0 <= m < |ops| && ops[m].UpdateUser? && ops[m].id in run[m].users ::
               !(run[m].users[ops[m].id].status == ACTIVE && ops[m].dto.enable == Some(false)
                 && SquadsChange(run[m].users[ops[m].id], ops[m].dto) && ops[m].dto.squads.value != [])
    ensures run[n].notices == run[n].welcomes == multiset{} && InStep(run[n])
    ensures forall id | id in run[n].users && run[n].users[id].status != ACTIVE :: !OnNodes(run[n], id)
    ensures forall id | id in run[n].users && run[n].users[id].squads != [] ::
              run[n].users[id].status == ACTIVE <==> OnNodes(run[n], id)
  {
    if n > 0 {
      ServiceRun(run, ops, n - 1);
      assert ops[n - 1] in ops && run[n] == Next(run[n - 1], ops[n - 1]);
      StepExactly(run[n - 1], ops[n - 1]);
    }
  }

  const EMPTY: State := State(map[], 0, [], multiset{}, multiset{})
  const SAMPLE: User := User(ACTIVE, 10, 100, ["a"], "v")

  /** An update that disables an active user and moves it to another squad publishes nothing. */
  lemma MoveWhileDisabling()
    ensures exists run: seq<State>, ops: seq<Operation> ::
              IsRun(run, ops) && |ops| == 2 && ops[1].UpdateUser? && Desyncs(run[1], ops[1])
  {
    var s1 := Next(EMPTY, Create(SAMPLE));
    assert s1.events == [AddToNode(0, None)];
    var move := UpdateUser(0, Update(Some(false), None, None, Some(["b"])), 0);
    assert "b" in ["b"] && "b" !in ["a"];
    var run, ops := [EMPTY, s1, Next(s1, move)], [Create(SAMPLE), move];
    assert IsRun(run, ops) && Desyncs(run[1], ops[1]);
  }

  /** A traffic limit is lifted before the notice of the limit is handled: the active user is removed. */
  lemma LateNotice()
    ensures exists run: seq<State>, ops: seq<Operation> ::
              IsRun(run, ops) && |ops| == 4 && ops[3].Notify? && Desyncs(run[3], ops[3])
  {
    var s1 := Next(EMPTY, Create(SAMPLE));
    var s2 := Next(s1, Watch(0, LIMITED));
    var s3 := Next(s2, ResetTraffic(0));
    var run := [EMPTY, s1, s2, s3, Next(s3, Notify(0))];
    var ops := [Create(SAMPLE), Watch(0, LIMITED), ResetTraffic(0), Notify(0)];
    assert IsRun(run, ops) && Desyncs(run[3], ops[3]);
  }

  /** The periodic reset lifts a limit, the user is disabled, and then the welcome is handled: the disabled
      user is added. */
  lemma LateWelcome()
    ensures exists run: seq<State>, ops: seq<Operation> ::
              && IsRun(run, ops) && |ops| == 4 && ops[3].Welcome? && Desyncs(run[3], ops[3])
              && 0 in run[4].users && run[4].users[0].status == DISABLED && OnNodes(run[4], 0)
  {
    var s1 := Next(EMPTY, Create(SAMPLE.(status := LIMITED)));
    var s2 := Next(s1, PeriodicReset(0));
    var s3 := Next(s2, Disable(0));
    var s4 := Next(s3, Welcome(0));
    assert s3.users[0].status == DISABLED && s4.events == s3.events + [AddToNode(0, None)];
    var run, ops := [EMPTY, s1, s2, s3, s4],
      [Create(SAMPLE.(status := LIMITED)), PeriodicReset(0), Disable(0), Welcome(0)];
    assert IsRun(run, ops) && Desyncs(run[3], ops[3]);
  }

  // ---------------------------------------------------------------- hasChanges

  /** hasChanges tells whether the sets of squads differ, against every stored list, exactly for
      requested lists without duplicates. (Stored lists have none.) */
  lemma HasChangesExactly(requested: seq<Uuid>)
    ensures NoDuplicates(requested)
       <==> forall current | NoDuplicates(current) ::
           HasChanges(requested, current) <==> AsSet(requested) != AsSet(current)
  {
    if NoDuplicates(requested) {
      forall current | NoDuplicates(current)
        ensures HasChanges(requested, current) <==> AsSet(requested) != AsSet(current)
      {
        SizeOf(requested);
        SizeOf(current);
        if !HasChanges(requested, current) {
          SubsetOfSameSize(AsSet(requested), AsSet(current));
        } else if |requested| == |current| {
          var u :| u in requested && u !in current;
          assert u in AsSet(requested) && u !in AsSet(current);
        }
      }
    } else {
      var current := Listing(AsSet(requested));
      SizeOf(requested);
      SizeOf(current);
    }
  }
}
