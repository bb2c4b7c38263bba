/** The users service with its awaits: an operation reads a user, stores it, and publishes, in separate
    steps, and operations interleave. Resetting the traffic publishes before it stores. The database may
    refuse at every step. */
module UsersInterleaved {
  import opened Collections
  import opened Users

  /** An operation under way: what it read, and whether the first of its two effects has happened. */
  datatype Session = Session(op: Operation, id: Id, seen: Option<User>, half: bool)

  datatype World = World(users: map<Id, User>, nextId: Id, events: seq<Event>, sessions: seq<Session>)

  datatype Move =
    | Begin(op: Operation)
    | First(k: nat)
    | Second(k: nat)
    | Reject(k: nat) // the database refuses to read or to write: the operation ends here

  predicate OfService(op: Operation) {
    !op.Watch? && !op.Notify? && !op.PeriodicReset? && !op.Welcome?
  }

  /** What an operation makes of the user it read. */
  function Effect(x: Session): State {
    Next(State(if x.seen.Some? then map[x.id := x.seen.value] else map[], x.id, [], multiset{}, multiset{}), x.op)
  }

  function UserIn(users: map<Id, User>, id: Id): Option<User> {
    if id in users then Some(users[id]) else None
  }

  function Stored(users: map<Id, User>, x: Session): map<Id, User> {
    if x.id in Effect(x).users then users[x.id := Effect(x).users[x.id]] else users - {x.id}
  }

  function WithoutSession(xs: seq<Session>, k: nat): seq<Session>
    requires k < |xs|
  {
    xs[..k] + xs[k + 1..]
  }

  predicate Enabled(s: World, m: Move) {
    match m
    case Begin(op) => OfService(op) && (op.Create? || op.id in s.users)
    case First(k) => k < |s.sessions| && !s.sessions[k].half
    case Second(k) => k < |s.sessions| && s.sessions[k].half
    case Reject(k) => k < |s.sessions|
  }

  function Started(s: World, op: Operation): Session
    requires OfService(op) && (op.Create? || op.id in s.users)
  {
    if op.Create? then Session(op, 0, None, false) else Session(op, op.id, Some(s.users[op.id]), false)
  }

  /** A new user gets its id when it is stored. */
  function Halfway(s: World, x: Session): Session {
    x.(id := if x.op.Create? then s.nextId else x.id, half := true)
  }

  function After(s: World, m: Move): World
    requires Enabled(s, m)
  {
    match m
    case Begin(op) => s.(sessions := s.sessions + [Started(s, op)])
    case First(k) =>
      var x := Halfway(s, s.sessions[k]);
      s.(users := if x.op.ResetTraffic? then s.users else Stored(s.users, x),
         events := if x.op.ResetTraffic? then s.events + Effect(x).events else s.events,
         nextId := if x.op.Create? then s.nextId + 1 else s.nextId,
         sessions := s.sessions[k := x])
    case Second(k) =>
      var x := s.sessions[k];
      s.(users := if x.op.ResetTraffic? then Stored(s.users, x) else s.users,
         events := if x.op.ResetTraffic? then s.events else s.events + Effect(x).events,
         sessions := WithoutSession(s.sessions, k))
    case Reject(k) => s.(sessions := WithoutSession(s.sessions, k))
  }

  // ---------------------------------------------------------------- in step, user by user

  predicate IsAdd(e: Option<Event>) {
    e.Some? && e.value.AddToNode?
  }

  /** A user and its last event. */
  predicate Fits(u: User, last: Option<Event>) {
    && (u.status != ACTIVE ==> !IsAdd(last))
    && (u.status == ACTIVE && u.squads != [] ==> IsAdd(last))
  }

  function Last(s: World, id: Id): Option<Event> {
    LastEvent(s.events, id)
  }

  /** The operation is about a user that exists. */
  predicate Claims(x: Session) {
    x.half || !x.op.Create?
  }

  ghost predicate Busy(s: World, id: Id) {
    exists x | x in s.sessions :: Claims(x) && x.id == id
  }

  /** Every user on which nothing is under way fits its last event. */
  ghost predicate IdleInStep(s: World) {
    forall id | id in s.users && !Busy(s, id) :: Fits(s.users[id], Last(s, id))
  }

  /** No operation begins on a user on which one is under way. */
  ghost predicate Alone(s: World, m: Move) {
    m.Begin? && !m.op.Create? ==> !Busy(s, m.op.id)
  }

  /** An update that disables an active user, which is on the nodes, and changes its squads at once. */
  predicate MovesWhileDisabling(x: Session, last: Option<Event>) {
    && x.op.UpdateUser? && x.seen.Some? && x.seen.value.status == ACTIVE && x.op.dto.enable == Some(false)
    && SquadsChange(x.seen.value, x.op.dto) && x.op.dto.squads.value != [] && IsAdd(last)
  }

  /** The operation has stored a user that its pending event would have to fit. */
  predicate StoredOutOfStep(x: Session, last: Option<Event>) {
    && x.id in Effect(x).users
    && var u := Effect(x).users[x.id];
       (u.status != ACTIVE && IsAdd(last)) || (u.status == ACTIVE && u.squads != [] && !IsAdd(last))
  }

  /** The move ends an operation and leaves its user out of step: an update that moves while disabling is
      completed; or the database refuses an operation between its two effects, when what it has stored
      needs the event that is pending, or the reset it has published lifts a limit. */
  predicate Spoils(s: World, m: Move)
    requires Enabled(s, m)
  {
    match m
    case Begin(_) => false
    case First(_) => false
    case Second(k) => MovesWhileDisabling(s.sessions[k], Last(s, s.sessions[k].id))
    case Reject(k) =>
      var x := s.sessions[k];
      && x.half
      && if x.op.ResetTraffic? then x.seen.Some? && x.seen.value.status == LIMITED
         else StoredOutOfStep(x, Last(s, x.id))
  }

  // ---------------------------------------------------------------- what one operation does to its user

  predicate OpsFit(x: Session) {
    OfService(x.op) && if x.op.Create? then x.seen == None else x.op.id == x.id && x.seen.Some?
  }

  function LastAfter(last: Option<Event>, more: seq<Event>): Option<Event> {
    if more == [] then last else Some(more[0])
  }

  lemma EffectIsSmall(x: Session)
    requires OpsFit(x)
    ensures |Effect(x).events| <= 1 && forall e | e in Effect(x).events :: e.id == x.id
  {
  }

  /** Completed on a user that fitted, every operation leaves one that fits, except an update that moves
      while disabling. */
  lemma CompletedFits(x: Session, last: Option<Event>)
    requires OpsFit(x) && (if x.op.Create? then last == None else Fits(x.seen.value, last))
    requires x.id in Effect(x).users
    ensures Fits(Effect(x).users[x.id], LastAfter(last, Effect(x).events)) <==> !MovesWhileDisabling(x, last)
  {
    if x.op.UpdateUser? {
      UpdatedFits(x, last);
    }
  }

  lemma UpdatedFits(x: Session, last: Option<Event>)
    requires OpsFit(x) && x.op.UpdateUser? && Fits(x.seen.value, last)
    ensures x.id in Effect(x).users
    ensures Fits(Effect(x).users[x.id], LastAfter(last, Effect(x).events)) <==> !MovesWhileDisabling(x, last)
  {
    UpdateEffect(x);
    UpdateFits(x.id, x.seen.value, x.op.dto, x.op.now, last);
  }

  lemma UpdateEffect(x: Session)
    requires OpsFit(x) && x.op.UpdateUser?
    ensures Effect(x).events == UpdateEvents(x.id, x.seen.value, x.op.dto, x.op.now)
    ensures x.id in Effect(x).users && Effect(x).users[x.id] == UserAfter(x.seen.value, x.op.dto, x.op.now)
  {
    var more := UpdateEvents(x.id, x.seen.value, x.op.dto, x.op.now);
    assert [] + more == more;
  }

  lemma UpdateFits(id: Id, u: User, dto: Update, now: int, last: Option<Event>)
    requires Fits(u, last)
    ensures Fits(UserAfter(u, dto, now), LastAfter(last, UpdateEvents(id, u, dto, now)))
       <==> !(u.status == ACTIVE && dto.enable == Some(false)
              && SquadsChange(u, dto) && dto.squads.value != [] && IsAdd(last))
  {
  }

  /** An operation does to a whole state what it does to the one user it is about. */
  lemma EffectIsLocal(a: State, x: Session)
    requires OpsFit(x) && x.id == Subject(a, x.op) && x.seen == UserIn(a.users, x.id)
    ensures UserIn(Next(a, x.op).users, x.id) == UserIn(Effect(x).users, x.id)
    ensures Next(a, x.op).events == a.events + Effect(x).events
    ensures forall id | id != x.id :: UserIn(Next(a, x.op).users, id) == UserIn(a.users, id)
  {
    assert a.events + [] == a.events;
    if x.op.UpdateUser? {
      var more := UpdateEvents(x.id, x.seen.value, x.op.dto, x.op.now);
      assert [] + more == more;
    }
    forall id | id != x.id ensures UserIn(Next(a, x.op).users, id) == UserIn(a.users, id) {
      OthersKept(a, x.op, id);
    }
  }

  function Whole(s: World): State {
    State(s.users, s.nextId, s.events, multiset{}, multiset{})
  }

  /** Undisturbed, the moves of an operation come to what the operation does at once. */
  lemma UndisturbedIsAtomic(s: World, op: Operation)
    requires !op.Watch? && !op.Notify? && !op.PeriodicReset? && !op.Welcome?
    requires (op.Create? || op.id in s.users) && forall id | id in s.users :: id < s.nextId
    ensures Enabled(s, Begin(op))
    ensures var k, s1 := |s.sessions|, After(s, Begin(op));
            && Enabled(s1, First(k)) && Enabled(s1, Reject(k)) && Enabled(After(s1, First(k)), Reject(k))
            && Enabled(After(s1, First(k)), Second(k))
            && var s3, a := After(After(s1, First(k)), Second(k)), Next(Whole(s), op);
               s3 == World(a.users, a.nextId, a.events, s.sessions)
  {
    var k, s1 := |s.sessions|, After(s, Begin(op));
    assert s1.sessions[k] == Started(s, op);
    var s2 := After(s1, First(k));
    var x := s2.sessions[k];
    assert WithoutSession(s2.sessions, k) == s.sessions;
    EffectIsLocal(Whole(s), x);
    UndisturbedUsers(s, x);
  }

  lemma UndisturbedUsers(s: World, x: Session)
    requires OpsFit(x) && x.id == Subject(Whole(s), x.op) && x.seen == UserIn(s.users, x.id)
    ensures Stored(s.users, x) == Next(Whole(s), x.op).users
  {
    EffectIsLocal(Whole(s), x);
    var a, b := Stored(s.users, x), Next(Whole(s), x.op).users;
    forall id ensures UserIn(a, id) == UserIn(b, id) {
    }
    assert forall id :: id in a <==> UserIn(a, id).Some?;
  }

  /** Half way, an operation has stored its user and published nothing; resetting the traffic has published
      and stored nothing. A refusal leaves it at that. */
  lemma HalfWay(s: World, k: nat)
    requires k < |s.sessions|
    ensures !s.sessions[k].half ==>
              var s' := After(s, First(k));
              && s'.sessions[k].half && |s'.sessions| == |s.sessions|
              && if s.sessions[k].op.ResetTraffic? then s'.users == s.users else s'.events == s.events
    ensures var s' := After(s, Reject(k));
            s' == s.(sessions := s'.sessions) && s'.sessions == s.sessions[..k] + s.sessions[k + 1..]
  {
  }

  // ---------------------------------------------------------------- what holds while operations are under way

  /** How far a user under way has got. */
  predicate OnTheWay(s: World, x: Session) {
    && OpsFit(x) && x.id < s.nextId
    && var last := Last(s, x.id);
       if !x.half then !x.op.Create? && x.seen == UserIn(s.users, x.id) && Fits(x.seen.value, last)
       else if x.op.ResetTraffic? then
         && x.seen == UserIn(s.users, x.id)
         && if x.seen.value.status == LIMITED then IsAdd(last) else Fits(x.seen.value, last)
       else
         && UserIn(s.users, x.id) == UserIn(Effect(x).users, x.id)
         && if x.op.Create? then last == None else Fits(x.seen.value, last)
  }

  ghost predicate Sound(s: World) {
    && (forall id | id in s.users :: id < s.nextId)
    && (forall e | e in s.events :: e.id < s.nextId)
    && (forall x | x in s.sessions :: OpsFit(x) && (Claims(x) ==> OnTheWay(s, x)))
    && (forall i, j | 0 <= i < j < |s.sessions| && Claims(s.sessions[i]) && Claims(s.sessions[j]) ::
          s.sessions[i].id != s.sessions[j].id)
  }

  /** A move about another user leaves this one alone. */
  predicate Kept(s: World, s': World, id: Id) {
    UserIn(s'.users, id) == UserIn(s.users, id) && Last(s', id) == Last(s, id)
  }

  lemma KeptOnTheWay(s: World, s': World, x: Session)
    requires Kept(s, s', x.id) && OnTheWay(s, x) && s.nextId <= s'.nextId
    ensures OnTheWay(s', x)
  {
  }

  lemma FirstKeeps(s: World, k: nat, id: Id)
    requires Enabled(s, First(k)) && Sound(s) && id != Halfway(s, s.sessions[k]).id
    ensures Kept(s, After(s, First(k)), id)
  {
    var x := Halfway(s, s.sessions[k]);
    assert s.sessions[k] in s.sessions;
    EffectIsSmall(x);
    LastOfConcat(s.events, Effect(x).events, id);
  }

  lemma SecondKeeps(s: World, k: nat, id: Id)
    requires Enabled(s, Second(k)) && Sound(s) && id != s.sessions[k].id
    ensures Kept(s, After(s, Second(k)), id)
  {
    var x := s.sessions[k];
    assert x in s.sessions;
    EffectIsSmall(x);
    LastOfConcat(s.events, Effect(x).events, id);
  }

  lemma ResetEffect(x: Session)
    requires OpsFit(x) && x.op.ResetTraffic?
    ensures Effect(x).events == if x.seen.value.status == LIMITED then [AddToNode(x.id, None)] else []
  {
  }

  lemma PublishedOnTheWay(s: World, k: nat)
    requires Enabled(s, First(k)) && Sound(s) && s.sessions[k].op.ResetTraffic?
    ensures OnTheWay(After(s, First(k)), Halfway(s, s.sessions[k]))
  {
    assert s.sessions[k] in s.sessions;
    var x := Halfway(s, s.sessions[k]);
    ResetEffect(x);
    LastOfConcat(s.events, Effect(x).events, x.id);
  }

  lemma StoredOnTheWay(s: World, k: nat)
    requires Enabled(s, First(k)) && Sound(s) && !s.sessions[k].op.ResetTraffic?
    ensures OnTheWay(After(s, First(k)), Halfway(s, s.sessions[k]))
  {
    assert s.sessions[k] in s.sessions;
    var x := Halfway(s, s.sessions[k]);
    assert UserIn(Stored(s.users, x), x.id) == UserIn(Effect(x).users, x.id);
    if x.op.Create? {
      NoEvents(s.events, s.nextId);
    }
  }

  /** After its first effect an operation is on the way. */
  lemma FirstOnTheWay(s: World, k: nat)
    requires Enabled(s, First(k)) && Sound(s)
    ensures OpsFit(Halfway(s, s.sessions[k])) && OnTheWay(After(s, First(k)), Halfway(s, s.sessions[k]))
  {
    if s.sessions[k].op.ResetTraffic? {
      PublishedOnTheWay(s, k);
    } else {
      StoredOnTheWay(s, k);
    }
  }

  lemma OthersDiffer(s: World, k: nat, i: nat)
    requires Sound(s) && k < |s.sessions| && i < |s.sessions| && i != k && !s.sessions[k].half
    requires Claims(s.sessions[i])
    ensures s.sessions[i] in s.sessions && s.sessions[i].id != Halfway(s, s.sessions[k]).id
  {
    assert s.sessions[i] in s.sessions;
  }

  lemma FirstBusy(s: World, k: nat, id: Id)
    requires Enabled(s, First(k))
    ensures Busy(After(s, First(k)), id) <==> Busy(s, id) || id == Halfway(s, s.sessions[k]).id
  {
    var s', x := After(s, First(k)), Halfway(s, s.sessions[k]);
    assert s'.sessions[k] == x && x in s'.sessions;
    if y :| y in s.sessions && Claims(y) && y.id == id {
      var i :| 0 <= i < |s.sessions| && s.sessions[i] == y;
      assert s'.sessions[i] in s'.sessions;
    }
    if y :| y in s'.sessions && Claims(y) && y.id == id && y != x {
      var i :| 0 <= i < |s'.sessions| && s'.sessions[i] == y;
      assert s.sessions[i] in s.sessions;
    }
  }

  lemma SameSessions(xs: seq<Session>, k: nat)
    requires k < |xs|
    ensures forall y | y in WithoutSession(xs, k) :: y in xs
    ensures forall y | y in xs && y != xs[k] :: y in WithoutSession(xs, k)
  {
    var rest := WithoutSession(xs, k);
    forall y | y in xs && y != xs[k] ensures y in rest {
      var i :| 0 <= i < |xs| && xs[i] == y;
      assert rest[if i < k then i else i - 1] == y;
    }
  }

  lemma OthersRemain(s: World, k: nat)
    requires Sound(s) && k < |s.sessions|
    ensures forall y | y in WithoutSession(s.sessions, k) :: y in s.sessions
    ensures forall y | y in s.sessions && y != s.sessions[k] :: y in WithoutSession(s.sessions, k)
    ensures forall y | y in WithoutSession(s.sessions, k) && Claims(y) && Claims(s.sessions[k]) ::
              y.id != s.sessions[k].id
  {
    var rest := WithoutSession(s.sessions, k);
    SameSessions(s.sessions, k);
    forall y | y in rest && Claims(y) && Claims(s.sessions[k]) ensures y.id != s.sessions[k].id {
      var i :| 0 <= i < |rest| && rest[i] == y;
      assert s.sessions[if i < k then i else i + 1] == y;
    }
  }

  lemma StillDistinct(s: World, k: nat)
    requires Sound(s) && k < |s.sessions|
    ensures var rest := WithoutSession(s.sessions, k);
            forall i, j | 0 <= i < j < |rest| && Claims(rest[i]) && Claims(rest[j]) :: rest[i].id != rest[j].id
  {
  }

  // ---------------------------------------------------------------- one move

  lemma BeginStep(s: World, op: Operation)
    requires Enabled(s, Begin(op)) && Sound(s) && IdleInStep(s) && Alone(s, Begin(op))
    ensures Sound(After(s, Begin(op))) && IdleInStep(After(s, Begin(op)))
  {
    var s', x := After(s, Begin(op)), Started(s, op);
    assert s'.sessions[|s.sessions|] == x && x in s'.sessions;
    assert forall y | y in s.sessions :: y in s'.sessions;
    forall id ensures Busy(s, id) ==> Busy(s', id) {
    }
    forall i | 0 <= i < |s.sessions| && Claims(s.sessions[i]) && Claims(x) ensures s.sessions[i].id != x.id {
      assert s.sessions[i] in s.sessions;
    }
  }

  lemma FirstSession(s: World, k: nat, i: nat)
    requires Enabled(s, First(k)) && Sound(s) && i < |s.sessions|
    ensures var y := After(s, First(k)).sessions[i];
            OpsFit(y) && (Claims(y) ==> OnTheWay(After(s, First(k)), y))
  {
    var s' := After(s, First(k));
    assert s.sessions[i] in s.sessions;
    FirstOnTheWay(s, k);
    if i != k && Claims(s.sessions[i]) {
      OthersDiffer(s, k, i);
      FirstKeeps(s, k, s.sessions[i].id);
      KeptOnTheWay(s, s', s.sessions[i]);
    }
  }

  lemma FirstDistinct(s: World, k: nat)
    requires Enabled(s, First(k)) && Sound(s)
    ensures var xs := After(s, First(k)).sessions;
            forall i, j | 0 <= i < j < |xs| && Claims(xs[i]) && Claims(xs[j]) :: xs[i].id != xs[j].id
  {
    var xs := After(s, First(k)).sessions;
    forall i, j | 0 <= i < j < |xs| && Claims(xs[i]) && Claims(xs[j]) ensures xs[i].id != xs[j].id {
      if i == k {
        OthersDiffer(s, k, j);
      } else if j == k {
        OthersDiffer(s, k, i);
      }
    }
  }

  lemma FirstKnown(s: World, k: nat)
    requires Enabled(s, First(k)) && Sound(s)
    ensures var s' := After(s, First(k));
            && (forall id | id in s'.users :: id < s'.nextId)
            && (forall e | e in s'.events :: e.id < s'.nextId)
  {
    var x := Halfway(s, s.sessions[k]);
    assert s.sessions[k] in s.sessions;
    EffectIsSmall(x);
  }

  lemma FirstStep(s: World, k: nat)
    requires Enabled(s, First(k)) && Sound(s) && IdleInStep(s)
    ensures Sound(After(s, First(k))) && IdleInStep(After(s, First(k)))
  {
    var s' := After(s, First(k));
    FirstKnown(s, k);
    FirstDistinct(s, k);
    forall y | y in s'.sessions ensures OpsFit(y) && (Claims(y) ==> OnTheWay(s', y)) {
      var i: nat :| i < |s'.sessions| && s'.sessions[i] == y;
      FirstSession(s, k, i);
    }
    forall id | id in s'.users && !Busy(s', id) ensures Fits(s'.users[id], Last(s', id)) {
      FirstBusy(s, k, id);
      FirstKeeps(s, k, id);
    }
  }

  /** The user of an operation that ends is idle from then on, and no other becomes idle. */
  lemma EndFrees(s: World, s': World, k: nat, id: Id)
    requires Sound(s) && k < |s.sessions| && Claims(s.sessions[k])
    requires s'.sessions == WithoutSession(s.sessions, k)
    ensures Busy(s', id) <==> Busy(s, id) && id != s.sessions[k].id
  {
    OthersRemain(s, k);
  }

  lemma EndSessions(s: World, s': World, k: nat)
    requires Sound(s) && k < |s.sessions| && s'.sessions == WithoutSession(s.sessions, k) && s.nextId == s'.nextId
    requires forall id | id != s.sessions[k].id || !Claims(s.sessions[k]) :: Kept(s, s', id)
    ensures forall y | y in s'.sessions :: OpsFit(y) && (Claims(y) ==> OnTheWay(s', y))
  {
    OthersRemain(s, k);
    forall y | y in s'.sessions ensures OpsFit(y) && (Claims(y) ==> OnTheWay(s', y)) {
      if Claims(y) {
        KeptOnTheWay(s, s', y);
      }
    }
  }

  /** When an operation ends, everything depends on its own user. */
  lemma EndStep(s: World, s': World, k: nat)
    requires Sound(s) && IdleInStep(s) && k < |s.sessions| && Claims(s.sessions[k])
    requires s'.sessions == WithoutSession(s.sessions, k) && s.nextId == s'.nextId
    requires forall id | id != s.sessions[k].id :: Kept(s, s', id)
    ensures IdleInStep(s')
       <==> (s.sessions[k].id in s'.users ==> Fits(s'.users[s.sessions[k].id], Last(s', s.sessions[k].id)))
  {
    var own := s.sessions[k].id;
    EndFrees(s, s', k, own);
    if own in s'.users ==> Fits(s'.users[own], Last(s', own)) {
      forall id | id in s'.users && !Busy(s', id) ensures Fits(s'.users[id], Last(s', id)) {
        EndFrees(s, s', k, id);
        if id != own {
          assert Kept(s, s', id);
        }
      }
    }
  }

  /** The user of a completed operation: what it stored, and its event or the last one before. */
  lemma SecondArrives(s: World, k: nat)
    requires Enabled(s, Second(k)) && Sound(s)
    ensures var s', x := After(s, Second(k)), s.sessions[k];
            x.id in s'.users ==> (Fits(s'.users[x.id], Last(s', x.id)) <==> !MovesWhileDisabling(x, Last(s, x.id)))
    ensures MovesWhileDisabling(s.sessions[k], Last(s, s.sessions[k].id)) ==>
              s.sessions[k].id in After(s, Second(k)).users
  {
    var x := s.sessions[k];
    assert x in s.sessions && OnTheWay(s, x);
    EffectIsSmall(x);
    LastOfConcat(s.events, Effect(x).events, x.id);
    if !x.op.ResetTraffic? && x.id in Effect(x).users {
      CompletedFits(x, Last(s, x.id));
    }
  }

  lemma SecondKnown(s: World, k: nat)
    requires Enabled(s, Second(k)) && Sound(s)
    ensures var s' := After(s, Second(k));
            && (forall id | id in s'.users :: id < s'.nextId)
            && (forall e | e in s'.events :: e.id < s'.nextId)
  {
    var x := s.sessions[k];
    assert x in s.sessions && OnTheWay(s, x);
    EffectIsSmall(x);
  }

  lemma SecondStep(s: World, k: nat)
    requires Enabled(s, Second(k)) && Sound(s) && IdleInStep(s)
    ensures Sound(After(s, Second(k)))
    ensures IdleInStep(After(s, Second(k))) <==> !Spoils(s, Second(k))
  {
    var s' := After(s, Second(k));
    SecondKnown(s, k);
    forall id | id != s.sessions[k].id ensures Kept(s, s', id) {
      SecondKeeps(s, k, id);
    }
    EndSessions(s, s', k);
    StillDistinct(s, k);
    EndStep(s, s', k);
    SecondArrives(s, k);
  }

  lemma RejectStep(s: World, k: nat)
    requires Enabled(s, Reject(k)) && Sound(s) && IdleInStep(s)
    ensures Sound(After(s, Reject(k)))
    ensures IdleInStep(After(s, Reject(k))) <==> !Spoils(s, Reject(k))
  {
    var s', x := After(s, Reject(k)), s.sessions[k];
    assert x in s.sessions;
    EndSessions(s, s', k);
    StillDistinct(s, k);
    if Claims(x) {
      EndStep(s, s', k);
    } else {
      OthersRemain(s, k);
      forall id ensures Busy(s', id) <==> Busy(s, id) {
      }
    }
  }

  /** While operations on one user do not overlap, a move takes the idle users out of step exactly when it
      is one of those named above. */
  lemma MoveExactly(s: World, m: Move)
    requires Enabled(s, m) && Sound(s) && IdleInStep(s) && Alone(s, m)
    ensures Sound(After(s, m))
    ensures IdleInStep(After(s, m)) <==> !Spoils(s, m)
  {
    match m
    case Begin(op) => BeginStep(s, op);
    case First(k) => FirstStep(s, k);
    case Second(k) => SecondStep(s, k);
    case Reject(k) => RejectStep(s, k);
  }

  // ---------------------------------------------------------------- whole runs

  const NOTHING: World := World(map[], 0, [], [])

  ghost predicate IsRun(run: seq<World>, moves: seq<Move>) {
    && |run| == |moves| + 1 && run[0] == NOTHING
    && forall n | 0 <= n < |moves| :: Enabled(run[n], moves[n]) && run[n + 1] == After(run[n], moves[n])
  }

  lemma {:induction false} NotSpoiled(run: seq<World>, moves: seq<Move>, n: nat)
    requires IsRun(run, moves) && n < |run|
    requires forall m | 0 <= m < |moves| :: Alone(run[m], moves[m])
    requires forall m | 0 <= m < n :: !Spoils(run[m], moves[m])
    ensures Sound(run[n]) && IdleInStep(run[n])
  {
    if n > 0 {
      NotSpoiled(run, moves, n - 1);
      MoveExactly(run[n - 1], moves[n - 1]);
    }
  }

  lemma {:induction false} FirstSpoiled(run: seq<World>, moves: seq<Move>, n: nat) returns (m: nat)
    requires IsRun(run, moves) && n < |moves| && Spoils(run[n], moves[n])
    ensures m <= n && Spoils(run[m], moves[m]) && forall j | 0 <= j < m :: !Spoils(run[j], moves[j])
  {
    if j: nat :| j < n && Spoils(run[j], moves[j]) {
      m := FirstSpoiled(run, moves, j);
    } else {
      m := n;
    }
  }

  /** However operations interleave, with at most one at a time on each user: all idle users are in step in
      all states exactly when no move of the run spoils one. */
  lemma RunExactly(run: seq<World>, moves: seq<Move>)
    requires IsRun(run, moves)
    requires forall m | 0 <= m < |moves| :: Alone(run[m], moves[m])
    ensures (forall n | 0 <= n < |run| :: IdleInStep(run[n]))
       <==> (forall n | 0 <= n < |moves| :: !Spoils(run[n], moves[n]))
  {
    if forall n | 0 <= n < |moves| :: !Spoils(run[n], moves[n]) {
      forall n | 0 <= n < |run| ensures IdleInStep(run[n]) {
        NotSpoiled(run, moves, n);
      }
    } else {
      var n: nat :| n < |moves| && Spoils(run[n], moves[n]);
      var m := FirstSpoiled(run, moves, n);
      NotSpoiled(run, moves, m);
      MoveExactly(run[m], moves[m]);
      assert !IdleInStep(run[m + 1]);
    }
  }

  // ---------------------------------------------------------------- why the conditions are needed

  ghost predicate Reached(s: World, moves: seq<Move>) {
    exists run :: IsRun(run, moves) && run[|moves|] == s
  }

  lemma Reach(s: World, moves: seq<Move>, m: Move)
    requires Reached(s, moves) && Enabled(s, m)
    ensures Reached(After(s, m), moves + [m])
  {
    var run :| IsRun(run, moves) && run[|moves|] == s;
    var run', moves' := run + [After(s, m)], moves + [m];
    forall n | 0 <= n < |moves'| ensures Enabled(run'[n], moves'[n]) && run'[n + 1] == After(run'[n], moves'[n]) {
      if n < |moves| {
        assert run'[n] == run[n] && run'[n + 1] == run[n + 1] && moves'[n] == moves[n];
      }
    }
    assert IsRun(run', moves');
  }

  /** An inactive user with an Add as last event, and nothing under way. */
  predicate Wrong(s: World, id: Id) {
    s.sessions == [] && id in s.users && s.users[id].status != ACTIVE && IsAdd(Last(s, id))
  }

  lemma Starts()
    ensures Reached(NOTHING, [])
  {
    var none: seq<Move> := [];
    assert IsRun([NOTHING], none);
  }

  /** A world of one user. */
  predicate Is(s: World, u: User, events: seq<Event>, sessions: seq<Session>) {
    s.users == map[0 := u] && s.nextId == 1 && s.events == events && s.sessions == sessions
  }

  lemma NewUser(u: User) returns (s: World, moves: seq<Move>)
    requires u.status != ACTIVE
    ensures Reached(s, moves) && Is(s, u, [], [])
  {
    Starts();
    var x := Session(Create(u), 0, None, false);
    Reach(NOTHING, [], Begin(Create(u)));
    var s1 := After(NOTHING, Begin(Create(u)));
    assert s1.sessions == [x];
    Reach(s1, [] + [Begin(Create(u))], First(0));
    var s2 := After(s1, First(0));
    assert s2.sessions == [x.(half := true)] && Effect(x.(half := true)).events == [];
    assert Stored(map[], x.(half := true)) == map[0 := u];
    Reach(s2, [] + [Begin(Create(u))] + [First(0)], Second(0));
    s, moves := After(s2, Second(0)), [] + [Begin(Create(u))] + [First(0)] + [Second(0)];
  }

  lemma Begins(s: World, moves: seq<Move>, op: Operation, u: User, events: seq<Event>, sessions: seq<Session>)
      returns (s': World)
    requires Reached(s, moves) && Is(s, u, events, sessions)
    requires !op.Create? && OfService(op) && op.id == 0
    ensures Reached(s', moves + [Begin(op)]) && Is(s', u, events, sessions + [Session(op, 0, Some(u), false)])
  {
    Reach(s, moves, Begin(op));
    s' := After(s, Begin(op));
  }

  /** The first effect of enabling or disabling: the user is stored. */
  lemma Stores(s: World, moves: seq<Move>, k: nat, u: User, events: seq<Event>, sessions: seq<Session>)
      returns (s': World)
    requires Reached(s, moves) && Is(s, u, events, sessions) && k < |sessions| && !sessions[k].half
    requires (sessions[k].op.Enable? || sessions[k].op.Disable?) && sessions[k].op.id == sessions[k].id == 0
    requires sessions[k].seen == Some(u)
    ensures Reached(s', moves + [First(k)])
    ensures Is(s', u.(status := if sessions[k].op.Enable? then ACTIVE else DISABLED), events,
               sessions[k := sessions[k].(half := true)])
  {
    Reach(s, moves, First(k));
    s' := After(s, First(k));
    var x := sessions[k].(half := true);
    assert map[0 := u][0 := u.(status := DISABLED)] == map[0 := u.(status := DISABLED)];
    assert map[0 := u][0 := u.(status := ACTIVE)] == map[0 := u.(status := ACTIVE)];
    assert map[0 := u][0 := u] == map[0 := u];
  }

  lemma Publishes(s: World, moves: seq<Move>, k: nat, u: User, events: seq<Event>, sessions: seq<Session>)
      returns (s': World)
    requires Reached(s, moves) && Is(s, u, events, sessions) && k < |sessions| && sessions[k].half
    requires !sessions[k].op.ResetTraffic?
    ensures Reached(s', moves + [Second(k)])
    ensures Is(s', u, events + Effect(sessions[k]).events, WithoutSession(sessions, k))
  {
    Reach(s, moves, Second(k));
    s' := After(s, Second(k));
  }

  /** Two operations on one user overlap: enabling publishes after the disabling that came later. */
  lemma Overlap()
    ensures exists s, moves :: Reached(s, moves) && Wrong(s, 0)
  {
    var off, on := SAMPLE.(status := DISABLED), SAMPLE.(status := ACTIVE);
    var enable, disable := Session(Enable(0), 0, Some(off), false), Session(Disable(0), 0, Some(on), false);
    var s, moves := NewUser(off);
    var s1 := Begins(s, moves, Enable(0), off, [], []);
    assert [] + [enable] == [enable];
    var s2 := Stores(s1, moves + [Begin(Enable(0))], 0, off, [], [enable]);
    assert [enable][0 := enable.(half := true)] == [enable.(half := true)];
    OverlapEnds(s2, moves + [Begin(Enable(0))] + [First(0)]);
  }

  lemma OverlapEnds(s: World, moves: seq<Move>)
    requires Reached(s, moves)
    requires Is(s, SAMPLE, [], [Session(Enable(0), 0, Some(SAMPLE.(status := DISABLED)), true)])
    ensures exists s, moves :: Reached(s, moves) && Wrong(s, 0)
  {
    var off := SAMPLE.(status := DISABLED);
    var enable, disable := Session(Enable(0), 0, Some(off), true), Session(Disable(0), 0, Some(SAMPLE), false);
    var s1 := Begins(s, moves, Disable(0), SAMPLE, [], [enable]);
    assert [enable] + [disable] == [enable, disable];
    var m1 := moves + [Begin(Disable(0))];
    var s2 := Stores(s1, m1, 1, SAMPLE, [], [enable, disable]);
    var done := disable.(half := true);
    assert [enable, disable][1 := done] == [enable, done];
    var s3 := Publishes(s2, m1 + [First(1)], 1, off, [], [enable, done]);
    assert WithoutSession([enable, done], 1) == [enable];
    assert Effect(done).events == [RemoveFromNode(0, SAMPLE.vlessUuid)];
    var removed := [RemoveFromNode(0, SAMPLE.vlessUuid)];
    assert [] + removed == removed;
    var s4 := Publishes(s3, m1 + [First(1)] + [Second(1)], 0, off, removed, [enable]);
    assert WithoutSession([enable], 0) == [] && Effect(enable).events == [AddToNode(0, None)];
    assert removed + [AddToNode(0, None)] == [RemoveFromNode(0, SAMPLE.vlessUuid), AddToNode(0, None)];
    assert Wrong(s4, 0);
  }

  lemma ResetPublishes(s: World, moves: seq<Move>, u: User) returns (s': World)
    requires u.status == LIMITED && Reached(s, moves) && Is(s, u, [], [Session(ResetTraffic(0), 0, Some(u), false)])
    ensures Reached(s', moves + [First(0)])
    ensures Is(s', u, [AddToNode(0, None)], [Session(ResetTraffic(0), 0, Some(u), true)])
  {
    Reach(s, moves, First(0));
    s' := After(s, First(0));
    var done := Session(ResetTraffic(0), 0, Some(u), true);
    assert s.sessions[0 := done] == [done];
    assert [] + [AddToNode(0, None)] == [AddToNode(0, None)];
    assert Effect(done).events == [AddToNode(0, None)];
  }

  /** A reset publishes, and then the database refuses to store it. */
  lemma RefusedReset()
    ensures exists s, moves :: Reached(s, moves) && Wrong(s, 0)
  {
    var u := SAMPLE.(status := LIMITED);
    var s, moves := NewUser(u);
    var s1 := Begins(s, moves, ResetTraffic(0), u, [], []);
    assert [] + [Session(ResetTraffic(0), 0, Some(u), false)] == [Session(ResetTraffic(0), 0, Some(u), false)];
    var s2 := ResetPublishes(s1, moves + [Begin(ResetTraffic(0))], u);
    Refused(s2, moves + [Begin(ResetTraffic(0))] + [First(0)], u);
  }

  lemma Refused(s: World, moves: seq<Move>, u: User)
    requires u.status == LIMITED && Reached(s, moves)
    requires Is(s, u, [AddToNode(0, None)], [Session(ResetTraffic(0), 0, Some(u), true)])
    ensures exists s, moves :: Reached(s, moves) && Wrong(s, 0)
  {
    Reach(s, moves, Reject(0));
    var s' := After(s, Reject(0));
    assert s'.sessions == [] && Wrong(s', 0);
  }

  lemma NewActiveUser() returns (s: World, moves: seq<Move>)
    ensures Reached(s, moves) && Is(s, SAMPLE, [AddToNode(0, None)], [])
  {
    Starts();
    var x := Session(Create(SAMPLE), 0, None, false);
    Reach(NOTHING, [], Begin(Create(SAMPLE)));
    var s1 := After(NOTHING, Begin(Create(SAMPLE)));
    assert s1.sessions == [x];
    Reach(s1, [] + [Begin(Create(SAMPLE))], First(0));
    var s2 := After(s1, First(0));
    assert s2.sessions == [x.(half := true)];
    assert [] + [AddToNode(0, None)] == [AddToNode(0, None)];
    assert Effect(x.(half := true)).events == [AddToNode(0, None)];
    assert Stored(map[], x.(half := true)) == map[0 := SAMPLE];
    Reach(s2, [] + [Begin(Create(SAMPLE))] + [First(0)], Second(0));
    s, moves := After(s2, Second(0)), [] + [Begin(Create(SAMPLE))] + [First(0)] + [Second(0)];
  }

  /** Disabling stores, and then the user cannot be read again for the event: no Remove is published. */
  lemma RefusedDisable()
    ensures exists s, moves :: Reached(s, moves) && Wrong(s, 0)
  {
    var added := [AddToNode(0, None)];
    var disable := Session(Disable(0), 0, Some(SAMPLE), false);
    var s, moves := NewActiveUser();
    var s1 := Begins(s, moves, Disable(0), SAMPLE, added, []);
    assert [] + [disable] == [disable];
    var m1 := moves + [Begin(Disable(0))];
    var s2 := Stores(s1, m1, 0, SAMPLE, added, [disable]);
    assert [disable][0 := disable.(half := true)] == [disable.(half := true)];
    Reach(s2, m1 + [First(0)], Reject(0));
    var s3 := After(s2, Reject(0));
    assert s3.sessions == [] && Wrong(s3, 0);
  }
}
