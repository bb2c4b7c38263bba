/** The users service as written: it reads a user, decides with flags that later branches overwrite,
    stores the user and publishes events. */
module UsersServices {
  import opened Collections
  import opened Users

  class UsersService {
    var users: map<Id, User>   // the repository
    var nextId: Id
    var events: seq<Event>     // the event bus
    var notices: multiset<Id>  // the queue of user events: limited and expired users
    var welcomes: multiset<Id> // the same queue: enabled users

    ghost function View(): State
      reads this
    {
      State(users, nextId, events, notices, welcomes)
    }

    constructor ()
      ensures View() == EMPTY
    {
      users, nextId, events, notices, welcomes := map[], 0, [], multiset{}, multiset{};
    }

    method Publish(e: Event)
      modifies this`events
      ensures events == old(events) + [e]
    {
      events := events + [e];
    }

    method CreateUser(user: User) returns (id: Id)
      modifies this
      ensures View() == Next(old(View()), Create(user))
      ensures id == old(nextId)
      ensures View() == old(View()).(
                users := old(users)[id := user], nextId := id + 1,
                events := if user.status == ACTIVE then old(events) + [AddToNode(id, None)] else old(events))
    {
      id := nextId;
      nextId := nextId + 1;
      users := users[id := user];
      if user.status == ACTIVE {
        Publish(AddToNode(id, None));
      }
    }

    method UpdateUser(id: Id, dto: Update, now: int) returns (ok: bool)
      modifies this
      ensures View() == Next(old(View()), Operation.UpdateUser(id, dto, now))
      ensures ok <==> id in old(users)
      ensures !ok ==> View() == old(View())
    {
      if id !in users {
        return false;
      }
      var user := users[id];
      var status := user.status;
      var addToNode, removeFromNode := false, false;

      if user.status != ACTIVE && dto.enable == Some(true) {
        addToNode := true;
        status := ACTIVE;
      }
      if user.status == ACTIVE && dto.enable == Some(false) {
        removeFromNode := true;
        status := DISABLED;
      }
      if dto.trafficLimit.Some? && user.status == LIMITED {
        if dto.trafficLimit.value > user.trafficLimit || dto.trafficLimit.value == 0 {
          status := ACTIVE;
          addToNode := true;
        }
      }
      if user.status == EXPIRED && dto.expireAt.Some? && dto.enable.None? {
        if user.expireAt != dto.expireAt.value && dto.expireAt.value > now {
          status := ACTIVE;
          addToNode := true;
        }
      }

      assert status == StatusAfter(user, dto, now);
      assert addToNode <==> user.status != ACTIVE && status == ACTIVE;
      assert removeFromNode <==> user.status == ACTIVE && status != ACTIVE;

      var squads := user.squads;
      if dto.squads.Some? {
        var requested := dto.squads.value;
        var hasChanges := |requested| != |squads| || !(forall u | u in requested :: u in squads);
        if hasChanges {
          squads := requested;
          removeFromNode := |requested| == 0;
          addToNode := |requested| > 0;
        }
      }

      var updated := User(
        status,
        if dto.trafficLimit.Some? then dto.trafficLimit.value else user.trafficLimit,
        if dto.expireAt.Some? then dto.expireAt.value else user.expireAt,
        squads, user.vlessUuid);
      assert updated == UserAfter(user, dto, now);
      assert UpdateEvents(id, user, dto, now)
          == if removeFromNode then [RemoveFromNode(id, updated.vlessUuid)]
             else if updated.status == ACTIVE && addToNode then [AddToNode(id, None)] else [];
      users := users[id := updated];

      if updated.status == ACTIVE && addToNode && !removeFromNode {
        Publish(AddToNode(id, None));
      }
      if removeFromNode {
        Publish(RemoveFromNode(id, updated.vlessUuid));
      }
      ok := true;
      assert old(events) + [] == old(events);
    }

    method RevokeUserSubscription(id: Id, vlessUuid: Uuid) returns (ok: bool)
      modifies this
      ensures View() == Next(old(View()), Revoke(id, vlessUuid))
      ensures ok <==> id in old(users)
      ensures ok ==>
                var u := old(users)[id];
                View() == old(View()).(
                  users := old(users)[id := u.(vlessUuid := vlessUuid)],
                  events := if u.status == ACTIVE then old(events) + [AddToNode(id, Some(u.vlessUuid))]
                            else old(events))
      ensures !ok ==> View() == old(View())
    {
      ok := id in users;
      if ok {
        var user := users[id];
        users := users[id := user.(vlessUuid := vlessUuid)];
        if user.status == ACTIVE {
          Publish(AddToNode(id, Some(user.vlessUuid)));
        }
      }
      assert old(events) + [] == old(events);
    }

    method DeleteUser(id: Id) returns (ok: bool)
      modifies this
      ensures View() == Next(old(View()), Delete(id))
      ensures ok <==> id in old(users)
      ensures ok ==> View() == old(View()).(
                users := old(users) - {id}, events := old(events) + [RemoveFromNode(id, old(users)[id].vlessUuid)])
      ensures !ok ==> View() == old(View())
    {
      ok := id in users;
      if ok {
        var user := users[id];
        users := users - {id};
        Publish(RemoveFromNode(id, user.vlessUuid));
      }
    }

    method DisableUser(id: Id) returns (ok: bool)
      modifies this
      ensures View() == Next(old(View()), Disable(id))
      ensures ok <==> id in old(users) && old(users)[id].status != DISABLED
      ensures ok ==> View() == old(View()).(
                users := old(users)[id := old(users)[id].(status := DISABLED)],
                events := old(events) + [RemoveFromNode(id, old(users)[id].vlessUuid)])
      ensures !ok ==> View() == old(View())
    {
      ok := id in users && users[id].status != DISABLED;
      if ok {
        users := users[id := users[id].(status := DISABLED)];
        Publish(RemoveFromNode(id, users[id].vlessUuid));
      }
    }

    method EnableUser(id: Id) returns (ok: bool)
      modifies this
      ensures View() == Next(old(View()), Enable(id))
      ensures ok <==> id in old(users) && old(users)[id].status != ACTIVE
      ensures ok ==> View() == old(View()).(
                users := old(users)[id := old(users)[id].(status := ACTIVE)],
                events := old(events) + [AddToNode(id, None)])
      ensures !ok ==> View() == old(View())
    {
      ok := id in users && users[id].status != ACTIVE;
      if ok {
        users := users[id := users[id].(status := ACTIVE)];
        Publish(AddToNode(id, None));
      }
    }

    method ExtendUserExpirationDate(id: Id, days: int, now: int) returns (ok: bool)
      modifies this
      ensures View() == Next(old(View()), Extend(id, days, now))
      ensures ok <==> id in old(users)
      ensures ok ==>
                var u := old(users)[id];
                && users.Keys == old(users.Keys) && users - {id} == old(users) - {id}
                && users[id] == u.(expireAt := users[id].expireAt, status := users[id].status)
                && users[id].status == (if u.status == EXPIRED then ACTIVE else u.status)
                && (u.expireAt > now ==> users[id].expireAt - u.expireAt == days * 86_400_000)
                && (u.expireAt <= now ==> users[id].expireAt - now == days * 86_400_000)
                && events == if u.status == EXPIRED then old(events) + [AddToNode(id, None)] else old(events)
      ensures !ok ==> View() == old(View())
    {
      ok := id in users;
      if ok {
        var user := users[id];
        var base := if user.expireAt > now then user.expireAt else now;
        var newStatus := if user.status == EXPIRED then ACTIVE else user.status;
        users := users[id := user.(expireAt := base + days * DAY_MS, status := newStatus)];
        if user.status == EXPIRED && newStatus == ACTIVE {
          Publish(AddToNode(id, None));
        }
      }
      assert old(events) + [] == old(events);
    }

    method ResetUserTraffic(id: Id) returns (ok: bool)
      modifies this
      ensures View() == Next(old(View()), ResetTraffic(id))
      ensures ok <==> id in old(users)
      ensures View()
              == if ok && old(users)[id].status == LIMITED
                 then old(View()).(
                   users := old(users)[id := old(users)[id].(status := ACTIVE)],
                   events := old(events) + [AddToNode(id, None)])
                 else old(View())
    {
      ok := id in users;
      if ok && users[id].status == LIMITED {
        Publish(AddToNode(id, None));
        users := users[id := users[id].(status := ACTIVE)];
      }
    }

    /** The watchdog's database update for one user, and the job it queues. */
    method LimitOrExpire(id: Id, to: Status)
      requires to == LIMITED || to == EXPIRED
      modifies this
      ensures View() == Next(old(View()), Watch(id, to))
      ensures View()
              == if id in old(users) && (old(users)[id].status == ACTIVE
                                         || (to == EXPIRED && old(users)[id].status == LIMITED))
                 then old(View()).(
                   users := old(users)[id := old(users)[id].(status := to)], notices := old(notices) + multiset{id})
                 else old(View())
    {
      if id in users {
        var status := users[id].status;
        if status == ACTIVE || (to == EXPIRED && status == LIMITED) {
          users := users[id := users[id].(status := to)];
          notices := notices + multiset{id};
        }
      }
      assert events + [] == events;
    }

    /** The periodic reset's database update for one user, and the job it queues. */
    method ResetLimited(id: Id)
      modifies this
      ensures View() == Next(old(View()), PeriodicReset(id))
      ensures View()
              == if id in old(users) && old(users)[id].status == LIMITED
                 then old(View()).(
                   users := old(users)[id := old(users)[id].(status := ACTIVE)],
                   welcomes := old(welcomes) + multiset{id})
                 else old(View())
    {
      if id in users && users[id].status == LIMITED {
        users := users[id := users[id].(status := ACTIVE)];
        welcomes := welcomes + multiset{id};
      }
      assert events + [] == events;
    }

    /** The queued job for an enabled user: it adds the user whatever its status. */
    method FireEnabledEvent(id: Id)
      requires id in welcomes
      modifies this
      ensures View() == Next(old(View()), Welcome(id))
      ensures View() == old(View()).(
                welcomes := old(welcomes) - multiset{id},
                events := if id in users then old(events) + [AddToNode(id, None)] else old(events))
    {
      welcomes := welcomes - multiset{id};
      if id in users {
        Publish(AddToNode(id, None));
      }
    }

    /** The queued job: it looks the user up but not at its status. */
    method FireUserEvent(id: Id)
      requires id in notices
      modifies this
      ensures View() == Next(old(View()), Notify(id))
      ensures View() == old(View()).(
                notices := old(notices) - multiset{id},
                events := if id in users then old(events) + [RemoveFromNode(id, users[id].vlessUuid)] else old(events))
    {
      notices := notices - multiset{id};
      if id in users {
        Publish(RemoveFromNode(id, users[id].vlessUuid));
      }
    }
  }
}
