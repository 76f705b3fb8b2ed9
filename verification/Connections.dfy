/**
 * webgui/realtime.py: the connection tables of RealtimeManager, and the handlers that fill and empty them.
 * Whether a send succeeds is decided outside. A method is its own effect on the tables. Where it awaits (a send,
 * the closing of a pruned socket) other methods may run: in a run of events a send that fails after the await is
 * a send followed later by a removal, a pruning round is one removal per connection, and adding is split from
 * its welcome in the same way.
 */
module Connections {

  /** `active_connections`: user to the ids of the user's connections. */
  type Users = map<string, set<string>>

  /** The four tables, and the ids whose `handle_websocket` is still running. */
  datatype Tables = Tables(users: Users, subscriptions: map<string, set<string>>, websockets: map<string, int>,
                           lastActivity: map<string, int>, handlers: set<string>)

  // --------------------------------------------------------- specification

  /** Takes one id out of the table; a user without connections goes too, unless the user id is empty. */
  function Leave(users: Users, id: string): Users {
    map u | u in users && (id !in users[u] || users[u] != {id} || u == "") :: users[u] - {id}
  }

  function Join(users: Users, user: string, id: string): Users {
    users[user := (if user in users then users[user] else {}) + {id}]
  }

  function Without(t: Tables, id: string): Tables {
    Tables(Leave(t.users, id), t.subscriptions - {id}, t.websockets - {id}, t.lastActivity - {id}, t.handlers)
  }

  function Sent(t: Tables, id: string, now: int, succeeds: bool): Tables {
    if id !in t.websockets then t
    else if succeeds then t.(lastActivity := t.lastActivity[id := now])
    else Without(t, id)
  }

  function Entered(t: Tables, user: string, id: string, socket: int, now: int): Tables {
    t.(users := Join(t.users, user, id), subscriptions := t.subscriptions[id := {}],
       websockets := t.websockets[id := socket], lastActivity := t.lastActivity[id := now])
  }

  function Added(t: Tables, user: string, id: string, socket: int, now: int, welcomed: bool): Tables {
    Sent(Entered(t, user, id, socket, now), id, now, welcomed)
  }

  function Channels(t: Tables, id: string): set<string> {
    if id in t.subscriptions then t.subscriptions[id] else {}
  }

  function Subscribed(t: Tables, id: string, channel: string): Tables {
    t.(subscriptions := t.subscriptions[id := Channels(t, id) + {channel}])
  }

  function Unsubscribed(t: Tables, id: string, channel: string): Tables {
    if id in t.subscriptions then t.(subscriptions := t.subscriptions[id := t.subscriptions[id] - {channel}]) else t
  }

  /** The connections idle for longer than the timeout. */
  function Stale(t: Tables, now: int, timeout: int): set<string> {
    set c | c in t.lastActivity && now - t.lastActivity[c] > timeout
  }

  /** Takes all of `ids` out of every table; every other connection stays with its user. */
  function Pruned(t: Tables, ids: set<string>): Tables {
    Tables(LeaveAll(t.users, ids), t.subscriptions - ids, t.websockets - ids, t.lastActivity - ids, t.handlers)
  }

  function LeaveAll(users: Users, ids: set<string>): Users {
    map u | u in users && (u == "" || !(users[u] <= ids)) :: users[u] - ids
  }

  // -------------------------------------------------------------- invariant

  ghost predicate Lists(users: Users, id: string) { exists u :: u in users && id in users[u] }

  ghost predicate Disjoint(users: Users) {
    forall u, v :: u in users && v in users && u != v ==> users[u] !! users[v]
  }

  ghost predicate NonEmpty(users: Users) {
    forall u :: u in users && u != "" ==> users[u] != {}
  }

  /** The users' sets are disjoint, none is empty, and together they are the ids of the sockets. */
  ghost predicate UsersAgree(users: Users, ids: set<string>) {
    Disjoint(users) && NonEmpty(users) && forall c :: c in ids <==> Lists(users, c)
  }

  /** The four tables agree, and nothing outlives its handler. */
  ghost predicate Consistent(t: Tables) {
    && t.websockets.Keys == t.lastActivity.Keys && UsersAgree(t.users, t.websockets.Keys)
    && t.websockets.Keys <= t.subscriptions.Keys <= t.handlers
  }

  ghost predicate Absent(t: Tables, id: string) {
    id !in t.websockets && id !in t.lastActivity && id !in t.subscriptions && !Lists(t.users, id)
  }

  lemma LeaveAgrees(users: Users, ids: set<string>, id: string)
    requires UsersAgree(users, ids)
    ensures UsersAgree(Leave(users, id), ids - {id})
  {
    var after := Leave(users, id);
    forall c | Lists(users, c) && c != id ensures Lists(after, c) {
      var u :| u in users && c in users[u];
      assert users[u] != {id};
      assert u in after && c in after[u];
    }
  }

  /** Leaving touches one user only: the one whose set has the id, if any. */
  lemma LeaveOne(users: Users, user: string, id: string)
    requires Disjoint(users) && user in users && id in users[user]
    ensures Leave(users, id) == if user != "" && users[user] == {id} then users - {user} else users[user := users[user] - {id}]
  {
    var rest := users[user] - {id};
    forall u | u in users && u != user ensures id !in users[u] && users[u] - {id} == users[u] {
      assert users[u] !! users[user];
    }
  }

  lemma LeaveNobody(users: Users, id: string)
    requires NonEmpty(users) && !Lists(users, id)
    ensures Leave(users, id) == users
  {
    assert forall u :: u in users ==> id !in users[u] && users[u] - {id} == users[u];
  }

  lemma JoinAgrees(users: Users, ids: set<string>, user: string, id: string)
    requires UsersAgree(users, ids) && id !in ids
    ensures UsersAgree(Join(users, user, id), ids + {id})
  {
    var after := Join(users, user, id);
    assert !Lists(users, id);
    forall c | Lists(users, c) || c == id ensures Lists(after, c) {
      if c == id {
        assert id in after[user];
      } else {
        var u :| u in users && c in users[u];
        assert c in after[u];
      }
    }
  }

  /** An emptied set stays behind exactly when the user id is empty. */
  lemma EmptySetStays(users: Users, user: string, id: string)
    requires user in users && users[user] == {id}
    ensures (user in Leave(users, id) && Leave(users, id)[user] == {}) <==> user == ""
    ensures user == "" || user !in Leave(users, id)
  {
    assert {id} - {id} == {};
  }

  /** Removing an id keeps the tables consistent and leaves it in none of them. */
  lemma WithoutKeeps(t: Tables, id: string)
    requires Consistent(t)
    ensures Consistent(Without(t, id)) && Absent(Without(t, id), id)
  {
    hide UsersAgree, Leave;
    LeaveAgrees(t.users, t.websockets.Keys, id);
    assert (t.websockets - {id}).Keys == t.websockets.Keys - {id};
    assert (t.lastActivity - {id}).Keys == t.lastActivity.Keys - {id};
    assert (t.subscriptions - {id}).Keys == t.subscriptions.Keys - {id};
    NotListed(Leave(t.users, id), t.websockets.Keys - {id}, id);
  }

  /** Taking out one more id after the others. */
  lemma PrunedMore(t: Tables, ids: set<string>, id: string)
    ensures Without(Pruned(t, ids), id) == Pruned(t, ids + {id})
  {
    LeaveAllMore(t.users, ids, id);
    hide Leave, LeaveAll;
    assert t.websockets - (ids + {id}) == t.websockets - ids - {id};
    assert t.lastActivity - (ids + {id}) == t.lastActivity - ids - {id};
    assert t.subscriptions - (ids + {id}) == t.subscriptions - ids - {id};
  }

  lemma LeaveAllMore(users: Users, ids: set<string>, id: string)
    ensures Leave(LeaveAll(users, ids), id) == LeaveAll(users, ids + {id})
  {
    var some, more := LeaveAll(users, ids), LeaveAll(users, ids + {id});
    forall u | u in users && u != "" ensures u in Leave(some, id) <==> u in more {
      assert users[u] <= ids + {id} <==> users[u] - ids <= {id};
    }
    forall u | u in users ensures users[u] - ids - {id} == users[u] - (ids + {id}) { }
  }

  /** Who is not pruned stays with the same user. */
  lemma SurvivorsStay(t: Tables, ids: set<string>, user: string, id: string)
    requires id !in ids
    ensures (user in Pruned(t, ids).users && id in Pruned(t, ids).users[user]) <==> (user in t.users && id in t.users[user])
  {
    if user in t.users && id in t.users[user] {
      assert !(t.users[user] <= ids);
    }
  }

  lemma OneLess(all: set<string>, left: set<string>, id: string)
    requires id in left && left <= all
    ensures all - (left - {id}) == (all - left) + {id}
    ensures left - {id} <= all && |left - {id}| < |left|
  {
  }

  lemma PrunedNone(t: Tables)
    requires NonEmpty(t.users)
    ensures Pruned(t, {}) == t
  {
    assert forall u :: u in t.users ==> t.users[u] - {} == t.users[u];
    assert LeaveAll(t.users, {}) == t.users;
  }

  lemma NotListed(users: Users, ids: set<string>, id: string)
    requires UsersAgree(users, ids) && id !in ids
    ensures !Lists(users, id)
  {
  }

  lemma SentKeeps(t: Tables, id: string, now: int, succeeds: bool)
    requires Consistent(t)
    ensures Consistent(Sent(t, id, now, succeeds))
    ensures id in t.websockets && !succeeds ==> Absent(Sent(t, id, now, succeeds), id)
  {
    hide UsersAgree, Leave;
    WithoutKeeps(t, id);
    if id in t.websockets {
      assert t.lastActivity[id := now].Keys == t.lastActivity.Keys;
    }
  }

  lemma EnteredKeeps(t: Tables, user: string, id: string, socket: int, now: int)
    requires Consistent(t) && id in t.handlers && id !in t.websockets
    ensures var after := Entered(t, user, id, socket, now);
            Consistent(after) && after.websockets.Keys == t.websockets.Keys + {id}
  {
    hide UsersAgree, Join;
    JoinAgrees(t.users, t.websockets.Keys, user, id);
    var after := Entered(t, user, id, socket, now);
    assert after.websockets.Keys == t.websockets.Keys + {id};
    assert after.lastActivity.Keys == t.lastActivity.Keys + {id};
    assert after.subscriptions.Keys == t.subscriptions.Keys + {id};
  }

  lemma AddedKeeps(t: Tables, user: string, id: string, socket: int, now: int, welcomed: bool)
    requires Consistent(t) && id in t.handlers && id !in t.websockets
    ensures var after := Added(t, user, id, socket, now, welcomed);
            Consistent(after) && after.handlers == t.handlers && after.websockets.Keys <= t.websockets.Keys + {id}
  {
    EnteredKeeps(t, user, id, socket, now);
    hide UsersAgree, Join, Leave;
    SentKeeps(Entered(t, user, id, socket, now), id, now, welcomed);
  }

  lemma SubscriptionKeeps(t: Tables, id: string, channel: string)
    requires Consistent(t)
    ensures id in t.handlers ==> Consistent(Subscribed(t, id, channel))
    ensures Consistent(Unsubscribed(t, id, channel))
  {
    hide UsersAgree;
    assert Subscribed(t, id, channel).subscriptions.Keys == t.subscriptions.Keys + {id};
    if id in t.subscriptions {
      assert Unsubscribed(t, id, channel).subscriptions.Keys == t.subscriptions.Keys;
    }
  }

  // ------------------------------------------- what one operation does, id by id

  ghost predicate BelongsTo(t: Tables, user: string, id: string) { user in t.users && id in t.users[user] }

  /** The id has the same socket, activity, channels and user in both. */
  ghost predicate SameFor(t: Tables, u: Tables, id: string) {
    && (id in t.websockets <==> id in u.websockets) && (id in t.websockets ==> t.websockets[id] == u.websockets[id])
    && (id in t.lastActivity <==> id in u.lastActivity) && (id in t.lastActivity ==> t.lastActivity[id] == u.lastActivity[id])
    && (id in t.subscriptions <==> id in u.subscriptions) && (id in t.subscriptions ==> t.subscriptions[id] == u.subscriptions[id])
    && forall user :: BelongsTo(t, user, id) <==> BelongsTo(u, user, id)
  }

  /** Removing one id, or pruning some, does nothing to another. */
  lemma OthersStay(t: Tables, ids: set<string>, id: string, other: string)
    ensures other != id ==> SameFor(t, Without(t, id), other)
    ensures other !in ids ==> SameFor(t, Pruned(t, ids), other)
    ensures Without(t, id).handlers == t.handlers == Pruned(t, ids).handlers
  {
    forall user ensures other !in ids ==> (BelongsTo(t, user, other) <==> BelongsTo(Pruned(t, ids), user, other)) {
      SurvivorsStayWith(t, ids, user, other);
    }
    forall user ensures other != id ==> (BelongsTo(t, user, other) <==> BelongsTo(Without(t, id), user, other)) {
      if BelongsTo(t, user, other) && other != id { assert t.users[user] != {id}; }
    }
  }

  lemma SurvivorsStayWith(t: Tables, ids: set<string>, user: string, id: string)
    ensures id !in ids ==> (BelongsTo(t, user, id) <==> BelongsTo(Pruned(t, ids), user, id))
  {
    if id !in ids { SurvivorsStay(t, ids, user, id); }
  }

  /** A new connection: known to its user, with its socket and the time, and without channels. */
  lemma EnteredMeans(t: Tables, user: string, id: string, socket: int, now: int, other: string)
    ensures var u := Entered(t, user, id, socket, now);
            && BelongsTo(u, user, id) && id in u.websockets && u.websockets[id] == socket
            && id in u.lastActivity && u.lastActivity[id] == now && id in u.subscriptions && u.subscriptions[id] == {}
            && u.handlers == t.handlers && (other != id ==> SameFor(t, u, other))
  {
  }

  /** A send renews the activity of a connection, and only that; one that fails removes it; to nobody, nothing. */
  lemma SentMeans(t: Tables, id: string, now: int, succeeds: bool)
    ensures id !in t.websockets ==> Sent(t, id, now, succeeds) == t
    ensures id in t.websockets && succeeds ==>
              var u := Sent(t, id, now, succeeds);
              && u.users == t.users && u.subscriptions == t.subscriptions && u.websockets == t.websockets
              && u.handlers == t.handlers && u.lastActivity == t.lastActivity[id := now]
    ensures Consistent(t) && id in t.websockets && !succeeds ==> Absent(Sent(t, id, now, succeeds), id)
  {
    if Consistent(t) && id in t.websockets && !succeeds { SentKeeps(t, id, now, succeeds); }
  }

  /** Subscribing adds one channel to one id, and unsubscribing takes it from an id that has subscriptions. */
  lemma SubscriptionMeans(t: Tables, id: string, channel: string, other: string, c: string)
    ensures var u := Subscribed(t, id, channel);
            && u == t.(subscriptions := u.subscriptions) && id in u.subscriptions
            && (c in u.subscriptions[id] <==> c == channel || (id in t.subscriptions && c in t.subscriptions[id]))
            && (other != id ==> SameFor(t, u, other))
    ensures var u := Unsubscribed(t, id, channel);
            && u == t.(subscriptions := u.subscriptions) && (id in u.subscriptions <==> id in t.subscriptions)
            && (id in t.subscriptions ==> (c in u.subscriptions[id] <==> c != channel && c in t.subscriptions[id]))
            && (other != id ==> SameFor(t, u, other))
  {
  }

  /** A round of pruning leaves a connection exactly when it is not idle for longer than the timeout. */
  lemma PrunedMeans(t: Tables, now: int, timeout: int, id: string)
    requires Consistent(t)
    ensures var u := Pruned(t, Stale(t, now, timeout));
            if id in t.websockets && now - t.lastActivity[id] <= timeout then SameFor(t, u, id) && id in u.websockets
            else id !in u.websockets && id !in u.lastActivity && !Lists(u.users, id)
  {
    OthersStay(t, Stale(t, now, timeout), id, id);
    assert id in t.websockets <==> id in t.lastActivity;
  }

  // ------------------------------------------------------------ the program

  class RealtimeManager {
    var activeConnections: Users
    var connectionSubscriptions: map<string, set<string>>
    var websockets: map<string, int>
    var lastActivity: map<string, int>
    var handlers: set<string>

    ghost function View(): Tables
      reads this
    {
      Tables(activeConnections, connectionSubscriptions, websockets, lastActivity, handlers)
    }

    constructor ()
      ensures View() == Tables(map[], map[], map[], map[], {})
    {
      activeConnections, connectionSubscriptions, websockets, lastActivity, handlers := map[], map[], map[], map[], {};
    }

    /** Looks for the first user whose set has the id. */
    method FindUser(id: string) returns (user: string, found: bool)
      ensures found ==> user in activeConnections && id in activeConnections[user]
      ensures !found ==> !Lists(activeConnections, id)
    {
      user, found := "", false;
      var unseen := activeConnections.Keys;
      while unseen != {}
        invariant unseen <= activeConnections.Keys
        invariant forall u :: u in activeConnections && u !in unseen ==> id !in activeConnections[u]
        decreases |unseen|
      {
        user :| user in unseen;
        if id in activeConnections[user] { return user, true; }
        unseen := unseen - {user};
      }
    }

    method RemoveConnection(id: string)
      requires Consistent(View())
      modifies this
      ensures View() == Without(old(View()), id) && Consistent(View()) && Absent(View(), id)
    {
      WithoutKeeps(View(), id);
      ghost var was := activeConnections;
      var user, found := FindUser(id);
      hide Leave, Lists;
      if found {
        LeaveOne(was, user, id);
        assert was[user] - {id} == {} <==> was[user] == {id};
        activeConnections := activeConnections[user := activeConnections[user] - {id}];
        if user != "" && activeConnections[user] == {} {
          activeConnections := activeConnections - {user};
          assert activeConnections == was - {user};
        }
      } else {
        LeaveNobody(was, id);
      }
      assert activeConnections == Leave(was, id);
      connectionSubscriptions := connectionSubscriptions - {id};
      websockets := websockets - {id};
      lastActivity := lastActivity - {id};
    }

    method SendToConnection(id: string, now: int, succeeds: bool)
      requires Consistent(View())
      modifies this
      ensures View() == Sent(old(View()), id, now, succeeds) && Consistent(View())
    {
      hide Consistent;
      SentKeeps(View(), id, now, succeeds);
      if id in websockets {
        ghost var was := View();
        SentKeeps(was, id, now, true);
        lastActivity := lastActivity[id := now];
        if !succeeds {
          RemoveConnection(id);
          assert View().lastActivity == was.lastActivity - {id};
        }
      }
    }

    method JoinUser(user: string, id: string)
      modifies this`activeConnections
      ensures activeConnections == Join(old(activeConnections), user, id)
    {
      if user !in activeConnections {
        activeConnections := activeConnections[user := {}];
      }
      activeConnections := activeConnections[user := activeConnections[user] + {id}];
    }

    /** The part of `add_connection` before its welcome is sent. */
    method Enter(user: string, id: string, socket: int, now: int)
      requires Consistent(View()) && id in handlers && id !in websockets
      modifies this
      ensures View() == Entered(old(View()), user, id, socket, now) && Consistent(View())
    {
      EnteredKeeps(View(), user, id, socket, now);
      hide Consistent, UsersAgree, Join;
      JoinUser(user, id);
      connectionSubscriptions := connectionSubscriptions[id := {}];
      websockets := websockets[id := socket];
      lastActivity := lastActivity[id := now];
    }

    method AddConnection(user: string, id: string, socket: int, now: int, welcomed: bool)
      requires Consistent(View()) && id in handlers && id !in websockets
      modifies this
      ensures View() == Added(old(View()), user, id, socket, now, welcomed) && Consistent(View())
    {
      hide Consistent, Leave, Join, Sent;
      Enter(user, id, socket, now);
      SendToConnection(id, now, welcomed);
    }

    method Subscribe(id: string, channel: string)
      requires Consistent(View()) && id in handlers
      modifies this`connectionSubscriptions
      ensures View() == Subscribed(old(View()), id, channel) && Consistent(View())
    {
      SubscriptionKeeps(View(), id, channel);
      if id !in connectionSubscriptions {
        connectionSubscriptions := connectionSubscriptions[id := {}];
      }
      connectionSubscriptions := connectionSubscriptions[id := connectionSubscriptions[id] + {channel}];
    }

    method Unsubscribe(id: string, channel: string)
      requires Consistent(View())
      modifies this`connectionSubscriptions
      ensures View() == Unsubscribed(old(View()), id, channel) && Consistent(View())
    {
      SubscriptionKeeps(View(), id, channel);
      if id in connectionSubscriptions {
        connectionSubscriptions := connectionSubscriptions[id := connectionSubscriptions[id] - {channel}];
      }
    }

    /** One round of `_prune_stale_connections`: exactly the connections idle for longer than the timeout go. */
    method PruneStale(now: int, timeout: int)
      requires Consistent(View())
      modifies this
      ensures View() == Pruned(old(View()), Stale(old(View()), now, timeout)) && Consistent(View())
    {
      ghost var was := View();
      PrunedNone(was);
      hide Consistent, Absent, Leave, LeaveAll, Pruned, Without;
      var stale := set c | c in lastActivity && now - lastActivity[c] > timeout;
      assert stale == Stale(was, now, timeout);
      hide Stale;
      var left := stale;
      assert stale - left == {};
      while left != {}
        invariant left <= stale && Consistent(View()) && View() == Pruned(was, stale - left)
        decreases |left|
      {
        var id :| id in left;
        OneLess(stale, left, id);
        RemoveConnection(id);
        PrunedMore(was, stale - left, id);
        left := left - {id};
      }
      assert stale - left == stale;
    }

    /** `cleanup` forgets to clear the activity times: the tables still agree exactly when nobody was connected. */
    method Cleanup()
      requires Consistent(View())
      modifies this
      ensures View() == old(View()).(users := map[], subscriptions := map[], websockets := map[])
      ensures Consistent(View()) <==> old(websockets) == map[]
    {
      activeConnections, connectionSubscriptions, websockets := map[], map[], map[];
      assert old(websockets).Keys == {} ==> old(websockets) == map[];
    }
  }

  // ------------------------------------------------------------ whole runs

  /** What may happen between two awaits; `Begin` and `End` are the two ends of `handle_websocket`. */
  datatype Event =
    | Begin(id: string)
    | Add(user: string, id: string, socket: int, now: int, welcomed: bool)
    | Remove(id: string)
    | Subscribe(id: string, channel: string)
    | Unsubscribe(id: string, channel: string)
    | Send(id: string, now: int, succeeds: bool)
    | End(id: string)

  /** The tables with the ids of all handlers ever begun and the ids already added. */
  datatype World = World(t: Tables, begun: set<string>, added: set<string>)

  /** Handler ids are new, a handler adds its connection once, and only running handlers add or subscribe. */
  ghost predicate Possible(w: World, e: Event) {
    match e
    case Begin(id) => id !in w.begun
    case Add(_, id, _, _, _) => id in w.t.handlers && id !in w.added
    case Subscribe(id, _) => id in w.t.handlers
    case _ => true
  }

  ghost function Step(w: World, e: Event): World {
    match e
    case Begin(id) => World(w.t.(handlers := w.t.handlers + {id}), w.begun + {id}, w.added)
    case Add(user, id, socket, now, welcomed) => World(Added(w.t, user, id, socket, now, welcomed), w.begun, w.added + {id})
    case Remove(id) => w.(t := Without(w.t, id))
    case Subscribe(id, channel) => w.(t := Subscribed(w.t, id, channel))
    case Unsubscribe(id, channel) => w.(t := Unsubscribed(w.t, id, channel))
    case Send(id, now, succeeds) => w.(t := Sent(w.t, id, now, succeeds))
    case End(id) => var t := Without(w.t, id); w.(t := t.(handlers := t.handlers - {id}))
  }

  ghost function Run(events: seq<Event>): World {
    if events == [] then World(Tables(map[], map[], map[], map[], {}), {}, {})
    else Step(Run(events[..|events| - 1]), events[|events| - 1])
  }

  ghost predicate AllPossible(events: seq<Event>) {
    forall i :: 0 <= i < |events| ==> Possible(Run(events[..i]), events[i])
  }

  /** What holds in every reachable world. */
  ghost predicate Reachable(w: World) {
    && Consistent(w.t) && w.t.handlers <= w.begun && w.added <= w.begun && w.t.websockets.Keys <= w.added
    && forall id :: id in w.begun && id !in w.t.handlers ==> Absent(w.t, id)
  }

  lemma NoHandlerNoTrace(t: Tables, id: string)
    requires Consistent(t) && id !in t.handlers
    ensures Absent(t, id)
  {
  }

  lemma StepReachable(w: World, e: Event)
    requires Reachable(w) && Possible(w, e)
    ensures Reachable(Step(w, e))
    ensures e.End? ==> Absent(Step(w, e).t, e.id)
  {
    hide Absent, UsersAgree, Leave, Join;
    match e {
      case Begin(id) =>
      case Add(user, id, socket, now, welcomed) => AddedKeeps(w.t, user, id, socket, now, welcomed);
      case Remove(id) => WithoutKeeps(w.t, id);
      case Subscribe(id, channel) => SubscriptionKeeps(w.t, id, channel);
      case Unsubscribe(id, channel) => SubscriptionKeeps(w.t, id, channel);
      case Send(id, now, succeeds) => SentKeeps(w.t, id, now, succeeds);
      case End(id) =>
        WithoutKeeps(w.t, id);
        EndKeeps(Without(w.t, id), id);
    }
    var after := Step(w, e);
    forall id | id in after.begun && id !in after.t.handlers ensures Absent(after.t, id) {
      NoHandlerNoTrace(after.t, id);
    }
  }

  lemma EndKeeps(t: Tables, id: string)
    requires Consistent(t) && Absent(t, id)
    ensures Consistent(t.(handlers := t.handlers - {id})) && Absent(t.(handlers := t.handlers - {id}), id)
  {
  }

  /**
   * Every interleaving of handlers beginning, adding, subscribing, failing sends, pruned connections and
   * handlers ending keeps the tables consistent, and a handler that has ended is in none of the four.
   */
  lemma {:induction false} EveryRunConsistent(events: seq<Event>)
    requires AllPossible(events)
    ensures Reachable(Run(events))
  {
    hide Step, Consistent, Possible;
    if events != [] {
      var n := |events| - 1;
      assert forall i :: 0 <= i < n ==> events[..n][..i] == events[..i];
      EveryRunConsistent(events[..n]);
      StepReachable(Run(events[..n]), events[n]);
    } else {
      NothingYet();
    }
  }

  lemma NothingYet()
    ensures Reachable(World(Tables(map[], map[], map[], map[], {}), {}, {}))
  {
  }
}
