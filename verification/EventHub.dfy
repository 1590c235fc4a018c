/** `SSESession`, `WebSocketConnection` and `EventHub` of sovereign/eventhub.py, each method taken as atomic. */
module Hub {
  import opened Errors

  datatype Event = Event(name: string, data: string)

  datatype Item = Data(event: Event) | Stop

  datatype Yielded = Next(event: Event) | Heartbeat | Ended

  /** The events in a queue. */
  function Events(queue: seq<Item>): seq<Event> {
    if queue == [] then []
    else Events(queue[..|queue| - 1]) + (match queue[|queue| - 1] case Data(e) => [e] case Stop => [])
  }

  lemma EventsSnoc(queue: seq<Item>, item: Item)
    ensures Events(queue + [item]) == Events(queue) + (match item case Data(e) => [e] case Stop => [])
  {
    assert (queue + [item])[..|queue|] == queue;
  }

  lemma {:induction false} EventsCons(queue: seq<Item>)
    requires queue != []
    ensures Events(queue) == (match queue[0] case Data(e) => [e] case Stop => []) + Events(queue[1..])
  {
    var init, last := queue[..|queue| - 1], queue[|queue| - 1];
    if init == [] {
      assert queue[1..] == [];
    } else {
      EventsCons(init);
      assert queue[1..] == init[1..] + [last];
      EventsSnoc(init[1..], last);
    }
  }

  /** An SSE session, or the wrapper of a raw WebSocket session, given by its number. The queue is the one the
      events go through. */
  class Connection {
    const socket: Option<nat>         // the raw session behind a wrapper
    const maxQueue: int               // not positive means unbounded
    var userId: Option<string>
    var closed: bool                  // of a wrapper: whether the raw session was closed when it was wrapped
    var failing: bool                 // `send_event` raises: the raw session is closed by now
    var queue: seq<Item>
    ghost var sent: seq<Event>        // what `send_event` was called with and did not raise on
    ghost var received: seq<Event>    // what the consumer was given

    /** The consumer has, and the queue holds, a gap-free prefix of what was sent; all of it while open. */
    ghost predicate Valid()
      reads this
    {
      && received + Events(queue) <= sent
      && (!closed || socket.Some? ==> received + Events(queue) == sent)
      && (maxQueue > 0 ==> |queue| <= maxQueue)
      && (if socket.None? then !failing else closed ==> failing)
    }

    constructor (userId: Option<string>, maxQueue: int)
      ensures Valid() && this.userId == userId && !closed && queue == [] && sent == received == []
      ensures this.maxQueue == maxQueue && socket == None
    {
      this.userId, this.maxQueue, socket := userId, maxQueue, None;
      closed, failing, queue, sent, received := false, false, [], [], [];
    }

    constructor Wrap(socket: nat, userId: Option<string>, maxQueue: int, closed: bool)
      ensures Valid() && this.userId == userId && this.closed == failing == closed
      ensures queue == [] && sent == received == [] && this.maxQueue == maxQueue && this.socket == Some(socket)
    {
      this.userId, this.maxQueue, this.socket := userId, maxQueue, Some(socket);
      this.closed, failing, queue, sent, received := closed, closed, [], [], [];
    }

    predicate Room()
      reads this
    {
      maxQueue <= 0 || |queue| < maxQueue
    }

    predicate Raises()
      reads this
    {
      failing || (socket.Some? && !Room())
    }

    /** What the hub drops when it sends: connections marked closed, and those on which sending raises. */
    predicate Dead()
      reads this
    {
      closed || Raises()
    }

    /** The raw session behind a wrapper closes, from either side. */
    method RawClosed()
      requires Valid() && socket.Some?
      modifies this`failing
      ensures Valid() && failing
    {
      failing := true;
    }

    /** An overflow closes an SSE session for good: nothing is skipped. A wrapper raises on it, having closed the
        raw session. */
    method SendEvent(e: Event) returns (raised: bool)
      requires Valid()
      modifies this`closed, this`failing, this`queue, this`sent
      ensures Valid() && raised == old(Raises())
      ensures sent == if raised then old(sent) else old(sent) + [e]
      ensures queue == if raised || (socket.None? && old(closed)) || !old(Room()) then old(queue)
                       else old(queue) + [Data(e)]
      ensures failing == raised && closed == (old(closed) || (socket.None? && !old(Room())))
    {
      hide Events;
      if failing {
        return true;
      }
      if socket.None? && closed {
        sent := sent + [e];
        return false;
      }
      if maxQueue <= 0 || |queue| < maxQueue {
        EventsSnoc(queue, Data(e));
        assert received + (Events(queue) + [e]) == received + Events(queue) + [e];
        sent := sent + [e];
        queue := queue + [Data(e)];
      } else if socket.None? {
        sent := sent + [e];
        Close();
      } else {
        failing := true;
        return true;
      }
      raised := false;
    }

    /** A wrapper closes the raw session, which does not show in its own mark. */
    method Close()
      requires received + Events(queue) <= sent && (maxQueue > 0 ==> |queue| <= maxQueue)
      requires socket.Some? || !failing
      requires socket.Some? ==> Valid()
      modifies this`closed, this`failing, this`queue
      ensures Valid() && (closed || failing) && (socket.None? ==> closed)
      ensures socket.Some? ==> closed == old(closed)
      ensures queue == if socket.None? && !old(closed) && old(Room()) then old(queue) + [Stop] else old(queue)
    {
      hide Events;
      if socket.Some? {
        failing := true;
      } else if !closed {
        closed := true;
        if maxQueue <= 0 || |queue| < maxQueue {
          EventsSnoc(queue, Stop);
          assert Events(queue) + [] == Events(queue);
          queue := queue + [Stop];
        }
      }
    }

    /** One turn of the `events` generator. */
    method Take() returns (r: Yielded)
      requires Valid() && socket.None?
      modifies this`queue, this`received
      ensures Valid()
      ensures if old(closed) then r == Ended && queue == old(queue) && received == old(received)
              else if old(queue) == [] then r == Heartbeat && queue == [] && received == old(received)
              else queue == old(queue)[1..] &&
                   match old(queue)[0]
                   case Data(e) => r == Next(e) && received == old(received) + [e]
                   case Stop => r == Ended && received == old(received)
    {
      hide Events;
      if closed {
        return Ended;
      }
      if queue == [] {
        return Heartbeat;
      }
      var item := queue[0];
      EventsCons(queue);
      queue := queue[1..];
      match item
      case Stop =>
        assert [] + Events(queue) == Events(queue);
        r := Ended;
      case Data(e) =>
        assert received + ([e] + Events(queue)) == received + [e] + Events(queue);
        received := received + [e];
        r := Next(e);
    }
  }

  function SetOf(conns: seq<Connection>): set<Connection> {
    set c | c in conns
  }

  type Index = map<string, set<Connection>>

  function Members(index: Index, key: string): set<Connection> {
    if key in index then index[key] else {}
  }

  /** `index[key].discard(conn)`, then the entry is dropped if it is empty. */
  function Discard(index: Index, key: string, conn: Connection): Index {
    if key !in index then index
    else if index[key] - {conn} == {} then index - {key}
    else index[key := index[key] - {conn}]
  }

  /** Without these connections, and without the entries that only held them. */
  function Without(index: Index, gone: set<Connection>): Index {
    map key | key in index && index[key] - gone != {} :: index[key] - gone
  }

  lemma WithoutMore(index: Index, gone: set<Connection>, conn: Connection)
    ensures Without(Without(index, gone), {conn}) == Without(index, gone + {conn})
  {
    assert forall key :: key in index ==> index[key] - gone - {conn} == index[key] - (gone + {conn});
  }

  lemma WithoutNone(index: Index)
    requires forall key :: key in index ==> index[key] != {}
    ensures Without(index, {}) == index
  {
    assert forall key :: key in index ==> index[key] - {} == index[key];
  }

  /** Rooms hold registered connections only and no room is empty. */
  predicate RoomsRight(rooms: Index, sessions: set<Connection>) {
    forall r :: r in rooms ==> rooms[r] != {} && rooms[r] <= sessions
  }

  type Ids = map<Connection, Option<string>>

  predicate Named(id: Option<string>) {
    id.Some? && id.value != ""
  }

  /** Under each nonempty user id, exactly the registered connections with that id. */
  predicate UsersRight(users: Index, ids: Ids) {
    && (forall u :: u in users ==> u != "" && users[u] != {})
    && (forall u, c :: u in users && c in users[u] ==> c in ids && ids[c] == Some(u))
    && (forall c :: c in ids && Named(ids[c]) ==> c in Members(users, ids[c].value))
  }

  function Added(users: Index, conn: Connection, id: Option<string>): Index {
    if Named(id) then users[id.value := Members(users, id.value) + {conn}] else users
  }

  /** Adding a connection under an id keeps the index right exactly when it was not registered under another. */
  lemma AddedRight(users: Index, ids: Ids, conn: Connection, id: Option<string>)
    requires UsersRight(users, ids)
    ensures UsersRight(Added(users, conn, id), ids[conn := id]) <==>
            !(conn in ids && Named(ids[conn]) && ids[conn] != id)
  {
    var users' := Added(users, conn, id);
    if conn in ids && Named(ids[conn]) && ids[conn] != id {
      var u := ids[conn].value;
      assert conn in users[u] && u in users' && conn in users'[u];
      assert ids[conn := id][conn] != Some(u);
    } else {
      var ids' := ids[conn := id];
      forall u, c | u in users' && c in users'[u]
        ensures c in ids' && ids'[c] == Some(u)
      {
        if u in users && c in users[u] { assert ids[c] == Some(u); }
      }
    }
  }

  function Removed(users: Index, conn: Connection, id: Option<string>): Index {
    if Named(id) then Discard(users, id.value, conn) else users
  }

  lemma RemovedRight(users: Index, ids: Ids, conn: Connection, id: Option<string>)
    requires UsersRight(users, ids) && (conn in ids ==> ids[conn] == id)
    ensures UsersRight(Removed(users, conn, id), ids - {conn})
  {
  }

  lemma DiscardedRoomsRight(rooms: Index, sessions: set<Connection>, conn: Connection)
    requires RoomsRight(rooms, sessions)
    ensures RoomsRight(Without(rooms, {conn}), sessions - {conn})
  {
  }

  /** The rooms in `keys` are as they were, the others have been left. */
  ghost predicate Leaving(start: Index, now: Index, keys: set<string>, conn: Connection) {
    && (forall r :: r in keys ==> r in now && r in start && now[r] == start[r])
    && (forall r :: r !in keys ==> (r in now <==> r in Without(start, {conn})))
    && (forall r :: r !in keys && r in now ==> now[r] == Without(start, {conn})[r])
  }

  lemma LeaveOne(start: Index, now: Index, keys: set<string>, room: string, conn: Connection)
    requires Leaving(start, now, keys, conn) && room in keys
    ensures Leaving(start, Discard(now, room, conn), keys - {room}, conn)
  {
    forall r | r !in keys - {room}
      ensures r in Discard(now, room, conn) <==> r in Without(start, {conn})
      ensures r in Discard(now, room, conn) ==> Discard(now, room, conn)[r] == Without(start, {conn})[r]
    {
    }
  }

  lemma LeftAll(start: Index, now: Index, conn: Connection)
    requires Leaving(start, now, {}, conn)
    ensures now == Without(start, {conn})
  {
    hide Without;
  }

  class EventHub {
    var rooms: Index
    var users: Index
    var sessions: set<Connection>

    function Ids(): Ids
      reads this`sessions, sessions`userId
    {
      map c | c in sessions :: c.userId
    }

    /** The indexes agree with the set of registered connections. */
    ghost predicate Consistent()
      reads this, sessions`userId
    {
      UsersRight(users, Ids()) && RoomsRight(rooms, sessions)
    }

    constructor ()
      ensures Consistent() && rooms == map[] && users == map[] && sessions == {}
    {
      rooms, users, sessions := map[], map[], {};
    }

    /** Registering keeps the indexes right exactly when it does not rebind a registered connection from one
        user to another: the old user's entry is left behind. */
    method Register(conn: Connection, userId: Option<string>)
      modifies this`sessions, this`users, conn`userId
      ensures conn.userId == if userId.Some? then userId else old(conn.userId)
      ensures sessions == old(sessions) + {conn}
      ensures users == Added(old(users), conn, conn.userId)
      ensures old(Consistent()) ==>
                (Consistent() <==>
                 !(conn in old(sessions) && Named(old(conn.userId)) && conn.userId != old(conn.userId)))
    {
      hide Members, UsersRight, Added;
      if Consistent() {
        AddedRight(users, Ids(), conn, if userId.Some? then userId else conn.userId);
      }
      if userId.Some? {
        conn.userId := userId;
      }
      sessions := sessions + {conn};
      users := Added(users, conn, conn.userId);
      assert Ids() == old(Ids())[conn := conn.userId];
      assert old(conn in sessions) ==> old(Ids())[conn] == old(conn.userId);
    }

    /** `unregister`'s loop over the rooms. */
    method LeaveAll(conn: Connection)
      requires forall r :: r in rooms ==> rooms[r] != {}
      modifies this`rooms
      ensures rooms == Without(old(rooms), {conn})
    {
      ghost var start := rooms;
      var keys := rooms.Keys;
      while keys != {}
        invariant keys <= start.Keys && Leaving(start, rooms, keys, conn)
        decreases |keys|
      {
        var room :| room in keys;
        LeaveOne(start, rooms, keys, room, conn);
        keys := keys - {room};
        rooms := Discard(rooms, room, conn);
      }
      LeftAll(start, rooms, conn);
    }

    method Unregister(conn: Connection)
      requires Consistent() && conn.Valid()
      modifies this, conn`closed, conn`failing, conn`queue
      ensures Consistent() && conn.Valid() && (conn.closed || conn.failing)
      ensures sessions == old(sessions) - {conn}
      ensures rooms == Without(old(rooms), {conn})
      ensures users == Removed(old(users), conn, conn.userId)
      ensures conn.socket.Some? ==> conn.closed == old(conn.closed)
      ensures conn.queue == if conn.socket.None? && !old(conn.closed) && old(conn.Room()) then old(conn.queue) + [Stop]
                            else old(conn.queue)
    {
      hide Without, UsersRight, Removed, Events;
      DiscardedRoomsRight(rooms, sessions, conn);
      RemovedRight(users, Ids(), conn, conn.userId);
      assert forall r :: r in rooms ==> rooms[r] != {};
      sessions := sessions - {conn};
      LeaveAll(conn);
      users := Removed(users, conn, conn.userId);
      conn.Close();
      assert Ids() == old(Ids()) - {conn};
    }

    method Join(room: string, conn: Connection)
      requires Consistent()
      modifies this, conn`userId
      ensures Consistent() && conn.userId == old(conn.userId) && sessions == old(sessions) + {conn}
      ensures rooms == old(rooms)[room := Members(old(rooms), room) + {conn}]
    {
      Register(conn, None);
      rooms := rooms[room := Members(rooms, room) + {conn}];
    }

    method Leave(room: string, conn: Connection)
      requires Consistent()
      modifies this`rooms
      ensures Consistent() && rooms == Discard(old(rooms), room, conn)
    {
      rooms := Discard(rooms, room, conn);
    }

    /** A raw WebSocket session is wrapped anew on every call. */
    method JoinRaw(room: string, socket: nat, userId: Option<string>, maxQueue: int, closed: bool)
      returns (conn: Connection)
      requires Consistent()
      modifies this
      ensures fresh(conn) && conn.Valid() && conn.socket == Some(socket) && conn.closed == conn.failing == closed
      ensures conn.maxQueue == maxQueue && conn.queue == [] && conn.sent == []
      ensures Consistent() && sessions == old(sessions) + {conn}
      ensures rooms == old(rooms)[room := Members(old(rooms), room) + {conn}]
    {
      conn := new Connection.Wrap(socket, userId, maxQueue, closed);
      assert Ids() == old(Ids());
      Join(room, conn);
    }

    /** One round of that loop. */
    method SendOne(conn: Connection, e: Event) returns (dead: bool)
      requires conn.Valid()
      modifies conn`closed, conn`failing, conn`queue, conn`sent
      ensures conn.Valid() && dead == old(conn.Dead())
      ensures conn.sent == if dead then old(conn.sent) else old(conn.sent) + [e]
      ensures conn.queue == if dead || !old(conn.Room()) then old(conn.queue) else old(conn.queue) + [Data(e)]
      ensures conn.closed == if dead then old(conn.closed) else !old(conn.Room())
      ensures if dead then conn.Dead() else !conn.failing && Reached(conn, old(conn.queue), old(conn.sent), e)
    {
      if conn.closed {
        return true;
      }
      dead := conn.SendEvent(e);
    }

    /** The first loop of `_send_many`: open targets are sent the event; closed ones, and those on which sending
        raises, are listed. */
    method SendOpen(targets: seq<Connection>, e: Event) returns (dead: seq<Connection>)
      requires forall c :: c in targets ==> c.Valid()
      requires forall i, j :: 0 <= i < j < |targets| ==> targets[i] != targets[j]
      modifies targets
      ensures forall c :: c in targets ==> c.Valid() && c.received == old(c.received) && c.userId == old(c.userId)
      ensures forall c :: c in targets && old(c.Dead()) ==>
                c.sent == old(c.sent) && c.queue == old(c.queue) && c.closed == old(c.closed)
      ensures forall c :: c in targets && !old(c.Dead()) ==> Reached(c, old(c.queue), old(c.sent), e)
      ensures forall c :: c in dead <==> c in targets && old(c.Dead())
      ensures forall c :: c in dead ==> c.Dead()
    {
      hide Events, Connection.Valid, Reached;
      dead := [];
      for i := 0 to |targets|
        invariant forall c :: c in targets ==>
                    c.Valid() && c.received == old(c.received) && c.userId == old(c.userId)
        invariant forall k :: 0 <= k < i && old(targets[k].Dead()) ==>
                    && targets[k].sent == old(targets[k].sent) && targets[k].queue == old(targets[k].queue)
                    && targets[k].closed == old(targets[k].closed)
        invariant forall k :: 0 <= k < i && !old(targets[k].Dead()) ==>
                    Reached(targets[k], old(targets[k].queue), old(targets[k].sent), e)
        invariant forall k :: i <= k < |targets| ==> old(Look(targets[k])) == Look(targets[k])
        invariant forall c :: c in dead <==> c in targets[..i] && old(c.Dead())
        invariant forall k :: 0 <= k < i && old(targets[k].Dead()) ==> targets[k].Dead()
      {
        var conn := targets[i];
        assert targets[..i + 1] == targets[..i] + [conn];
        var isDead := SendOne(conn, e);
        if isDead {
          dead := dead + [conn];
        }
      }
      assert targets[..|targets|] == targets;
    }

    /** Every live target is reached exactly once, the others are unregistered and their rooms left, nobody else is
        touched. */
    method SendMany(targets: seq<Connection>, e: Event)
      requires Consistent() && forall c :: c in targets ==> c.Valid()
      requires forall i, j :: 0 <= i < j < |targets| ==> targets[i] != targets[j]
      modifies this, targets
      ensures Consistent() && forall c :: c in targets ==> c.Valid()
      ensures forall c :: c in targets && !old(c.Dead()) ==> Reached(c, old(c.queue), old(c.sent), e)
      ensures forall c :: c in targets && old(c.Dead()) ==>
                c.sent == old(c.sent) && c.queue == old(c.queue) && c.closed == old(c.closed)
      ensures var gone := old(DeadOf(SetOf(targets)));
              sessions == old(sessions) - gone && rooms == Without(old(rooms), gone)
      ensures forall c :: c in targets ==> c.received == old(c.received) && c.userId == old(c.userId)
    {
      hide Events, UsersRight, RoomsRight, Without;
      var dead := SendOpen(targets, e);
      forall c | c in dead ensures c in targets { }
      DropAll(dead, targets);
      assert SetOf(dead) == old(DeadOf(SetOf(targets)));
    }

    /** The second loop: the dead targets are unregistered. */
    method DropAll(dead: seq<Connection>, ghost targets: seq<Connection>)
      requires Consistent() && forall c :: c in dead ==> c.Valid() && c.Dead() && c in targets
      modifies this, targets
      ensures Consistent() && forall c :: c in dead ==> c.Valid()
      ensures sessions == old(sessions) - SetOf(dead)
      ensures rooms == Without(old(rooms), SetOf(dead))
      ensures forall c :: c in dead ==> c.queue == old(c.queue) && c.closed == old(c.closed)
      ensures forall c :: c in targets ==>
                c.received == old(c.received) && c.userId == old(c.userId) && c.sent == old(c.sent)
      ensures forall c :: c in targets && c !in dead ==> old(Look(c)) == Look(c)
    {
      hide Events, UsersRight, Without;
      WithoutNone(rooms);
      hide RoomsRight;
      assert SetOf(dead[..0]) == {};
      for d := 0 to |dead|
        invariant Consistent() && forall c :: c in dead ==> c.Valid() && c.Dead()
        invariant forall c :: c in dead ==> c.queue == old(c.queue) && c.closed == old(c.closed)
        invariant forall c :: c in targets ==>
                    c.received == old(c.received) && c.userId == old(c.userId) && c.sent == old(c.sent)
        invariant forall c :: c in targets && c !in dead ==> old(Look(c)) == Look(c)
        invariant sessions == old(sessions) - SetOf(dead[..d])
        invariant rooms == Without(old(rooms), SetOf(dead[..d]))
      {
        assert dead[d] in dead;
        Unregister(dead[d]);
        assert dead[..d + 1] == dead[..d] + [dead[d]];
        WithoutMore(old(rooms), SetOf(dead[..d]), dead[d]);
        assert SetOf(dead[..d + 1]) == SetOf(dead[..d]) + {dead[d]};
      }
      assert dead[..|dead|] == dead;
    }

    /** Reaches each live member of the room exactly once and drops the members that are closed or raise. */
    method Broadcast(room: string, e: Event)
      requires Consistent() && forall c :: c in Members(rooms, room) ==> c.Valid()
      modifies this, Members(rooms, room)
      ensures Consistent()
      ensures forall c :: c in Members(old(rooms), room) && old(c.Dead()) ==>
                c !in sessions && c.sent == old(c.sent) && c.queue == old(c.queue) && c.closed == old(c.closed)
      ensures forall c :: c in Members(old(rooms), room) && !old(c.Dead()) ==>
                c in sessions && Reached(c, old(c.queue), old(c.sent), e)
      ensures forall c :: c in Members(old(rooms), room) ==> c.received == old(c.received) && c.userId == old(c.userId)
      ensures var gone := old(DeadOf(Members(rooms, room)));
              sessions == old(sessions) - gone && rooms == Without(old(rooms), gone)
    {
      var targets := Listed(Members(rooms, room));
      assert SetOf(targets) == Members(rooms, room);
      SendMany(targets, e);
    }

    /** The same for the connections of one user. */
    method SendUser(user: string, e: Event)
      requires Consistent() && forall c :: c in Members(users, user) ==> c.Valid()
      modifies this, Members(users, user)
      ensures Consistent()
      ensures forall c :: c in Members(old(users), user) && old(c.Dead()) ==>
                c !in sessions && c.sent == old(c.sent) && c.queue == old(c.queue) && c.closed == old(c.closed)
      ensures forall c :: c in Members(old(users), user) && !old(c.Dead()) ==>
                c in sessions && Reached(c, old(c.queue), old(c.sent), e)
      ensures forall c :: c in Members(old(users), user) ==> c.received == old(c.received) && c.userId == old(c.userId)
      ensures var gone := old(DeadOf(Members(users, user)));
              sessions == old(sessions) - gone && rooms == Without(old(rooms), gone)
    {
      var targets := Listed(Members(users, user));
      assert SetOf(targets) == Members(users, user);
      OnlyRegistered(user);
      SendMany(targets, e);
    }

    lemma OnlyRegistered(user: string)
      requires Consistent()
      ensures Members(users, user) <= sessions
    {
      assert forall c :: c in Members(users, user) ==> c in Ids();
    }

    /** Once per member is not once per raw session: one that has joined a room twice is sent everything twice, if
        its queue has room for two. */
    method BroadcastToRejoined(room: string, socket: nat, userId: Option<string>, maxQueue: int, e: Event)
      returns (first: Connection, second: Connection)
      requires Consistent() && forall c :: c in Members(rooms, room) ==> c.Valid()
      requires maxQueue != 1
      modifies this, Members(rooms, room)
      ensures first != second && first.socket == second.socket == Some(socket)
      ensures first.queue == second.queue == [Data(e)] && first.sent == second.sent == [e]
      ensures first in sessions && second in sessions
    {
      first := JoinRaw(room, socket, userId, maxQueue, false);
      second := JoinRaw(room, socket, userId, maxQueue, false);
      Broadcast(room, e);
    }
  }

  /** The part of a connection that sending changes. */
  datatype View = View(closed: bool, failing: bool, queue: seq<Item>, sent: seq<Event>)

  ghost function Look(c: Connection): View
    reads c
  {
    View(c.closed, c.failing, c.queue, c.sent)
  }

  /** Those that the hub drops when it sends to them. */
  ghost function DeadOf(conns: set<Connection>): set<Connection>
    reads conns
  {
    set c | c in conns && c.Dead()
  }

  /** A live connection has been reached: an open one with the event at the end of its queue, or, if there was no
      room, an SSE session that is closed for good. */
  ghost predicate Reached(c: Connection, queue: seq<Item>, sent: seq<Event>, e: Event)
    reads c
  {
    && c.sent == sent + [e]
    && (c.maxQueue <= 0 || |queue| < c.maxQueue ==> !c.closed && !c.failing && c.queue == queue + [Data(e)])
    && (!(c.maxQueue <= 0 || |queue| < c.maxQueue) ==> c.socket.None? && c.closed && c.queue == queue)
  }

  /** `list(s)` */
  method Listed(s: set<Connection>) returns (r: seq<Connection>)
    ensures forall c :: c in s <==> c in r
    ensures forall i, j :: 0 <= i < j < |r| ==> r[i] != r[j]
  {
    r := [];
    var left := s;
    while left != {}
      invariant left <= s && forall c :: c in s <==> c in r || c in left
      invariant forall c :: c in r ==> c !in left
      invariant forall i, j :: 0 <= i < j < |r| ==> r[i] != r[j]
      decreases |left|
    {
      var c :| c in left;
      left := left - {c};
      r := r + [c];
    }
  }
}
