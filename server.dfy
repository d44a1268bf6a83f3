/**
 * The socket.io presence and routing layer of the chat server: the handlers
 * registered in `io.on('connection', ...)` for `set username`, `join chat`,
 * `private message` and `disconnect`, run one event at a time over shared
 * state.
 *
 * The transport is abstracted: the set of live sockets, room membership
 * (kept by socket.io through `socket.join`) as a map from room name to socket
 * ids, and everything emitted as an outbox of emits, each recording the sockets
 * it reaches at the moment it is sent.
 */
module Server {
  import opened Options
  import opened Registry
  import Room

  /** The reason `set username` reports for an empty name. */
  const UsernameRequired: string := "Username required"

  /** The reason `join chat` and `private message` report before a name is set. */
  const NotAuthenticated: string := "Not authenticated"

  /** The `Message` the server builds for `private message`. */
  datatype Message = Message(username: string, text: string, timestamp: string)

  /** The server-to-client events, with their payloads. */
  datatype Event =
    | Error(reason: string)
    | UserList(usernames: seq<string>)
    | ChatJoined(from: string)
    | PrivateMessage(message: Message)

  /** One emit: the sockets it reaches, resolved when it is sent, and the event. */
  datatype Emit = Emit(recipients: set<SocketId>, event: Event)

  /** JavaScript truthiness of a `string | undefined`: defined and not empty. */
  predicate Truthy(o: Option<string>)
  {
    o.Some? && o.value != ""
  }

  /** The sockets subscribed to `room`; a room nobody joined has none. */
  function MembersOf(rooms: map<string, set<SocketId>>, room: string): set<SocketId>
  {
    if room in rooms then rooms[room] else {}
  }

  /** `socket.join(room)`. */
  function Join(rooms: map<string, set<SocketId>>, room: string, s: SocketId): map<string, set<SocketId>>
  {
    rooms[room := MembersOf(rooms, room) + {s}]
  }

  /** socket.io takes a closing socket out of every room. */
  function LeaveAll(rooms: map<string, set<SocketId>>, s: SocketId): map<string, set<SocketId>>
  {
    map r | r in rooms :: rooms[r] - {s}
  }

  /** Only sockets in `live` are subscribed to any room. */
  ghost predicate RoomsLive(rooms: map<string, set<SocketId>>, live: set<SocketId>)
  {
    forall r :: r in rooms ==> rooms[r] <= live
  }

  /** Subscribing a live socket keeps every room live. */
  lemma JoinKeepsRoomsLive(rooms: map<string, set<SocketId>>, live: set<SocketId>, room: string, s: SocketId)
    requires RoomsLive(rooms, live) && s in live
    ensures RoomsLive(Join(rooms, room, s), live)
  {
  }

  /** Every one of `emits` reaches only sockets in `live`. */
  ghost predicate ToLiveSockets(emits: seq<Emit>, live: set<SocketId>)
  {
    forall m :: m in emits ==> m.recipients <= live
  }

  class ChatServer {
    /** The sockets currently connected; `io.emit` reaches exactly these. */
    var connected: set<SocketId>
    /** `userSockets`, in insertion order. */
    var registry: seq<Entry>
    /** Room name to subscribed sockets, as socket.io keeps it. */
    var rooms: map<string, set<SocketId>>
    /** Every emit so far, oldest first. */
    var outbox: seq<Emit>

    /**
     * Each username is registered once, never as the empty string (the
     * `set username` guard), and only live sockets are subscribed to rooms.
     */
    ghost predicate Valid()
      reads this
    {
      && Distinct(Keys(registry))
      && "" !in Keys(registry)
      && RoomsLive(rooms, connected)
    }

    /** A fresh server: nobody connected, nobody registered, nothing sent. */
    constructor ()
      ensures Valid()
      ensures connected == {} && registry == [] && rooms == map[] && outbox == []
    {
      connected, registry, rooms, outbox := {}, [], map[], [];
    }

    /**
     * `io.on('connection')`: socket.io admits the socket and subscribes it to
     * the room named by its own id, which `io.to(socketId)` addresses.
     */
    method OnConnection(s: SocketId)
      requires Valid() && s !in connected
      modifies this
      ensures Valid()
      ensures connected == old(connected) + {s}
      ensures rooms == Join(old(rooms), s, s)
      ensures registry == old(registry) && outbox == old(outbox)
    {
      connected := connected + {s};
      rooms := Join(rooms, s, s);
    }

    /**
     * `getUsernameFromSocket`: walks the registry in insertion order and
     * answers the first username whose socket id is `s`.
     */
    method UsernameOf(s: SocketId) returns (u: Option<string>)
      ensures u == Owner(registry, s)
      ensures u.None? <==> forall x :: x in registry ==> x.socketId != s
    {
      var i := 0;
      while i < |registry|
        invariant 0 <= i <= |registry|
        invariant forall j :: 0 <= j < i ==> registry[j].socketId != s
      {
        if registry[i].socketId == s {
          OwnerIsFirst(registry, s, i);
          return Some(registry[i].username);
        }
        i := i + 1;
      }
      return None;
    }

    /**
     * `set username`: an empty name is refused to this socket alone; otherwise
     * the name is mapped to this socket (replacing any earlier socket for it),
     * the socket joins the room named after the user, and every connected
     * socket is sent the full list of registered names.
     */
    method OnSetUsername(s: SocketId, username: string)
      requires Valid() && s in connected
      modifies this
      ensures Valid()
      ensures connected == old(connected)
      ensures old(outbox) <= outbox && ToLiveSockets(outbox[|old(outbox)|..], connected)
      ensures username == "" ==>
        && registry == old(registry)
        && rooms == old(rooms)
        && outbox == old(outbox) + [Emit({s}, Error(UsernameRequired))]
      ensures username != "" ==>
        && registry == Put(old(registry), username, s)
        && Get(registry, username) == Some(s)
        && multiset(Keys(registry))[username] == 1
        && (forall k :: k != username ==> Get(registry, k) == Get(old(registry), k))
        && rooms == Join(old(rooms), username, s)
        && outbox == old(outbox) + [Emit(connected, UserList(Keys(registry)))]
    {
      if username == "" {
        outbox := outbox + [Emit({s}, Error(UsernameRequired))];
        assert outbox[|old(outbox)|..] == [Emit({s}, Error(UsernameRequired))];
        return;
      }
      ghost var before := registry;
      registry := Put(registry, username, s);
      PutReplaces(before, username, s);
      JoinKeepsRoomsLive(rooms, connected, username, s);
      rooms := Join(rooms, username, s);
      outbox := outbox + [Emit(connected, UserList(Keys(registry)))];
      assert outbox[|old(outbox)|..] == [Emit(connected, UserList(Keys(registry)))];
    }

    /**
     * `join chat`: an unregistered socket gets `Not authenticated`; otherwise
     * it joins the private room of its username and the contact, and, when the
     * contact has a registered socket id, that socket's room is told who joined.
     */
    method OnJoinChat(s: SocketId, contact: string)
      requires Valid() && s in connected
      modifies this
      ensures Valid()
      ensures connected == old(connected) && registry == old(registry)
      ensures old(outbox) <= outbox && ToLiveSockets(outbox[|old(outbox)|..], connected)
      ensures Owner(registry, s).None? ==>
        && rooms == old(rooms)
        && outbox == old(outbox) + [Emit({s}, Error(NotAuthenticated))]
      ensures Owner(registry, s).Some? ==>
        var me := Owner(registry, s).value;
        var contactSocket := Get(registry, contact);
        && rooms == Join(old(rooms), Room.RoomName(me, contact), s)
        && outbox == old(outbox) +
             if Truthy(contactSocket)
             then [Emit(MembersOf(rooms, contactSocket.value), ChatJoined(me))]
             else []
    {
      var sender := UsernameOf(s);
      if !Truthy(sender) {
        outbox := outbox + [Emit({s}, Error(NotAuthenticated))];
        assert outbox[|old(outbox)|..] == [Emit({s}, Error(NotAuthenticated))];
        return;
      }
      var room := Room.RoomName(sender.value, contact);
      JoinKeepsRoomsLive(rooms, connected, room, s);
      rooms := Join(rooms, room, s);
      var contactSocketId := Get(registry, contact);
      if Truthy(contactSocketId) {
        var notice := Emit(MembersOf(rooms, contactSocketId.value), ChatJoined(sender.value));
        outbox := outbox + [notice];
        assert outbox[|old(outbox)|..] == [notice];
      } else {
        assert outbox[|old(outbox)|..] == [];
      }
    }

    /**
     * `private message`: an unregistered socket gets `Not authenticated`;
     * otherwise a message stamped with the sender's registered username, the
     * given text and the server's timestamp goes to the sockets subscribed to
     * the private room of the sender and `to`, and to no others.
     */
    method OnPrivateMessage(s: SocketId, to: string, text: string, timestamp: string)
      requires Valid() && s in connected
      modifies this
      ensures Valid()
      ensures connected == old(connected) && registry == old(registry) && rooms == old(rooms)
      ensures old(outbox) <= outbox && ToLiveSockets(outbox[|old(outbox)|..], connected)
      ensures Owner(registry, s).None? ==>
        outbox == old(outbox) + [Emit({s}, Error(NotAuthenticated))]
      ensures Owner(registry, s).Some? ==>
        var me := Owner(registry, s).value;
        outbox == old(outbox) +
          [Emit(MembersOf(rooms, Room.RoomName(me, to)), PrivateMessage(Message(me, text, timestamp)))]
    {
      var sender := UsernameOf(s);
      if !Truthy(sender) {
        outbox := outbox + [Emit({s}, Error(NotAuthenticated))];
        assert outbox[|old(outbox)|..] == [Emit({s}, Error(NotAuthenticated))];
        return;
      }
      var room := Room.RoomName(sender.value, to);
      var message := Message(sender.value, text, timestamp);
      outbox := outbox + [Emit(MembersOf(rooms, room), PrivateMessage(message))];
      assert outbox[|old(outbox)|..] == [Emit(MembersOf(rooms, room), PrivateMessage(message))];
    }

    /**
     * `disconnect`: socket.io has already dropped the socket from every room.
     * If the reverse lookup finds a username for it, exactly that name is
     * deleted and the remaining names are sent to the sockets still connected;
     * otherwise nothing changes and nothing is sent.
     */
    method OnDisconnect(s: SocketId)
      requires Valid() && s in connected
      modifies this
      ensures Valid()
      ensures connected == old(connected) - {s}
      ensures rooms == LeaveAll(old(rooms), s)
      ensures old(outbox) <= outbox && ToLiveSockets(outbox[|old(outbox)|..], connected)
      ensures Owner(old(registry), s).None? ==>
        registry == old(registry) && outbox == old(outbox)
      ensures Owner(old(registry), s).Some? ==>
        var u := Owner(old(registry), s).value;
        && registry == Remove(old(registry), u)
        && u !in Keys(registry)
        && (forall k :: k != u ==> Get(registry, k) == Get(old(registry), k))
        && outbox == old(outbox) + [Emit(connected, UserList(Keys(registry)))]
    {
      connected := connected - {s};
      rooms := LeaveAll(rooms, s);
      var username := UsernameOf(s);
      if Truthy(username) {
        ghost var before := registry;
        registry := Remove(registry, username.value);
        RemoveDistinct(before, username.value);
        forall k | k != username.value ensures Get(registry, k) == Get(before, k) {
          RemoveGet(before, username.value, k);
        }
        outbox := outbox + [Emit(connected, UserList(Keys(registry)))];
        assert outbox[|old(outbox)|..] == [Emit(connected, UserList(Keys(registry)))];
      } else {
        assert outbox[|old(outbox)|..] == [];
      }
    }
  }

  /**
   * Three sockets connect and the first two register as `alice` and `bob`.
   */
  method TwoUsersOnline(a: SocketId, b: SocketId, c: SocketId) returns (server: ChatServer)
    requires a != b && b != c && a != c
    requires c != Room.Prefix + "alice" + Room.Separator + "bob"
    ensures fresh(server) && server.Valid()
    ensures server.connected == {a, b, c}
    ensures server.registry == [Entry("alice", a), Entry("bob", b)]
    ensures MembersOf(server.rooms, Room.Prefix + "alice" + Room.Separator + "bob") <= {a, b}
  {
    var room := Room.Prefix + "alice" + Room.Separator + "bob";
    server := new ChatServer();
    server.OnConnection(a);
    server.OnConnection(b);
    server.OnConnection(c);
    assert MembersOf(server.rooms, room) <= {a, b};
    server.OnSetUsername(a, "alice");
    assert server.registry == [Entry("alice", a)];
    assert MembersOf(server.rooms, room) <= {a, b} by {
      assert |room| != |"alice"|;
    }
    server.OnSetUsername(b, "bob");
    assert MembersOf(server.rooms, room) <= {a, b} by {
      assert |room| != |"bob"|;
    }
  }

  /**
   * `alice` and `bob` open a private chat with each other: both sockets end
   * up in `private_alice_bob`, and what alice sends reaches exactly those two
   * sockets, stamped with her registered name; the third socket, which never
   * joined, receives nothing.
   */
  method PrivateChatScenario(a: SocketId, b: SocketId, c: SocketId, timestamp: string)
    returns (server: ChatServer)
    requires a != b && b != c && a != c
    requires c != Room.Prefix + "alice" + Room.Separator + "bob"
    ensures server.Valid()
    ensures server.outbox != []
    ensures server.outbox[|server.outbox| - 1] ==
      Emit({a, b}, PrivateMessage(Message("alice", "hi", timestamp)))
  {
    server := TwoUsersOnline(a, b, c);
    assert Owner(server.registry, a) == Some("alice");
    assert Owner(server.registry, b) == Some("bob");
    assert Room.Less("alice", "bob");
    var room := Room.Prefix + "alice" + Room.Separator + "bob";
    assert Room.RoomName("alice", "bob") == room == Room.RoomName("bob", "alice");
    server.OnJoinChat(a, "bob");
    server.OnJoinChat(b, "alice");
    assert MembersOf(server.rooms, room) == {a, b};
    server.OnPrivateMessage(a, "bob", "hi", timestamp);
  }

  /**
   * A second socket takes over the name `alice`; when the first socket then
   * disconnects, the lookup finds no name for it, so the newer mapping stays
   * and no `user list` is sent.
   */
  method StaleDisconnectScenario(c1: SocketId, c2: SocketId) returns (server: ChatServer)
    requires c1 != c2
    ensures server.Valid()
    ensures server.registry == [Entry("alice", c2)]
    ensures server.outbox == [Emit({c1, c2}, UserList(["alice"])), Emit({c1, c2}, UserList(["alice"]))]
  {
    server := new ChatServer();
    server.OnConnection(c1);
    server.OnConnection(c2);
    assert server.outbox == [] && server.connected == {c1, c2};
    server.OnSetUsername(c1, "alice");
    assert server.registry == [Entry("alice", c1)];
    assert Keys(server.registry) == ["alice"];
    assert server.outbox == [Emit({c1, c2}, UserList(["alice"]))];
    server.OnSetUsername(c2, "alice");
    assert server.registry == [Entry("alice", c2)];
    assert Keys(server.registry) == ["alice"];
    assert server.outbox == [Emit({c1, c2}, UserList(["alice"])), Emit({c1, c2}, UserList(["alice"]))];
    assert Owner(server.registry, c1) == None;
    server.OnDisconnect(c1);
  }

  /**
   * One socket registers two names; its disconnect deletes only the first,
   * so the second stays registered to a closed socket and is still listed.
   */
  method TwoNamesScenario(c: SocketId) returns (server: ChatServer)
    ensures server.Valid()
    ensures server.registry == [Entry("bob", c)]
    ensures server.outbox != []
    ensures server.outbox[|server.outbox| - 1] == Emit({}, UserList(["bob"]))
  {
    server := new ChatServer();
    server.OnConnection(c);
    server.OnSetUsername(c, "alice");
    server.OnSetUsername(c, "bob");
    assert server.registry == [Entry("alice", c), Entry("bob", c)];
    assert Owner(server.registry, c) == Some("alice");
    server.OnDisconnect(c);
    assert server.registry == [Entry("bob", c)];
    assert Keys(server.registry) == ["bob"];
  }

  /**
   * Two sockets connect and the first registers both `alice` and `bob`.
   */
  method OneSocketTwoNames(c1: SocketId, c2: SocketId) returns (server: ChatServer)
    requires c1 != c2
    ensures fresh(server) && server.Valid()
    ensures server.connected == {c1, c2}
    ensures server.registry == [Entry("alice", c1), Entry("bob", c1)]
  {
    server := new ChatServer();
    server.OnConnection(c1);
    server.OnConnection(c2);
    server.OnSetUsername(c1, "alice");
    assert server.registry == [Entry("alice", c1)];
    server.OnSetUsername(c1, "bob");
  }

  /**
   * A socket registers `alice` and `bob`, then a second socket takes over
   * `alice`. The first socket's disconnect leaves the newer `alice` mapping
   * alone but deletes `bob`, the name the first socket still holds.
   */
  method StaleSecondNameScenario(c1: SocketId, c2: SocketId) returns (server: ChatServer)
    requires c1 != c2
    ensures server.Valid()
    ensures server.registry == [Entry("alice", c2)]
    ensures server.outbox != []
    ensures server.outbox[|server.outbox| - 1] == Emit({c2}, UserList(["alice"]))
  {
    server := OneSocketTwoNames(c1, c2);
    server.OnSetUsername(c2, "alice");
    assert server.registry == [Entry("alice", c2), Entry("bob", c1)];
    assert Owner(server.registry, c1) == Some("bob");
    server.OnDisconnect(c1);
    assert server.registry == [Entry("alice", c2)];
    assert Keys(server.registry) == ["alice"];
  }
}
