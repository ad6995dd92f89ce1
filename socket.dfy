/** The Socket.io layer: the handshake, the process-wide `onlineUsers` map from
    user id to socket id, the rooms each socket joins on connect, and the event
    handlers. Every handler runs to completion on its own; it updates the store
    and the presence map and returns the `(target, event)` pairs it emitted, in
    order. */
module Socket {
  import opened Store
  import opened Text
  import Auth
  import Queries

  type SocketId = nat

  /** A socket's personal room (named by its user id) or `"group:" + g`. */
  datatype Room = UserRoom(userId: UserId) | GroupRoom(groupId: Key)

  /** A connected socket: `socket.user` and the rooms it has joined. */
  datatype Connection = Connection(userId: UserId, username: string, rooms: set<Room>)

  /** `io.to(socketId)`, `io.to(room)`, `socket.to(room)` (the room minus the
      sending socket) and `io.emit`. */
  datatype Target =
    | ToSocket(socket: SocketId)
    | ToRoom(room: Room)
    | ToRoomExcept(room: Room, except: SocketId)
    | ToEveryone

  datatype Event =
    | UserOnline(userId: UserId, isOnline: bool)
    | MessageReceive(message: Entry<Message>)
    | MessageSent(message: Entry<Message>)
    | MessageError(error: string)
    | GroupMessageReceive(message: Entry<Message>)
    | TypingStatus(userId: UserId, isTyping: bool)
    | GroupTypingStatus(groupId: Key, userId: UserId, username: string, isTyping: bool)
    | MessageReadConfirm(readerId: UserId)
    | FriendRequestReceive(friendship: Entry<Friendship>)
    | FriendRequestSent(friendship: Entry<Friendship>)
    | FriendRequestAccepted(friendship: Entry<Friendship>)
    | FriendRequestError(error: string)

  datatype Emit = Emit(to: Target, event: Event)

  /** The sockets an emission to `t` reaches. */
  function Recipients(t: Target, conns: map<SocketId, Connection>): set<SocketId> {
    match t
    case ToSocket(s) => if s in conns then {s} else {}
    case ToRoom(r) => set s | s in conns && r in conns[s].rooms
    case ToRoomExcept(r, e) => set s | s in conns && r in conns[s].rooms && s != e
    case ToEveryone => conns.Keys
  }

  // ------------------------------------------------------------- handshake

  datatype Admission = Admitted(userId: UserId, username: string) | Refused(error: string)

  /** The `io.use` middleware: a token is required, `jwt.verify` must accept it
      (whatever it throws becomes "Authentication error"), and the decoded user
      must exist. */
  function Handshake(token: Option<string>, verify: string -> Auth.Verdict, users: seq<UserRecord>): (r: Admission)
    ensures r.Admitted? <==>
      !Missing(token) && verify(token.value).Decoded? && UserExists(users, verify(token.value).userId)
    ensures r.Admitted? ==>
      r.userId == verify(token.value).userId
      && r.username == users[UserIndex(users, r.userId)].user.username
    ensures r == Refused("User not found") <==>
      !Missing(token) && verify(token.value).Decoded? && !UserExists(users, verify(token.value).userId)
  {
    if Missing(token) then Refused("Authentication error")
    else
      match verify(token.value)
      case Thrown(_) => Refused("Authentication error")
      case Decoded(u) =>
        var i := UserIndex(users, u);
        if i == |users| then Refused("User not found")
        else Admitted(u, users[i].user.username)
  }

  /** The rooms a socket of `u` joins on connect: its personal room and the room
      of every group in which some row names `u`. */
  function RoomsFor(rows: seq<Entry<Membership>>, u: UserId): (r: set<Room>)
    ensures forall v :: UserRoom(v) in r <==> v == u
    ensures forall g :: GroupRoom(g) in r <==> IsMemberRow(rows, g, u)
  {
    var groupRooms := set i | 0 <= i < |rows| && rows[i].val.userId == u :: GroupRoom(rows[i].val.groupId);
    assert forall g :: GroupRoom(g) in groupRooms <==> IsMemberRow(rows, g, u) by {
      forall g ensures GroupRoom(g) in groupRooms ==> IsMemberRow(rows, g, u) {
        if GroupRoom(g) in groupRooms {
          var i :| 0 <= i < |rows| && rows[i].val.userId == u && GroupRoom(rows[i].val.groupId) == GroupRoom(g);
          assert RowFor(rows[i].val, g, u);
        }
      }
    }
    {UserRoom(u)} + groupRooms
  }

  class ChatServer {
    const db: Database
    /** `onlineUsers`: the socket most recently registered for each user. */
    var onlineUsers: map<UserId, SocketId>
    var connections: map<SocketId, Connection>

    /** The store is well formed, and every registered socket is connected as its user. */
    ghost predicate Valid()
      reads this, db
    {
      && db.Valid()
      && forall u :: u in onlineUsers ==> onlineUsers[u] in connections && connections[onlineUsers[u]].userId == u
    }

    constructor (store: Database)
      requires store.Valid()
      ensures Valid()
      ensures db == store && onlineUsers == map[] && connections == map[]
    {
      db := store;
      onlineUsers := map[];
      connections := map[];
    }

    /** The `connection` handler for an admitted socket `sid` of user `uid`. */
    method Connect(sid: SocketId, uid: UserId, username: string, now: int) returns (out: seq<Emit>)
      requires Valid() && sid !in connections
      modifies this, db`users
      ensures Valid()
      ensures onlineUsers == old(onlineUsers)[uid := sid]
      ensures connections == old(connections)[sid := Connection(uid, username, RoomsFor(db.groupMembers, uid))]
      ensures db.State() == old(db.State()).(users := WithPresence(old(db.users), uid, true, now))
      ensures out == [Emit(ToEveryone, UserOnline(uid, true))]
    {
      onlineUsers := onlineUsers[uid := sid];
      db.SetPresence(uid, true, now);
      out := [Emit(ToEveryone, UserOnline(uid, true))];
      var rows := db.groupMembers;
      var rooms := {UserRoom(uid)};
      var i := 0;
      while i < |rows|
        invariant 0 <= i <= |rows|
        invariant rooms == {UserRoom(uid)} +
          set j | 0 <= j < i && rows[j].val.userId == uid :: GroupRoom(rows[j].val.groupId)
      {
        if rows[i].val.userId == uid {
          rooms := rooms + {GroupRoom(rows[i].val.groupId)};
        }
        i := i + 1;
      }
      connections := connections[sid := Connection(uid, username, rooms)];
    }

    /** `message:send`. Neither an empty content nor an unknown receiver is refused;
        a missing content fails at `trim` and a missing receiver id at `set`, before
        anything is stored. */
    method SendDirect(sid: SocketId, receiverId: Option<UserId>, content: Option<string>, now: int) returns (out: seq<Emit>)
      requires Valid() && sid in connections
      modifies db`messages, db`nextKey
      ensures Valid()
      ensures receiverId.None? || content.None? ==>
        db.State() == old(db.State())
        && out == [Emit(ToSocket(sid), MessageError("Failed to send message"))]
      ensures receiverId.Some? && content.Some? ==>
        SentDirect(old(db.State()), db.State(), sid, connections[sid].userId, receiverId.value,
                   Trim(content.value), now, onlineUsers, out)
    {
      if receiverId.None? || content.None? {
        return [Emit(ToSocket(sid), MessageError("Failed to send message"))];
      }
      out := Deliver(sid, receiverId.value, Trim(content.value), now);
    }

    /** The rest of `message:send` once both fields are present: the message is stored
        with no checks; the receiver gets it when online and the sender gets a
        confirmation, unless the sender's user record is missing. */
    ghost predicate SentDirect(t0: Tables, t1: Tables, sid: SocketId, me: UserId, receiver: UserId,
                               text: string, now: int, online: map<UserId, SocketId>, out: seq<Emit>)
    {
      var k := t0.nextKey;
      var sent := Entry(k, Message(me, Direct(receiver), text, false, now, now));
      && t1 == t0.(messages := t0.messages + [sent], nextKey := k + 1)
      && out == if !UserExists(t0.users, me) then
                  [Emit(ToSocket(sid), MessageError("Failed to send message"))]
                else
                  (if receiver in online then [Emit(ToSocket(online[receiver]), MessageReceive(sent))] else [])
                  + [Emit(ToSocket(sid), MessageSent(sent))]
    }

    /** Stores a direct message and builds its notices. */
    method Deliver(sid: SocketId, receiver: UserId, text: string, now: int) returns (out: seq<Emit>)
      requires Valid() && sid in connections
      modifies db`messages, db`nextKey
      ensures Valid()
      ensures SentDirect(old(db.State()), db.State(), sid, connections[sid].userId, receiver, text, now, onlineUsers, out)
    {
      var me := connections[sid].userId;
      var m := Message(me, Direct(receiver), text, false, now, now);
      var k := db.PushMessage(m);
      if UserIndex(db.users, me) == |db.users| {
        return [Emit(ToSocket(sid), MessageError("Failed to send message"))];
      }
      out := [];
      if receiver in onlineUsers {
        out := [Emit(ToSocket(onlineUsers[receiver]), MessageReceive(Entry(k, m)))];
      }
      out := out + [Emit(ToSocket(sid), MessageSent(Entry(k, m)))];
    }

    /** `group:message:send`: members only; the message is broadcast to the group's room. */
    method SendToGroup(sid: SocketId, g: Key, content: Option<string>, now: int) returns (out: seq<Emit>)
      requires Valid() && sid in connections
      modifies db`messages, db`groups, db`nextKey
      ensures Valid()
      ensures !IsMemberRow(db.groupMembers, g, connections[sid].userId) ==>
        db.State() == old(db.State())
        && out == [Emit(ToSocket(sid), MessageError("Not a member of this group"))]
      ensures IsMemberRow(db.groupMembers, g, connections[sid].userId) ==>
        PostedAsMember(old(db.State()), db.State(), sid, connections[sid].userId, g, content, now, out)
    {
      var isMember := Queries.IsMember(db, g, connections[sid].userId);
      if !isMember {
        return [Emit(ToSocket(sid), MessageError("Not a member of this group"))];
      }
      out := PostAsMember(sid, g, content, now);
    }

    /** What the rest of `group:message:send` does once membership is settled: no content
        fails before anything is stored; otherwise the trimmed message is stored, the group
        touched, and the message broadcast unless the sender's user record is missing. */
    ghost predicate PostedAsMember(t0: Tables, t1: Tables, sid: SocketId, me: UserId, g: Key,
                                   content: Option<string>, now: int, out: seq<Emit>)
    {
      if content.None? then
        t1 == t0 && out == [Emit(ToSocket(sid), MessageError("Failed to send group message"))]
      else
        var k := t0.nextKey;
        var sent := Entry(k, Message(me, InGroup(g), Trim(content.value), false, now, now));
        && t1 == t0.(messages := t0.messages + [sent], groups := Touched(t0.groups, g, now), nextKey := k + 1)
        && out == if !UserExists(t1.users, me) then
                    [Emit(ToSocket(sid), MessageError("Failed to send group message"))]
                  else
                    [Emit(ToRoom(GroupRoom(g)), GroupMessageReceive(sent))]
    }

    method PostAsMember(sid: SocketId, g: Key, content: Option<string>, now: int) returns (out: seq<Emit>)
      requires Valid() && sid in connections
      requires IsMemberRow(db.groupMembers, g, connections[sid].userId)
      modifies db`messages, db`groups, db`nextKey
      ensures Valid()
      ensures PostedAsMember(old(db.State()), db.State(), sid, connections[sid].userId, g, content, now, out)
    {
      if content.None? {
        return [Emit(ToSocket(sid), MessageError("Failed to send group message"))];
      }
      var me := connections[sid].userId;
      var m := Message(me, InGroup(g), Trim(content.value), false, now, now);
      var k := Queries.PostToGroup(db, g, m, now);
      if UserIndex(db.users, me) == |db.users| {
        return [Emit(ToSocket(sid), MessageError("Failed to send group message"))];
      }
      out := [Emit(ToRoom(GroupRoom(g)), GroupMessageReceive(Entry(k, m)))];
    }

    /** `typing:start` (`isTyping`) and `typing:stop` (`!isTyping`): relayed to the
        receiver's registered socket when there is one; the store is not touched. */
    method Typing(sid: SocketId, receiverId: UserId, isTyping: bool) returns (out: seq<Emit>)
      requires sid in connections
      ensures |out| <= 1
      ensures out != [] <==> receiverId in onlineUsers
      ensures forall i :: 0 <= i < |out| ==>
        out[i] == Emit(ToSocket(onlineUsers[receiverId]), TypingStatus(connections[sid].userId, isTyping))
    {
      out := [];
      if receiverId in onlineUsers {
        out := [Emit(ToSocket(onlineUsers[receiverId]), TypingStatus(connections[sid].userId, isTyping))];
      }
    }

    /** `group:typing:start` and `group:typing:stop`: to the group's room except the
        sender, member or not; the store is not touched. */
    method GroupTyping(sid: SocketId, g: Key, isTyping: bool) returns (out: seq<Emit>)
      requires sid in connections
      ensures |out| == 1 && out[0].to == ToRoomExcept(GroupRoom(g), sid)
      ensures sid !in Recipients(out[0].to, connections)
      ensures out[0].event == GroupTypingStatus(g, connections[sid].userId, connections[sid].username, isTyping)
    {
      var c := connections[sid];
      out := [Emit(ToRoomExcept(GroupRoom(g), sid), GroupTypingStatus(g, c.userId, c.username, isTyping))];
    }

    /** `message:read`: marks what `senderId` sent to this user as read, then
        confirms to `senderId` when they have a registered socket. */
    method ReadMessages(sid: SocketId, senderId: UserId) returns (batched: bool, out: seq<Emit>)
      requires Valid() && sid in connections
      modifies db`messages
      ensures Valid()
      ensures db.State() == old(db.State()).(
        messages := Queries.ReadAllFrom(old(db.messages), senderId, connections[sid].userId))
      ensures batched <==>
        exists i :: 0 <= i < |old(db.messages)| &&
          Queries.UnreadFrom(old(db.messages)[i].val, senderId, connections[sid].userId)
      ensures out == if senderId in onlineUsers then
        [Emit(ToSocket(onlineUsers[senderId]), MessageReadConfirm(connections[sid].userId))] else []
    {
      var me := connections[sid].userId;
      batched := Queries.MarkRead(db, senderId, me);
      out := [];
      if senderId in onlineUsers {
        out := [Emit(ToSocket(onlineUsers[senderId]), MessageReadConfirm(me))];
      }
    }

    /** `friend:request:send`: stores a PENDING record with no self or duplicate check.
        A missing friend id fails at `set`, before anything is stored. */
    method SendFriendRequest(sid: SocketId, friendId: Option<UserId>, now: int) returns (out: seq<Emit>)
      requires Valid() && sid in connections
      modifies db`friendships, db`nextKey
      ensures Valid()
      ensures friendId.None? ==>
        db.State() == old(db.State())
        && out == [Emit(ToSocket(sid), FriendRequestError("Failed to send friend request"))]
      ensures friendId.Some? ==>
        var k := old(db.nextKey);
        var req := Entry(k, Friendship(connections[sid].userId, friendId.value, Pending, now, now));
        && db.State() == old(db.State()).(friendships := old(db.friendships) + [req], nextKey := k + 1)
        && out == if !UserExists(db.users, connections[sid].userId) then
                    [Emit(ToSocket(sid), FriendRequestError("Failed to send friend request"))]
                  else
                    (if friendId.value in onlineUsers then [Emit(ToSocket(onlineUsers[friendId.value]), FriendRequestReceive(req))] else [])
                    + [Emit(ToSocket(sid), FriendRequestSent(req))]
    {
      if friendId.None? {
        return [Emit(ToSocket(sid), FriendRequestError("Failed to send friend request"))];
      }
      var me := connections[sid].userId;
      var f := Friendship(me, friendId.value, Pending, now, now);
      var k := db.PushFriendship(f);
      if UserIndex(db.users, me) == |db.users| {
        return [Emit(ToSocket(sid), FriendRequestError("Failed to send friend request"))];
      }
      out := [];
      if friendId.value in onlineUsers {
        out := [Emit(ToSocket(onlineUsers[friendId.value]), FriendRequestReceive(Entry(k, f)))];
      }
      out := out + [Emit(ToSocket(sid), FriendRequestSent(Entry(k, f)))];
    }

    /** `friend:request:accept`: accepts record `k`, whoever it is addressed to.
        The notices need both parties' user records; when one is missing the
        handler fails silently after the write. A record that the update had to
        create has no parties, so its lookups go to `users/undefined`. */
    method AcceptFriendRequest(sid: SocketId, k: Key, now: int) returns (out: seq<Emit>)
      requires Valid() && sid in connections
      modifies db`friendships, db`nextKey
      ensures Valid()
      ensures HasKey(old(db.friendships), k) ==>
        db.State() == old(db.State()).(friendships := WithAccepted(old(db.friendships), k, now))
      ensures !HasKey(old(db.friendships), k) ==>
        db.State() == old(db.State()).(
          friendships := old(db.friendships) + [Entry(k, StatusOnly(Accepted, now))],
          nextKey := if k < old(db.nextKey) then old(db.nextKey) else k + 1)
      ensures HasKey(db.friendships, k)
      ensures
        var rec := db.friendships[KeyIndex(db.friendships, k)].val;
        out == match rec
          case Friendship(u, v, _, _, _) =>
            if UserExists(db.users, u) && UserExists(db.users, v) then
              (if u in onlineUsers then [Emit(ToSocket(onlineUsers[u]), FriendRequestAccepted(Entry(k, rec)))] else [])
              + [Emit(ToSocket(sid), FriendRequestAccepted(Entry(k, rec)))]
            else []
          case StatusOnly(_, _) =>
            if UserExists(db.users, "undefined") then [Emit(ToSocket(sid), FriendRequestAccepted(Entry(k, rec)))]
            else []
    {
      db.AcceptFriendship(k, now);
      var j := KeyIndex(db.friendships, k);
      assert db.friendships[|db.friendships| - 1].key == k || HasKey(old(db.friendships), k);
      if !HasKey(old(db.friendships), k) {
        assert db.friendships[|db.friendships| - 1].key == k;
      } else {
        var i :| 0 <= i < |old(db.friendships)| && old(db.friendships)[i].key == k;
        assert db.friendships[i].key == k;
      }
      var rec := db.friendships[j].val;
      out := [];
      match rec {
        case Friendship(u, v, _, _, _) =>
          if UserIndex(db.users, u) < |db.users| && UserIndex(db.users, v) < |db.users| {
            if u in onlineUsers {
              out := [Emit(ToSocket(onlineUsers[u]), FriendRequestAccepted(Entry(k, rec)))];
            }
            out := out + [Emit(ToSocket(sid), FriendRequestAccepted(Entry(k, rec)))];
          }
        case StatusOnly(_, _) =>
          if UserIndex(db.users, "undefined") < |db.users| {
            out := [Emit(ToSocket(sid), FriendRequestAccepted(Entry(k, rec)))];
          }
      }
    }

    /** `disconnect`: the user's presence entry goes, whichever socket it names. */
    method Disconnect(sid: SocketId, now: int) returns (out: seq<Emit>)
      requires Valid() && sid in connections
      modifies this, db`users
      ensures Valid()
      ensures onlineUsers == old(onlineUsers) - {old(connections)[sid].userId}
      ensures connections == old(connections) - {sid}
      ensures db.State() == old(db.State()).(users := WithPresence(old(db.users), old(connections)[sid].userId, false, now))
      ensures out == [Emit(ToEveryone, UserOnline(old(connections)[sid].userId, false))]
    {
      var me := connections[sid].userId;
      onlineUsers := onlineUsers - {me};
      connections := connections - {sid};
      db.SetPresence(me, false, now);
      out := [Emit(ToEveryone, UserOnline(me, false))];
    }
  }

  // --------------------------------------------------------------- lemmas

  /** A socket that connected while its user held a row in `g` is reached by
      broadcasts to the group's room. */
  lemma MemberAtConnectHearsGroup(conns: map<SocketId, Connection>, sid: SocketId,
                                  rows: seq<Entry<Membership>>, u: UserId, name: string, g: Key)
    requires IsMemberRow(rows, g, u)
    ensures sid in Recipients(ToRoom(GroupRoom(g)), conns[sid := Connection(u, name, RoomsFor(rows, u))])
  {
  }

  /** Rooms are joined only on connect: a socket that connected before its user
      was added to `g` misses the group's broadcasts until it reconnects. */
  lemma LateMemberMissesGroup(conns: map<SocketId, Connection>, sid: SocketId,
                              rows: seq<Entry<Membership>>, u: UserId, name: string, g: Key)
    requires !IsMemberRow(rows, g, u)
    ensures sid !in Recipients(ToRoom(GroupRoom(g)), conns[sid := Connection(u, name, RoomsFor(rows, u))])
  {
  }

  /** Two socket requests between the same two users leave two records for one
      pair: the socket path does not keep one record per pair. */
  lemma RepeatedRequestDuplicatesPair(fs: seq<Entry<Friendship>>, i: nat, k: Key, a: UserId, b: UserId, now: int)
    requires i < |fs| && Links(fs[i].val, a, b)
    ensures !OneRecordPerPair(fs + [Entry(k, Friendship(a, b, Pending, now, now))])
  {
    var fs' := fs + [Entry(k, Friendship(a, b, Pending, now, now))];
    assert fs'[i] == fs[i];
    assert Links(fs'[|fs|].val, fs'[i].val.userId, fs'[i].val.friendId);
  }

  /** A user who connects on a second socket and then closes the first is no
      longer listed as online, although the second socket is still connected. */
  method StaleDisconnectEvicts() returns (listed: bool, connected: bool)
    ensures connected && !listed
  {
    var db := new Database([UserRecord("u", User("u", "ann", false, 0))]);
    var server := new ChatServer(db);
    var _ := server.Connect(1, "u", "ann", 10);
    var _ := server.Connect(2, "u", "ann", 20);
    var _ := server.Disconnect(1, 30);
    listed := "u" in server.onlineUsers;
    connected := 2 in server.connections && server.connections[2].userId == "u";
  }
}
