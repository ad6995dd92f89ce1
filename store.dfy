/** The Firebase Realtime Database as the backend uses it: five collections of
    records under generated keys. `push()` allocates a fresh key, `once('value')`
    reads a collection in child order, `update`/`set` rewrite one record and
    `remove` deletes one. */
module Store {

  type UserId = string

  /** A key allocated by `push()`. */
  type Key = nat

  datatype Option<T> = None | Some(value: T)

  /** One child of a pushed collection: its key and its record. */
  datatype Entry<T> = Entry(key: Key, val: T)

  datatype User = User(userId: string, username: string, isOnline: bool, lastSeen: int)

  /** A child of `users`: the user's id (the path key) and the record. */
  datatype UserRecord = UserRecord(id: UserId, user: User)

  /** A message goes either to one user or to one group, never both. */
  datatype Recipient = Direct(receiverId: UserId) | InGroup(groupId: Key)

  datatype Message = Message(
    senderId: UserId, to: Recipient, content: string,
    isRead: bool, createdAt: int, updatedAt: int)

  /** The ascending sort key on messages `a.createdAt - b.createdAt`. */
  function OldestFirst(e: Entry<Message>): int {
    e.val.createdAt
  }

  /** The descending sort key on messages `b.createdAt - a.createdAt`. */
  function NewestFirst(e: Entry<Message>): int {
    -e.val.createdAt
  }

  datatype Group = Group(
    name: string, description: Option<string>, creatorId: UserId,
    createdAt: int, updatedAt: int)

  datatype Role = Admin | Member

  datatype Membership = Membership(groupId: Key, userId: UserId, role: Role, joinedAt: int)

  datatype FriendStatus = Pending | Accepted

  /** A friendship record. `StatusOnly` is what an `update` of a key that holds no
      record leaves behind: only the fields written, no `userId` or `friendId`. */
  datatype Friendship =
    | Friendship(userId: UserId, friendId: UserId, status: FriendStatus, createdAt: int, updatedAt: int)
    | StatusOnly(status: FriendStatus, updatedAt: int)

  /** An HTTP reply: a status with a body, or a status with an error text. */
  datatype Response<T> = Ok(status: int, body: T) | Fail(status: int, error: string)

  /** A request field the source tests with `!x`: absent, or the empty string. */
  predicate Missing(x: Option<string>) {
    x.None? || x.value == ""
  }

  // ---------------------------------------------------------------- lookups

  /** Index of the first child with key `k`, or `|s|` when there is none. */
  function KeyIndex<T>(s: seq<Entry<T>>, k: Key): (r: nat)
    ensures r <= |s|
    ensures r < |s| ==> s[r].key == k
    ensures forall i :: 0 <= i < r ==> s[i].key != k
  {
    if s == [] then 0
    else if s[0].key == k then 0
    else 1 + KeyIndex(s[1..], k)
  }

  predicate HasKey<T>(s: seq<Entry<T>>, k: Key) {
    exists i :: 0 <= i < |s| && s[i].key == k
  }

  /** Index of the user `id` in `users`, or `|users|` when there is none. */
  function UserIndex(users: seq<UserRecord>, id: UserId): (r: nat)
    ensures r <= |users|
    ensures r < |users| ==> users[r].id == id
    ensures forall i :: 0 <= i < r ==> users[i].id != id
    ensures r < |users| <==> UserExists(users, id)
  {
    if users == [] then 0
    else if users[0].id == id then 0
    else 1 + UserIndex(users[1..], id)
  }

  /** `users/<id>` holds a record. */
  predicate UserExists(users: seq<UserRecord>, id: UserId) {
    exists i :: 0 <= i < |users| && users[i].id == id
  }

  /** The row says that `u` belongs to group `g`. */
  predicate RowFor(m: Membership, g: Key, u: UserId) {
    m.groupId == g && m.userId == u
  }

  /** Some row of `rows` says that `u` belongs to group `g`. */
  predicate IsMemberRow(rows: seq<Entry<Membership>>, g: Key, u: UserId) {
    exists i :: 0 <= i < |rows| && RowFor(rows[i].val, g, u)
  }

  /** The record links `a` and `b`, in either direction. */
  predicate Links(f: Friendship, a: UserId, b: UserId) {
    f.Friendship? && ((f.userId == a && f.friendId == b) || (f.userId == b && f.friendId == a))
  }

  // ------------------------------------------------------------- invariants

  ghost predicate DistinctKeys<T>(s: seq<Entry<T>>) {
    forall i, j :: 0 <= i < j < |s| ==> s[i].key != s[j].key
  }

  ghost predicate Keyed<T>(s: seq<Entry<T>>, next: Key) {
    && (forall i :: 0 <= i < |s| ==> s[i].key < next)
    && DistinctKeys(s)
  }

  ghost predicate UserIdsDistinct(users: seq<UserRecord>) {
    forall i, j :: 0 <= i < j < |users| ==> users[i].id != users[j].id
  }

  /** Every membership row names a group that exists. */
  ghost predicate RowsNameGroups(rows: seq<Entry<Membership>>, groups: seq<Entry<Group>>) {
    forall i :: 0 <= i < |rows| ==> HasKey(groups, rows[i].val.groupId)
  }

  /** No user holds two rows in one group. */
  ghost predicate NoDuplicateMembership(rows: seq<Entry<Membership>>) {
    forall i, j :: 0 <= i < j < |rows| ==> !RowFor(rows[j].val, rows[i].val.groupId, rows[i].val.userId)
  }

  /** No two records link the same unordered pair of users. */
  ghost predicate OneRecordPerPair(fs: seq<Entry<Friendship>>) {
    forall i, j :: 0 <= i < j < |fs| && fs[i].val.Friendship? ==>
      !Links(fs[j].val, fs[i].val.userId, fs[i].val.friendId)
  }

  // ------------------------------------------------------- record rewrites

  /** `update(users/<id>, {isOnline, lastSeen})`. */
  function WithPresence(users: seq<UserRecord>, id: UserId, online: bool, now: int): seq<UserRecord> {
    seq(|users|, i requires 0 <= i < |users| =>
      if users[i].id == id then UserRecord(id, users[i].user.(isOnline := online, lastSeen := now))
      else users[i])
  }

  /** A multi-path `update` setting `messages/<k>/isRead` to true for each `k` in `keys`. */
  function WithRead(ms: seq<Entry<Message>>, keys: set<Key>): seq<Entry<Message>> {
    seq(|ms|, i requires 0 <= i < |ms| =>
      if ms[i].key in keys then Entry(ms[i].key, ms[i].val.(isRead := true)) else ms[i])
  }

  /** `update(groups/<g>, {updatedAt})` on an existing group. */
  function Touched(groups: seq<Entry<Group>>, g: Key, now: int): seq<Entry<Group>> {
    seq(|groups|, i requires 0 <= i < |groups| =>
      if groups[i].key == g then Entry(g, groups[i].val.(updatedAt := now)) else groups[i])
  }

  /** The record after `update({status: 'ACCEPTED', updatedAt})`. */
  function AcceptedRecord(f: Friendship, now: int): Friendship {
    match f
    case Friendship(u, v, _, c, _) => Friendship(u, v, Accepted, c, now)
    case StatusOnly(_, _) => StatusOnly(Accepted, now)
  }

  function WithAccepted(fs: seq<Entry<Friendship>>, k: Key, now: int): seq<Entry<Friendship>> {
    seq(|fs|, i requires 0 <= i < |fs| =>
      if fs[i].key == k then Entry(k, AcceptedRecord(fs[i].val, now)) else fs[i])
  }

  /** The five collections and the key counter, as one value. */
  datatype Tables = Tables(
    users: seq<UserRecord>, messages: seq<Entry<Message>>, groups: seq<Entry<Group>>,
    groupMembers: seq<Entry<Membership>>, friendships: seq<Entry<Friendship>>, nextKey: Key)

  class Database {
    var users: seq<UserRecord>
    var messages: seq<Entry<Message>>
    var groups: seq<Entry<Group>>
    var groupMembers: seq<Entry<Membership>>
    var friendships: seq<Entry<Friendship>>
    /** Every key `push()` has handed out, and every key in use, is below this. */
    var nextKey: Key

    ghost predicate Valid()
      reads this
    {
      && UserIdsDistinct(users)
      && Keyed(messages, nextKey)
      && Keyed(groups, nextKey)
      && Keyed(groupMembers, nextKey)
      && Keyed(friendships, nextKey)
      && RowsNameGroups(groupMembers, groups)
      && NoDuplicateMembership(groupMembers)
    }

    ghost function State(): Tables
      reads this
    {
      Tables(users, messages, groups, groupMembers, friendships, nextKey)
    }

    /** A store holding the registered users and nothing else. */
    constructor (registered: seq<UserRecord>)
      requires UserIdsDistinct(registered)
      ensures Valid()
      ensures users == registered && messages == [] && groups == []
      ensures groupMembers == [] && friendships == []
    {
      users := registered;
      messages, groups, groupMembers, friendships := [], [], [], [];
      nextKey := 0;
    }

    method SetPresence(id: UserId, online: bool, now: int)
      requires Valid()
      modifies this`users
      ensures Valid()
      ensures users == WithPresence(old(users), id, online, now)
    {
      users := WithPresence(users, id, online, now);
    }

    method PushMessage(m: Message) returns (k: Key)
      requires Valid()
      modifies this`messages, this`nextKey
      ensures Valid()
      ensures k == old(nextKey) && nextKey == k + 1
      ensures messages == old(messages) + [Entry(k, m)]
    {
      k := nextKey;
      messages := messages + [Entry(k, m)];
      nextKey := nextKey + 1;
    }

    method PushGroup(g: Group) returns (k: Key)
      requires Valid()
      modifies this`groups, this`nextKey
      ensures Valid()
      ensures k == old(nextKey) && nextKey == k + 1
      ensures groups == old(groups) + [Entry(k, g)] && HasKey(groups, k)
    {
      k := nextKey;
      groups := groups + [Entry(k, g)];
      nextKey := nextKey + 1;
      assert groups[|groups| - 1].key == k;
      assert KeyIndex(groups, k) < |groups| by {
        var j := KeyIndex(groups, k);
        assert groups[|groups| - 1].key == k;
      }
      forall i | 0 <= i < |groupMembers|
        ensures HasKey(groups, groupMembers[i].val.groupId)
      {
        var g := groupMembers[i].val.groupId;
        assert HasKey(old(groups), g);
        var j := KeyIndex(old(groups), g);
        assert groups[j].key == g;
      }
    }

    /** Pushes a membership row; the caller has checked that the group exists
        and that the user holds no row in it yet. */
    method PushMembership(m: Membership) returns (k: Key)
      requires Valid()
      requires HasKey(groups, m.groupId) && !IsMemberRow(groupMembers, m.groupId, m.userId)
      modifies this`groupMembers, this`nextKey
      ensures Valid()
      ensures k == old(nextKey) && nextKey == k + 1
      ensures groupMembers == old(groupMembers) + [Entry(k, m)]
    {
      k := nextKey;
      groupMembers := groupMembers + [Entry(k, m)];
      nextKey := nextKey + 1;
    }

    method PushFriendship(f: Friendship) returns (k: Key)
      requires Valid()
      modifies this`friendships, this`nextKey
      ensures Valid()
      ensures k == old(nextKey) && nextKey == k + 1
      ensures friendships == old(friendships) + [Entry(k, f)]
    {
      k := nextKey;
      friendships := friendships + [Entry(k, f)];
      nextKey := nextKey + 1;
    }

    /** One batched `update` setting `isRead` on the messages whose keys are in `keys`. */
    method SetRead(keys: set<Key>)
      requires Valid()
      modifies this`messages
      ensures Valid()
      ensures messages == WithRead(old(messages), keys)
    {
      messages := WithRead(messages, keys);
    }

    method TouchGroup(g: Key, now: int)
      requires Valid() && HasKey(groups, g)
      modifies this`groups
      ensures Valid()
      ensures groups == Touched(old(groups), g, now)
    {
      groups := Touched(groups, g, now);
      forall i | 0 <= i < |groupMembers|
        ensures HasKey(groups, groupMembers[i].val.groupId)
      {
        var h := groupMembers[i].val.groupId;
        var j := KeyIndex(old(groups), h);
        assert groups[j].key == h;
      }
    }

    /** `update(friendships/<k>, {status: 'ACCEPTED', updatedAt})`. On a key that
        holds no record, the update creates one holding just those two fields. */
    method AcceptFriendship(k: Key, now: int)
      requires Valid()
      modifies this`friendships, this`nextKey
      ensures Valid()
      ensures HasKey(old(friendships), k) ==>
        friendships == WithAccepted(old(friendships), k, now) && nextKey == old(nextKey)
      ensures !HasKey(old(friendships), k) ==>
        friendships == old(friendships) + [Entry(k, StatusOnly(Accepted, now))]
        && nextKey == if k < old(nextKey) then old(nextKey) else k + 1
    {
      if HasKey(friendships, k) {
        friendships := WithAccepted(friendships, k, now);
      } else {
        forall i | 0 <= i < |friendships| ensures friendships[i].key != k {
          assert KeyIndex(friendships, k) == |friendships|;
        }
        friendships := friendships + [Entry(k, StatusOnly(Accepted, now))];
        if nextKey <= k {
          nextKey := k + 1;
        }
      }
    }

    /** `remove()` on the message at index `i`. */
    method RemoveMessageAt(i: nat)
      requires Valid() && i < |messages|
      modifies this`messages
      ensures Valid()
      ensures messages == old(messages)[..i] + old(messages)[i + 1..]
    {
      messages := messages[..i] + messages[i + 1..];
    }

    /** `remove()` on the membership row at index `i`. */
    method RemoveMembershipAt(i: nat)
      requires Valid() && i < |groupMembers|
      modifies this`groupMembers
      ensures Valid()
      ensures groupMembers == old(groupMembers)[..i] + old(groupMembers)[i + 1..]
    {
      groupMembers := groupMembers[..i] + groupMembers[i + 1..];
    }

    /** `remove()` on the friendship at index `i`. */
    method RemoveFriendshipAt(i: nat)
      requires Valid() && i < |friendships|
      modifies this`friendships
      ensures Valid()
      ensures friendships == old(friendships)[..i] + old(friendships)[i + 1..]
    {
      friendships := friendships[..i] + friendships[i + 1..];
    }
  }
}
