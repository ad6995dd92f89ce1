/** Scans and writes that the socket handlers and the REST controllers share:
    the membership gate over `groupMembers`, posting to a group, and the
    read-receipt update over `messages`. */
module Queries {
  import opened Store

  /** The `isMember` scan: a `forEach` over the group's rows that raises a flag
      when a row names the requester. */
  method IsMember(db: Database, g: Key, u: UserId) returns (isMember: bool)
    ensures isMember <==> IsMemberRow(db.groupMembers, g, u)
  {
    var rows := db.groupMembers;
    isMember := false;
    var i := 0;
    while i < |rows|
      invariant 0 <= i <= |rows|
      invariant isMember <==> exists j :: 0 <= j < i && RowFor(rows[j].val, g, u)
    {
      if RowFor(rows[i].val, g, u) {
        isMember := true;
      }
      i := i + 1;
    }
  }

  /** A message from `s` to `r` that `r` has not read yet. */
  predicate UnreadFrom(m: Message, s: UserId, r: UserId) {
    m.senderId == s && m.to == Direct(r) && !m.isRead
  }

  /** The keys the `updates` dictionary collects. */
  function UnreadKeys(ms: seq<Entry<Message>>, s: UserId, r: UserId): set<Key> {
    set i | 0 <= i < |ms| && UnreadFrom(ms[i].val, s, r) :: ms[i].key
  }

  /** The reference meaning of "mark as read": every unread message from `s` to
      `r` now has `isRead` set; every other message is as it was. */
  function ReadAllFrom(ms: seq<Entry<Message>>, s: UserId, r: UserId): (res: seq<Entry<Message>>)
    ensures |res| == |ms|
    ensures forall i :: 0 <= i < |ms| ==> res[i].key == ms[i].key
    ensures forall i :: 0 <= i < |ms| && !UnreadFrom(ms[i].val, s, r) ==> res[i] == ms[i]
    ensures forall i :: 0 <= i < |ms| && UnreadFrom(ms[i].val, s, r) ==>
      res[i].val == ms[i].val.(isRead := true)
  {
    seq(|ms|, i requires 0 <= i < |ms| =>
      if UnreadFrom(ms[i].val, s, r) then Entry(ms[i].key, ms[i].val.(isRead := true)) else ms[i])
  }

  /** Writing `isRead` under the collected keys is the reference update, because
      keys are distinct: no other message shares a key with a selected one. */
  lemma WithReadIsReadAll(ms: seq<Entry<Message>>, s: UserId, r: UserId)
    requires DistinctKeys(ms)
    ensures WithRead(ms, UnreadKeys(ms, s, r)) == ReadAllFrom(ms, s, r)
  {
    var keys := UnreadKeys(ms, s, r);
    var a := WithRead(ms, keys);
    var b := ReadAllFrom(ms, s, r);
    forall i | 0 <= i < |ms| ensures a[i] == b[i] {
      if ms[i].key in keys {
        var j :| 0 <= j < |ms| && UnreadFrom(ms[j].val, s, r) && ms[j].key == ms[i].key;
        assert i == j;
      }
    }
  }

  /** The number of unread messages from `s` to `r`. */
  function CountUnread(ms: seq<Entry<Message>>, s: UserId, r: UserId): nat {
    if ms == [] then 0
    else CountUnread(ms[..|ms| - 1], s, r) + if UnreadFrom(ms[|ms| - 1].val, s, r) then 1 else 0
  }

  /** None is left unread once they are marked read. */
  lemma {:induction false} ReadAllLeavesNoneUnread(ms: seq<Entry<Message>>, s: UserId, r: UserId)
    ensures CountUnread(ReadAllFrom(ms, s, r), s, r) == 0
  {
    if ms != [] {
      var n := |ms| - 1;
      assert ReadAllFrom(ms, s, r)[..n] == ReadAllFrom(ms[..n], s, r);
      ReadAllLeavesNoneUnread(ms[..n], s, r);
    }
  }

  /** Marking read twice is marking read once, and the second pass selects no key,
      so its batched write is skipped. */
  lemma ReadAllIdempotent(ms: seq<Entry<Message>>, s: UserId, r: UserId)
    ensures ReadAllFrom(ReadAllFrom(ms, s, r), s, r) == ReadAllFrom(ms, s, r)
    ensures UnreadKeys(ReadAllFrom(ms, s, r), s, r) == {}
  {
  }

  /** The `updates` loop: the keys of the unread messages from `s` to `r`. */
  method CollectUnread(db: Database, s: UserId, r: UserId) returns (keys: set<Key>)
    ensures keys == UnreadKeys(db.messages, s, r)
  {
    var ms := db.messages;
    keys := {};
    var i := 0;
    while i < |ms|
      invariant 0 <= i <= |ms|
      invariant keys == set j | 0 <= j < i && UnreadFrom(ms[j].val, s, r) :: ms[j].key
    {
      if UnreadFrom(ms[i].val, s, r) {
        keys := keys + {ms[i].key};
      }
      i := i + 1;
    }
  }

  /** Stores a message to group `g` and then sets the group's `updatedAt`, as
      both send paths do once the sender's membership is established. */
  method PostToGroup(db: Database, g: Key, m: Message, now: int) returns (k: Key)
    requires db.Valid() && IsMemberRow(db.groupMembers, g, m.senderId)
    modifies db`messages, db`groups, db`nextKey
    ensures db.Valid()
    ensures k == old(db.nextKey)
    ensures db.users == old(db.users) && db.groupMembers == old(db.groupMembers)
    ensures db.State() == old(db.State()).(
      messages := old(db.messages) + [Entry(k, m)],
      groups := Touched(old(db.groups), g, now),
      nextKey := k + 1)
  {
    var i :| 0 <= i < |db.groupMembers| && RowFor(db.groupMembers[i].val, g, m.senderId);
    assert HasKey(db.groups, g);
    k := db.PushMessage(m);
    db.TouchGroup(g, now);
  }

  /** Marks every unread message from `s` to `r` as read with one batched write,
      skipped when there is nothing to mark. */
  method MarkRead(db: Database, s: UserId, r: UserId) returns (batched: bool)
    requires db.Valid()
    modifies db`messages
    ensures db.Valid()
    ensures db.messages == ReadAllFrom(old(db.messages), s, r)
    ensures batched <==> exists i :: 0 <= i < |old(db.messages)| && UnreadFrom(old(db.messages)[i].val, s, r)
  {
    var keys := CollectUnread(db, s, r);
    assert forall i :: 0 <= i < |db.messages| && UnreadFrom(db.messages[i].val, s, r) ==>
      db.messages[i].key in keys;
    batched := keys != {};
    if batched {
      WithReadIsReadAll(db.messages, s, r);
      db.SetRead(keys);
    } else {
      assert db.messages == ReadAllFrom(db.messages, s, r);
    }
  }
}
