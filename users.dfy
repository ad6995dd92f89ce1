/** The user endpoints: searching users, and the friendship life cycle over
    the `friendships` collection (request, accept, list, remove). Only the
    target of a PENDING request may accept it, and a request is refused when
    any record already links the two users, so the REST path keeps one record
    per pair. */
module Users {
  import opened Store
  import opened Text
  import opened Lists

  // ------------------------------------------------------------- searchUsers

  /** `!query || query.trim().length < 2`, the length counted in UTF-16 code units. */
  predicate QueryTooShort(query: Option<string>) {
    Missing(query) || Utf16Length(Trim(query.value)) < 2
  }

  /** One code point above U+FFFF is two UTF-16 units, so it is long enough to search with. */
  lemma AstralQueryIsLongEnough()
    ensures !QueryTooShort(Some(['\U{1F600}']))
  {
    var q := ['\U{1F600}'];
    assert TrimStart(q) == q && TrimEnd(q) == q;
  }

  /** A user other than `me` whose id or name contains `q` once lower-cased. */
  function MatchesQuery(me: UserId, q: string): UserRecord -> bool {
    (u: UserRecord) => u.id != me && (Contains(Lower(u.user.userId), q) || Contains(Lower(u.user.username), q))
  }

  /** The `forEach` of `searchUsers`: the matching users, in store order. */
  method CollectMatches(users: seq<UserRecord>, me: UserId, q: string) returns (found: seq<UserRecord>)
    ensures found == Filter(users, MatchesQuery(me, q))
  {
    found := [];
    var i := 0;
    while i < |users|
      invariant 0 <= i <= |users|
      invariant found == Filter(users[..i], MatchesQuery(me, q))
    {
      assert users[..i + 1][..i] == users[..i];
      var u := users[i];
      if u.id != me && (Contains(Lower(u.user.userId), q) || Contains(Lower(u.user.username), q)) {
        found := found + [u];
      }
      i := i + 1;
    }
    assert users[..i] == users;
  }

  /** `searchUsers`: at most 20 other users whose id or name contains the
      lower-cased query; the query is trimmed only for the length check. */
  method SearchUsers(db: Database, me: UserId, query: Option<string>) returns (r: Response<seq<UserRecord>>)
    ensures QueryTooShort(query) ==> r == Fail(400, "Search query must be at least 2 characters")
    ensures !QueryTooShort(query) ==> r == Ok(200, Take(Filter(db.users, MatchesQuery(me, Lower(query.value))), 20))
    ensures r.Ok? ==> |r.body| <= 20
    ensures r.Ok? ==> forall i :: 0 <= i < |r.body| ==> r.body[i] in db.users && r.body[i].id != me
    ensures r.Ok? && |Filter(db.users, MatchesQuery(me, Lower(query.value)))| <= 20 ==>
      forall i :: 0 <= i < |db.users| && MatchesQuery(me, Lower(query.value))(db.users[i]) ==> db.users[i] in r.body
  {
    if QueryTooShort(query) {
      return Fail(400, "Search query must be at least 2 characters");
    }
    var found := CollectMatches(db.users, me, Lower(query.value));
    var page := Take(found, 20);
    forall i | 0 <= i < |page| ensures page[i] in db.users && page[i].id != me {
      assert page[i] == found[i];
    }
    r := Ok(200, page);
  }

  /** The match ignores ASCII case: someone else whose name is the query in any
      letter case is found. */
  lemma SearchIgnoresCase(users: seq<UserRecord>, me: UserId, query: string, i: nat)
    requires i < |users| && users[i].id != me && Lower(users[i].user.username) == Lower(query)
    ensures users[i] in Filter(users, MatchesQuery(me, Lower(query)))
  {
    assert OccursAt(Lower(users[i].user.username), Lower(query), 0);
  }

  // -------------------------------------------------------- friend requests

  /** Some record links `a` and `b`, in either direction and with any status. */
  predicate Linked(fs: seq<Entry<Friendship>>, a: UserId, b: UserId) {
    exists i :: 0 <= i < |fs| && Links(fs[i].val, a, b)
  }

  /** The `existingFriendship` scan. */
  method FindLink(db: Database, a: UserId, b: UserId) returns (existing: bool)
    ensures existing <==> Linked(db.friendships, a, b)
  {
    var fs := db.friendships;
    existing := false;
    var i := 0;
    while i < |fs|
      invariant 0 <= i <= |fs|
      invariant existing <==> exists j :: 0 <= j < i && Links(fs[j].val, a, b)
    {
      var f := fs[i].val;
      if f.Friendship? && ((f.userId == a && f.friendId == b) || (f.userId == b && f.friendId == a)) {
        existing := true;
      }
      i := i + 1;
    }
  }

  /** A request between two users no record links yet keeps one record per pair. */
  lemma RequestKeepsOneRecordPerPair(fs: seq<Entry<Friendship>>, k: Key, a: UserId, b: UserId, now: int)
    requires OneRecordPerPair(fs) && !Linked(fs, a, b)
    ensures OneRecordPerPair(fs + [Entry(k, Friendship(a, b, Pending, now, now))])
  {
    var fs' := fs + [Entry(k, Friendship(a, b, Pending, now, now))];
    forall i, j | 0 <= i < j < |fs'| && fs'[i].val.Friendship?
      ensures !Links(fs'[j].val, fs'[i].val.userId, fs'[i].val.friendId)
    {
      if j == |fs| {
        assert fs'[i] == fs[i];
        assert !Links(fs[i].val, a, b);
      } else {
        assert fs'[i] == fs[i] && fs'[j] == fs[j];
      }
    }
  }

  /** `sendFriendRequest`. */
  method SendFriendRequest(db: Database, me: UserId, friendId: Option<UserId>, now: int)
    returns (r: Response<Entry<Friendship>>)
    requires db.Valid()
    modifies db`friendships, db`nextKey
    ensures db.Valid()
    ensures Missing(friendId) ==>
      r == Fail(400, "Friend ID is required") && db.State() == old(db.State())
    ensures !Missing(friendId) && friendId.value == me ==>
      r == Fail(400, "Cannot add yourself as a friend") && db.State() == old(db.State())
    ensures !Missing(friendId) && friendId.value != me && !UserExists(db.users, friendId.value) ==>
      r == Fail(404, "User not found") && db.State() == old(db.State())
    ensures (!Missing(friendId) && friendId.value != me && UserExists(db.users, friendId.value)
      && Linked(old(db.friendships), me, friendId.value)) ==>
      r == Fail(400, "Friendship request already exists") && db.State() == old(db.State())
    ensures (!Missing(friendId) && friendId.value != me && UserExists(db.users, friendId.value)
      && !Linked(old(db.friendships), me, friendId.value)) ==>
      var req := Entry(old(db.nextKey), Friendship(me, friendId.value, Pending, now, now));
      && db.State() == old(db.State()).(friendships := old(db.friendships) + [req], nextKey := old(db.nextKey) + 1)
      && r == Ok(201, req)
    ensures OneRecordPerPair(old(db.friendships)) ==> OneRecordPerPair(db.friendships)
  {
    if Missing(friendId) {
      return Fail(400, "Friend ID is required");
    }
    var friend := friendId.value;
    if friend == me {
      return Fail(400, "Cannot add yourself as a friend");
    }
    if UserIndex(db.users, friend) == |db.users| {
      return Fail(404, "User not found");
    }
    var existing := FindLink(db, me, friend);
    if existing {
      return Fail(400, "Friendship request already exists");
    }
    if OneRecordPerPair(db.friendships) {
      RequestKeepsOneRecordPerPair(db.friendships, db.nextKey, me, friend, now);
    }
    var f := Friendship(me, friend, Pending, now, now);
    var k := db.PushFriendship(f);
    r := Ok(201, Entry(k, f));
  }

  /** Accepting changes the status and `updatedAt` of record `k` only; every
      record keeps its key and its two parties. */
  lemma AcceptKeepsParties(fs: seq<Entry<Friendship>>, k: Key, now: int)
    ensures |WithAccepted(fs, k, now)| == |fs|
    ensures forall i :: 0 <= i < |fs| ==>
      var f, g := fs[i], WithAccepted(fs, k, now)[i];
      && g.key == f.key
      && (f.key != k ==> g == f)
      && (f.key == k ==> g.val.status == Accepted && g.val.Friendship? == f.val.Friendship?)
      && (f.key == k && f.val.Friendship? ==>
            g.val.userId == f.val.userId && g.val.friendId == f.val.friendId && g.val.createdAt == f.val.createdAt)
  {
  }

  /** Accepting keeps one record per pair, since no record changes its parties. */
  lemma AcceptKeepsOneRecordPerPair(fs: seq<Entry<Friendship>>, k: Key, now: int)
    requires OneRecordPerPair(fs)
    ensures OneRecordPerPair(WithAccepted(fs, k, now))
  {
    var gs := WithAccepted(fs, k, now);
    AcceptKeepsParties(fs, k, now);
    forall i, j | 0 <= i < j < |gs| && gs[i].val.Friendship?
      ensures !Links(gs[j].val, gs[i].val.userId, gs[i].val.friendId)
    {
      assert fs[i].val.Friendship?;
      assert !Links(fs[j].val, fs[i].val.userId, fs[i].val.friendId);
    }
  }

  /** `acceptFriendRequest`: only the request's target may accept it. The reply
      spreads the record as it was read, with the new status. */
  method AcceptFriendRequest(db: Database, me: UserId, k: Key, now: int) returns (r: Response<Entry<Friendship>>)
    requires db.Valid()
    modifies db`friendships, db`nextKey
    ensures db.Valid()
    ensures !HasKey(old(db.friendships), k) ==>
      r == Fail(404, "Friend request not found") && db.State() == old(db.State())
    ensures HasKey(old(db.friendships), k) ==>
      var f := old(db.friendships)[KeyIndex(old(db.friendships), k)].val;
      && (!(f.Friendship? && f.friendId == me) ==>
            r == Fail(403, "Unauthorized to accept this request") && db.State() == old(db.State()))
      && (f.Friendship? && f.friendId == me ==>
            && db.State() == old(db.State()).(friendships := WithAccepted(old(db.friendships), k, now))
            && r == if UserExists(db.users, f.userId) then Ok(200, Entry(k, f.(status := Accepted)))
                    else Fail(500, "Server error accepting friend request"))
    ensures OneRecordPerPair(old(db.friendships)) ==> OneRecordPerPair(db.friendships)
  {
    var i := KeyIndex(db.friendships, k);
    if i == |db.friendships| {
      return Fail(404, "Friend request not found");
    }
    var f := db.friendships[i].val;
    if !(f.Friendship? && f.friendId == me) {
      return Fail(403, "Unauthorized to accept this request");
    }
    if OneRecordPerPair(db.friendships) {
      AcceptKeepsOneRecordPerPair(db.friendships, k, now);
    }
    db.AcceptFriendship(k, now);
    if UserIndex(db.users, f.userId) == |db.users| {
      return Fail(500, "Server error accepting friend request");
    }
    r := Ok(200, Entry(k, f.(status := Accepted)));
  }

  // ------------------------------------------------------ listing and removal

  /** A PENDING request addressed to `me`. */
  function IncomingPending(me: UserId): Entry<Friendship> -> bool {
    (e: Entry<Friendship>) => e.val.Friendship? && e.val.friendId == me && e.val.status == Pending
  }

  /** The descending sort key `b.createdAt - a.createdAt` (a record without
      parties never reaches the sort). */
  function NewestRequestFirst(e: Entry<Friendship>): int {
    match e.val
    case Friendship(_, _, _, createdAt, _) => -createdAt
    case StatusOnly(_, _) => 0
  }

  /** Some pending request to `me` comes from a user with no record, so its
      `user.userId` lookup throws. */
  predicate RequesterMissing(users: seq<UserRecord>, fs: seq<Entry<Friendship>>, me: UserId) {
    exists i :: 0 <= i < |fs| && IncomingPending(me)(fs[i]) && !UserExists(users, fs[i].val.userId)
  }

  /** One step of the `getFriendRequests` scan past a record whose requester
      lookup does not fail. */
  lemma RequestStep(users: seq<UserRecord>, fs: seq<Entry<Friendship>>, i: nat, me: UserId)
    requires i < |fs| && !RequesterMissing(users, fs[..i], me)
    requires !(IncomingPending(me)(fs[i]) && !UserExists(users, fs[i].val.userId))
    ensures !RequesterMissing(users, fs[..i + 1], me)
    ensures Filter(fs[..i + 1], IncomingPending(me))
      == Filter(fs[..i], IncomingPending(me)) + (if IncomingPending(me)(fs[i]) then [fs[i]] else [])
  {
    var pre := fs[..i + 1];
    assert pre[..i] == fs[..i];
    forall j | 0 <= j < i + 1 ensures !(IncomingPending(me)(pre[j]) && !UserExists(users, pre[j].val.userId)) {
      if j < i {
        assert pre[j] == fs[..i][j];
      }
    }
  }

  /** The `forEach` of `getFriendRequests`: the pending requests to `me` in
      store order, or `false` once a requester's lookup fails. */
  method CollectRequests(db: Database, me: UserId) returns (ok: bool, requests: seq<Entry<Friendship>>)
    ensures ok <==> !RequesterMissing(db.users, db.friendships, me)
    ensures ok ==> requests == Filter(db.friendships, IncomingPending(me))
  {
    var fs := db.friendships;
    requests := [];
    var i := 0;
    while i < |fs|
      invariant 0 <= i <= |fs|
      invariant requests == Filter(fs[..i], IncomingPending(me))
      invariant !RequesterMissing(db.users, fs[..i], me)
    {
      var incoming := IncomingPending(me)(fs[i]);
      if incoming && UserIndex(db.users, fs[i].val.userId) == |db.users| {
        assert IncomingPending(me)(fs[i]) && !UserExists(db.users, fs[i].val.userId);
        return false, [];
      }
      RequestStep(db.users, fs, i, me);
      if incoming {
        requests := requests + [fs[i]];
      }
      i := i + 1;
    }
    assert fs[..i] == fs;
    ok := true;
  }

  /** The newest-first order keeps exactly the pending requests to `me`. */
  lemma SortedRequests(fs: seq<Entry<Friendship>>, me: UserId)
    ensures var r := SortBy(Filter(fs, IncomingPending(me)), NewestRequestFirst);
      && (forall i :: 0 <= i < |r| ==> r[i] in fs && IncomingPending(me)(r[i]))
      && (forall i :: 0 <= i < |fs| && IncomingPending(me)(fs[i]) ==> fs[i] in r)
      && (forall i, j :: 0 <= i < j < |r| ==> r[i].val.createdAt >= r[j].val.createdAt)
  {
    var requests := Filter(fs, IncomingPending(me));
    var sorted := SortBy(requests, NewestRequestFirst);
    forall j | 0 <= j < |sorted| ensures sorted[j] in fs && IncomingPending(me)(sorted[j]) {
      assert sorted[j] in multiset(requests);
    }
    forall j | 0 <= j < |fs| && IncomingPending(me)(fs[j]) ensures fs[j] in sorted {
      assert fs[j] in multiset(requests);
    }
    forall i, j | 0 <= i < j < |sorted| ensures sorted[i].val.createdAt >= sorted[j].val.createdAt {
      assert NewestRequestFirst(sorted[i]) <= NewestRequestFirst(sorted[j]);
    }
  }

  /** `getFriendRequests`: the pending requests addressed to `me`, newest first. */
  method GetFriendRequests(db: Database, me: UserId) returns (r: Response<seq<Entry<Friendship>>>)
    ensures RequesterMissing(db.users, db.friendships, me) ==> r == Fail(500, "Server error fetching friend requests")
    ensures !RequesterMissing(db.users, db.friendships, me) ==>
      r == Ok(200, SortBy(Filter(db.friendships, IncomingPending(me)), NewestRequestFirst))
    ensures r.Ok? ==> forall i :: 0 <= i < |r.body| ==> r.body[i] in db.friendships && IncomingPending(me)(r.body[i])
    ensures r.Ok? ==> forall i :: 0 <= i < |db.friendships| && IncomingPending(me)(db.friendships[i]) ==>
      db.friendships[i] in r.body
    ensures r.Ok? ==> forall i, j :: 0 <= i < j < |r.body| ==> r.body[i].val.createdAt >= r.body[j].val.createdAt
  {
    var ok, requests := CollectRequests(db, me);
    if !ok {
      return Fail(500, "Server error fetching friend requests");
    }
    SortedRequests(db.friendships, me);
    r := Ok(200, SortBy(requests, NewestRequestFirst));
  }

  /** The friends listed for `me`: for each ACCEPTED record involving `me`, in
      store order, the other party's user record when there is one. */
  function FriendsOf(users: seq<UserRecord>, fs: seq<Entry<Friendship>>, me: UserId): (r: seq<UserRecord>)
    ensures forall i :: 0 <= i < |r| ==> r[i] in users && exists j :: 0 <= j < |fs| && IsFriendVia(fs[j].val, me, r[i].id)
  {
    if fs == [] then []
    else
      var prev := FriendsOf(users, fs[..|fs| - 1], me);
      var f := fs[|fs| - 1].val;
      assert forall j :: 0 <= j < |fs| - 1 ==> fs[..|fs| - 1][j] == fs[j];
      if f.Friendship? && f.status == Accepted && (f.userId == me || f.friendId == me) then
        var other := if f.userId == me then f.friendId else f.userId;
        var k := UserIndex(users, other);
        if k < |users| then
          assert IsFriendVia(fs[|fs| - 1].val, me, users[k].id);
          prev + [users[k]]
        else prev
      else prev
  }

  /** Record `f` is an ACCEPTED friendship of `me` with `other`, as `getFriends`
      reads it: the other party is `friendId` when `me` is `userId`. */
  predicate IsFriendVia(f: Friendship, me: UserId, other: UserId) {
    f.Friendship? && f.status == Accepted
    && ((f.userId == me && f.friendId == other) || (f.userId != me && f.friendId == me && f.userId == other))
  }

  /** Every accepted friend of `me` who has a user record is listed. */
  lemma {:induction false} FriendsOfComplete(users: seq<UserRecord>, fs: seq<Entry<Friendship>>, me: UserId, j: nat, other: UserId)
    requires j < |fs| && IsFriendVia(fs[j].val, me, other) && UserExists(users, other)
    ensures exists i :: 0 <= i < |FriendsOf(users, fs, me)| && FriendsOf(users, fs, me)[i].id == other
  {
    var n := |fs| - 1;
    if j < n {
      var prev := FriendsOf(users, fs[..n], me);
      assert fs[..n][j] == fs[j];
      FriendsOfComplete(users, fs[..n], me, j, other);
      var i :| 0 <= i < |prev| && prev[i].id == other;
      FriendsOfGrows(users, fs, me);
      assert FriendsOf(users, fs, me)[i] == prev[i];
    } else {
      FriendsOfLast(users, fs, me, other);
    }
  }

  /** An accepted friendship in the last record lists its other party last. */
  lemma FriendsOfLast(users: seq<UserRecord>, fs: seq<Entry<Friendship>>, me: UserId, other: UserId)
    requires fs != [] && IsFriendVia(fs[|fs| - 1].val, me, other) && UserExists(users, other)
    ensures exists i :: 0 <= i < |FriendsOf(users, fs, me)| && FriendsOf(users, fs, me)[i].id == other
  {
    var prev := FriendsOf(users, fs[..|fs| - 1], me);
    var k := UserIndex(users, other);
    assert FriendsOf(users, fs, me) == prev + [users[k]];
    assert FriendsOf(users, fs, me)[|prev|].id == other;
  }

  /** Looking at one more record only ever appends to the list. */
  lemma FriendsOfGrows(users: seq<UserRecord>, fs: seq<Entry<Friendship>>, me: UserId)
    requires fs != []
    ensures FriendsOf(users, fs[..|fs| - 1], me) <= FriendsOf(users, fs, me)
  {
    var prev := FriendsOf(users, fs[..|fs| - 1], me);
    var f := fs[|fs| - 1].val;
    if f.Friendship? && f.status == Accepted && (f.userId == me || f.friendId == me) {
      var k := UserIndex(users, if f.userId == me then f.friendId else f.userId);
      if k < |users| {
        assert FriendsOf(users, fs, me) == prev + [users[k]];
      }
    }
  }

  /** `getFriends`: parties without a user record are skipped, not an error. */
  method GetFriends(db: Database, me: UserId) returns (r: Response<seq<UserRecord>>)
    ensures r == Ok(200, FriendsOf(db.users, db.friendships, me))
  {
    var fs := db.friendships;
    var friends := [];
    var i := 0;
    while i < |fs|
      invariant 0 <= i <= |fs|
      invariant friends == FriendsOf(db.users, fs[..i], me)
    {
      assert fs[..i + 1][..i] == fs[..i];
      var f := fs[i].val;
      if f.Friendship? && f.status == Accepted && (f.userId == me || f.friendId == me) {
        var other := if f.userId == me then f.friendId else f.userId;
        var k := UserIndex(db.users, other);
        if k < |db.users| {
          friends := friends + [db.users[k]];
        }
      }
      i := i + 1;
    }
    assert fs[..i] == fs;
    r := Ok(200, friends);
  }

  /** The index of the last record linking `a` and `b`: the key the
      `friendshipIdToRemove` scan ends with. */
  function LastLink(fs: seq<Entry<Friendship>>, a: UserId, b: UserId): (r: Option<nat>)
    ensures r.None? <==> !Linked(fs, a, b)
    ensures r.Some? ==> r.value < |fs| && Links(fs[r.value].val, a, b)
    ensures r.Some? ==> forall j :: r.value < j < |fs| ==> !Links(fs[j].val, a, b)
  {
    if fs == [] then None
    else if Links(fs[|fs| - 1].val, a, b) then Some(|fs| - 1)
    else
      assert forall j :: 0 <= j < |fs| - 1 ==> fs[j] == fs[..|fs| - 1][j];
      LastLink(fs[..|fs| - 1], a, b)
  }

  /** Deleting the record of a pair, when each pair has one record, leaves no
      record for that pair and every other pair's link as it was. */
  lemma RemoveEndsFriendship(fs: seq<Entry<Friendship>>, i: nat, a: UserId, b: UserId)
    requires OneRecordPerPair(fs) && i < |fs| && Links(fs[i].val, a, b)
    ensures !Linked(fs[..i] + fs[i + 1..], a, b)
    ensures OneRecordPerPair(fs[..i] + fs[i + 1..])
  {
    var rest := fs[..i] + fs[i + 1..];
    assert forall j :: 0 <= j < |rest| ==> rest[j] == if j < i then fs[j] else fs[j + 1];
    forall j | 0 <= j < |rest| ensures !Links(rest[j].val, a, b) {
      if j < i {
        if fs[j].val.Friendship? {
          assert !Links(fs[i].val, fs[j].val.userId, fs[j].val.friendId);
        }
      } else {
        assert !Links(fs[j + 1].val, fs[i].val.userId, fs[i].val.friendId);
      }
    }
  }

  /** The `friendshipIdToRemove` scan. */
  method FindLastLink(db: Database, a: UserId, b: UserId) returns (found: Option<nat>)
    ensures found == LastLink(db.friendships, a, b)
  {
    var fs := db.friendships;
    found := None;
    var i := 0;
    while i < |fs|
      invariant 0 <= i <= |fs|
      invariant found == LastLink(fs[..i], a, b)
    {
      assert fs[..i + 1][..i] == fs[..i];
      var f := fs[i].val;
      if f.Friendship? && ((f.userId == a && f.friendId == b) || (f.userId == b && f.friendId == a)) {
        found := Some(i);
      }
      i := i + 1;
    }
    assert fs[..i] == fs;
  }

  /** `removeFriend`: deletes the last record linking the two users, whatever its status. */
  method RemoveFriend(db: Database, me: UserId, friendId: UserId) returns (r: Response<string>)
    requires db.Valid()
    modifies db`friendships
    ensures db.Valid()
    ensures !Linked(old(db.friendships), me, friendId) ==>
      r == Fail(404, "Friendship not found") && db.State() == old(db.State())
    ensures Linked(old(db.friendships), me, friendId) ==>
      var i := LastLink(old(db.friendships), me, friendId).value;
      && db.State() == old(db.State()).(friendships := old(db.friendships)[..i] + old(db.friendships)[i + 1..])
      && r == Ok(200, "Friend removed successfully")
    ensures OneRecordPerPair(old(db.friendships)) ==>
      !Linked(db.friendships, me, friendId) && OneRecordPerPair(db.friendships)
  {
    var fs := db.friendships;
    var found := FindLastLink(db, me, friendId);
    if found.None? {
      return Fail(404, "Friendship not found");
    }
    if OneRecordPerPair(fs) {
      RemoveEndsFriendship(fs, found.value, me, friendId);
    }
    db.RemoveFriendshipAt(found.value);
    r := Ok(200, "Friend removed successfully");
  }
}
