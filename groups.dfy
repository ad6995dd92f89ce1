/** The group endpoints: creating a group, listing a user's groups, reading a
    group and its messages, posting to it, and adding, removing and leaving
    members. Authorisation rests on the membership rows: a row with role ADMIN
    allows adding and removing others, and any row admits a user to the group's
    content. */
module Groups {
  import opened Store
  import opened Text
  import opened Lists
  import Queries

  /** A group with its membership rows (the profile sub-objects are not modelled). */
  datatype GroupView = GroupView(group: Entry<Group>, members: seq<Entry<Membership>>)

  /** One entry of the `getUserGroups` reply. */
  datatype GroupSummary = GroupSummary(view: GroupView, lastMessage: Option<Entry<Message>>, unreadCount: nat)

  // ------------------------------------------------------------ selections

  /** The `equalTo(groupId)` filter on `groupMembers`. */
  function RowOfGroup(g: Key): Entry<Membership> -> bool {
    (e: Entry<Membership>) => e.val.groupId == g
  }

  /** The `equalTo(groupId)` filter on `messages`. */
  function SentToGroup(g: Key): Entry<Message> -> bool {
    (e: Entry<Message>) => e.val.to == InGroup(g)
  }

  /** A message counted as unread for `me` in a group: sent by someone else and not read. */
  function UnreadByOthers(me: UserId): Entry<Message> -> bool {
    (e: Entry<Message>) => e.val.senderId != me && !e.val.isRead
  }

  /** The descending sort key `b.updatedAt - a.updatedAt` on groups. */
  function RecentlyUpdatedFirst(s: GroupSummary): int {
    -s.view.group.val.updatedAt
  }

  /** Some row makes `u` an ADMIN of `g`. */
  predicate IsAdminRow(rows: seq<Entry<Membership>>, g: Key, u: UserId) {
    exists i :: 0 <= i < |rows| && RowFor(rows[i].val, g, u) && rows[i].val.role == Admin
  }

  /** The index of the last row for `(g, u)`: the one a `forEach` that keeps
      overwriting `membershipIdToRemove` ends with. */
  function LastRowFor(rows: seq<Entry<Membership>>, g: Key, u: UserId): (r: Option<nat>)
    ensures r.None? <==> !IsMemberRow(rows, g, u)
    ensures r.Some? ==> r.value < |rows| && RowFor(rows[r.value].val, g, u)
    ensures r.Some? ==> forall j :: r.value < j < |rows| ==> !RowFor(rows[j].val, g, u)
  {
    if rows == [] then None
    else if RowFor(rows[|rows| - 1].val, g, u) then Some(|rows| - 1)
    else
      var r := LastRowFor(rows[..|rows| - 1], g, u);
      assert forall j :: 0 <= j < |rows| - 1 ==> rows[j] == rows[..|rows| - 1][j];
      r
  }

  // ------------------------------------------------------------ enrichment

  /** `getGroupWithMembers` throws: the group is missing, or its creator or one
      of its members has no user record. */
  predicate EnrichFails(users: seq<UserRecord>, groups: seq<Entry<Group>>, rows: seq<Entry<Membership>>, g: Key) {
    || !HasKey(groups, g)
    || !UserExists(users, groups[KeyIndex(groups, g)].val.creatorId)
    || exists i :: 0 <= i < |rows| && rows[i].val.groupId == g && !UserExists(users, rows[i].val.userId)
  }

  /** `getGroupWithMembers(g)`: the group record and its membership rows, in store order. */
  function GroupWithMembers(users: seq<UserRecord>, groups: seq<Entry<Group>>, rows: seq<Entry<Membership>>, g: Key): (r: Option<GroupView>)
    ensures r.None? <==> EnrichFails(users, groups, rows, g)
    ensures r.Some? ==> r.value.group.key == g && r.value.group in groups
    ensures r.Some? ==> forall i :: 0 <= i < |rows| && rows[i].val.groupId == g ==> rows[i] in r.value.members
    ensures r.Some? ==> forall i :: 0 <= i < |r.value.members| ==>
      r.value.members[i] in rows && r.value.members[i].val.groupId == g
    ensures r.Some? ==> r.value.members == Filter(rows, RowOfGroup(g))
  {
    if EnrichFails(users, groups, rows, g) then None
    else Some(GroupView(groups[KeyIndex(groups, g)], Filter(rows, RowOfGroup(g))))
  }

  // ------------------------------------------------------------ createGroup

  /** `!name || name.trim().length === 0`. */
  predicate BlankName(name: Option<string>) {
    Missing(name) || Trim(name.value) == ""
  }

  /** `description?.trim() || null`. */
  function TrimmedOrNull(d: Option<string>): (r: Option<string>)
    ensures r.Some? ==> d.Some? && r.value == Trim(d.value) && r.value != ""
    ensures r.None? ==> d.None? || AllSpace(d.value)
  {
    if d.None? || Trim(d.value) == "" then None else Some(Trim(d.value))
  }

  /** The MEMBER rows pushed for `ids`, with keys from `base` on. */
  function MemberRows(g: Key, ids: seq<UserId>, base: Key, now: int): (r: seq<Entry<Membership>>)
    ensures |r| == |ids|
    ensures forall i :: 0 <= i < |ids| ==> r[i] == Entry(base + i, Membership(g, ids[i], Member, now))
  {
    seq(|ids|, i requires 0 <= i < |ids| => Entry(base + i, Membership(g, ids[i], Member, now)))
  }

  /** The ids `createGroup` adds as MEMBERs: each id of `memberIds` other than
      the creator, once. */
  lemma InvitedIds(memberIds: seq<UserId>, me: UserId)
    ensures forall u :: u in Remove(Dedup(memberIds), me) <==> u != me && u in memberIds
    ensures forall i, j :: 0 <= i < j < |Remove(Dedup(memberIds), me)| ==>
      Remove(Dedup(memberIds), me)[i] != Remove(Dedup(memberIds), me)[j]
  {
    var d := Dedup(memberIds);
    var ids := Remove(d, me);
    forall u | u != me && u in memberIds ensures u in ids {
      var j :| 0 <= j < |memberIds| && memberIds[j] == u;
      assert u in d;
      var m :| 0 <= m < |d| && d[m] == u;
    }
    forall u | u in ids ensures u in memberIds {
      var m :| 0 <= m < |ids| && ids[m] == u;
      assert u in d;
      var j :| 0 <= j < |d| && d[j] == u;
    }
  }

  /** A key no group holds yet is named by no membership row. */
  lemma NoRowsForFreshKey(rows: seq<Entry<Membership>>, groups: seq<Entry<Group>>, next: Key)
    requires RowsNameGroups(rows, groups) && Keyed(groups, next)
    ensures forall i :: 0 <= i < |rows| ==> rows[i].val.groupId != next
  {
    forall i | 0 <= i < |rows| ensures rows[i].val.groupId != next {
      var j :| 0 <= j < |groups| && groups[j].key == rows[i].val.groupId;
    }
  }

  /** No row before the invited ones, the creator's included, names an invited id in the new group. */
  lemma InvitedHaveNoRows(rows0: seq<Entry<Membership>>, rows: seq<Entry<Membership>>, k: Key, me: UserId,
                          memberIds: seq<UserId>, ids: seq<UserId>, a: Key, now: int)
    requires forall i :: 0 <= i < |rows0| ==> rows0[i].val.groupId != k
    requires rows == rows0 + [Entry(a, Membership(k, me, Admin, now))]
    requires ids == Remove(Dedup(memberIds), me)
    ensures forall j, m :: 0 <= j < |rows| && 0 <= m < |ids| ==> !RowFor(rows[j].val, k, ids[m])
  {
    forall j, m | 0 <= j < |rows| && 0 <= m < |ids| ensures !RowFor(rows[j].val, k, ids[m]) {
      if j == |rows0| {
        assert ids[m] in ids;
      }
    }
  }

  /** The members of new group `k` are the creator and the invited ids. */
  lemma RosterMembers(rows0: seq<Entry<Membership>>, k: Key, me: UserId, memberIds: seq<UserId>,
                      ids: seq<UserId>, a: Key, base: Key, now: int)
    requires forall i :: 0 <= i < |rows0| ==> rows0[i].val.groupId != k
    requires forall u :: u in ids <==> u != me && u in memberIds
    ensures var rows := rows0 + [Entry(a, Membership(k, me, Admin, now))] + MemberRows(k, ids, base, now);
      forall u :: IsMemberRow(rows, k, u) <==> u == me || u in memberIds
  {
    var rows := rows0 + [Entry(a, Membership(k, me, Admin, now))] + MemberRows(k, ids, base, now);
    var n := |rows0|;
    forall u | u == me || u in memberIds ensures IsMemberRow(rows, k, u) {
      if u == me {
        assert RowFor(rows[n].val, k, u);
      } else {
        assert u in ids;
        var m :| 0 <= m < |ids| && ids[m] == u;
        assert RowFor(rows[n + 1 + m].val, k, u);
      }
    }
    forall u | IsMemberRow(rows, k, u) ensures u == me || u in memberIds {
      var i :| 0 <= i < |rows| && RowFor(rows[i].val, k, u);
      if i > n {
        assert rows[i].val.userId == ids[i - n - 1];
        assert ids[i - n - 1] in ids;
      }
    }
  }

  /** In new group `k` the creator's row is the only ADMIN row. */
  lemma RosterAdmin(rows0: seq<Entry<Membership>>, k: Key, me: UserId, ids: seq<UserId>, a: Key, base: Key, now: int)
    requires forall i :: 0 <= i < |rows0| ==> rows0[i].val.groupId != k
    requires me !in ids
    ensures var rows := rows0 + [Entry(a, Membership(k, me, Admin, now))] + MemberRows(k, ids, base, now);
      forall i :: 0 <= i < |rows| && rows[i].val.groupId == k ==> (rows[i].val.role == Admin <==> rows[i].val.userId == me)
  {
    var rows := rows0 + [Entry(a, Membership(k, me, Admin, now))] + MemberRows(k, ids, base, now);
    var n := |rows0|;
    forall i | 0 <= i < |rows| && rows[i].val.groupId == k
      ensures rows[i].val.role == Admin <==> rows[i].val.userId == me
    {
      if i > n {
        assert rows[i].val.userId == ids[i - n - 1];
        assert ids[i - n - 1] in ids;
      }
    }
  }

  /** The rows a new group `k` ends with, after rows that name other groups:
      its members are the creator and every id in `memberIds`, and the creator
      holds its one ADMIN row. */
  lemma NewGroupRoster(rows0: seq<Entry<Membership>>, k: Key, me: UserId, memberIds: seq<UserId>,
                       ids: seq<UserId>, a: Key, base: Key, now: int)
    requires forall i :: 0 <= i < |rows0| ==> rows0[i].val.groupId != k
    requires ids == Remove(Dedup(memberIds), me)
    ensures var rows := rows0 + [Entry(a, Membership(k, me, Admin, now))] + MemberRows(k, ids, base, now);
      && (forall u :: IsMemberRow(rows, k, u) <==> u == me || u in memberIds)
      && (forall i :: 0 <= i < |rows| && rows[i].val.groupId == k ==> (rows[i].val.role == Admin <==> rows[i].val.userId == me))
  {
    InvitedIds(memberIds, me);
    RosterMembers(rows0, k, me, memberIds, ids, a, base, now);
    RosterAdmin(rows0, k, me, ids, a, base, now);
  }

  /** The store after the group record, with description `stored`, and its creator's ADMIN row are pushed. */
  function WithGroupAndAdmin(t: Tables, me: UserId, name: string, stored: Option<string>, now: int): Tables {
    var k := t.nextKey;
    t.(groups := t.groups + [Entry(k, Group(name, stored, me, now, now))],
       groupMembers := t.groupMembers + [Entry(k + 1, Membership(k, me, Admin, now))],
       nextKey := k + 2)
  }

  /** The store after a MEMBER row of `g` is pushed for each of `ids`. */
  function WithMembers(t: Tables, g: Key, ids: seq<UserId>, now: int): Tables {
    t.(groupMembers := t.groupMembers + MemberRows(g, ids, t.nextKey, now), nextKey := t.nextKey + |ids|)
  }

  /** The store after `createGroup` wrote group `t.nextKey` named `name`. */
  function WithNewGroup(t: Tables, me: UserId, name: string, description: Option<string>,
                        memberIds: seq<UserId>, now: int): Tables
  {
    WithMembers(WithGroupAndAdmin(t, me, name, TrimmedOrNull(description), now), t.nextKey, Remove(Dedup(memberIds), me), now)
  }

  /** The group record and the creator's ADMIN row. */
  method StartGroup(db: Database, me: UserId, name: string, stored: Option<string>, now: int) returns (k: Key)
    requires db.Valid()
    modifies db`groups, db`groupMembers, db`nextKey
    ensures db.Valid() && HasKey(db.groups, k)
    ensures k == old(db.nextKey)
    ensures db.State() == WithGroupAndAdmin(old(db.State()), me, name, stored, now)
  {
    ghost var t0 := db.State();
    NoRowsForFreshKey(db.groupMembers, db.groups, db.nextKey);
    k := db.PushGroup(Group(name, stored, me, now, now));
    assert !IsMemberRow(db.groupMembers, k, me);
    var _ := db.PushMembership(Membership(k, me, Admin, now));
    assert db.State() == WithGroupAndAdmin(t0, me, name, stored, now);
  }

  /** The `for` loop of `createGroup`: one MEMBER row per id, in order. */
  method AddMembers(db: Database, k: Key, ids: seq<UserId>, now: int)
    requires db.Valid() && HasKey(db.groups, k)
    requires forall i, j :: 0 <= i < j < |ids| ==> ids[i] != ids[j]
    requires forall j, m :: 0 <= j < |db.groupMembers| && 0 <= m < |ids| ==> !RowFor(db.groupMembers[j].val, k, ids[m])
    modifies db`groupMembers, db`nextKey
    ensures db.Valid()
    ensures db.State() == WithMembers(old(db.State()), k, ids, now)
  {
    var rows0 := db.groupMembers;
    var base := db.nextKey;
    var i := 0;
    while i < |ids|
      invariant 0 <= i <= |ids|
      invariant db.Valid() && HasKey(db.groups, k)
      invariant db.nextKey == base + i
      invariant db.groupMembers == rows0 + MemberRows(k, ids[..i], base, now)
    {
      forall j | 0 <= j < |db.groupMembers| ensures !RowFor(db.groupMembers[j].val, k, ids[i]) {
        if |rows0| <= j {
          assert db.groupMembers[j].val.userId == ids[j - |rows0|];
        }
      }
      var _ := db.PushMembership(Membership(k, ids[i], Member, now));
      assert MemberRows(k, ids[..i + 1], base, now) ==
        MemberRows(k, ids[..i], base, now) + [Entry(base + i, Membership(k, ids[i], Member, now))];
      i := i + 1;
    }
    assert ids[..i] == ids;
  }

  /** `createGroup`. The reply is built by `getGroupWithMembers`, which fails
      after the writes when a listed id has no user record. */
  method CreateGroup(db: Database, me: UserId, name: Option<string>, description: Option<string>,
                     memberIds: seq<UserId>, now: int) returns (r: Response<GroupView>)
    requires db.Valid()
    modifies db`groups, db`groupMembers, db`nextKey
    ensures db.Valid()
    ensures BlankName(name) ==>
      r == Fail(400, "Group name is required") && db.State() == old(db.State())
    ensures !BlankName(name) ==>
      db.State() == WithNewGroup(old(db.State()), me, Trim(name.value), description, memberIds, now)
    ensures !BlankName(name) ==>
      r == match GroupWithMembers(db.users, db.groups, db.groupMembers, old(db.nextKey))
           case None => Fail(500, "Server error creating group")
           case Some(v) => Ok(201, v)
  {
    if BlankName(name) {
      return Fail(400, "Group name is required");
    }
    var k := WriteNewGroup(db, me, Trim(name.value), description, memberIds, now);
    match GroupWithMembers(db.users, db.groups, db.groupMembers, k) {
      case None => r := Fail(500, "Server error creating group");
      case Some(v) => r := Ok(201, v);
    }
  }

  /** The writes of `createGroup` for a non-blank name: the group, the creator's
      ADMIN row, then a MEMBER row per invited id. */
  method WriteNewGroup(db: Database, me: UserId, name: string, description: Option<string>,
                       memberIds: seq<UserId>, now: int) returns (k: Key)
    requires db.Valid()
    modifies db`groups, db`groupMembers, db`nextKey
    ensures db.Valid()
    ensures k == old(db.nextKey)
    ensures db.State() == WithNewGroup(old(db.State()), me, name, description, memberIds, now)
  {
    var rows0 := db.groupMembers;
    NoRowsForFreshKey(rows0, db.groups, db.nextKey);
    k := StartGroup(db, me, name, TrimmedOrNull(description), now);
    ghost var t1 := db.State();
    var ids := Remove(Dedup(memberIds), me);
    InvitedIds(memberIds, me);
    InvitedHaveNoRows(rows0, db.groupMembers, k, me, memberIds, ids, k + 1, now);
    AddMembers(db, k, ids, now);
    assert db.State() == WithMembers(t1, k, ids, now);
  }

  // ---------------------------------------------------------- getUserGroups

  /** One group's entry: its view, its newest message, and how many of its
      messages others sent that are not read. */
  function Summarize(users: seq<UserRecord>, groups: seq<Entry<Group>>, rows: seq<Entry<Membership>>,
                     ms: seq<Entry<Message>>, g: Key, me: UserId): (r: Option<GroupSummary>)
    ensures r.None? <==> EnrichFails(users, groups, rows, g)
    ensures r.Some? ==> r.value.view.group.key == g
    ensures r.Some? ==> (r.value.lastMessage.None? <==> forall i :: 0 <= i < |ms| ==> ms[i].val.to != InGroup(g))
    ensures r.Some? && r.value.lastMessage.Some? ==>
      var last := r.value.lastMessage.value;
      && last in ms && last.val.to == InGroup(g)
      && forall i :: 0 <= i < |ms| && ms[i].val.to == InGroup(g) ==> ms[i].val.createdAt <= last.val.createdAt
    ensures r.Some? ==> r.value.unreadCount == Count(Filter(ms, SentToGroup(g)), UnreadByOthers(me))
  {
    match GroupWithMembers(users, groups, rows, g)
    case None => None
    case Some(v) =>
      var msgs := Filter(ms, SentToGroup(g));
      var sorted := SortBy(msgs, NewestFirst);
      CountSortBy(msgs, NewestFirst, UnreadByOthers(me));
      if sorted == [] then
        Some(GroupSummary(v, None, Count(sorted, UnreadByOthers(me))))
      else
        assert sorted[0] in multiset(msgs);
        forall i | 0 <= i < |ms| && ms[i].val.to == InGroup(g) ensures ms[i].val.createdAt <= sorted[0].val.createdAt {
          SortByFirstIsLeast(msgs, NewestFirst, ms[i]);
        }
        Some(GroupSummary(v, Some(sorted[0]), Count(sorted, UnreadByOthers(me))))
  }

  /** The entries for the rows of `mine` that name `me`, in row order; `None`
      once any of them fails. */
  function Summaries(users: seq<UserRecord>, groups: seq<Entry<Group>>, rows: seq<Entry<Membership>>,
                     ms: seq<Entry<Message>>, me: UserId, mine: seq<Entry<Membership>>): Option<seq<GroupSummary>>
  {
    if mine == [] then Some([])
    else
      var prev := Summaries(users, groups, rows, ms, me, mine[..|mine| - 1]);
      var row := mine[|mine| - 1].val;
      if prev.None? then None
      else if row.userId != me then prev
      else match Summarize(users, groups, rows, ms, row.groupId, me)
        case None => None
        case Some(s) => Some(prev.value + [s])
  }

  /** The listed groups are exactly the groups in which some row names `me`. */
  lemma SummariesAreMyGroups(users: seq<UserRecord>, groups: seq<Entry<Group>>, rows: seq<Entry<Membership>>,
                             ms: seq<Entry<Message>>, me: UserId, mine: seq<Entry<Membership>>, ss: seq<GroupSummary>)
    requires Summaries(users, groups, rows, ms, me, mine) == Some(ss)
    ensures forall i :: 0 <= i < |ss| ==> IsMemberRow(mine, ss[i].view.group.key, me)
    ensures forall g :: IsMemberRow(mine, g, me) ==> exists i :: 0 <= i < |ss| && ss[i].view.group.key == g
  {
    SummariesAreMine(users, groups, rows, ms, me, mine, ss);
    SummariesCoverMine(users, groups, rows, ms, me, mine, ss);
  }

  /** Every listed group has a row naming `me`. */
  lemma {:induction false} SummariesAreMine(users: seq<UserRecord>, groups: seq<Entry<Group>>, rows: seq<Entry<Membership>>,
                                            ms: seq<Entry<Message>>, me: UserId, mine: seq<Entry<Membership>>, ss: seq<GroupSummary>)
    requires Summaries(users, groups, rows, ms, me, mine) == Some(ss)
    ensures forall i :: 0 <= i < |ss| ==> IsMemberRow(mine, ss[i].view.group.key, me)
  {
    if mine != [] {
      var n := |mine| - 1;
      var prev := Summaries(users, groups, rows, ms, me, mine[..n]);
      SummariesAreMine(users, groups, rows, ms, me, mine[..n], prev.value);
      forall i | 0 <= i < |ss| ensures IsMemberRow(mine, ss[i].view.group.key, me) {
        if i < |prev.value| {
          assert ss[i] == prev.value[i];
          var j :| 0 <= j < n && RowFor(mine[..n][j].val, ss[i].view.group.key, me);
          assert RowFor(mine[j].val, ss[i].view.group.key, me);
        } else {
          assert RowFor(mine[n].val, ss[i].view.group.key, me);
        }
      }
    }
  }

  /** Every group with a row naming `me` is listed. */
  lemma {:induction false} SummariesCoverMine(users: seq<UserRecord>, groups: seq<Entry<Group>>, rows: seq<Entry<Membership>>,
                                              ms: seq<Entry<Message>>, me: UserId, mine: seq<Entry<Membership>>, ss: seq<GroupSummary>)
    requires Summaries(users, groups, rows, ms, me, mine) == Some(ss)
    ensures forall g :: IsMemberRow(mine, g, me) ==> exists i :: 0 <= i < |ss| && ss[i].view.group.key == g
  {
    if mine != [] {
      var n := |mine| - 1;
      var prev := Summaries(users, groups, rows, ms, me, mine[..n]);
      SummariesCoverMine(users, groups, rows, ms, me, mine[..n], prev.value);
      SummariesStep(users, groups, rows, ms, me, mine, ss, n, prev);
      forall g | IsMemberRow(mine, g, me) ensures exists i :: 0 <= i < |ss| && ss[i].view.group.key == g {
        var j :| 0 <= j < |mine| && RowFor(mine[j].val, g, me);
        if j < n {
          assert RowFor(mine[..n][j].val, g, me);
          assert IsMemberRow(mine[..n], g, me);
          var i :| 0 <= i < |prev.value| && prev.value[i].view.group.key == g;
          assert ss[i] == prev.value[i];
        } else {
          assert mine[n].val.userId == me && mine[n].val.groupId == g;
          assert ss[|prev.value|].view.group.key == g;
        }
      }
    }
  }

  /** One more row extends the list, by the row's group when the row names `me`. */
  lemma SummariesStep(users: seq<UserRecord>, groups: seq<Entry<Group>>, rows: seq<Entry<Membership>>,
                      ms: seq<Entry<Message>>, me: UserId, mine: seq<Entry<Membership>>, ss: seq<GroupSummary>,
                      n: nat, prev: Option<seq<GroupSummary>>)
    requires n + 1 == |mine| && Summaries(users, groups, rows, ms, me, mine) == Some(ss)
    requires prev == Summaries(users, groups, rows, ms, me, mine[..n])
    ensures prev.Some? && prev.value <= ss
    ensures mine[n].val.userId == me ==>
      |ss| == |prev.value| + 1 && ss[|prev.value|].view.group.key == mine[n].val.groupId
  {
    var row := mine[n].val;
    if row.userId == me {
      var s := Summarize(users, groups, rows, ms, row.groupId, me);
      assert s.Some? && s.value.view.group.key == row.groupId;
    }
  }

  /** The `unreadCount` loop over the group's sorted messages. */
  method CountUnreadByOthers(msgs: seq<Entry<Message>>, me: UserId) returns (n: nat)
    ensures n == Count(msgs, UnreadByOthers(me))
  {
    n := 0;
    var i := 0;
    while i < |msgs|
      invariant 0 <= i <= |msgs|
      invariant n == Count(msgs[..i], UnreadByOthers(me))
    {
      assert msgs[..i + 1][..i] == msgs[..i];
      if msgs[i].val.senderId != me && !msgs[i].val.isRead {
        n := n + 1;
      }
      i := i + 1;
    }
    assert msgs[..i] == msgs;
  }

  /** One pass of the `getUserGroups` loop. */
  method SummarizeGroup(db: Database, g: Key, me: UserId) returns (s: Option<GroupSummary>)
    ensures s == Summarize(db.users, db.groups, db.groupMembers, db.messages, g, me)
  {
    var view := GroupWithMembers(db.users, db.groups, db.groupMembers, g);
    if view.None? {
      return None;
    }
    var sorted := SortBy(Filter(db.messages, SentToGroup(g)), NewestFirst);
    var last := if sorted == [] then None else Some(sorted[0]);
    var unread := CountUnreadByOthers(sorted, me);
    s := Some(GroupSummary(view.value, last, unread));
  }

  /** The `for ... of` loop of `getUserGroups`; the first group that cannot be
      enriched ends it with a failure. */
  method CollectSummaries(db: Database, me: UserId) returns (res: Option<seq<GroupSummary>>)
    ensures res == Summaries(db.users, db.groups, db.groupMembers, db.messages, me, db.groupMembers)
  {
    var rows := db.groupMembers;
    var acc: seq<GroupSummary> := [];
    var i := 0;
    while i < |rows|
      invariant 0 <= i <= |rows|
      invariant Summaries(db.users, db.groups, rows, db.messages, me, rows[..i]) == Some(acc)
    {
      assert rows[..i + 1][..i] == rows[..i];
      if rows[i].val.userId == me {
        var s := SummarizeGroup(db, rows[i].val.groupId, me);
        if s.None? {
          FailureSticks(db.users, db.groups, rows, db.messages, me, i + 1);
          return None;
        }
        acc := acc + [s.value];
      }
      i := i + 1;
    }
    assert rows[..i] == rows;
    res := Some(acc);
  }

  /** Once a prefix of the rows fails, every longer prefix fails too. */
  lemma FailureSticks(users: seq<UserRecord>, groups: seq<Entry<Group>>, rows: seq<Entry<Membership>>,
                      ms: seq<Entry<Message>>, me: UserId, k: nat)
    requires k <= |rows| && Summaries(users, groups, rows, ms, me, rows[..k]).None?
    ensures Summaries(users, groups, rows, ms, me, rows).None?
    decreases |rows| - k
  {
    if k < |rows| {
      assert rows[..k + 1][..k] == rows[..k];
      FailureSticks(users, groups, rows, ms, me, k + 1);
    } else {
      assert rows[..k] == rows;
    }
  }

  /** The sorted list keeps the user's groups and orders them by `updatedAt`, newest first. */
  lemma SortedGroups(ss: seq<GroupSummary>, rows: seq<Entry<Membership>>, me: UserId, sorted: seq<GroupSummary>)
    requires sorted == SortBy(ss, RecentlyUpdatedFirst)
    requires forall i :: 0 <= i < |ss| ==> IsMemberRow(rows, ss[i].view.group.key, me)
    ensures forall i, j :: 0 <= i < j < |sorted| ==>
      sorted[i].view.group.val.updatedAt >= sorted[j].view.group.val.updatedAt
    ensures forall i :: 0 <= i < |sorted| ==> IsMemberRow(rows, sorted[i].view.group.key, me)
  {
    forall j | 0 <= j < |sorted| ensures IsMemberRow(rows, sorted[j].view.group.key, me) {
      assert sorted[j] in multiset(ss);
    }
    forall i, j | 0 <= i < j < |sorted|
      ensures sorted[i].view.group.val.updatedAt >= sorted[j].view.group.val.updatedAt
    {
      assert RecentlyUpdatedFirst(sorted[i]) <= RecentlyUpdatedFirst(sorted[j]);
    }
  }

  /** `getUserGroups`: one entry per membership row of the user, most recently
      updated group first. */
  method GetUserGroups(db: Database, me: UserId) returns (r: Response<seq<GroupSummary>>)
    ensures r == match Summaries(db.users, db.groups, db.groupMembers, db.messages, me, db.groupMembers)
                 case None => Fail(500, "Server error fetching groups")
                 case Some(ss) => Ok(200, SortBy(ss, RecentlyUpdatedFirst))
    ensures r.Ok? ==> forall i, j :: 0 <= i < j < |r.body| ==>
      r.body[i].view.group.val.updatedAt >= r.body[j].view.group.val.updatedAt
    ensures r.Ok? ==> forall i :: 0 <= i < |r.body| ==> IsMemberRow(db.groupMembers, r.body[i].view.group.key, me)
  {
    var res := CollectSummaries(db, me);
    if res.None? {
      return Fail(500, "Server error fetching groups");
    }
    SummariesAreMyGroups(db.users, db.groups, db.groupMembers, db.messages, me, db.groupMembers, res.value);
    var sorted := SortBy(res.value, RecentlyUpdatedFirst);
    SortedGroups(res.value, db.groupMembers, me, sorted);
    r := Ok(200, sorted);
  }

  // ------------------------------------------------- details and messages

  /** `getGroupDetails`: members only. */
  method GetGroupDetails(db: Database, me: UserId, g: Key) returns (r: Response<GroupView>)
    ensures !IsMemberRow(db.groupMembers, g, me) ==> r == Fail(403, "Not a member of this group")
    ensures IsMemberRow(db.groupMembers, g, me) ==>
      r == match GroupWithMembers(db.users, db.groups, db.groupMembers, g)
           case None => Fail(500, "Server error fetching group details")
           case Some(v) => Ok(200, v)
  {
    var isMember := Queries.IsMember(db, g, me);
    if !isMember {
      return Fail(403, "Not a member of this group");
    }
    match GroupWithMembers(db.users, db.groups, db.groupMembers, g) {
      case None => r := Fail(500, "Server error fetching group details");
      case Some(v) => r := Ok(200, v);
    }
  }

  /** The page of a group's messages: oldest first, the last `limit` of them. */
  function GroupPage(ms: seq<Entry<Message>>, g: Key, limit: Limit): (r: seq<Entry<Message>>)
    ensures forall i :: 0 <= i < |r| ==> r[i] in ms && r[i].val.to == InGroup(g)
    ensures forall i, j :: 0 <= i < j < |r| ==> r[i].val.createdAt <= r[j].val.createdAt
    ensures |r| == PageSize(|Filter(ms, SentToGroup(g))|, limit)
    ensures r == SortBy(Filter(ms, SentToGroup(g)), OldestFirst)[|Filter(ms, SentToGroup(g))| - |r|..]
    ensures Distinct(ms) ==> Distinct(r)
  {
    var r := LastN(SortBy(Filter(ms, SentToGroup(g)), OldestFirst), limit);
    PageOfFiltered(ms, SentToGroup(g), OldestFirst, limit, r);
    r
  }

  /** `getGroupMessages`: members only. */
  method GetGroupMessages(db: Database, me: UserId, g: Key, limit: Limit) returns (r: Response<seq<Entry<Message>>>)
    ensures !IsMemberRow(db.groupMembers, g, me) ==> r == Fail(403, "Not a member of this group")
    ensures IsMemberRow(db.groupMembers, g, me) ==> r == Ok(200, GroupPage(db.messages, g, limit))
  {
    var isMember := Queries.IsMember(db, g, me);
    if !isMember {
      return Fail(403, "Not a member of this group");
    }
    r := Ok(200, GroupPage(db.messages, g, limit));
  }

  // -------------------------------------------------------- sendGroupMessage

  /** `sendGroupMessage`: the request is validated before membership is checked. */
  method SendGroupMessage(db: Database, me: UserId, groupId: Option<Key>, content: Option<string>, now: int)
    returns (r: Response<Entry<Message>>)
    requires db.Valid()
    modifies db`messages, db`groups, db`nextKey
    ensures db.Valid()
    ensures groupId.None? || Missing(content) ==>
      r == Fail(400, "Group ID and content are required") && db.State() == old(db.State())
    ensures groupId.Some? && !Missing(content) && Trim(content.value) == "" ==>
      r == Fail(400, "Message content cannot be empty") && db.State() == old(db.State())
    ensures (groupId.Some? && !Missing(content) && Trim(content.value) != ""
      && !IsMemberRow(old(db.groupMembers), groupId.value, me)) ==>
      r == Fail(403, "Not a member of this group") && db.State() == old(db.State())
    ensures (groupId.Some? && !Missing(content) && Trim(content.value) != ""
      && IsMemberRow(old(db.groupMembers), groupId.value, me)) ==>
      var k := old(db.nextKey);
      var sent := Entry(k, Message(me, InGroup(groupId.value), Trim(content.value), false, now, now));
      && db.State() == old(db.State()).(
           messages := old(db.messages) + [sent],
           groups := Touched(old(db.groups), groupId.value, now),
           nextKey := k + 1)
      && r == if UserExists(db.users, me) then Ok(201, sent) else Fail(500, "Server error sending group message")
  {
    if groupId.None? || Missing(content) {
      return Fail(400, "Group ID and content are required");
    }
    if Trim(content.value) == "" {
      return Fail(400, "Message content cannot be empty");
    }
    var g := groupId.value;
    var isMember := Queries.IsMember(db, g, me);
    if !isMember {
      return Fail(403, "Not a member of this group");
    }
    var m := Message(me, InGroup(g), Trim(content.value), false, now, now);
    var k := Queries.PostToGroup(db, g, m, now);
    if UserIndex(db.users, me) == |db.users| {
      return Fail(500, "Server error sending group message");
    }
    r := Ok(201, Entry(k, m));
  }

  // ------------------------------------------------ adding and removing rows

  /** The `forEach` of `addGroupMember` and `removeGroupMember` over the group's
      rows: whether `me` holds an ADMIN row, and the last row for `target`. */
  method ScanGroup(db: Database, g: Key, me: UserId, target: UserId) returns (isAdmin: bool, found: Option<nat>)
    ensures isAdmin <==> IsAdminRow(db.groupMembers, g, me)
    ensures found == LastRowFor(db.groupMembers, g, target)
  {
    var rows := db.groupMembers;
    isAdmin, found := false, None;
    var i := 0;
    while i < |rows|
      invariant 0 <= i <= |rows|
      invariant isAdmin <==> exists j :: 0 <= j < i && RowFor(rows[j].val, g, me) && rows[j].val.role == Admin
      invariant found == LastRowFor(rows[..i], g, target)
    {
      assert rows[..i + 1][..i] == rows[..i];
      var m := rows[i].val;
      if m.groupId == g {
        if m.userId == me && m.role == Admin {
          isAdmin := true;
        }
        if m.userId == target {
          found := Some(i);
        }
      }
      i := i + 1;
    }
    assert rows[..i] == rows;
  }

  /** `addGroupMember`: only an ADMIN of the group may add, and only someone
      who holds no row in it yet. */
  method AddGroupMember(db: Database, me: UserId, groupId: Option<Key>, userId: Option<UserId>, now: int)
    returns (r: Response<Entry<Membership>>)
    requires db.Valid()
    modifies db`groupMembers, db`nextKey
    ensures db.Valid()
    ensures groupId.None? || Missing(userId) ==>
      r == Fail(400, "Group ID and user ID are required") && db.State() == old(db.State())
    ensures groupId.Some? && !Missing(userId) && !IsAdminRow(old(db.groupMembers), groupId.value, me) ==>
      r == Fail(403, "Only admins can add members") && db.State() == old(db.State())
    ensures (groupId.Some? && !Missing(userId) && IsAdminRow(old(db.groupMembers), groupId.value, me)
      && IsMemberRow(old(db.groupMembers), groupId.value, userId.value)) ==>
      r == Fail(400, "User is already a member") && db.State() == old(db.State())
    ensures (groupId.Some? && !Missing(userId) && IsAdminRow(old(db.groupMembers), groupId.value, me)
      && !IsMemberRow(old(db.groupMembers), groupId.value, userId.value)) ==>
      var row := Entry(old(db.nextKey), Membership(groupId.value, userId.value, Member, now));
      && db.State() == old(db.State()).(groupMembers := old(db.groupMembers) + [row], nextKey := old(db.nextKey) + 1)
      && IsMemberRow(db.groupMembers, groupId.value, userId.value)
      && r == if UserExists(db.users, userId.value) then Ok(201, row) else Fail(500, "Server error adding member")
  {
    if groupId.None? || Missing(userId) {
      return Fail(400, "Group ID and user ID are required");
    }
    var g, u := groupId.value, userId.value;
    var isAdmin, found := ScanGroup(db, g, me, u);
    if !isAdmin {
      return Fail(403, "Only admins can add members");
    }
    if found.Some? {
      return Fail(400, "User is already a member");
    }
    var i :| 0 <= i < |db.groupMembers| && RowFor(db.groupMembers[i].val, g, me) && db.groupMembers[i].val.role == Admin;
    var row := Membership(g, u, Member, now);
    var k := db.PushMembership(row);
    assert RowFor(db.groupMembers[|db.groupMembers| - 1].val, g, u);
    if UserIndex(db.users, u) == |db.users| {
      return Fail(500, "Server error adding member");
    }
    r := Ok(201, Entry(k, row));
  }

  /** Deleting a user's row from a group where rows do not repeat ends their
      membership and leaves every other membership as it was. */
  lemma RemoveRowEndsMembership(rows: seq<Entry<Membership>>, i: nat, g: Key, u: UserId)
    requires NoDuplicateMembership(rows) && i < |rows| && RowFor(rows[i].val, g, u)
    ensures !IsMemberRow(rows[..i] + rows[i + 1..], g, u)
    ensures forall h, v :: !(h == g && v == u) ==>
      (IsMemberRow(rows[..i] + rows[i + 1..], h, v) <==> IsMemberRow(rows, h, v))
  {
    var rest := rows[..i] + rows[i + 1..];
    assert forall j :: 0 <= j < |rest| ==> rest[j] == if j < i then rows[j] else rows[j + 1];
    forall j | 0 <= j < |rest| ensures !RowFor(rest[j].val, g, u) {
      if j < i {
        assert !RowFor(rows[i].val, rows[j].val.groupId, rows[j].val.userId);
      } else {
        assert !RowFor(rows[j + 1].val, rows[i].val.groupId, rows[i].val.userId);
      }
    }
    forall h, v | !(h == g && v == u) && IsMemberRow(rows, h, v) ensures IsMemberRow(rest, h, v) {
      var j :| 0 <= j < |rows| && RowFor(rows[j].val, h, v);
      if j < i {
        assert RowFor(rest[j].val, h, v);
      } else {
        assert j != i;
        assert RowFor(rest[j - 1].val, h, v);
      }
    }
  }

  /** `removeGroupMember`: an ADMIN may remove anyone, anyone may remove themself. */
  method RemoveGroupMember(db: Database, me: UserId, groupId: Option<Key>, userId: Option<UserId>)
    returns (r: Response<string>)
    requires db.Valid()
    modifies db`groupMembers
    ensures db.Valid()
    ensures groupId.None? || Missing(userId) ==>
      r == Fail(400, "Group ID and user ID are required") && db.State() == old(db.State())
    ensures groupId.Some? && !Missing(userId) && !IsAdminRow(old(db.groupMembers), groupId.value, me) && me != userId.value ==>
      r == Fail(403, "Only admins can remove members") && db.State() == old(db.State())
    ensures (groupId.Some? && !Missing(userId) && (IsAdminRow(old(db.groupMembers), groupId.value, me) || me == userId.value)
      && !IsMemberRow(old(db.groupMembers), groupId.value, userId.value)) ==>
      r == Fail(404, "Member not found") && db.State() == old(db.State())
    ensures (groupId.Some? && !Missing(userId) && (IsAdminRow(old(db.groupMembers), groupId.value, me) || me == userId.value)
      && IsMemberRow(old(db.groupMembers), groupId.value, userId.value)) ==>
      var i := LastRowFor(old(db.groupMembers), groupId.value, userId.value).value;
      && db.State() == old(db.State()).(groupMembers := old(db.groupMembers)[..i] + old(db.groupMembers)[i + 1..])
      && !IsMemberRow(db.groupMembers, groupId.value, userId.value)
      && r == Ok(200, "Member removed successfully")
  {
    if groupId.None? || Missing(userId) {
      return Fail(400, "Group ID and user ID are required");
    }
    var g, u := groupId.value, userId.value;
    var isAdmin, found := ScanGroup(db, g, me, u);
    if !isAdmin && me != u {
      return Fail(403, "Only admins can remove members");
    }
    if found.None? {
      return Fail(404, "Member not found");
    }
    RemoveRowEndsMembership(db.groupMembers, found.value, g, u);
    db.RemoveMembershipAt(found.value);
    r := Ok(200, "Member removed successfully");
  }

  /** The `forEach` of `leaveGroup`: the last row of `me` in `g`. */
  method FindOwnRow(db: Database, g: Key, me: UserId) returns (found: Option<nat>)
    ensures found == LastRowFor(db.groupMembers, g, me)
  {
    var rows := db.groupMembers;
    found := None;
    var i := 0;
    while i < |rows|
      invariant 0 <= i <= |rows|
      invariant found == LastRowFor(rows[..i], g, me)
    {
      assert rows[..i + 1][..i] == rows[..i];
      if rows[i].val.groupId == g && rows[i].val.userId == me {
        found := Some(i);
      }
      i := i + 1;
    }
    assert rows[..i] == rows;
  }

  /** `leaveGroup`: deletes the requester's own row. */
  method LeaveGroup(db: Database, me: UserId, g: Key) returns (r: Response<string>)
    requires db.Valid()
    modifies db`groupMembers
    ensures db.Valid()
    ensures !IsMemberRow(old(db.groupMembers), g, me) ==>
      r == Fail(404, "Not a member of this group") && db.State() == old(db.State())
    ensures IsMemberRow(old(db.groupMembers), g, me) ==>
      var i := LastRowFor(old(db.groupMembers), g, me).value;
      && db.State() == old(db.State()).(groupMembers := old(db.groupMembers)[..i] + old(db.groupMembers)[i + 1..])
      && !IsMemberRow(db.groupMembers, g, me)
      && r == Ok(200, "Left group successfully")
  {
    var found := FindOwnRow(db, g, me);
    if found.None? {
      return Fail(404, "Not a member of this group");
    }
    RemoveRowEndsMembership(db.groupMembers, found.value, g, me);
    db.RemoveMembershipAt(found.value);
    r := Ok(200, "Left group successfully");
  }
}
