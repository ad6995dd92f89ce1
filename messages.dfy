/** The direct-message endpoints: a conversation page, sending, read receipts,
    the conversation list and deletion. A direct message names its receiver;
    group messages (those with a `groupId`) never show here. */
module Messages {
  import opened Store
  import opened Text
  import opened Lists
  import Queries

  // --------------------------------------------------------- getConversation

  /** A direct message between `me` and `other`, in either direction. */
  function Exchanged(me: UserId, other: UserId): Entry<Message> -> bool {
    (e: Entry<Message>) => e.val.to.Direct?
      && ((e.val.senderId == me && e.val.to.receiverId == other)
          || (e.val.senderId == other && e.val.to.receiverId == me))
  }

  /** The `forEach` of `getConversation`. */
  method CollectExchanged(db: Database, me: UserId, other: UserId) returns (found: seq<Entry<Message>>)
    ensures found == Filter(db.messages, Exchanged(me, other))
  {
    var ms := db.messages;
    found := [];
    var i := 0;
    while i < |ms|
      invariant 0 <= i <= |ms|
      invariant found == Filter(ms[..i], Exchanged(me, other))
    {
      assert ms[..i + 1][..i] == ms[..i];
      var m := ms[i].val;
      if m.to.Direct? && ((m.senderId == me && m.to.receiverId == other) || (m.senderId == other && m.to.receiverId == me)) {
        found := found + [ms[i]];
      }
      i := i + 1;
    }
    assert ms[..i] == ms;
  }

  /** The page of a conversation: its messages oldest first, cut to the last `limit`. */
  function ConversationPage(ms: seq<Entry<Message>>, me: UserId, other: UserId, limit: Limit): (r: seq<Entry<Message>>)
    ensures forall i :: 0 <= i < |r| ==> r[i] in ms && Exchanged(me, other)(r[i])
    ensures forall i, j :: 0 <= i < j < |r| ==> r[i].val.createdAt <= r[j].val.createdAt
    ensures |r| == PageSize(|Filter(ms, Exchanged(me, other))|, limit)
    ensures r == SortBy(Filter(ms, Exchanged(me, other)), OldestFirst)[|Filter(ms, Exchanged(me, other))| - |r|..]
    ensures Distinct(ms) ==> Distinct(r)
  {
    var r := LastN(SortBy(Filter(ms, Exchanged(me, other)), OldestFirst), limit);
    PageOfFiltered(ms, Exchanged(me, other), OldestFirst, limit, r);
    r
  }

  /** Without a positive limit the page holds the whole conversation. */
  lemma WholeConversationWithoutLimit(ms: seq<Entry<Message>>, me: UserId, other: UserId, limit: Limit)
    requires limit == Parsed(0) || limit.NotANumber?
    ensures forall i :: 0 <= i < |ms| && Exchanged(me, other)(ms[i]) ==> ms[i] in ConversationPage(ms, me, other, limit)
  {
    var msgs := Filter(ms, Exchanged(me, other));
    assert ConversationPage(ms, me, other, limit) == SortBy(msgs, OldestFirst);
    forall i | 0 <= i < |ms| && Exchanged(me, other)(ms[i]) ensures ms[i] in SortBy(msgs, OldestFirst) {
      assert ms[i] in multiset(msgs);
    }
  }

  /** `getConversation`: the sender lookups use optional chaining, so a
      missing sender does not fail the request. */
  method GetConversation(db: Database, me: UserId, other: UserId, limit: Limit) returns (r: Response<seq<Entry<Message>>>)
    ensures r == Ok(200, ConversationPage(db.messages, me, other, limit))
  {
    var msgs := CollectExchanged(db, me, other);
    var sorted := SortBy(msgs, OldestFirst);
    r := Ok(200, LastN(sorted, limit));
  }

  // ------------------------------------------------------------- sendMessage

  /** `sendMessage`: validation, the receiver check, then one stored message
      with the trimmed content, unread. */
  method SendMessage(db: Database, me: UserId, receiverId: Option<UserId>, content: Option<string>, now: int)
    returns (r: Response<Entry<Message>>)
    requires db.Valid()
    modifies db`messages, db`nextKey
    ensures db.Valid()
    ensures (Missing(receiverId) || Missing(content) || Trim(content.value) == ""
      || !UserExists(db.users, receiverId.value)) ==>
      db.State() == old(db.State())
    ensures Missing(receiverId) || Missing(content) ==>
      r == Fail(400, "Receiver ID and content are required")
    ensures !Missing(receiverId) && !Missing(content) && Trim(content.value) == "" ==>
      r == Fail(400, "Message content cannot be empty")
    ensures (!Missing(receiverId) && !Missing(content) && Trim(content.value) != ""
      && !UserExists(db.users, receiverId.value)) ==>
      r == Fail(404, "Receiver not found")
    ensures (!Missing(receiverId) && !Missing(content) && Trim(content.value) != ""
      && UserExists(db.users, receiverId.value)) ==>
      var sent := Entry(old(db.nextKey), Message(me, Direct(receiverId.value), Trim(content.value), false, now, now));
      && db.State() == old(db.State()).(messages := old(db.messages) + [sent], nextKey := old(db.nextKey) + 1)
      && r == if UserExists(db.users, me) then Ok(201, sent) else Fail(500, "Server error sending message")
  {
    if Missing(receiverId) || Missing(content) {
      return Fail(400, "Receiver ID and content are required");
    }
    var text := Trim(content.value);
    if |text| == 0 {
      return Fail(400, "Message content cannot be empty");
    }
    if UserIndex(db.users, receiverId.value) == |db.users| {
      return Fail(404, "Receiver not found");
    }
    r := StoreMessage(db, me, receiverId.value, text, now);
  }

  /** The end of `sendMessage` once the request is valid: the message is stored, and
      the sender lookup that follows fails the request when the sender is missing. */
  method StoreMessage(db: Database, me: UserId, receiver: UserId, text: string, now: int)
    returns (r: Response<Entry<Message>>)
    requires db.Valid()
    modifies db`messages, db`nextKey
    ensures db.Valid()
    ensures
      var sent := Entry(old(db.nextKey), Message(me, Direct(receiver), text, false, now, now));
      && db.State() == old(db.State()).(messages := old(db.messages) + [sent], nextKey := old(db.nextKey) + 1)
      && r == if UserExists(db.users, me) then Ok(201, sent) else Fail(500, "Server error sending message")
  {
    var m := Message(me, Direct(receiver), text, false, now, now);
    var k := db.PushMessage(m);
    if UserIndex(db.users, me) == |db.users| {
      return Fail(500, "Server error sending message");
    }
    r := Ok(201, Entry(k, m));
  }

  // -------------------------------------------------------------- markAsRead

  /** `markAsRead`: every unread message from `senderId` to `me` becomes read,
      and nothing else changes. */
  method MarkAsRead(db: Database, me: UserId, senderId: Option<UserId>) returns (r: Response<string>)
    requires db.Valid()
    modifies db`messages
    ensures db.Valid()
    ensures Missing(senderId) ==> r == Fail(400, "Sender ID is required") && db.State() == old(db.State())
    ensures !Missing(senderId) ==>
      && db.State() == old(db.State()).(messages := Queries.ReadAllFrom(old(db.messages), senderId.value, me))
      && r == Ok(200, "Messages marked as read")
  {
    if Missing(senderId) {
      return Fail(400, "Sender ID is required");
    }
    var _ := Queries.MarkRead(db, senderId.value, me);
    r := Ok(200, "Messages marked as read");
  }

  // -------------------------------------------------------- getConversations

  /** An entry of `conversationsMap`. */
  datatype Conversation = Conversation(partnerId: UserId, lastMessage: Entry<Message>)

  /** An element of the `conversations` reply (the partner's user record
      stands for the `user` object built from it). */
  datatype ConversationSummary = ConversationSummary(user: UserRecord, lastMessage: Entry<Message>, unreadCount: nat)

  /** A direct message `me` sent or received. */
  predicate Involves(m: Message, me: UserId) {
    m.to.Direct? && (m.senderId == me || m.to.receiverId == me)
  }

  /** The other party: the receiver when `me` sent it, else the sender. */
  function PartnerOf(m: Message, me: UserId): UserId
    requires m.to.Direct?
  {
    if m.senderId == me then m.to.receiverId else m.senderId
  }

  /** A direct message of the conversation between `me` and `p`. */
  predicate WithPartner(m: Message, me: UserId, p: UserId) {
    Involves(m, me) && PartnerOf(m, me) == p
  }

  /** The conversation a listed partner opens is the same set of messages the
      list was built from. */
  lemma OpenedConversationMatchesList(e: Entry<Message>, me: UserId, p: UserId)
    ensures Exchanged(me, p)(e) <==> WithPartner(e.val, me, p)
  {
  }

  /** `conversationsMap.has`/`get`: the position of partner `p`, or `|cs|`. */
  function ConvIndex(cs: seq<Conversation>, p: UserId): (r: nat)
    ensures r <= |cs|
    ensures r < |cs| ==> cs[r].partnerId == p
    ensures forall i :: 0 <= i < r ==> cs[i].partnerId != p
  {
    ConvIndexFrom(cs, p, 0)
  }

  /** The scan behind `ConvIndex`, from position `from` on. */
  function ConvIndexFrom(cs: seq<Conversation>, p: UserId, from: nat): (r: nat)
    requires from <= |cs|
    ensures from <= r <= |cs|
    ensures r < |cs| ==> cs[r].partnerId == p
    ensures forall i :: from <= i < r ==> cs[i].partnerId != p
    decreases |cs| - from
  {
    if from == |cs| then from
    else if cs[from].partnerId == p then from
    else ConvIndexFrom(cs, p, from + 1)
  }

  predicate PartnersDistinct(cs: seq<Conversation>) {
    forall i, j :: 0 <= i < j < |cs| ==> cs[i].partnerId != cs[j].partnerId
  }

  /** `conversationsMap.has(p)`. */
  predicate Listed(cs: seq<Conversation>, p: UserId) {
    exists k :: 0 <= k < |cs| && cs[k].partnerId == p
  }

  /** `conversationsMap` after the scan of `ms`: a new partner is appended (a
      `Map` keeps insertion order), and a known one's last message is replaced
      only by a strictly newer one. */
  function Latest(ms: seq<Entry<Message>>, me: UserId): seq<Conversation> {
    if ms == [] then []
    else
      var prev := Latest(ms[..|ms| - 1], me);
      var e := ms[|ms| - 1];
      if !Involves(e.val, me) then prev
      else
        var q := PartnerOf(e.val, me);
        var t := ConvIndex(prev, q);
        if t == |prev| then prev + [Conversation(q, e)]
        else if e.val.createdAt > prev[t].lastMessage.val.createdAt then prev[t := Conversation(q, e)]
        else prev
  }

  /** The map holds one entry per partner, each with one of that
      conversation's messages, and every partner of `me` has an entry. */
  lemma {:induction false} LatestTracks(ms: seq<Entry<Message>>, me: UserId)
    ensures Tracks(Latest(ms, me), ms, me)
  {
    if ms != [] {
      var n := |ms| - 1;
      LatestTracks(ms[..n], me);
      var prev := Latest(ms[..n], me);
      var e := ms[n];
      if !Involves(e.val, me) {
        KeepStep(ms, me, prev);
      } else {
        var q := PartnerOf(e.val, me);
        var t := ConvIndex(prev, q);
        if t == |prev| {
          AppendStep(ms, me, prev);
        } else if e.val.createdAt > prev[t].lastMessage.val.createdAt {
          ReplaceStep(ms, me, prev, t);
        } else {
          KeepStep(ms, me, prev);
        }
      }
    }
  }

  /** Every entry holds one of its own conversation's messages. */
  predicate FromConversations(cs: seq<Conversation>, ms: seq<Entry<Message>>, me: UserId) {
    forall k :: 0 <= k < |cs| ==> cs[k].lastMessage in ms && WithPartner(cs[k].lastMessage.val, me, cs[k].partnerId)
  }

  /** Every partner of `me` in `ms` has an entry. */
  predicate CoversPartners(cs: seq<Conversation>, ms: seq<Entry<Message>>, me: UserId) {
    forall j :: 0 <= j < |ms| && Involves(ms[j].val, me) ==> Listed(cs, PartnerOf(ms[j].val, me))
  }

  /** The facts `Latest` keeps, for `cs` over messages `ms`. */
  predicate Tracks(cs: seq<Conversation>, ms: seq<Entry<Message>>, me: UserId) {
    PartnersDistinct(cs) && FromConversations(cs, ms, me) && CoversPartners(cs, ms, me)
  }

  /** A message `me` is not part of, or an older one from a listed partner,
      leaves the map as it was. */
  lemma KeepStep(ms: seq<Entry<Message>>, me: UserId, prev: seq<Conversation>)
    requires ms != [] && Tracks(prev, ms[..|ms| - 1], me)
    requires Involves(ms[|ms| - 1].val, me) ==> ConvIndex(prev, PartnerOf(ms[|ms| - 1].val, me)) < |prev|
    ensures Tracks(prev, ms, me)
  {
    var n := |ms| - 1;
    var pre := ms[..n];
    assert forall j :: 0 <= j < n ==> pre[j] == ms[j];
    forall k | 0 <= k < |prev| ensures prev[k].lastMessage in ms {
      var j :| 0 <= j < n && pre[j] == prev[k].lastMessage;
    }
    forall j | 0 <= j < |ms| && Involves(ms[j].val, me) ensures Listed(prev, PartnerOf(ms[j].val, me)) {
      if j < n {
        assert Involves(pre[j].val, me);
      } else {
        var t := ConvIndex(prev, PartnerOf(ms[n].val, me));
        assert prev[t].partnerId == PartnerOf(ms[j].val, me);
      }
    }
  }

  /** A message from an unlisted partner appends that partner. */
  lemma AppendStep(ms: seq<Entry<Message>>, me: UserId, prev: seq<Conversation>)
    requires ms != [] && Tracks(prev, ms[..|ms| - 1], me) && Involves(ms[|ms| - 1].val, me)
    requires ConvIndex(prev, PartnerOf(ms[|ms| - 1].val, me)) == |prev|
    ensures Tracks(prev + [Conversation(PartnerOf(ms[|ms| - 1].val, me), ms[|ms| - 1])], ms, me)
  {
    var n := |ms| - 1;
    var pre := ms[..n];
    var q := PartnerOf(ms[n].val, me);
    var r := prev + [Conversation(q, ms[n])];
    assert FromConversations(r, ms, me) by {
      forall k | 0 <= k < |prev| ensures r[k].lastMessage in ms {
        var j :| 0 <= j < n && pre[j] == prev[k].lastMessage;
        assert pre[j] == ms[j];
      }
    }
    AppendCovers(ms, me, prev);
  }

  /** Appending the new partner's entry keeps every partner listed. */
  lemma AppendCovers(ms: seq<Entry<Message>>, me: UserId, prev: seq<Conversation>)
    requires ms != [] && CoversPartners(prev, ms[..|ms| - 1], me) && Involves(ms[|ms| - 1].val, me)
    ensures CoversPartners(prev + [Conversation(PartnerOf(ms[|ms| - 1].val, me), ms[|ms| - 1])], ms, me)
  {
    var n := |ms| - 1;
    var pre := ms[..n];
    var r := prev + [Conversation(PartnerOf(ms[n].val, me), ms[n])];
    forall j | 0 <= j < |ms| && Involves(ms[j].val, me) ensures Listed(r, PartnerOf(ms[j].val, me)) {
      if j < n {
        assert pre[j] == ms[j];
        var k :| 0 <= k < |prev| && prev[k].partnerId == PartnerOf(pre[j].val, me);
        assert r[k] == prev[k];
      } else {
        assert r[|prev|].partnerId == PartnerOf(ms[n].val, me);
      }
    }
  }

  /** A strictly newer message from a listed partner replaces its entry. */
  lemma ReplaceStep(ms: seq<Entry<Message>>, me: UserId, prev: seq<Conversation>, t: nat)
    requires ms != [] && Tracks(prev, ms[..|ms| - 1], me) && Involves(ms[|ms| - 1].val, me)
    requires t < |prev| && prev[t].partnerId == PartnerOf(ms[|ms| - 1].val, me)
    ensures Tracks(prev[t := Conversation(PartnerOf(ms[|ms| - 1].val, me), ms[|ms| - 1])], ms, me)
  {
    var n := |ms| - 1;
    var pre := ms[..n];
    var q := PartnerOf(ms[n].val, me);
    var r := prev[t := Conversation(q, ms[n])];
    assert FromConversations(r, ms, me) by {
      forall k | 0 <= k < |prev| && k != t ensures r[k].lastMessage in ms {
        var j :| 0 <= j < n && pre[j] == prev[k].lastMessage;
        assert pre[j] == ms[j];
      }
    }
    ReplaceCovers(ms, me, prev, t);
  }

  /** Replacing a listed partner's entry keeps every partner listed. */
  lemma ReplaceCovers(ms: seq<Entry<Message>>, me: UserId, prev: seq<Conversation>, t: nat)
    requires ms != [] && CoversPartners(prev, ms[..|ms| - 1], me) && Involves(ms[|ms| - 1].val, me)
    requires t < |prev| && prev[t].partnerId == PartnerOf(ms[|ms| - 1].val, me)
    ensures CoversPartners(prev[t := Conversation(PartnerOf(ms[|ms| - 1].val, me), ms[|ms| - 1])], ms, me)
  {
    var n := |ms| - 1;
    var pre := ms[..n];
    var r := prev[t := Conversation(PartnerOf(ms[n].val, me), ms[n])];
    forall j | 0 <= j < |ms| && Involves(ms[j].val, me) ensures Listed(r, PartnerOf(ms[j].val, me)) {
      if j < n {
        assert pre[j] == ms[j];
        var k :| 0 <= k < |prev| && prev[k].partnerId == PartnerOf(pre[j].val, me);
        assert r[k].partnerId == prev[k].partnerId;
      } else {
        assert r[t].partnerId == PartnerOf(ms[n].val, me);
      }
    }
  }

  /** Message `i` is the one `getConversations` keeps for partner `p`: the
      first of the conversation's messages with the greatest `createdAt`. */
  predicate FirstNewest(ms: seq<Entry<Message>>, me: UserId, p: UserId, i: nat) {
    && i < |ms| && WithPartner(ms[i].val, me, p)
    && (forall j :: 0 <= j < i && WithPartner(ms[j].val, me, p) ==> ms[j].val.createdAt < ms[i].val.createdAt)
    && (forall j :: i < j < |ms| && WithPartner(ms[j].val, me, p) ==> ms[j].val.createdAt <= ms[i].val.createdAt)
  }

  /** A message after the kept one that is no newer leaves it kept. */
  lemma ExtendFirstNewest(ms: seq<Entry<Message>>, me: UserId, p: UserId, i: nat)
    requires ms != [] && FirstNewest(ms[..|ms| - 1], me, p, i)
    requires WithPartner(ms[|ms| - 1].val, me, p) ==> ms[|ms| - 1].val.createdAt <= ms[i].val.createdAt
    ensures FirstNewest(ms, me, p, i)
  {
    var n := |ms| - 1;
    assert forall j :: 0 <= j < n ==> ms[..n][j] == ms[j];
  }

  /** A message strictly newer than all before it in its conversation is kept. */
  lemma LastIsFirstNewest(ms: seq<Entry<Message>>, me: UserId, p: UserId)
    requires ms != [] && WithPartner(ms[|ms| - 1].val, me, p)
    requires forall j :: 0 <= j < |ms| - 1 && WithPartner(ms[j].val, me, p) ==> ms[j].val.createdAt < ms[|ms| - 1].val.createdAt
    ensures FirstNewest(ms, me, p, |ms| - 1)
  {
  }

  /** The first message from a partner no earlier message involves is kept. */
  lemma FirstFromPartner(ms: seq<Entry<Message>>, me: UserId, prev: seq<Conversation>)
    requires ms != [] && Tracks(prev, ms[..|ms| - 1], me) && Involves(ms[|ms| - 1].val, me)
    requires ConvIndex(prev, PartnerOf(ms[|ms| - 1].val, me)) == |prev|
    ensures FirstNewest(ms, me, PartnerOf(ms[|ms| - 1].val, me), |ms| - 1)
  {
    var n := |ms| - 1;
    var q := PartnerOf(ms[n].val, me);
    assert forall j :: 0 <= j < n ==> ms[..n][j] == ms[j];
    assert forall j :: 0 <= j < n ==> !WithPartner(ms[j].val, me, q);
    LastIsFirstNewest(ms, me, q);
  }

  /** A message strictly newer than the kept one replaces it. */
  lemma NewerFromPartner(ms: seq<Entry<Message>>, me: UserId, i0: nat)
    requires ms != [] && Involves(ms[|ms| - 1].val, me)
    requires FirstNewest(ms[..|ms| - 1], me, PartnerOf(ms[|ms| - 1].val, me), i0)
    requires ms[i0].val.createdAt < ms[|ms| - 1].val.createdAt
    ensures FirstNewest(ms, me, PartnerOf(ms[|ms| - 1].val, me), |ms| - 1)
  {
    var n := |ms| - 1;
    var q := PartnerOf(ms[n].val, me);
    forall j | 0 <= j < n && WithPartner(ms[j].val, me, q) ensures ms[j].val.createdAt < ms[n].val.createdAt {
      assert ms[..n][j] == ms[j];
    }
    LastIsFirstNewest(ms, me, q);
  }

  /** Each entry's last message is its conversation's newest, the earliest one
      winning a tie because the comparison is strict. */
  lemma {:induction false} LatestIsFirstNewest(ms: seq<Entry<Message>>, me: UserId, k: nat) returns (i: nat)
    requires k < |Latest(ms, me)|
    ensures i < |ms| && ms[i] == Latest(ms, me)[k].lastMessage
    ensures FirstNewest(ms, me, Latest(ms, me)[k].partnerId, i)
  {
    var n := |ms| - 1;
    var pre := ms[..n];
    var prev := Latest(pre, me);
    LatestTracks(pre, me);
    var last := ms[n];
    if !Involves(last.val, me) {
      i := LatestIsFirstNewest(pre, me, k);
      ExtendFirstNewest(ms, me, prev[k].partnerId, i);
      return;
    }
    var q := PartnerOf(last.val, me);
    var t := ConvIndex(prev, q);
    if t == |prev| {
      if k < |prev| {
        i := LatestIsFirstNewest(pre, me, k);
        ExtendFirstNewest(ms, me, prev[k].partnerId, i);
      } else {
        FirstFromPartner(ms, me, prev);
        i := n;
      }
    } else if last.val.createdAt > prev[t].lastMessage.val.createdAt {
      if k == t {
        var i0 := LatestIsFirstNewest(pre, me, t);
        NewerFromPartner(ms, me, i0);
        i := n;
      } else {
        i := LatestIsFirstNewest(pre, me, k);
        ExtendFirstNewest(ms, me, prev[k].partnerId, i);
      }
    } else {
      i := LatestIsFirstNewest(pre, me, k);
      ExtendFirstNewest(ms, me, prev[k].partnerId, i);
    }
  }

  /** The method's `Map` holds a conversation for exactly the partners `me`
      has exchanged a direct message with. */
  lemma ListedIffExchanged(ms: seq<Entry<Message>>, me: UserId, p: UserId)
    ensures Listed(Latest(ms, me), p) <==> exists j :: 0 <= j < |ms| && WithPartner(ms[j].val, me, p)
  {
    var cs := Latest(ms, me);
    LatestTracks(ms, me);
    if Listed(cs, p) {
      var k :| 0 <= k < |cs| && cs[k].partnerId == p;
      var j :| 0 <= j < |ms| && ms[j] == cs[k].lastMessage;
      assert WithPartner(ms[j].val, me, p);
    }
  }

  /** The first `forEach` of `getConversations`. */
  method CollectLatest(db: Database, me: UserId) returns (convs: seq<Conversation>)
    ensures convs == Latest(db.messages, me)
  {
    var ms := db.messages;
    convs := [];
    var i := 0;
    while i < |ms|
      invariant 0 <= i <= |ms|
      invariant convs == Latest(ms[..i], me)
    {
      assert ms[..i + 1][..i] == ms[..i];
      var m := ms[i].val;
      if m.to.Direct? && (m.senderId == me || m.to.receiverId == me) {
        var partner := if m.senderId == me then m.to.receiverId else m.senderId;
        var t := ConvIndex(convs, partner);
        if t == |convs| || m.createdAt > convs[t].lastMessage.val.createdAt {
          if t == |convs| {
            convs := convs + [Conversation(partner, ms[i])];
          } else {
            convs := convs[t := Conversation(partner, ms[i])];
          }
        }
      }
      i := i + 1;
    }
    assert ms[..i] == ms;
  }

  /** The `unreadCount` loop for one partner. */
  method CountUnreadFrom(db: Database, partner: UserId, me: UserId) returns (n: nat)
    ensures n == Queries.CountUnread(db.messages, partner, me)
  {
    var ms := db.messages;
    n := 0;
    var i := 0;
    while i < |ms|
      invariant 0 <= i <= |ms|
      invariant n == Queries.CountUnread(ms[..i], partner, me)
    {
      assert ms[..i + 1][..i] == ms[..i];
      var m := ms[i].val;
      if m.senderId == partner && m.to == Direct(me) && !m.isRead {
        n := n + 1;
      }
      i := i + 1;
    }
    assert ms[..i] == ms;
  }

  /** Some partner has no user record, so reading `user.userId` throws. */
  predicate PartnerMissing(users: seq<UserRecord>, cs: seq<Conversation>) {
    exists k :: 0 <= k < |cs| && !UserExists(users, cs[k].partnerId)
  }

  /** The reply elements, in `Map` order. */
  function Summaries(users: seq<UserRecord>, ms: seq<Entry<Message>>, cs: seq<Conversation>, me: UserId): (r: seq<ConversationSummary>)
    requires !PartnerMissing(users, cs)
    ensures |r| == |cs|
    ensures forall k :: 0 <= k < |cs| ==>
      && r[k].user in users && r[k].user.id == cs[k].partnerId
      && r[k].lastMessage == cs[k].lastMessage
      && r[k].unreadCount == Queries.CountUnread(ms, cs[k].partnerId, me)
  {
    seq(|cs|, k requires 0 <= k < |cs| =>
      assert UserExists(users, cs[k].partnerId);
      ConversationSummary(users[UserIndex(users, cs[k].partnerId)], cs[k].lastMessage, Queries.CountUnread(ms, cs[k].partnerId, me)))
  }

  /** The descending sort key `b.lastMessage.createdAt - a.lastMessage.createdAt`. */
  function NewestConversationFirst(s: ConversationSummary): int {
    -s.lastMessage.val.createdAt
  }

  /** The `Promise.all` over the conversations, which rejects on the first
      missing partner. */
  method SummarizeAll(db: Database, convs: seq<Conversation>, me: UserId) returns (ok: bool, ss: seq<ConversationSummary>)
    ensures ok <==> !PartnerMissing(db.users, convs)
    ensures ok ==> ss == Summaries(db.users, db.messages, convs, me)
  {
    ss := [];
    var k := 0;
    while k < |convs|
      invariant 0 <= k <= |convs|
      invariant !PartnerMissing(db.users, convs[..k])
      invariant ss == Summaries(db.users, db.messages, convs[..k], me)
    {
      var p := convs[k].partnerId;
      var u := UserIndex(db.users, p);
      if u == |db.users| {
        assert convs[k] in convs;
        return false, [];
      }
      var unread := CountUnreadFrom(db, p, me);
      assert convs[..k + 1] == convs[..k] + [convs[k]];
      ss := ss + [ConversationSummary(db.users[u], convs[k].lastMessage, unread)];
      k := k + 1;
    }
    assert convs[..k] == convs;
    ok := true;
  }

  /** `getConversations`: one summary per partner, most recent first. */
  method GetConversations(db: Database, me: UserId) returns (r: Response<seq<ConversationSummary>>)
    ensures PartnerMissing(db.users, Latest(db.messages, me)) ==> r == Fail(500, "Server error fetching conversations")
    ensures !PartnerMissing(db.users, Latest(db.messages, me)) ==>
      r == Ok(200, SortBy(Summaries(db.users, db.messages, Latest(db.messages, me), me), NewestConversationFirst))
  {
    var convs := CollectLatest(db, me);
    var ok, ss := SummarizeAll(db, convs, me);
    if !ok {
      return Fail(500, "Server error fetching conversations");
    }
    r := Ok(200, SortBy(ss, NewestConversationFirst));
  }

  /** What the listing promises: every summary belongs to one of the scanned
      conversations, names the partner of its last message, counts that
      partner's unread messages to `me`, and the list runs newest first. */
  lemma ListingFacts(users: seq<UserRecord>, ms: seq<Entry<Message>>, me: UserId)
    requires !PartnerMissing(users, Latest(ms, me))
    ensures var cs := Latest(ms, me);
      var r := SortBy(Summaries(users, ms, cs, me), NewestConversationFirst);
      && |r| == |cs|
      && (forall i :: 0 <= i < |r| ==>
            && r[i].user in users && r[i].lastMessage in ms
            && WithPartner(r[i].lastMessage.val, me, r[i].user.id)
            && r[i].unreadCount == Queries.CountUnread(ms, r[i].user.id, me))
      && (forall i, j :: 0 <= i < j < |r| ==> r[i].lastMessage.val.createdAt >= r[j].lastMessage.val.createdAt)
  {
    var cs := Latest(ms, me);
    LatestTracks(ms, me);
    var ss := Summaries(users, ms, cs, me);
    var r := SortBy(ss, NewestConversationFirst);
    forall i | 0 <= i < |r|
      ensures && r[i].user in users && r[i].lastMessage in ms
              && WithPartner(r[i].lastMessage.val, me, r[i].user.id)
              && r[i].unreadCount == Queries.CountUnread(ms, r[i].user.id, me)
    {
      assert r[i] in multiset(ss);
      var k :| 0 <= k < |ss| && ss[k] == r[i];
    }
    forall i, j | 0 <= i < j < |r| ensures r[i].lastMessage.val.createdAt >= r[j].lastMessage.val.createdAt {
      assert NewestConversationFirst(r[i]) <= NewestConversationFirst(r[j]);
    }
  }

  /** A direct message to or from an id with no user record — which the socket
      `message:send` handler stores without checking the receiver — makes the
      conversation list fail for the other party from then on. */
  lemma DanglingPartnerBreaksListing(users: seq<UserRecord>, ms: seq<Entry<Message>>, me: UserId, j: nat)
    requires j < |ms| && Involves(ms[j].val, me) && !UserExists(users, PartnerOf(ms[j].val, me))
    ensures PartnerMissing(users, Latest(ms, me))
  {
    var cs := Latest(ms, me);
    LatestTracks(ms, me);
    var t :| 0 <= t < |cs| && cs[t].partnerId == PartnerOf(ms[j].val, me);
    assert !UserExists(users, cs[t].partnerId);
  }

  // ----------------------------------------------------------- deleteMessage

  /** Removing the child at `i` removes key `k` from the collection and keeps
      every other message. */
  lemma RemoveDropsOnlyThatKey(ms: seq<Entry<Message>>, i: nat, k: Key)
    requires DistinctKeys(ms) && i < |ms| && ms[i].key == k
    ensures !HasKey(ms[..i] + ms[i + 1..], k)
    ensures forall j :: 0 <= j < |ms| && ms[j].key != k ==> ms[j] in ms[..i] + ms[i + 1..]
  {
    var rest := ms[..i] + ms[i + 1..];
    assert forall j :: 0 <= j < |rest| ==> rest[j] == if j < i then ms[j] else ms[j + 1];
    forall j | 0 <= j < |ms| && ms[j].key != k ensures ms[j] in rest {
      if j < i {
        assert rest[j] == ms[j];
      } else {
        assert rest[j - 1] == ms[j];
      }
    }
  }

  /** `deleteMessage`: only the sender may delete a message. */
  method DeleteMessage(db: Database, me: UserId, k: Key) returns (r: Response<string>)
    requires db.Valid()
    modifies db`messages
    ensures db.Valid()
    ensures !HasKey(old(db.messages), k) ==> r == Fail(404, "Message not found") && db.State() == old(db.State())
    ensures HasKey(old(db.messages), k) ==>
      var i := KeyIndex(old(db.messages), k);
      && (old(db.messages)[i].val.senderId != me ==>
            r == Fail(403, "Unauthorized to delete this message") && db.State() == old(db.State()))
      && (old(db.messages)[i].val.senderId == me ==>
            && db.State() == old(db.State()).(messages := old(db.messages)[..i] + old(db.messages)[i + 1..])
            && !HasKey(db.messages, k)
            && r == Ok(200, "Message deleted successfully"))
  {
    var i := KeyIndex(db.messages, k);
    if i == |db.messages| {
      return Fail(404, "Message not found");
    }
    if db.messages[i].val.senderId != me {
      return Fail(403, "Unauthorized to delete this message");
    }
    RemoveDropsOnlyThatKey(db.messages, i, k);
    db.RemoveMessageAt(i);
    r := Ok(200, "Message deleted successfully");
  }
}
