# Chat backend: a Dafny model

This project models the server core of a small real-time chat application. The application is an Express REST API plus a Socket.io event layer over a Firebase Realtime Database. Users search for each other and exchange friend requests. They hold one-to-one conversations and chat in groups that have admins and members.

The model has nine modules:

- `Store`: the database as the handlers use it. Class `Database` holds one sequence per collection (`users`, `messages`, `groups`, `groupMembers`, `friendships`), in child order, plus the key counter behind `push()`. Its invariant `Valid()` says:
  - keys are distinct;
  - every membership row names an existing group;
  - no user holds two rows in one group.
- `Text` and `Lists`: the JavaScript string and array built-ins the handlers rely on:
  - `trim`, `toLowerCase`, `includes`, `split`;
  - a stable `sort` with a comparator;
  - `slice(-parseInt(limit))`, `slice(0, 20)`;
  - the `[...new Set(ids)].filter(...)` idiom.
- `Auth`: the REST middleware that checks the `Authorization: Bearer` header.
- `Queries`: membership tests and the "mark everything from this sender as read" batch. The REST and socket layers share these.
- `Users`, `Messages`, `Groups`: the three REST controllers, one method per route handler. Each handler returns an HTTP status with a body or an error text. It changes the store exactly as the handler does, including the writes that happen before a later lookup fails with status 500.
- `Socket`: class `ChatServer`, the Socket.io layer. It holds the store, the `onlineUsers` map, and each connected socket's user and joined rooms. Each event handler returns the emissions it makes, as (target, event) pairs in order.

Some inputs from outside are parameters:

- `Date.now()` is a parameter `now`.
- `jwt.verify` with the server secret is a function parameter `verify`. It either decodes a user id or throws an error with a name.
- A request body field is an `Option`. `Missing` stands for the source's `!x` test: the field is absent or is the empty string.

## Model

| member | source | states |
|---|---|---|
| Store.Database.SetPresence | backend/socket/socketHandler.js:55-58 | `update(users/<id>, {isOnline, lastSeen})` rewrites exactly that user's presence fields and keeps the invariant |
| Store.Database.PushMessage | backend/controllers/messageController.js:85-95 | `push()` appends the record under a fresh key above every key in use; nothing else changes |
| Store.Database.PushGroup | backend/controllers/groupController.js:17-27 | a pushed group gets a fresh key, is found by that key, and every membership row still names an existing group |
| Store.Database.PushMembership | backend/controllers/groupController.js:382-391 | a row for a user not yet in an existing group is appended under a fresh key and the invariant holds |
| Store.Database.PushFriendship | backend/controllers/userController.js:87-95 | a pushed friendship record gets a fresh key; nothing else changes |
| Store.Database.SetRead | backend/controllers/messageController.js:138-147 | the batched update sets `isRead` on exactly the messages whose keys are in the batch |
| Store.Database.TouchGroup | backend/controllers/groupController.js:318-320 | only the group's `updatedAt` changes and every membership row still names an existing group |
| Store.Database.AcceptFriendship | backend/socket/socketHandler.js:314-317 | an existing record becomes ACCEPTED with the new `updatedAt`; on an unknown key the update creates a record holding only the written fields |
| Store.Database.RemoveMessageAt | backend/controllers/messageController.js:254 | `remove()` deletes exactly that child, keeping the order of the rest |
| Store.Database.RemoveMembershipAt | backend/controllers/groupController.js:454 | removing one membership row leaves exactly the other rows, in their order, and keeps the store invariant |
| Store.Database.RemoveFriendshipAt | backend/controllers/userController.js:281 | removing one friendship record deletes exactly that child |
| Store.KeyIndex | backend/controllers/messageController.js:241-246 | finds the first child with the key, or reports that there is none |
| Store.UserIndex | backend/middleware/authMiddleware.js:30-35 | finds the user record `users/<id>`; it reports that there is none exactly when no record has that id |
| Text.Trim | backend/controllers/groupController.js:10 | `trim()` leaves no surrounding white space and is empty exactly when the text is all white space |
| Text.TrimIsInfix | backend/controllers/groupController.js:10 | `trim()` returns the input with white space removed from its two ends and nothing else: a middle part whose cut-off prefix and suffix are all white space |
| Text.Utf16Length | backend/controllers/userController.js:10 | `length` counts UTF-16 code units: one character counts 1, or 2 when above U+FFFF; the total lies between the code-point count and twice it, and equals the code-point count exactly when no code point is above U+FFFF |
| Text.Utf16LengthAppend | backend/controllers/userController.js:10 | the units of a concatenation add up, so with the one-character case every code point above U+FFFF counts two |
| Text.TrimIdempotent | backend/controllers/messageController.js:72-89 | trimming twice is trimming once |
| Text.Lower | backend/controllers/userController.js:18 | `toLowerCase()` lowers every letter A-Z and keeps every other character |
| Text.LowerIdempotent | backend/controllers/userController.js:26-27 | lowering an already lowered text changes nothing |
| Text.Contains | backend/controllers/userController.js:26-27 | `includes` holds exactly when the needle occurs at some position |
| Text.Split | backend/middleware/authMiddleware.js:17 | `split(' ')` yields at least one field and no field holds the separator |
| Text.JoinSplit | backend/middleware/authMiddleware.js:17 | joining the fields of `split` with the separator gives back the original text |
| Text.FirstField | backend/middleware/authMiddleware.js:17 | the first field is the prefix up to the first separator |
| Lists.SortBy | backend/controllers/groupController.js:244 | `sort` with a key comparator returns a permutation of its input that is ordered by the key |
| Lists.InsertStable | backend/controllers/groupController.js:244 | inserting an element puts it before every element with an equal key |
| Lists.InsertPastHead | backend/controllers/groupController.js:244 | the step of the above where the element goes past the head |
| Lists.SortByStable | backend/controllers/groupController.js:244 | `sort` is stable: the elements that share a key keep their input order |
| Lists.LastOfSorted | backend/controllers/groupController.js:244-247 | every element of the last page of a sorted list comes from the input, the page is ordered by the key, and no element occurs in it more often than in the input |
| Lists.PageOfFiltered | backend/controllers/groupController.js:233-247 | a page of a filtered list is the last `PageSize` elements of the sorted filtered list, each from the input and satisfying the filter, ordered by the key, and without repeats when the input has none |
| Lists.SortByFirstIsLeast | backend/controllers/groupController.js:135-139 | after sorting, `messages[0]` is an element with the least key, here the newest message |
| Lists.CountSortBy | backend/controllers/groupController.js:152-158 | sorting does not change how many elements satisfy a predicate |
| Lists.CountIsFilterLength | backend/controllers/groupController.js:152-158 | counting in a `forEach` equals the length of the filtered list |
| Lists.Filter | backend/controllers/messageController.js:20-22 | the kept elements are exactly the elements that satisfy the predicate |
| Lists.FilterAppend | backend/controllers/messageController.js:20-22 | filtering a concatenation concatenates the filtered parts, so the kept elements stay in input order |
| Lists.FilterSingle | backend/controllers/messageController.js:20-22 | a one-element list is kept exactly when its element satisfies the predicate |
| Lists.FilterCons | backend/controllers/messageController.js:20-22 | filtering a list with a head filters the head, then the rest |
| Lists.FilterSubMultiset | backend/controllers/messageController.js:20-22 | the filter keeps no element more often than the input holds it |
| Lists.DistinctSubMultiset | backend/controllers/messageController.js:20-34 | a list that holds no element more often than a repeat-free list is itself repeat-free |
| Lists.FilterMembers | backend/controllers/messageController.js:20-22 | every kept element is an element of the input that satisfies the predicate |
| Lists.LastN | backend/controllers/groupController.js:247 | `slice(-parseInt(limit))` is a suffix: the last 50 by default, the last n for a positive n, all but the first -n for a negative n, and everything for 0 or a non-number |
| Lists.Take | backend/controllers/userController.js:40 | `slice(0, 20)` is a prefix of at most 20 elements, the whole list when it is short enough |
| Lists.Dedup | backend/controllers/groupController.js:40 | `[...new Set(ids)]` holds each id of the input exactly once |
| Lists.Remove | backend/controllers/groupController.js:40 | `filter(id => id !== me)` keeps every id except `me` |
| Auth.Authenticate | backend/middleware/authMiddleware.js:7-54 | a request passes exactly when the header starts with "Bearer ", its token is non-empty, it decodes, and the user exists; every refusal is 401, except that a verification error with any name other than JsonWebTokenError or TokenExpiredError gives 500, and only such an error does |
| Auth.TokenOf | backend/middleware/authMiddleware.js:17 | the token is the text after "Bearer " up to the next space |
| Auth.AdmitsValidBearer | backend/middleware/authMiddleware.js:24-43 | every well-formed header whose token decodes to a registered user is let through with that user id |
| Auth.LowerCaseSchemeRefused | backend/middleware/authMiddleware.js:12-14 | the scheme test is case-sensitive: "bearer x" is refused with 401 |
| Auth.DoubleSpaceRefused | backend/middleware/authMiddleware.js:17-21 | two spaces after the scheme leave an empty token, refused with 401 |
| Auth.TokenStopsAtSpace | backend/middleware/authMiddleware.js:17 | text after a second space is not part of the token |
| Auth.VerifyErrorsMapped | backend/middleware/authMiddleware.js:44-52 | JsonWebTokenError gives "Invalid token", TokenExpiredError gives "Token expired", an error with any other name gives 500, and an unknown user gives 401 |
| Queries.IsMember | backend/controllers/groupController.js:222-233 | the scan over the group's rows reports membership exactly when some row names the user |
| Queries.ReadAllFrom | backend/controllers/messageController.js:126-147 | marking as read sets `isRead` on exactly the unread direct messages from the sender to the reader and keeps every other message and every key |
| Queries.WithReadIsReadAll | backend/controllers/messageController.js:138-147 | the multi-path update of the collected keys is that reference meaning |
| Queries.ReadAllLeavesNoneUnread | backend/controllers/messageController.js:126-147 | afterwards nothing from the sender to the reader is unread |
| Queries.ReadAllIdempotent | backend/socket/socketHandler.js:232-263 | marking as read twice is marking once, and the second batch is empty |
| Queries.CollectUnread | backend/socket/socketHandler.js:239-247 | the loop collects exactly the keys of the unread messages from the sender to the reader |
| Queries.MarkRead | backend/socket/socketHandler.js:232-252 | the store afterwards holds the marked-as-read messages; an update is issued exactly when something was unread |
| Queries.PostToGroup | backend/controllers/groupController.js:306-321 | a member's message is appended under a fresh key and only that group's `updatedAt` changes; users and rows are untouched |
| Groups.LastRowFor | backend/controllers/groupController.js:436-445 | the `forEach` ends on the last row for (group, user); there is none exactly when the user is not a member |
| Groups.GroupWithMembers | backend/controllers/groupController.js:67-106 | the group with its rows, which are the rows filtered by group in store order (see Lists.FilterAppend); it fails (a TypeError) exactly when the group, its creator or some member's user record is missing |
| Groups.TrimmedOrNull | backend/controllers/groupController.js:20 | `description?.trim() \|\| null` is the trimmed text when that is non-empty, and null otherwise |
| Groups.MemberRows | backend/controllers/groupController.js:42-49 | one MEMBER row per invited id, under consecutive fresh keys |
| Groups.InvitedIds | backend/controllers/groupController.js:40 | the invited ids are the given ids other than the creator, each once |
| Groups.NoRowsForFreshKey | backend/controllers/groupController.js:17-30 | no existing row names the key the new group gets |
| Groups.NewGroupRoster | backend/controllers/groupController.js:30-49 | after creation the members are exactly the creator and the given ids, and only the creator is ADMIN |
| Groups.StartGroup | backend/controllers/groupController.js:17-36 | the group is pushed, then the creator's ADMIN row |
| Groups.WriteNewGroup | backend/controllers/groupController.js:17-49 | the store afterwards is the old one plus the group, its creator's ADMIN row and one MEMBER row per invited id, under consecutive fresh keys |
| Groups.AddMembers | backend/controllers/groupController.js:42-49 | one MEMBER row is pushed per invited id |
| Groups.CreateGroup | backend/controllers/groupController.js:6-62 | 400 "Group name is required" for a blank name and no write; otherwise the group and its roster are written and the reply is 201 with the group, or 500 when enrichment fails |
| Groups.Summarize | backend/controllers/groupController.js:121-164 | a group's summary carries its newest message (none when it has no messages) and the number of messages others sent that are unread |
| Groups.SummariesAreMyGroups | backend/controllers/groupController.js:111-164 | the summaries are exactly the groups the user has a row in |
| Groups.CollectSummaries | backend/controllers/groupController.js:119-164 | the loop over the rows builds the summary list of the rows that name the user, and fails once any group cannot be enriched |
| Groups.CountUnreadByOthers | backend/controllers/groupController.js:152-158 | the loop counts the messages not sent by the user and not read |
| Groups.SummarizeGroup | backend/controllers/groupController.js:121-164 | one summary is computed as the specification function says |
| Groups.GetUserGroups | backend/controllers/groupController.js:111-175 | 200 with the user's groups, most recently updated first; 500 when some group cannot be enriched |
| Groups.SortedGroups | backend/controllers/groupController.js:168 | after sorting, the groups are most recently updated first and each is still a group of the user |
| Groups.GetGroupDetails | backend/controllers/groupController.js:180-206 | 403 "Not a member of this group" for a non-member; otherwise 200 with the group and its members, or 500 |
| Groups.GroupPage | backend/controllers/groupController.js:233-247 | a page is the last `PageSize` of the group's messages sorted oldest first: only the group's messages, ordered by time, each at most once when the store repeats none |
| Groups.GetGroupMessages | backend/controllers/groupController.js:211-272 | 403 for a non-member, else 200 with the page |
| Groups.SendGroupMessage | backend/controllers/groupController.js:277-343 | 400 or 403 with no write on a missing field, blank content or a non-member; otherwise the trimmed message is pushed and the group's `updatedAt` is set, then 201, or 500 when the sender's record is missing |
| Groups.ScanGroup | backend/controllers/groupController.js:433-444 | one scan finds whether the caller is an admin and the target's last row |
| Groups.AddGroupMember | backend/controllers/groupController.js:348-415 | 400 for missing fields, 403 "Only admins can add members", 400 "User is already a member"; otherwise a MEMBER row is pushed and the user is then a member |
| Groups.RemoveRowEndsMembership | backend/controllers/groupController.js:454 | with no duplicate rows, removing the found row ends that membership and no other |
| Groups.RemoveGroupMember | backend/controllers/groupController.js:420-461 | 400 for missing fields; 403 unless the caller is an admin or removes themself; 404 for a non-member; otherwise the row is removed and the user is no longer a member |
| Groups.FindOwnRow | backend/controllers/groupController.js:476-484 | the loop finds the caller's last row in the group |
| Groups.LeaveGroup | backend/controllers/groupController.js:466-494 | 404 for a non-member; otherwise the caller's row is removed and they are no longer a member |
| Users.CollectMatches | backend/controllers/userController.js:20-38 | the loop keeps exactly the other users whose id or username contains the lowered query |
| Users.SearchUsers | backend/controllers/userController.js:6-45 | 400 for a query shorter than 2 UTF-16 units after trimming; otherwise the first 20 matches in store order (a prefix of the filtered users, see Lists.FilterAppend), never the caller, and every match when there are at most 20 |
| Users.AstralQueryIsLongEnough | backend/controllers/userController.js:10 | a query of one code point above U+FFFF is two units long and is searched |
| Users.SearchIgnoresCase | backend/controllers/userController.js:18-27 | a username that equals the query up to letter case is found |
| Users.FindLink | backend/controllers/userController.js:70-82 | the scan finds a record linking the two users in either direction, whatever its status |
| Users.RequestKeepsOneRecordPerPair | backend/controllers/userController.js:70-95 | the REST request path keeps one record per pair of users |
| Users.SendFriendRequest | backend/controllers/userController.js:50-119 | 400 for a missing id or the caller themself, 404 for an unknown user, 400 when a record already links the pair; otherwise a PENDING record is pushed with 201, and one record per pair is kept |
| Users.AcceptKeepsParties | backend/controllers/userController.js:145-148 | accepting changes only status and `updatedAt` of the one record |
| Users.AcceptKeepsOneRecordPerPair | backend/controllers/userController.js:145-148 | accepting keeps one record per pair of users, since no record changes its parties |
| Users.AcceptFriendRequest | backend/controllers/userController.js:124-173 | 404 for an unknown id, 403 unless the caller is the addressee; otherwise the record is accepted, then 200, or 500 when the requester is missing; one record per pair is kept |
| Users.RequestStep | backend/controllers/userController.js:186-204 | each step of the loop extends the pending-request list by the one record |
| Users.CollectRequests | backend/controllers/userController.js:186-204 | the loop collects exactly the pending requests addressed to the caller, and fails exactly when a requester is missing |
| Users.SortedRequests | backend/controllers/userController.js:207 | the sorted list holds every pending request to the caller and nothing else, newest first |
| Users.GetFriendRequests | backend/controllers/userController.js:178-214 | 200 with every pending request to the caller, newest first; 500 when a requester's record is missing |
| Users.FriendsOf | backend/controllers/userController.js:226-246 | every listed user is linked to the caller by an ACCEPTED record |
| Users.FriendsOfComplete | backend/controllers/userController.js:226-246 | every existing user linked to the caller by an ACCEPTED record is listed |
| Users.GetFriends | backend/controllers/userController.js:219-255 | 200 with the friends list |
| Users.LastLink | backend/controllers/userController.js:267-275 | the scan ends on the last record linking the pair; there is none exactly when they are not linked |
| Users.RemoveEndsFriendship | backend/controllers/userController.js:281 | with one record per pair, removing it unlinks the pair and keeps the property |
| Users.FindLastLink | backend/controllers/userController.js:267-275 | the loop finds the last linking record |
| Users.RemoveFriend | backend/controllers/userController.js:260-288 | 404 "Friendship not found" when not linked; otherwise that record is removed, with 200, and the pair is then unlinked |
| Messages.CollectExchanged | backend/controllers/messageController.js:16-29 | the loop keeps exactly the direct messages between the two users |
| Messages.ConversationPage | backend/controllers/messageController.js:16-34 | a page is the last `PageSize` of the conversation sorted oldest first: only messages between the two users, ordered by time, at most 50 by default, each at most once when the store repeats none |
| Messages.WholeConversationWithoutLimit | backend/controllers/messageController.js:34 | a limit of 0 or a non-number returns the whole conversation |
| Messages.GetConversation | backend/controllers/messageController.js:6-59 | 200 with the page |
| Messages.SendMessage | backend/controllers/messageController.js:64-117 | 400 for missing fields or blank content, 404 for an unknown receiver, with no write; otherwise the trimmed message is pushed, then 201, or 500 when the sender's record is missing |
| Messages.StoreMessage | backend/controllers/messageController.js:83-116 | the message is appended under a fresh key, then 201, or 500 when the sender's record is missing |
| Messages.MarkAsRead | backend/controllers/messageController.js:122-154 | 400 "Sender ID is required"; otherwise every unread message from the sender to the caller is marked read, with 200 |
| Messages.OpenedConversationMatchesList | backend/controllers/messageController.js:166-187 | a message belongs to the conversation with a partner exactly when the listing files it under that partner |
| Messages.ConvIndex | backend/controllers/messageController.js:175-177 | the lookup in the conversations map finds the partner's entry, or reports that there is none |
| Messages.LatestTracks | backend/controllers/messageController.js:166-187 | the fold gives one entry per partner; each entry holds a message of that conversation, and every partner of the caller has an entry |
| Messages.LatestIsFirstNewest | backend/controllers/messageController.js:176-183 | each entry holds the first of the newest messages with that partner; a later message with an equal time does not replace it |
| Messages.ListedIffExchanged | backend/controllers/messageController.js:166-187 | a partner is listed exactly when some direct message connects them with the caller |
| Messages.CollectLatest | backend/controllers/messageController.js:166-187 | the loop computes the fold |
| Messages.CountUnreadFrom | backend/controllers/messageController.js:196-204 | the loop counts the partner's unread messages to the caller |
| Messages.Summaries | backend/controllers/messageController.js:190-219 | each summary carries the partner's record, the last message and the unread count |
| Messages.SummarizeAll | backend/controllers/messageController.js:190-219 | the summaries are built, failing exactly when a partner's record is missing |
| Messages.GetConversations | backend/controllers/messageController.js:159-229 | 200 with the summaries, newest last message first; 500 when a partner's record is missing |
| Messages.ListingFacts | backend/controllers/messageController.js:190-222 | each listed conversation names an existing partner, one of its messages and its unread count, and the list is newest first |
| Messages.DanglingPartnerBreaksListing | backend/controllers/messageController.js:190-208 | one direct message to or from a missing user makes the listing fail with 500 |
| Messages.RemoveDropsOnlyThatKey | backend/controllers/messageController.js:254 | removing the message drops that key and keeps every other message |
| Messages.DeleteMessage | backend/controllers/messageController.js:234-261 | 404 for an unknown id, 403 unless the caller sent it; otherwise the message is removed, with 200 |
| Socket.Handshake | backend/socket/socketHandler.js:12-44 | a socket is admitted exactly when a token is present, it decodes, and the user exists; "User not found" exactly when it decodes to an unknown user |
| Socket.RoomsFor | backend/socket/socketHandler.js:67-75 | on connect a socket joins its user's room and exactly the rooms of the groups its user has a row in |
| Socket.ChatServer.constructor | backend/socket/socketHandler.js:5 | the server starts with no online users and no connections |
| Socket.ChatServer.Connect | backend/socket/socketHandler.js:46-75 | the user is mapped to this socket and marked online, the socket joins its rooms, `user:online` goes to everyone, and every user in `onlineUsers` is still mapped to a connected socket of that user |
| Socket.ChatServer.SendDirect | backend/socket/socketHandler.js:78-122 | a missing receiver id or content gives "Failed to send message" with no write; otherwise the trimmed message is pushed with no checks, the receiver gets it if online and the sender gets a confirmation, and a missing sender gives an error event |
| Socket.ChatServer.Deliver | backend/socket/socketHandler.js:83-116 | the message is appended under a fresh key; the notices go to the online receiver and the sender unless the sender's record is missing |
| Socket.ChatServer.SendToGroup | backend/socket/socketHandler.js:125-183 | a non-member gets "Not a member of this group" and nothing is written; otherwise the message is pushed, the group is touched, and the message is broadcast to the group's room |
| Socket.ChatServer.PostAsMember | backend/socket/socketHandler.js:143-182 | for a member, no content fails with no write; otherwise the trimmed message is pushed, the group is touched, and the broadcast goes to the group's room unless the sender's record is missing |
| Socket.ChatServer.Typing | backend/socket/socketHandler.js:186-209 | the typing status goes to the receiver's socket exactly when the receiver is online |
| Socket.ChatServer.GroupTyping | backend/socket/socketHandler.js:211-229 | the group typing status goes to the group's room, never to the sender |
| Socket.ChatServer.ReadMessages | backend/socket/socketHandler.js:232-263 | marks the sender's messages to this user as read and confirms to the sender when they are online |
| Socket.ChatServer.SendFriendRequest | backend/socket/socketHandler.js:266-307 | a missing friend id gives "Failed to send friend request" with no write; otherwise a PENDING record is pushed with no self or duplicate check and both sides are notified |
| Socket.ChatServer.AcceptFriendRequest | backend/socket/socketHandler.js:310-358 | accepts the record whoever it is addressed to, creating a partial record on an unknown id, then notifies the requester and the caller |
| Socket.ChatServer.Disconnect | backend/socket/socketHandler.js:361-377 | the user leaves `onlineUsers`, is marked offline, `user:online` false goes to everyone, and every user still in `onlineUsers` is mapped to a connected socket of that user |
| Socket.MemberAtConnectHearsGroup | backend/socket/socketHandler.js:72-75 | a socket whose user had a row in the group at connect time receives the group's broadcasts |
| Socket.LateMemberMissesGroup | backend/socket/socketHandler.js:72-75 | a socket that connected before its user joined the group misses the group's broadcasts until it reconnects |
| Socket.RepeatedRequestDuplicatesPair | backend/socket/socketHandler.js:266-280 | a repeated socket request leaves two records for one pair of users, which the REST path prevents |
| Socket.StaleDisconnectEvicts | backend/socket/socketHandler.js:361-365 | after a second connection and the close of the first, the user is no longer listed as online although a socket is still connected |

## Left out

- Profile enrichment: the `sender`, `user`, `creator` and `members[].user` sub-objects and the avatar URL are not modelled. Only the way they fail is modelled: reading a field of a missing record throws a TypeError, and the handler then answers 500.
- `jwt.verify`, `bcrypt` and the JWT secret are not modelled. Verification is the parameter `verify`, and signature and expiry checks stay inside it.
- authController.js (register, login, getProfile, logout) is not part of this model. Neither are the route files, which only bind URLs to handlers, nor the frontend.
- Concurrency: every handler runs to completion on its own. Interleavings of `await`s between concurrent requests are not modelled.
- Store errors other than the modelled missing-record lookups are not modelled. That includes network failures and permission errors that the `catch` blocks would turn into 500.
- Push keys are natural numbers from a counter. Firebase keys are time-ordered strings. The JavaScript `!id` test would reject a key that is falsy, but no push key is.
- `orderByChild(...).equalTo(...)` queries are modelled as filters over the collection in child order. Firebase's ordering of equal children by key is not modelled.
- Text.Lower: lowers only A-Z. `toLowerCase()` also folds other Unicode letters.
- Lists.SortBy: a stable insertion sort, proved stable by Lists.SortByStable. Engines are free to use another algorithm, but ES2019 requires stability, so the result is the same.
- Strings are sequences of Unicode code points. A JavaScript string holding an unpaired surrogate has no counterpart here.
- `parseInt(limit)` is the parameter `Limit`: the default 50, a parsed integer, or NaN. The parsing of the query string is not modelled.
- Socket rooms are a datatype: a user's room or a group's room. A user id that spells "group:" followed by a group key would share the room in the source; that collision is not modelled.
- Socket.io transport, acknowledgements and reconnection are not modelled. Emissions are returned as a list.
- Users.FriendsOf: its own contract states only that every listed user is a friend. Completeness is the separate lemma `Users.FriendsOfComplete`. The order of the list and the repetition of a friend linked by two records are not stated.
