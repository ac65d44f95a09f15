# Chat server core in Dafny

This project models the server side of a small chat application. The
repository holds three prototypes of the same server, and each is modelled
here in its own terms:

- **Sequelize service layer** (`src/services/`). Friendship records carry a
  requester, an addressee and a status (`pending`, `accepted`, `rejected`,
  `blocked`). Messages move through the status machine sent → delivered →
  read, each step guarded by "caller is the receiver" and by "timestamp not
  yet set". A socket service keeps the `connectedUsers` map from user id to
  socket id.
- **Raw-SQL controllers** (`controllers/`). These work on the PostgreSQL
  tables `users`, `friends` and `messages`. A friend request is a pending
  row. Accepting it promotes that row and inserts an accepted reverse row.
  Reading a conversation marks the caller's incoming messages delivered as a
  side effect.
- **Mongo routes and socket handlers** (`routes/`, `socket/`). Users embed
  `friends` and `friendRequests` lists. The socket handlers keep the
  module-level `onlineUsers` object. A message is saved as `delivered` if
  and only if the receiver is registered at send time. One copy of the
  handlers adds a best-effort web-push hook for offline receivers.

Every handler is one atomic step over in-memory tables held by a class:
`SequelizeModels.Store`, `PgModels.PgStore`, `MongoModels.MongoStore` and
`OnlineRegistry.OnlineUsers`. Each class keeps an invariant (`Valid()`)
built from the constraints that store's schema declares and the rules its
handlers maintain:

- unique usernames (all three stores);
- `UNIQUE(user_id, friend_id)` and the foreign keys from `friends` and
  `messages` rows to `users` (the PostgreSQL store only);
- in the PostgreSQL store, an accepted row always has an accepted reverse
  row, and a pending row has none;
- in the Sequelize store, at most one pending, accepted or blocked record
  per pair of users, a rule the intended duplicate check keeps (the check as
  written does not; see Findings);
- message timestamps that agree with the message's status;
- messages in creation order.

Ids are natural numbers, and 0 plays JavaScript's falsy id. A record's id is
its 1-based position in its table. The wall clock is a counter field
`clock` that moves forward with every stamped write. Socket emissions go to
a ghost event log instead of a transport. Failures are values of
`Common.Result`: a thrown error or an HTTP error reply becomes an `Err`
carrying the matching `Common.Error`.

Files:

- `common.dfy`: ids, status enumerations, errors, events and pagination.
- `sequelize_models.dfy`, `message_service.dfy`, `user_service.dfy` and
  `socket_service.dfy`: the Sequelize prototype.
- `pg_models.dfy`, `friend_controller.dfy` and `message_controller.dfy`: the
  raw-SQL prototype.
- `mongo_models.dfy`, `user_routes.dfy`, `online_registry.dfy` and
  `mongo_socket.dfy`: the Mongo prototype. `MongoSocket.ChatSocket` models
  both `socket/socket.js` and `routes/socket.js`. Its `pushOnOffline` flag
  is true for the second file, which adds the offline push branch.

## Behaviour worth knowing

The model follows the code in these places, where one might expect
otherwise:

- Message status is not monotone. `updateMessageStatus` accepts `delivered`
  after `read` when `deliveredAt` was never set
  (`MessageService.LateDeliveryRegresses`).
- The Sequelize socket service's disconnect deletes the user's entry
  whatever socket it names now, so a user who reconnected on a newer socket
  loses that entry too (`SocketService.SocketServer.Disconnect`). The Mongo
  handlers delete only an entry naming the closing socket
  (`OnlineRegistry.OnlineUsers.Disconnect`).
- Presence changes are broadcast to every connected client, not only to
  friends. The log records each as one broadcast event.
- A friend request is refused on a `blocked` record as well as on a
  pending or accepted one.
- The socket service's `sendMessage` claims in a comment that it checks
  friendship, but it creates the message directly. The model persists the
  message with no check.

## Model

| member | source | states |
|---|---|---|
| Common.Page | src/services/messageService.js:33-34 | `LIMIT`/`OFFSET`: the page has min(limit, rows after offset) entries, and entry k is row offset + k |
| SequelizeModels.Store.InsertMessage | src/services/messageService.js:20 | appends one `sent` message with the given sender, receiver and content, no delivered/read time, sent now; the id is the new row's position; the store invariant holds |
| MessageService.CreateMessage | src/services/messageService.js:4-22 | succeeds iff an accepted record joins the pair in either direction; a refusal is `NotFriends` and adds nothing; success appends exactly one `sent` message with the given sender, receiver and content |
| MessageService.UpdateStatus | src/services/messageService.js:50-63 | a caller other than the receiver is refused; for the receiver it succeeds iff the target is `delivered` with `deliveredAt` unset or `read` with `readAt` unset, otherwise `InvalidStatusUpdate`; success sets the status and that one timestamp to now and changes nothing else; timestamps stay consistent with the status |
| MessageService.UpdateMessageStatus | src/services/messageService.js:43-67 | an unknown id is `MessageNotFound`; otherwise the reply is `UpdateStatus` of the stored message and, on success, that message alone is replaced; a failure changes nothing |
| MessageService.PairMessages | src/services/messageService.js:25-32 | exactly the messages sent between the two users in either direction, in creation order |
| MessageService.GetConversation | src/services/messageService.js:24-39 | `LIMIT`/`OFFSET` over the pair's messages: exactly min(limit, pair messages after offset) of them (limit 50 and offset 0 by default), entry k being pair message offset + k; all between the pair, ascending by `sentAt` |
| MessageService.PairMessagesSymmetric | src/services/messageService.js:26-31 | the pair filter does not depend on which user is named first |
| MessageService.ConversationSymmetric | src/services/messageService.js:24-39 | both participants get the same conversation page |
| MessageService.StatusAdvances | src/services/messageService.js:55-61 | each successful update raises the status rank, except `delivered` after `read` |
| MessageService.LateDeliveryRegresses | src/services/messageService.js:55-57 | a message read without ever being delivered can be moved back to `delivered` by its receiver |
| MessageService.RepeatedUpdateFails | src/services/messageService.js:55-63 | repeating a successful update fails, so each timestamp is set at most once |
| UserService.FindUserByUsername | src/services/userService.js:10-15 | returns a stored user with that username, and none iff no user has it |
| UserService.FirstWhere | src/services/userService.js:26-33 | the first record in table order that satisfies the query, and none iff no record does |
| UserService.ExistingGuardAsWritten | src/services/userService.js:26-43 | the duplicate check as written: it passes iff every record joining the pair is rejected or comes after another joining record, so only the first joining record is examined |
| UserService.ExistingGuard | src/services/userService.js:26-43 | the intended duplicate check: it passes iff no pending, accepted or blocked record joins the pair in either direction; an error comes from such a record's status |
| UserService.RequestGuard | src/services/userService.js:17-43 | an unknown username is `UserNotFound`; naming oneself is `SelfRequest`; it succeeds, with the addressee's id, iff the named user is someone else and no active record joins the two |
| UserService.RequestKeepsOneActive | src/services/userService.js:45 | a pending record added after a passing check keeps at most one active record per pair |
| UserService.SendFriendRequest | src/services/userService.js:17-47 | a refused request changes nothing; otherwise exactly one pending record requester→addressee is appended and its id returned |
| UserService.Respond | src/services/userService.js:55-62 | only the addressee may answer and only a pending record; success sets the given status and nothing else |
| UserService.RespondToFriendRequest | src/services/userService.js:49-65 | an unknown id is `RequestNotFound`; otherwise the reply is `Respond` of the stored record, saved in place; a failure changes nothing |
| UserService.GetFriendsList | src/services/userService.js:67-89 | x is listed iff an accepted record joins the user and x; under the one-active-record invariant no id is listed twice, so each accepted record contributes its other party exactly once |
| UserService.PendingUpTo | src/services/userService.js:91-104 | among the first n records, each pending one addressed to the user is listed, projected to its id, requester and creation time, and every entry is such a projection |
| UserService.GetPendingFriendRequests | src/services/userService.js:91-104 | exactly the pending records whose addressee is the user, as (id, requester, created), with ids strictly ascending, so one entry per record in table order |
| UserService.PendingIdsAscend | src/services/userService.js:91-104 | the pending-request projection lists record ids in strictly ascending order, so no record appears twice |
| UserService.FindOneMissesActiveRecord | src/services/userService.js:26-45 | with records [1→2 rejected, 1→2 accepted], the check as written lets a new request through, which breaks the one-active-record rule; the intended check answers `AlreadyFriends` |
| UserService.RejectedThenAcceptedIsReachable | src/services/userService.js:17-65 | that record table arises from the service's own steps: request, reject, request again, accept |
| SocketService.SetPresence | src/services/socketService.js:105 | only the user's row changes: its online flag and last-online time are set, and ids and usernames stay unique |
| SocketService.FreshDeliveryAccepted | src/services/socketService.js:117-123 | moving the freshly created message to `delivered` on behalf of its receiver always succeeds |
| SocketService.SocketServer.InitSocketIO | src/services/socketService.js:75-81 | after initialisation the server exists and the registry is untouched |
| SocketService.SocketServer.GetIo | src/services/socketService.js:171-176 | fails with `NotInitialized` iff the server was never created |
| SocketService.SocketServer.Connection | src/services/socketService.js:100-106 | the registry maps the user to this socket, replacing any earlier one; the user is marked online; an online broadcast is logged |
| SocketService.SocketServer.SendMessage | src/services/socketService.js:111-138 | a sender or receiver naming no user fails the insert's foreign key: the reply is a failure and nothing changes; otherwise a `sent` message is persisted with no friendship check; iff the receiver is registered it becomes `delivered` and the receiver and sender are notified; the reply carries the message as created |
| SocketService.SocketServer.MarkMessageAsRead | src/services/socketService.js:140-151 | the reply is `updateMessageStatus(id, read, caller)`, so only the receiver succeeds and only once; on success the sender is notified iff registered |
| SocketService.SocketServer.Disconnect | src/services/socketService.js:160-165 | the user's entry is deleted whatever socket it names, the user is marked offline, and an offline broadcast is logged |
| MongoModels.RenameFreeUpdate | models/user.model.js:12 | replacing a user document by one with the same username keeps usernames unique |
| MongoModels.MongoStore.SaveMessage | socket/socket.js:30-37 | appends one message with the given sender, receiver, content and status, created now |
| UserRoutes.Register | routes/user.routes.js:19-30 | a missing username or password is refused, and so is an existing username; otherwise exactly one new user with no friends and no requests is added |
| UserRoutes.WithoutRequestsFrom | routes/user.routes.js:68 | keeps exactly the entries not from the sender, so none from the sender remain |
| UserRoutes.WithoutRequestsFromCounts | routes/user.routes.js:68 | the filter keeps each entry from another sender exactly as often as it occurs and drops every entry from the sender |
| UserRoutes.WithoutAbsentSenderIsIdentity | routes/user.routes.js:67-68 | filtering out a sender with no entry leaves the list unchanged |
| UserRoutes.FriendRequestGuard | routes/user.routes.js:55-58 | an unknown recipient is `UserNotFound`; either side already listing the other is `AlreadyFriends`; a request already held from the sender is refused; otherwise it passes |
| UserRoutes.FriendRequest | routes/user.routes.js:52-62 | on success exactly one `{userId, username}` entry for the sender is appended to the recipient's requests, and nothing else changes; a refusal changes nothing |
| UserRoutes.RespondFriendRequest | routes/user.routes.js:64-79 | no request from the sender is `RequestNotFound` and changes nothing; a self-request accepted keeps only the sender's save (the caller gains itself once as a friend and keeps the request) and fails with `VersionConflict`, because both saves target one document and the second is guarded by the version the first raised; otherwise all of that sender's entries are removed, and on accept of an existing sender each user is appended to the other's friends with no other user or field changed; on reject the friend lists are unchanged |
| UserRoutes.ChatHistory | routes/user.routes.js:90-94 | exactly the pair's messages in either direction, ascending by `createdAt` |
| OnlineRegistry.FirstMappedTo | socket/socket.js:68-69 | the first key in enumeration order whose entry is this socket, and none iff no entry is |
| OnlineRegistry.OnlineUsers.Lookup | socket/socket.js:29 | the user's socket iff the user has an entry |
| OnlineRegistry.OnlineUsers.GoOnline | socket/socket.js:13-15 | a falsy id changes nothing; otherwise the user maps to this socket, overwriting any earlier one, and a new key goes last in enumeration order |
| OnlineRegistry.OnlineUsers.Disconnect | socket/socket.js:66-77 | removes at most one entry: the first in enumeration order whose value is this socket; every entry naming another socket survives, including a user re-registered on a newer socket |
| MongoSocket.InitialStatus | socket/socket.js:29-36 | the saved status is `delivered` iff the receiver has a registry entry, otherwise `sent` |
| MongoSocket.ChatSocket.GoOnline | socket/socket.js:13-19 | a falsy id changes nothing and emits nothing; otherwise the registry maps the user to this socket, a new user goes last in key order, and the key list is broadcast (the same handler is at routes/socket.js:29-34) |
| MongoSocket.ChatSocket.NotifyOffline | routes/socket.js:61-92 | a push attempt is logged iff push is enabled and the receiver has a subscription; messages and users are untouched |
| MongoSocket.ChatSocket.PrivateMessage | routes/socket.js:37-94 | nothing is saved and an error is emitted unless the sender exists and lists the receiver as a friend; an empty content fails the schema's `required` check, so nothing is saved or emitted; otherwise one message is saved first, `delivered` iff the receiver is registered; then the confirmation, and either real-time delivery with a `delivered` update or the offline hook (also socket/socket.js:22-48, without the hook) |
| MongoSocket.ChatSocket.MessageRead | socket/socket.js:51-63 | a missing or already-read message changes nothing and emits nothing; otherwise that message alone becomes `read` and its sender is told iff registered |
| MongoSocket.ChatSocket.Disconnect | routes/socket.js:108-118 | if no entry names this socket, nothing changes and nothing is emitted; otherwise exactly the first entry in key order naming it is removed, the order of the rest is kept, and the remaining keys are broadcast |
| FriendController.FindUserId | controllers/friendController.js:13-20 | the id of a user with that username, and none iff no user has it |
| FriendController.AddFriendGuard | controllers/friendController.js:7-34 | a missing field is `MissingFields`; an unknown username is `UserNotFound`; oneself is `SelfRequest`; any row for the pair in either direction, whatever its status, is `RelationExists`; it passes iff none of these apply |
| FriendController.AddKeepsInvariant | controllers/friendController.js:37-40 | the inserted pending row keeps `UNIQUE(user_id, friend_id)`, the foreign keys and the pairing of rows |
| FriendController.AddFriend | controllers/friendController.js:5-47 | a refused check changes nothing; a caller id naming no user fails on the foreign key; otherwise exactly one pending row user→friend is inserted |
| FriendController.RepeatRequestRejected | controllers/friendController.js:28-34 | after a request neither the same request nor its reverse passes the check |
| FriendController.PromotePending | controllers/friendController.js:58-61 | only pending rows friend→user become accepted; every other row is unchanged |
| FriendController.AcceptAsWritten | controllers/friendController.js:50-74 | `acceptFriend` as written: after the update, the accepted row user→friend is inserted whenever the schema allows it, whether or not a pending row was updated; a failed insert leaves the update in place |
| FriendController.AcceptWithoutRequestBefriends | controllers/friendController.js:57-67 | with no request at all, the accept as written succeeds: user 1 then lists user 2 but not the reverse, and the message gate opens for the pair |
| FriendController.AcceptKeepsInvariant | controllers/friendController.js:58-67 | when a pending request exists, the reverse insert cannot fail and the store keeps its constraints and pairing |
| FriendController.AcceptFriend | controllers/friendController.js:50-74 | succeeds iff a pending row friend→user exists, and then matches the code as written: that row is promoted and the accepted reverse row inserted; otherwise nothing changes |
| FriendController.FriendIds | controllers/friendController.js:84-90 | f is listed iff an accepted row user→f exists; under `UNIQUE(user_id, friend_id)` no id is listed twice, so one id per accepted row |
| FriendController.GetFriends | controllers/friendController.js:77-97 | a missing user id is refused; otherwise exactly the `friend_id` of the user's accepted rows, each once under `UNIQUE(user_id, friend_id)` |
| FriendController.OneWayFriend | controllers/friendController.js:84-90 | in a consistent table, if a lists b then b lists a |
| FriendController.FriendsSymmetric | controllers/friendController.js:84-90 | in a consistent table each user lists the other or neither does |
| MessageController.SendMessage | controllers/messageController.js:5-36 | missing fields are refused; without an accepted row in either direction the reply is `NotFriends` (403) and nothing is inserted; otherwise exactly one `sent` row is inserted, and the foreign keys always hold |
| MessageController.GateMatchesFriendList | controllers/messageController.js:13-19 | in a consistent table, the message gate opens exactly when the two users list each other as friends |
| MessageController.PairRows | controllers/messageController.js:47-52 | exactly the pair's rows in either direction, ascending by `created_at` |
| MessageController.GetMessages | controllers/messageController.js:39-71 | missing ids are refused; the reply is the pair's rows as they stood before the update; then every row received by the caller from the friend and not yet read becomes `delivered`; rows the caller sent and read rows are unchanged; no status goes down |
| MessageController.MarkAsRead | controllers/messageController.js:74-91 | missing fields are refused; otherwise the reply is success, and the row becomes `read` iff its id matches and its receiver is the caller; no other row changes |

## Left out

- Transport: the socket.io server, CORS, rooms and `emit` fan-out. Outbound traffic is a ghost event log.
- Socket authentication (src/services/socketService.js:83-98): the user behind a connection is a parameter.
- The corrupted partial duplicate in src/services/socketService.js, lines 1-66 and 182-197, is not modelled; the intact copy is.
- Web push: VAPID setup, `sendNotification` and the subscription routes (routes/user.routes.js:102-131). A push subscription is a boolean, and a push is a logged attempt. The cleanup of an expired subscription after a 410 reply is not modelled, because its trigger is the foreign library's reply.
- Password hashing, JWT issue and verification, `/login` and the auth middleware are foreign calls. Only `/register`'s field and uniqueness checks are modelled.
- `/search` relies on MongoDB's case-insensitive `$regex`, a foreign regex engine.
- `GET /friends` and `GET /friend-requests` in routes/user.routes.js:81-88, and `findUserById` in src/services/userService.js:4-8, return stored data unchanged, so there is nothing to state.
- Database setup and ORM wiring. Their constraints appear only as the store invariants. src/models/friend.js, src/models/message.js and src/models/user.js are not part of this model; the record fields follow their use in the services.
- Wall-clock time is a counter. `updated_at` and Mongoose's `updatedAt` are not modelled.
- Interleaving across `await` points. Each handler is one atomic step, so for example the window between `getMessages`' select and its update is not modelled.
- Id representation: UUIDs, ObjectIds and auto-increment keys are natural numbers compared by value. JavaScript's `===` between a numeric and a string id, and Map keys of mixed type, are not modelled.
- Mongoose's `trim` on usernames is not modelled; usernames are compared as given.
- Database errors other than the `UNIQUE` and foreign-key violations of the friend controller and of the socket service's message insert, such as a malformed UUID, are not modelled. Mongoose validation is modelled only for a message's required `content`.
- MessageService.CreateMessage: does not model a foreign-key failure of the insert. The Sequelize store keeps no foreign-key invariant on friendship records, and in the database an accepted record already references two existing users.
- Query projections: joined user columns (`include`, `JOIN users`) are reduced to ids or records. The `JOIN` in `getFriends` drops no row, because the foreign keys hold.
- The order of a `findOne` without `ORDER BY` is modelled as table order.
- UserRoutes.RespondFriendRequest: the failed save of a self-accept is an error result. In the code the handler throws and no reply is sent.
- `private-message` takes the sender id from the client payload without authentication. The model does the same: any socket may name any sender.
- UserService.GetFriendsList: returns the other party's id rather than the user row with its presence fields.
- UserService.SendFriendRequest: uses the intended duplicate check (`ExistingGuard`), not the code as written; see Findings.
- FriendController.AcceptFriend: refuses an accept without a pending request, unlike the code as written; see Findings.

## Findings

| source | as written | input that shows it | evidently intended | confidence | as-written member | corrected member |
|---|---|---|---|---|---|---|
| controllers/friendController.js:57-67 | the accepted reverse row is inserted whether or not the update matched a pending request | users 1 and 2, empty `friends` table; user 1 accepts with friendId 2 | accept only an existing pending request from friendId, leaving both users listing each other | high; not executed | FriendController.AcceptWithoutRequestBefriends | FriendController.AcceptFriend |
| src/services/userService.js:26-43 | `findOne` examines one record joining the pair; a rejected record found first hides an accepted one | records [1→2 rejected, 1→2 accepted], reached by request, reject, request, accept; user 1 asks user 2 again | refuse while any pending, accepted or blocked record joins the pair | medium (depends on the row order the database returns); not executed | UserService.FindOneMissesActiveRecord | UserService.ExistingGuard |
