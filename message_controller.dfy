/** The raw-SQL message controller over the `messages` table: a
    friendship-gated insert, the conversation query whose side effect marks
    the caller's incoming messages delivered, and the read receipt. */
module MessageController {
  import opened Common
  import opened PgModels
  import FriendController

  /** `POST /messages/send`: all three fields are required, an accepted row must join
      the two users in either direction, and then one `sent` row is
      inserted. */
  method SendMessage(db: PgStore, senderId: UserId, receiverId: UserId, content: string) returns (r: Result<nat>)
    requires db.Valid()
    modifies db
    ensures db.Valid()
    ensures db.users == old(db.users) && db.friends == old(db.friends)
    ensures (senderId == 0 || receiverId == 0 || |content| == 0) ==> r == Err(MissingFields)
    ensures senderId != 0 && receiverId != 0 && |content| > 0 && !AcceptedEitherWay(old(db.friends), senderId, receiverId)
      ==> r == Err(NotFriends)
    ensures r.Ok? <==> senderId != 0 && receiverId != 0 && |content| > 0 && AcceptedEitherWay(old(db.friends), senderId, receiverId)
    ensures r.Err? ==> db.messages == old(db.messages) && db.clock == old(db.clock)
    ensures r.Ok? ==> r.value == |old(db.messages)| + 1 && db.clock == old(db.clock) + 1
    ensures r.Ok? ==> db.messages == old(db.messages) + [MessageRow(senderId, receiverId, content, Sent, old(db.clock))]
  {
    if senderId == 0 || receiverId == 0 || |content| == 0 {
      return Err(MissingFields);
    }
    if !AcceptedEitherWay(db.friends, senderId, receiverId) {
      return Err(NotFriends);
    }
    assert IsUser(db.users, senderId) && IsUser(db.users, receiverId) by {
      var i :| 0 <= i < |db.friends| &&
        (db.friends[i] == FriendRow(senderId, receiverId, Accepted) || db.friends[i] == FriendRow(receiverId, senderId, Accepted));
    }
    db.messages := db.messages + [MessageRow(senderId, receiverId, content, Sent, db.clock)];
    db.clock := db.clock + 1;
    r := Ok(|db.messages|);
  }

  /** In a consistent store the message gate agrees with the friend list:
      either user may write to the other exactly when each lists the other. */
  lemma GateMatchesFriendList(friends: seq<FriendRow>, a: UserId, b: UserId)
    requires FriendshipsPaired(friends)
    ensures AcceptedEitherWay(friends, a, b) <==> b in FriendController.FriendIds(friends, a)
    ensures AcceptedEitherWay(friends, a, b) <==> a in FriendController.FriendIds(friends, b)
  {
    if HasAccepted(friends, b, a) {
      var i :| 0 <= i < |friends| && friends[i] == FriendRow(b, a, Accepted);
    }
    if HasAccepted(friends, a, b) {
      var i :| 0 <= i < |friends| && friends[i] == FriendRow(a, b, Accepted);
    }
  }

  /** The row travels between the two users, in either direction. */
  predicate InPair(m: MessageRow, u1: UserId, u2: UserId)
  {
    (m.senderId == u1 && m.receiverId == u2) || (m.senderId == u2 && m.receiverId == u1)
  }

  /** The `SELECT` of `getMessages`: the pair's rows, oldest first. */
  function PairRows(ms: seq<MessageRow>, u1: UserId, u2: UserId): (r: seq<MessageRow>)
    ensures |r| <= |ms|
    ensures forall m :: m in r <==> m in ms && InPair(m, u1, u2)
    ensures CreatedInOrder(ms) ==> CreatedInOrder(r)
  {
    if ms == [] then []
    else
      var rest := PairRows(ms[1..], u1, u2);
      assert forall m :: m in rest ==> m in ms[1..];
      assert CreatedInOrder(ms) ==> forall k :: 0 <= k < |rest| ==> ms[0].createdAt < rest[k].createdAt by {
        if CreatedInOrder(ms) {
          forall k | 0 <= k < |rest| ensures ms[0].createdAt < rest[k].createdAt {
            assert rest[k] in ms[1..];
            var j :| 1 <= j < |ms| && ms[j] == rest[k];
          }
        }
      }
      if InPair(ms[0], u1, u2) then [ms[0]] + rest else rest
  }

  /** A row the bulk update of `getMessages` touches: one of the pair's rows
      whose receiver is the caller and which is not yet read. */
  predicate Unread(m: MessageRow, userId: UserId, friendId: UserId)
  {
    m.senderId == friendId && m.receiverId == userId && m.status != Read
  }

  /** `GET /messages`: both ids are required. The reply holds the pair's rows as
      they were before the update; then every row the caller received from
      the friend and has not read becomes `delivered`. */
  method GetMessages(db: PgStore, userId: UserId, friendId: UserId) returns (r: Result<seq<MessageRow>>)
    requires db.Valid()
    modifies db
    ensures db.Valid()
    ensures db.users == old(db.users) && db.friends == old(db.friends) && db.clock == old(db.clock)
    ensures r.Err? <==> userId == 0 || friendId == 0
    ensures r.Err? ==> r.error == MissingFields && db.messages == old(db.messages)
    ensures r.Ok? ==> r.value == PairRows(old(db.messages), userId, friendId)
    ensures |db.messages| == |old(db.messages)|
    ensures forall i :: 0 <= i < |old(db.messages)| ==>
      db.messages[i] == old(db.messages)[i].(status := db.messages[i].status)
    ensures forall i :: 0 <= i < |old(db.messages)| && r.Ok? && Unread(old(db.messages)[i], userId, friendId) ==>
      db.messages[i].status == Delivered
    ensures forall i :: 0 <= i < |old(db.messages)| && !(r.Ok? && Unread(old(db.messages)[i], userId, friendId)) ==>
      db.messages[i] == old(db.messages)[i]
    ensures forall i :: 0 <= i < |old(db.messages)| ==> Rank(old(db.messages)[i].status) <= Rank(db.messages[i].status)
  {
    if userId == 0 || friendId == 0 {
      return Err(MissingFields);
    }
    r := Ok(PairRows(db.messages, userId, friendId));
    var ms := db.messages;
    var i := 0;
    while i < |ms|
      invariant 0 <= i <= |ms| == |db.messages|
      invariant forall k :: 0 <= k < i && Unread(db.messages[k], userId, friendId) ==>
        ms[k] == db.messages[k].(status := Delivered)
      invariant forall k :: 0 <= k < i && !Unread(db.messages[k], userId, friendId) ==> ms[k] == db.messages[k]
      invariant forall k :: i <= k < |ms| ==> ms[k] == db.messages[k]
    {
      if Unread(ms[i], userId, friendId) {
        ms := ms[i := ms[i].(status := Delivered)];
      }
      i := i + 1;
    }
    assert forall k :: 0 <= k < |ms| ==> ms[k].createdAt == db.messages[k].createdAt;
    db.messages := ms;
  }

  /** `PUT /messages/read`: both fields are required; the row with this id becomes
      `read` when the caller is its receiver, and otherwise nothing changes.
      Either way the reply is a success. */
  method MarkAsRead(db: PgStore, messageId: nat, userId: UserId) returns (r: Result<()>)
    requires db.Valid()
    modifies db
    ensures db.Valid()
    ensures db.users == old(db.users) && db.friends == old(db.friends) && db.clock == old(db.clock)
    ensures r.Err? <==> messageId == 0 || userId == 0
    ensures r.Err? ==> r.error == MissingFields
    ensures var hit := r.Ok? && messageId <= |old(db.messages)| && old(db.messages)[messageId - 1].receiverId == userId;
      && (hit ==> db.messages == old(db.messages)[messageId - 1 := old(db.messages)[messageId - 1].(status := Read)])
      && (!hit ==> db.messages == old(db.messages))
  {
    if messageId == 0 || userId == 0 {
      return Err(MissingFields);
    }
    if messageId <= |db.messages| && db.messages[messageId - 1].receiverId == userId {
      db.messages := db.messages[messageId - 1 := db.messages[messageId - 1].(status := Read)];
    }
    r := Ok(());
  }
}
