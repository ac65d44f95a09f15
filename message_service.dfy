/** The Sequelize message service: friend-gated creation, the pair
    conversation query, and the per-message status machine guarded by the
    receiver and by the delivered/read timestamps. */
module MessageService {
  import opened Common
  import opened SequelizeModels

  /** Some accepted record joins the pair, in either direction. */
  predicate AreFriends(friends: seq<Friend>, a: UserId, b: UserId)
  {
    exists i :: 0 <= i < |friends| && friends[i].status == Accepted && Joins(friends[i], a, b)
  }

  /** `createMessage`: refuses unless the pair are friends; otherwise appends
      one `sent` message and returns its id. */
  method CreateMessage(db: Store, senderId: UserId, receiverId: UserId, content: string) returns (r: Result<nat>)
    requires db.Valid()
    modifies db
    ensures db.Valid()
    ensures db.users == old(db.users) && db.friends == old(db.friends)
    ensures r.Ok? <==> AreFriends(old(db.friends), senderId, receiverId)
    ensures r.Err? ==> r.error == NotFriends && db.messages == old(db.messages) && db.clock == old(db.clock)
    ensures r.Ok? ==> r.value == |db.messages|
    ensures r.Ok? ==> db.messages == old(db.messages) + [Message(senderId, receiverId, content, Sent, old(db.clock), None, None)]
  {
    if !AreFriends(db.friends, senderId, receiverId) {
      return Err(NotFriends);
    }
    var id := db.InsertMessage(senderId, receiverId, content);
    r := Ok(id);
  }

  /** The status change `updateMessageStatus` applies to a fetched message
      `m` at time `now`, on behalf of `userId`. */
  function UpdateStatus(m: Message, status: MessageStatus, userId: UserId, now: nat): (r: Result<Message>)
    ensures m.receiverId != userId ==> r == Err(NotReceiver)
    ensures m.receiverId == userId ==>
      (r.Ok? <==> (status == Delivered && m.deliveredAt.None?) || (status == Read && m.readAt.None?))
    ensures r.Err? && m.receiverId == userId ==> r.error == InvalidStatusUpdate
    ensures r.Ok? ==> r.value.status == status
    ensures r.Ok? && status == Delivered ==> r.value.deliveredAt == Some(now) && r.value.readAt == m.readAt
    ensures r.Ok? && status == Read ==> r.value.readAt == Some(now) && r.value.deliveredAt == m.deliveredAt
    ensures r.Ok? ==> r.value.(status := m.status, deliveredAt := m.deliveredAt, readAt := m.readAt) == m
    ensures r.Ok? && Stamped(m) ==> Stamped(r.value)
  {
    if m.receiverId != userId then Err(NotReceiver)
    else if status == Delivered && m.deliveredAt.None? then
      Ok(m.(status := Delivered, deliveredAt := Some(now)))
    else if status == Read && m.readAt.None? then
      Ok(m.(status := Read, readAt := Some(now)))
    else Err(InvalidStatusUpdate)
  }

  /** `updateMessageStatus`: looks the message up, applies `UpdateStatus`
      and saves the result in place. */
  method UpdateMessageStatus(db: Store, messageId: nat, status: MessageStatus, userId: UserId)
    returns (r: Result<Message>)
    requires db.Valid()
    modifies db
    ensures db.Valid()
    ensures db.users == old(db.users) && db.friends == old(db.friends)
    ensures !(1 <= messageId <= |old(db.messages)|) ==> r == Err(MessageNotFound)
    ensures 1 <= messageId <= |old(db.messages)| ==>
      r == UpdateStatus(old(db.messages)[messageId - 1], status, userId, old(db.clock))
    ensures r.Ok? ==> db.messages == old(db.messages)[messageId - 1 := r.value] && db.clock == old(db.clock) + 1
    ensures r.Err? ==> db.messages == old(db.messages) && db.clock == old(db.clock)
  {
    if !(1 <= messageId <= |db.messages|) {
      return Err(MessageNotFound);
    }
    r := UpdateStatus(db.messages[messageId - 1], status, userId, db.clock);
    if r.Ok? {
      db.messages := db.messages[messageId - 1 := r.value];
      db.clock := db.clock + 1;
    }
  }

  /** The message travels between u1 and u2, in either direction. */
  predicate InPair(m: Message, u1: UserId, u2: UserId)
  {
    (m.senderId == u1 && m.receiverId == u2) || (m.senderId == u2 && m.receiverId == u1)
  }

  /** The pair's messages, in table order. */
  function PairMessages(ms: seq<Message>, u1: UserId, u2: UserId): (r: seq<Message>)
    ensures |r| <= |ms|
    ensures forall m :: m in r <==> m in ms && InPair(m, u1, u2)
    ensures Ascending(ms) ==> Ascending(r)
  {
    if ms == [] then []
    else
      var rest := PairMessages(ms[1..], u1, u2);
      assert forall m :: m in rest ==> m in ms[1..];
      assert Ascending(ms) ==> forall k :: 0 <= k < |rest| ==> ms[0].sentAt < rest[k].sentAt by {
        if Ascending(ms) {
          forall k | 0 <= k < |rest| ensures ms[0].sentAt < rest[k].sentAt {
            assert rest[k] in ms[1..];
            var j :| 1 <= j < |ms| && ms[j] == rest[k];
          }
        }
      }
      if InPair(ms[0], u1, u2) then [ms[0]] + rest else rest
  }

  /** `getConversation`: the pair's messages ascending by `sentAt`, skipping
      `offset` rows and keeping at most `limit` (50 and 0 by default). */
  function GetConversation(ms: seq<Message>, u1: UserId, u2: UserId, limit: nat := 50, offset: nat := 0)
    : (r: seq<Message>)
    ensures |r| <= limit
    ensures var all := PairMessages(ms, u1, u2);
      && |r| == Min(limit, if offset <= |all| then |all| - offset else 0)
      && forall k :: 0 <= k < |r| ==> r[k] == all[offset + k]
    ensures forall k :: 0 <= k < |r| ==> InPair(r[k], u1, u2) && r[k] in ms
    ensures Ascending(ms) ==> Ascending(r)
    ensures offset == 0 && limit >= |ms| ==> forall m :: m in ms && InPair(m, u1, u2) ==> m in r
  {
    var all := PairMessages(ms, u1, u2);
    var r := Page(all, limit, offset);
    assert forall k :: 0 <= k < |r| ==> r[k] in all;
    assert offset == 0 && limit >= |ms| ==> r == all;
    r
  }

  lemma {:induction false} PairMessagesSymmetric(ms: seq<Message>, u1: UserId, u2: UserId)
    ensures PairMessages(ms, u1, u2) == PairMessages(ms, u2, u1)
    decreases |ms|
  {
    if ms != [] {
      PairMessagesSymmetric(ms[1..], u1, u2);
    }
  }

  /** Either participant sees the same conversation page. */
  lemma ConversationSymmetric(ms: seq<Message>, u1: UserId, u2: UserId, limit: nat, offset: nat)
    ensures GetConversation(ms, u1, u2, limit, offset) == GetConversation(ms, u2, u1, limit, offset)
  {
    PairMessagesSymmetric(ms, u1, u2);
  }

  /** Each successful update moves the status strictly forward, with one
      exception: `delivered` after `read`, when `deliveredAt` was never set. */
  lemma StatusAdvances(m: Message, status: MessageStatus, userId: UserId, now: nat)
    requires Stamped(m)
    requires UpdateStatus(m, status, userId, now).Ok?
    ensures Rank(UpdateStatus(m, status, userId, now).value.status) > Rank(m.status)
         || (m.status == Read && status == Delivered)
  {
  }

  /** A message read before it was ever delivered can be moved back to
      `delivered`: the status machine is not monotone. */
  lemma LateDeliveryRegresses(m: Message, now: nat)
    requires Stamped(m) && m.status == Read && m.deliveredAt.None?
    ensures UpdateStatus(m, Delivered, m.receiverId, now).Ok?
    ensures UpdateStatus(m, Delivered, m.receiverId, now).value.status == Delivered
    ensures Rank(UpdateStatus(m, Delivered, m.receiverId, now).value.status) < Rank(m.status)
  {
  }

  /** Each timestamp is set at most once: repeating a successful update fails. */
  lemma RepeatedUpdateFails(m: Message, status: MessageStatus, userId: UserId, now: nat, later: nat)
    requires UpdateStatus(m, status, userId, now).Ok?
    ensures UpdateStatus(UpdateStatus(m, status, userId, now).value, status, userId, later) == Err(InvalidStatusUpdate)
  {
  }
}
