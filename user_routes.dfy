/** The Express user routes over Mongo documents: registration with a
    unique username, friend requests kept as embedded lists, the answer to a
    request, and the chat history query. The caller of the protected routes
    is the authenticated user, who exists. */
module UserRoutes {
  import opened Common
  import opened MongoModels

  /** Some stored user already has this username. */
  predicate UsernameInUse(users: map<UserId, MongoUser>, username: string)
  {
    exists id :: id in users && users[id].username == username
  }

  /** `POST /register`: both fields are required and the username must be
      new; the new user starts with no friends and no requests. */
  method Register(db: MongoStore, username: string, password: string) returns (r: Result<UserId>)
    requires db.Valid()
    modifies db
    ensures db.Valid()
    ensures db.messages == old(db.messages) && db.clock == old(db.clock)
    ensures (|username| == 0 || |password| == 0) ==> r == Err(MissingFields)
    ensures |username| > 0 && |password| > 0 && UsernameInUse(old(db.users), username) ==> r == Err(UsernameTaken)
    ensures r.Ok? <==> |username| > 0 && |password| > 0 && !UsernameInUse(old(db.users), username)
    ensures r.Err? ==> db.users == old(db.users) && db.nextId == old(db.nextId)
    ensures r.Ok? ==> r.value !in old(db.users) && r.value != 0
    ensures r.Ok? ==> db.users == old(db.users)[r.value := MongoUser(username, [], [], false)]
  {
    if |username| == 0 || |password| == 0 {
      return Err(MissingFields);
    }
    if UsernameInUse(db.users, username) {
      return Err(UsernameTaken);
    }
    var id := db.nextId;
    db.users := db.users[id := MongoUser(username, [], [], false)];
    db.nextId := db.nextId + 1;
    r := Ok(id);
  }

  /** Some entry of the list comes from `id`. */
  predicate HasRequestFrom(requests: seq<FriendRequest>, id: UserId)
  {
    exists k :: 0 <= k < |requests| && requests[k].userId == id
  }

  /** `friendRequests.filter(req => !req.userId.equals(id))`. */
  function WithoutRequestsFrom(requests: seq<FriendRequest>, id: UserId): (r: seq<FriendRequest>)
    ensures |r| <= |requests|
    ensures forall q :: q in r <==> q in requests && q.userId != id
    ensures !HasRequestFrom(r, id)
  {
    if requests == [] then []
    else
      var rest := WithoutRequestsFrom(requests[1..], id);
      assert forall q :: q in requests <==> q == requests[0] || q in requests[1..];
      if requests[0].userId == id then rest else [requests[0]] + rest
  }

  /** The filter keeps every entry from another sender as often as it
      occurs, and drops every entry from `id`. */
  lemma {:induction false} WithoutRequestsFromCounts(requests: seq<FriendRequest>, id: UserId, q: FriendRequest)
    ensures multiset(WithoutRequestsFrom(requests, id))[q] == if q.userId != id then multiset(requests)[q] else 0
  {
    if requests != [] {
      WithoutRequestsFromCounts(requests[1..], id, q);
      assert requests == [requests[0]] + requests[1..];
      var rest := WithoutRequestsFrom(requests[1..], id);
      if requests[0].userId != id {
        assert WithoutRequestsFrom(requests, id) == [requests[0]] + rest;
      }
    }
  }

  /** Filtering out a sender with no entry leaves the list as it was. */
  lemma {:induction false} WithoutAbsentSenderIsIdentity(requests: seq<FriendRequest>, id: UserId)
    requires !HasRequestFrom(requests, id)
    ensures WithoutRequestsFrom(requests, id) == requests
  {
    if requests != [] {
      assert !HasRequestFrom(requests[1..], id) by {
        forall k | 0 <= k < |requests[1..]| ensures requests[1..][k].userId != id {
          assert requests[1..][k] == requests[k + 1];
        }
      }
      WithoutAbsentSenderIsIdentity(requests[1..], id);
    }
  }

  /** The outcome `POST /friend-request` reports, from the stored documents. */
  function FriendRequestGuard(users: map<UserId, MongoUser>, senderId: UserId, recipientId: UserId): (r: Result<()>)
    requires senderId in users
    ensures recipientId !in users ==> r == Err(UserNotFound)
    ensures r.Ok? <==>
      && recipientId in users
      && senderId !in users[recipientId].friends
      && recipientId !in users[senderId].friends
      && !HasRequestFrom(users[recipientId].friendRequests, senderId)
    ensures recipientId in users && (senderId in users[recipientId].friends || recipientId in users[senderId].friends)
      ==> r == Err(AlreadyFriends)
  {
    if recipientId !in users then Err(UserNotFound)
    else if senderId in users[recipientId].friends || recipientId in users[senderId].friends then Err(AlreadyFriends)
    else if HasRequestFrom(users[recipientId].friendRequests, senderId) then Err(DuplicateRequest)
    else Ok(())
  }

  /** `POST /friend-request`: appends exactly one `{ userId, username }` entry
      for the sender to the recipient's requests; nothing else changes. */
  method FriendRequest(db: MongoStore, senderId: UserId, recipientId: UserId) returns (r: Result<()>)
    requires db.Valid() && senderId in db.users
    modifies db
    ensures db.Valid()
    ensures db.messages == old(db.messages) && db.clock == old(db.clock) && db.nextId == old(db.nextId)
    ensures r == FriendRequestGuard(old(db.users), senderId, recipientId)
    ensures r.Err? ==> db.users == old(db.users)
    ensures r.Ok? ==> db.users == old(db.users)[recipientId := old(db.users)[recipientId].(
      friendRequests := old(db.users)[recipientId].friendRequests +
        [MongoModels.FriendRequest(senderId, old(db.users)[senderId].username)])]
  {
    r := FriendRequestGuard(db.users, senderId, recipientId);
    if r.Ok? {
      var recipient := db.users[recipientId];
      var entry := MongoModels.FriendRequest(senderId, db.users[senderId].username);
      RenameFreeUpdate(db.users, recipientId, recipient.(friendRequests := recipient.friendRequests + [entry]));
      db.users := db.users[recipientId := recipient.(friendRequests := recipient.friendRequests + [entry])];
    }
  }

  /** `POST /friend-request/respond`: refuses when the caller holds no
      request from `senderId`; otherwise drops every request from that
      sender and, on acceptance of an existing sender, appends each user to
      the other's friends. Each document save applies its own changes to the
      stored document: the sender's first, then the recipient's. When the
      sender is the caller, both saves hit the same stored document: the
      sender's `$push` raises its version, so the recipient's save, whose
      rewrite of the whole request list is guarded by the old version,
      fails, and only the sender's change remains. */
  method RespondFriendRequest(db: MongoStore, recipientId: UserId, senderId: UserId, accept: bool)
    returns (r: Result<()>)
    requires db.Valid() && recipientId in db.users
    modifies db
    ensures db.Valid()
    ensures db.messages == old(db.messages) && db.clock == old(db.clock) && db.nextId == old(db.nextId)
    ensures var before := old(db.users)[recipientId];
      !HasRequestFrom(before.friendRequests, senderId) ==> r == Err(RequestNotFound) && db.users == old(db.users)
    ensures var before := old(db.users)[recipientId];
      HasRequestFrom(before.friendRequests, senderId) && accept && senderId == recipientId ==>
        && r == Err(VersionConflict)
        && db.users == old(db.users)[recipientId := before.(friends := before.friends + [recipientId])]
    ensures r.Ok? <==>
      HasRequestFrom(old(db.users)[recipientId].friendRequests, senderId) && !(accept && senderId == recipientId)
    ensures r.Ok? ==> db.users.Keys == old(db.users).Keys
    ensures r.Ok? ==>
      db.users[recipientId].friendRequests == WithoutRequestsFrom(old(db.users)[recipientId].friendRequests, senderId)
    ensures r.Ok? && (!accept || senderId !in old(db.users)) ==>
      db.users == old(db.users)[recipientId := old(db.users)[recipientId].(
        friendRequests := WithoutRequestsFrom(old(db.users)[recipientId].friendRequests, senderId))]
    ensures r.Ok? && accept && senderId in old(db.users) ==>
      var before := old(db.users)[recipientId];
      var sender := old(db.users)[senderId];
      db.users == old(db.users)[senderId := sender.(friends := sender.friends + [recipientId])][recipientId :=
        before.(friendRequests := WithoutRequestsFrom(before.friendRequests, senderId), friends := before.friends + [senderId])]
  {
    var recipient := db.users[recipientId];
    if !HasRequestFrom(recipient.friendRequests, senderId) {
      return Err(RequestNotFound);
    }
    var remaining := WithoutRequestsFrom(recipient.friendRequests, senderId);
    if accept && senderId in db.users {
      var sender := db.users[senderId];
      RenameFreeUpdate(db.users, senderId, sender.(friends := sender.friends + [recipientId]));
      db.users := db.users[senderId := sender.(friends := sender.friends + [recipientId])];
      if senderId == recipientId {
        return Err(VersionConflict);
      }
      RenameFreeUpdate(db.users, recipientId, recipient.(friendRequests := remaining, friends := recipient.friends + [senderId]));
      db.users := db.users[recipientId := recipient.(friendRequests := remaining, friends := recipient.friends + [senderId])];
    } else {
      RenameFreeUpdate(db.users, recipientId, recipient.(friendRequests := remaining));
      db.users := db.users[recipientId := recipient.(friendRequests := remaining)];
    }
    r := Ok(());
  }

  /** The message travels between the two users, in either direction. */
  predicate Between(m: MongoMessage, u1: UserId, u2: UserId)
  {
    (m.sender == u1 && m.receiver == u2) || (m.sender == u2 && m.receiver == u1)
  }

  /** `GET /chat-history/:friendId`: the pair's messages ascending by `createdAt`. */
  function ChatHistory(messages: seq<MongoMessage>, userId: UserId, friendId: UserId): (r: seq<MongoMessage>)
    ensures |r| <= |messages|
    ensures forall m :: m in r <==> m in messages && Between(m, userId, friendId)
    ensures CreatedAscending(messages) ==> CreatedAscending(r)
  {
    if messages == [] then []
    else
      var rest := ChatHistory(messages[1..], userId, friendId);
      assert forall m :: m in rest ==> m in messages[1..];
      assert CreatedAscending(messages) ==> forall k :: 0 <= k < |rest| ==> messages[0].createdAt < rest[k].createdAt by {
        if CreatedAscending(messages) {
          forall k | 0 <= k < |rest| ensures messages[0].createdAt < rest[k].createdAt {
            assert rest[k] in messages[1..];
            var j :| 1 <= j < |messages| && messages[j] == rest[k];
          }
        }
      }
      if Between(messages[0], userId, friendId) then [messages[0]] + rest else rest
  }
}
