/** The Mongo documents behind the Express routes and the socket handlers:
    users carry embedded `friends` and `friendRequests` lists; messages carry
    a status and a creation time. A message's id is its 1-based position;
    `nextId` hands out fresh user ids; `clock` stands for `new Date()`. */
module MongoModels {
  import opened Common

  /** An embedded `{ userId, username }` entry of `friendRequests`. */
  datatype FriendRequest = FriendRequest(userId: UserId, username: string)

  datatype MongoUser = MongoUser(
    username: string,
    friends: seq<UserId>,
    friendRequests: seq<FriendRequest>,
    hasPushSubscription: bool)

  datatype MongoMessage = MongoMessage(
    sender: UserId, receiver: UserId, content: string,
    status: MessageStatus, createdAt: nat)

  /** No two users share a username (the schema's `unique: true`). */
  predicate UniqueUsernames(users: map<UserId, MongoUser>)
  {
    forall a, b :: a in users && b in users && a != b ==> users[a].username != users[b].username
  }

  /** Replacing a stored user by one with the same username keeps usernames unique. */
  lemma RenameFreeUpdate(users: map<UserId, MongoUser>, id: UserId, u: MongoUser)
    requires UniqueUsernames(users) && id in users && u.username == users[id].username
    ensures UniqueUsernames(users[id := u])
    ensures users[id := u].Keys == users.Keys
  {
  }

  /** Strictly ascending by `createdAt`. */
  predicate CreatedAscending(messages: seq<MongoMessage>)
  {
    forall i, j :: 0 <= i < j < |messages| ==> messages[i].createdAt < messages[j].createdAt
  }

  class MongoStore {
    var users: map<UserId, MongoUser>
    var messages: seq<MongoMessage>   // message id k is messages[k - 1]
    var nextId: UserId
    var clock: nat

    ghost predicate Valid()
      reads this
    {
      && 0 < nextId
      && (forall id :: id in users ==> 0 < id < nextId)
      && UniqueUsernames(users)
      && CreatedAscending(messages)
      && (forall i :: 0 <= i < |messages| ==> messages[i].createdAt < clock)
    }

    constructor ()
      ensures Valid()
      ensures users == map[] && messages == [] && nextId == 1 && clock == 0
    {
      users := map[];
      messages := [];
      nextId := 1;
      clock := 0;
    }

    /** `new Message({ sender, receiver, content, status }).save()`. */
    method SaveMessage(sender: UserId, receiver: UserId, content: string, status: MessageStatus)
      returns (id: nat)
      requires Valid()
      modifies this
      ensures Valid()
      ensures id == |old(messages)| + 1
      ensures messages == old(messages) + [MongoMessage(sender, receiver, content, status, old(clock))]
      ensures clock == old(clock) + 1 && users == old(users) && nextId == old(nextId)
    {
      messages := messages + [MongoMessage(sender, receiver, content, status, clock)];
      clock := clock + 1;
      id := |messages|;
    }
  }
}
