/** The three PostgreSQL tables behind the raw-SQL controllers, with the
    schema's constraints as the store invariant: unique usernames, one row
    per (user_id, friend_id), and rows that reference existing users. A
    message's id is its 1-based position; `clock` stands for
    `CURRENT_TIMESTAMP`. The invariant also records how the friendship
    handlers pair rows: an accepted row always has an accepted reverse
    row, and a pending row never has a reverse row. */
module PgModels {
  import opened Common

  datatype PgUser = PgUser(id: UserId, username: string)

  /** A `friends` row: `user_id` asked or accepted `friend_id`. */
  datatype FriendRow = FriendRow(userId: UserId, friendId: UserId, status: FriendStatus)

  datatype MessageRow = MessageRow(
    senderId: UserId, receiverId: UserId, content: string,
    status: MessageStatus, createdAt: nat)

  /** Some row of `users` has this id. */
  predicate IsUser(users: seq<PgUser>, id: UserId)
  {
    exists i :: 0 <= i < |users| && users[i].id == id
  }

  /** Primary key and `UNIQUE` username, ids never falsy. */
  predicate UsersWellFormed(users: seq<PgUser>)
  {
    && (forall i :: 0 <= i < |users| ==> users[i].id != 0)
    && (forall i, j :: 0 <= i < j < |users| ==> users[i].id != users[j].id)
    && (forall i, j :: 0 <= i < j < |users| ==> users[i].username != users[j].username)
  }

  /** Some row goes from `a` to `b`, whatever its status. */
  predicate HasRow(friends: seq<FriendRow>, a: UserId, b: UserId)
  {
    exists i :: 0 <= i < |friends| && friends[i].userId == a && friends[i].friendId == b
  }

  /** `UNIQUE(user_id, friend_id)`. */
  predicate UniquePairs(friends: seq<FriendRow>)
  {
    forall i, j :: 0 <= i < j < |friends| ==>
      friends[i].userId != friends[j].userId || friends[i].friendId != friends[j].friendId
  }

  /** Both foreign keys of every `friends` row. */
  predicate FriendsReferenceUsers(users: seq<PgUser>, friends: seq<FriendRow>)
  {
    forall i :: 0 <= i < |friends| ==> IsUser(users, friends[i].userId) && IsUser(users, friends[i].friendId)
  }

  /** Some accepted row goes from `a` to `b`. */
  predicate HasAccepted(friends: seq<FriendRow>, a: UserId, b: UserId)
  {
    exists j :: 0 <= j < |friends| && friends[j] == FriendRow(a, b, Accepted)
  }

  /** An accepted row has an accepted reverse row; a pending row has none. */
  predicate FriendshipsPaired(friends: seq<FriendRow>)
  {
    && (forall i :: 0 <= i < |friends| && friends[i].status == Accepted ==>
          HasAccepted(friends, friends[i].friendId, friends[i].userId))
    && (forall i :: 0 <= i < |friends| && friends[i].status == Pending ==>
          !HasRow(friends, friends[i].friendId, friends[i].userId))
  }

  /** An accepted row joins the two users, in either direction: the
      friendship test of the message controller. */
  predicate AcceptedEitherWay(friends: seq<FriendRow>, a: UserId, b: UserId)
  {
    HasAccepted(friends, a, b) || HasAccepted(friends, b, a)
  }

  /** Both foreign keys of every `messages` row. */
  predicate MessagesReferenceUsers(users: seq<PgUser>, messages: seq<MessageRow>)
  {
    forall i :: 0 <= i < |messages| ==> IsUser(users, messages[i].senderId) && IsUser(users, messages[i].receiverId)
  }

  /** Strictly ascending by `created_at`. */
  predicate CreatedInOrder(messages: seq<MessageRow>)
  {
    forall i, j :: 0 <= i < j < |messages| ==> messages[i].createdAt < messages[j].createdAt
  }

  class PgStore {
    var users: seq<PgUser>
    var friends: seq<FriendRow>
    var messages: seq<MessageRow>   // message id k is messages[k - 1]
    var clock: nat

    ghost predicate Valid()
      reads this
    {
      && UsersWellFormed(users)
      && UniquePairs(friends)
      && FriendsReferenceUsers(users, friends)
      && FriendshipsPaired(friends)
      && MessagesReferenceUsers(users, messages)
      && CreatedInOrder(messages)
      && (forall i :: 0 <= i < |messages| ==> messages[i].createdAt < clock)
    }

    constructor (users: seq<PgUser>)
      requires UsersWellFormed(users)
      ensures Valid()
      ensures this.users == users && friends == [] && messages == [] && clock == 0
    {
      this.users := users;
      friends := [];
      messages := [];
      clock := 0;
    }
  }
}
