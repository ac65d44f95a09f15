/** The tables behind the Sequelize service layer: users, friendship records
    and messages. A record's primary key is its 1-based position in its table
    (Sequelize's auto-increment ids); `clock` stands for `new Date()` and moves
    forward on every write that stamps a time. */
module SequelizeModels {
  import opened Common

  datatype User = User(id: UserId, username: string, online: bool, lastOnline: nat)

  /** A friendship record: who asked, who was asked, and how it stands. */
  datatype Friend = Friend(requesterId: UserId, addresseeId: UserId, status: FriendStatus, createdAt: nat)

  datatype Message = Message(
    senderId: UserId, receiverId: UserId, content: string,
    status: MessageStatus, sentAt: nat,
    deliveredAt: Option<nat>, readAt: Option<nat>)

  /** The record relates a and b, in either direction. */
  predicate Joins(f: Friend, a: UserId, b: UserId)
  {
    (f.requesterId == a && f.addresseeId == b) || (f.requesterId == b && f.addresseeId == a)
  }

  /** Pending, accepted and blocked records stand in the way of a new request. */
  predicate Active(f: Friend) { f.status != Rejected }

  /** No unordered pair is joined by two active records. */
  predicate AtMostOneActive(friends: seq<Friend>)
  {
    forall i, j :: 0 <= i < j < |friends| && Active(friends[i]) && Active(friends[j]) ==>
      !Joins(friends[i], friends[j].requesterId, friends[j].addresseeId)
  }

  /** Ids are non-zero and unique; usernames are unique. */
  predicate UniqueUsers(users: seq<User>)
  {
    && (forall i :: 0 <= i < |users| ==> users[i].id != 0)
    && (forall i, j :: 0 <= i < j < |users| ==> users[i].id != users[j].id && users[i].username != users[j].username)
  }

  /** Some user row has this id: the target of the messages' foreign keys. */
  predicate HasUser(users: seq<User>, id: UserId)
  {
    exists i :: 0 <= i < |users| && users[i].id == id
  }

  /** A message's timestamps agree with the status it has reached. */
  predicate Stamped(m: Message)
  {
    && (m.status == Sent <==> m.deliveredAt.None? && m.readAt.None?)
    && (m.status == Delivered ==> m.deliveredAt.Some?)
    && (m.status == Read ==> m.readAt.Some?)
  }

  /** Strictly ascending by `sentAt`. */
  predicate Ascending(messages: seq<Message>)
  {
    forall i, j :: 0 <= i < j < |messages| ==> messages[i].sentAt < messages[j].sentAt
  }

  /** Messages were sent at strictly increasing times, all before `clock`. */
  predicate SentInOrder(messages: seq<Message>, clock: nat)
  {
    && Ascending(messages)
    && (forall i :: 0 <= i < |messages| ==> messages[i].sentAt < clock)
  }

  class Store {
    var users: seq<User>
    var friends: seq<Friend>     // record id k is friends[k - 1]
    var messages: seq<Message>   // message id k is messages[k - 1]
    var clock: nat

    ghost predicate Valid()
      reads this
    {
      && UniqueUsers(users)
      && AtMostOneActive(friends)
      && SentInOrder(messages, clock)
      && (forall i :: 0 <= i < |messages| ==> Stamped(messages[i]))
    }

    constructor (users: seq<User>)
      requires UniqueUsers(users)
      ensures Valid()
      ensures this.users == users && friends == [] && messages == [] && clock == 0
    {
      this.users := users;
      friends := [];
      messages := [];
      clock := 0;
    }

    /** `Message.create({ senderId, receiverId, content, status: 'sent' })`. */
    method InsertMessage(senderId: UserId, receiverId: UserId, content: string) returns (id: nat)
      requires Valid()
      modifies this
      ensures Valid()
      ensures id == |old(messages)| + 1
      ensures messages == old(messages) + [Message(senderId, receiverId, content, Sent, old(clock), None, None)]
      ensures clock == old(clock) + 1 && users == old(users) && friends == old(friends)
    {
      messages := messages + [Message(senderId, receiverId, content, Sent, clock, None, None)];
      clock := clock + 1;
      id := |messages|;
    }
  }
}
