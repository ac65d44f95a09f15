/** The Sequelize socket service: the `connectedUsers` registry (user id to
    socket id) and the connection, send, read-receipt and disconnect handlers.
    Outbound socket traffic is appended to the ghost `log`. */
module SocketService {
  import opened Common
  import opened SequelizeModels
  import MessageService

  /** `User.update({ status, lastOnline: now }, { where: { id } })`. */
  function SetPresence(users: seq<User>, id: UserId, online: bool, now: nat): (r: seq<User>)
    ensures |r| == |users|
    ensures forall i :: 0 <= i < |users| ==>
      r[i].id == users[i].id && r[i].username == users[i].username
    ensures forall i :: 0 <= i < |users| && users[i].id == id ==> r[i].online == online && r[i].lastOnline == now
    ensures forall i :: 0 <= i < |users| && users[i].id != id ==> r[i] == users[i]
    ensures UniqueUsers(users) ==> UniqueUsers(r)
  {
    seq(|users|, i requires 0 <= i < |users| =>
      if users[i].id == id then users[i].(online := online, lastOnline := now) else users[i])
  }

  /** The one message `sendMessage` can move to `delivered` is the one it has
      just created, and that update always succeeds. */
  lemma FreshDeliveryAccepted(m: Message, now: nat)
    requires m.status == Sent && m.deliveredAt.None? && m.readAt.None?
    ensures MessageService.UpdateStatus(m, Delivered, m.receiverId, now)
         == Ok(m.(status := Delivered, deliveredAt := Some(now)))
  {
  }

  class SocketServer {
    var connectedUsers: map<UserId, SocketId>
    var initialized: bool    // `io` has been created by `initSocketIO`
    const db: Store
    ghost var log: seq<Event>

    ghost predicate Valid()
      reads this, db
    {
      db.Valid()
    }

    constructor (db: Store)
      requires db.Valid()
      ensures Valid() && this.db == db
      ensures connectedUsers == map[] && !initialized && log == []
    {
      this.db := db;
      connectedUsers := map[];
      initialized := false;
      log := [];
    }

    /** `initSocketIO`: creates the server and registers the handlers below. */
    method InitSocketIO()
      modifies this
      ensures initialized
      ensures connectedUsers == old(connectedUsers) && log == old(log)
    {
      initialized := true;
    }

    /** `getIo`: fails until the server has been created. */
    function GetIo(): (r: Result<()>)
      reads this
      ensures r.Ok? <==> initialized
      ensures r.Err? ==> r.error == NotInitialized
    {
      if initialized then Ok(()) else Err(NotInitialized)
    }

    /** `connection`: registers this socket for the user, replacing any
        earlier one, marks the user online and broadcasts it. */
    method Connection(userId: UserId, socketId: SocketId)
      requires Valid() && initialized
      modifies this, db
      ensures Valid() && initialized
      ensures connectedUsers == old(connectedUsers)[userId := socketId]
      ensures db.users == SetPresence(old(db.users), userId, true, old(db.clock)) && db.clock == old(db.clock) + 1
      ensures db.friends == old(db.friends) && db.messages == old(db.messages)
      ensures log == old(log) + [UserStatusChange(userId, true)]
    {
      connectedUsers := connectedUsers[userId := socketId];
      db.users := SetPresence(db.users, userId, true, db.clock);
      db.clock := db.clock + 1;
      log := log + [UserStatusChange(userId, true)];
    }

    /** `sendMessage`: persists a `sent` message with no friendship check,
        then, only if the receiver is connected, moves it to `delivered` as
        the receiver and notifies both sides. The reply carries the message
        as created. The message's sender and receiver are foreign keys to
        users, so an id naming no user makes the insert fail and the reply
        report failure. */
    method SendMessage(senderId: UserId, socketId: SocketId, receiverId: UserId, content: string)
      returns (r: Result<Message>)
      requires Valid() && initialized
      modifies this, db
      ensures Valid() && initialized && connectedUsers == old(connectedUsers)
      ensures db.users == old(db.users) && db.friends == old(db.friends)
      ensures !(HasUser(old(db.users), senderId) && HasUser(old(db.users), receiverId)) ==>
        && r == Err(ConstraintViolation)
        && db.messages == old(db.messages) && db.clock == old(db.clock) && log == old(log)
      ensures HasUser(old(db.users), senderId) && HasUser(old(db.users), receiverId) ==>
        var created := Message(senderId, receiverId, content, Sent, old(db.clock), None, None);
        var id := |old(db.messages)| + 1;
        && r == Ok(created)
        && (receiverId !in old(connectedUsers) ==>
              db.messages == old(db.messages) + [created] && log == old(log))
        && (receiverId in old(connectedUsers) ==>
              db.messages == old(db.messages) + [created.(status := Delivered, deliveredAt := Some(old(db.clock) + 1))]
              && log == old(log) + [ReceiveMessage(old(connectedUsers)[receiverId], id), StatusUpdate(socketId, id, Delivered)])
    {
      if !(HasUser(db.users, senderId) && HasUser(db.users, receiverId)) {
        return Err(ConstraintViolation);
      }
      var id := db.InsertMessage(senderId, receiverId, content);
      var created := db.messages[id - 1];
      if receiverId in connectedUsers {
        FreshDeliveryAccepted(created, db.clock);
        var delivered := MessageService.UpdateMessageStatus(db, id, Delivered, receiverId);
        log := log + [ReceiveMessage(connectedUsers[receiverId], id), StatusUpdate(socketId, id, Delivered)];
      }
      r := Ok(created);
    }

    /** `markMessageAsRead`: `updateMessageStatus(id, 'read', caller)`; on
        success the sender is told, if connected. */
    method MarkMessageAsRead(userId: UserId, messageId: nat) returns (r: Result<Message>)
      requires Valid() && initialized
      modifies this, db
      ensures Valid() && initialized && connectedUsers == old(connectedUsers)
      ensures db.users == old(db.users) && db.friends == old(db.friends)
      ensures !(1 <= messageId <= |old(db.messages)|) ==> r == Err(MessageNotFound)
      ensures 1 <= messageId <= |old(db.messages)| ==>
        r == MessageService.UpdateStatus(old(db.messages)[messageId - 1], Read, userId, old(db.clock))
      ensures r.Ok? ==> db.messages == old(db.messages)[messageId - 1 := r.value]
      ensures r.Err? ==> db.messages == old(db.messages) && log == old(log)
      ensures r.Ok? && r.value.senderId in connectedUsers ==>
        log == old(log) + [StatusUpdate(connectedUsers[r.value.senderId], messageId, Read)]
      ensures r.Ok? && r.value.senderId !in connectedUsers ==> log == old(log)
    {
      r := MessageService.UpdateMessageStatus(db, messageId, Read, userId);
      if r.Ok? && r.value.senderId in connectedUsers {
        log := log + [StatusUpdate(connectedUsers[r.value.senderId], messageId, Read)];
      }
    }

    /** `disconnect`: deletes the user's entry whatever socket it names now,
        marks the user offline and broadcasts it. */
    method Disconnect(userId: UserId)
      requires Valid() && initialized
      modifies this, db
      ensures Valid() && initialized
      ensures userId !in connectedUsers
      ensures connectedUsers == old(connectedUsers) - {userId}
      ensures db.users == SetPresence(old(db.users), userId, false, old(db.clock)) && db.clock == old(db.clock) + 1
      ensures db.friends == old(db.friends) && db.messages == old(db.messages)
      ensures log == old(log) + [UserStatusChange(userId, false)]
    {
      connectedUsers := connectedUsers - {userId};
      db.users := SetPresence(db.users, userId, false, db.clock);
      db.clock := db.clock + 1;
      log := log + [UserStatusChange(userId, false)];
    }
  }
}
