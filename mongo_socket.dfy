/** The Mongo socket handlers: `go-online`, `private-message`,
    `message-read` and `disconnect` over the `onlineUsers` registry. Two
    copies of these handlers exist; the second adds a web-push fallback for
    offline receivers, selected here by `pushOnOffline`. Outbound socket
    traffic is appended to the ghost `log`. */
module MongoSocket {
  import opened Common
  import opened MongoModels
  import opened OnlineRegistry

  /** The status `private-message` saves, from the receiver's registry entry
      at send time: delivered iff there is one. */
  function InitialStatus(receiverSocket: Option<SocketId>): (s: MessageStatus)
    ensures s == Delivered <==> receiverSocket.Some?
    ensures s == Sent <==> receiverSocket.None?
  {
    if receiverSocket.Some? then Delivered else Sent
  }

  /** The sender exists and lists the receiver among its friends. */
  predicate MayMessage(users: map<UserId, MongoUser>, senderId: UserId, receiverId: UserId)
  {
    senderId in users && receiverId in users[senderId].friends
  }

  class ChatSocket {
    const registry: OnlineUsers
    const db: MongoStore
    const pushOnOffline: bool
    ghost var log: seq<Event>

    ghost predicate Valid()
      reads this, registry, db
    {
      registry.Valid() && db.Valid()
    }

    constructor (registry: OnlineUsers, db: MongoStore, pushOnOffline: bool)
      requires registry.Valid() && db.Valid()
      ensures Valid() && this.registry == registry && this.db == db
      ensures this.pushOnOffline == pushOnOffline && log == []
    {
      this.registry := registry;
      this.db := db;
      this.pushOnOffline := pushOnOffline;
      log := [];
    }

    /** `go-online`: registers this socket for the user (a falsy id is
        ignored) and broadcasts the registry's keys. */
    method GoOnline(socketId: SocketId, userId: UserId)
      requires Valid()
      modifies this, registry
      ensures Valid()
      ensures !Present(userId) ==>
        registry.sockets == old(registry.sockets) && registry.order == old(registry.order) && log == old(log)
      ensures Present(userId) ==> registry.sockets == old(registry.sockets)[userId := socketId]
      ensures Present(userId) ==>
        registry.order == (if userId in old(registry.sockets) then old(registry.order) else old(registry.order) + [userId])
      ensures Present(userId) ==> log == old(log) + [OnlineUsersList(registry.order)]
    {
      registry.GoOnline(userId, socketId);
      if Present(userId) {
        log := log + [OnlineUsersList(registry.order)];
      }
    }

    /** The offline branch of the push-enabled copy: a receiver with a push
        subscription is handed to the notification hook. A failing push is
        caught and leaves the messages alone. */
    method NotifyOffline(receiverId: UserId, senderName: string, content: string)
      requires Valid()
      modifies this
      ensures Valid()
      ensures db.messages == old(db.messages) && db.users == old(db.users)
      ensures log == old(log) +
        (if pushOnOffline && receiverId in db.users && db.users[receiverId].hasPushSubscription
         then [PushAttempt(receiverId, senderName, content)] else [])
    {
      if pushOnOffline && receiverId in db.users && db.users[receiverId].hasPushSubscription {
        log := log + [PushAttempt(receiverId, senderName, content)];
      }
    }

    /** `private-message`: refuses unless the sender exists and lists the
        receiver as a friend; otherwise saves the message, `delivered` iff
        the receiver is registered, before any notification; then echoes it,
        delivers it in real time or falls back to the offline hook. The
        schema requires `content`, so an empty one makes the save throw
        before anything is emitted. */
    method PrivateMessage(socketId: SocketId, senderId: UserId, receiverId: UserId, content: string)
      returns (saved: Option<nat>)
      requires Valid()
      modifies this, db
      ensures Valid()
      ensures db.users == old(db.users) && db.nextId == old(db.nextId)
      ensures !MayMessage(old(db.users), senderId, receiverId) ==>
        && saved.None? && db.messages == old(db.messages) && db.clock == old(db.clock)
        && log == old(log) + [ErrorMessage(socketId)]
      ensures MayMessage(old(db.users), senderId, receiverId) && |content| == 0 ==>
        saved.None? && db.messages == old(db.messages) && db.clock == old(db.clock) && log == old(log)
      ensures MayMessage(old(db.users), senderId, receiverId) && |content| > 0 ==>
        && saved == Some(|old(db.messages)| + 1)
        && db.messages == old(db.messages) +
             [MongoMessage(senderId, receiverId, content, InitialStatus(registry.Lookup(receiverId)), old(db.clock))]
      ensures MayMessage(old(db.users), senderId, receiverId) && |content| > 0 && receiverId in registry.sockets ==>
        log == old(log) + [SentConfirmation(socketId, saved.value),
                           ReceiveMessage(registry.sockets[receiverId], saved.value),
                           StatusUpdate(socketId, saved.value, Delivered)]
      ensures MayMessage(old(db.users), senderId, receiverId) && |content| > 0 && receiverId !in registry.sockets ==>
        log == old(log) + [SentConfirmation(socketId, saved.value)] +
          (if pushOnOffline && receiverId in db.users && db.users[receiverId].hasPushSubscription
           then [PushAttempt(receiverId, db.users[senderId].username, content)] else [])
    {
      if !MayMessage(db.users, senderId, receiverId) {
        log := log + [ErrorMessage(socketId)];
        return None;
      }
      var receiverSocket := registry.Lookup(receiverId);
      if |content| == 0 {
        return None;
      }
      var id := db.SaveMessage(senderId, receiverId, content, InitialStatus(receiverSocket));
      log := log + [SentConfirmation(socketId, id)];
      if receiverSocket.Some? {
        log := log + [ReceiveMessage(receiverSocket.value, id), StatusUpdate(socketId, id, Delivered)];
      } else {
        NotifyOffline(receiverId, db.users[senderId].username, content);
      }
      saved := Some(id);
    }

    /** `message-read`: an existing message not yet read becomes read and its
        sender, if registered, is told; otherwise nothing happens. The
        caller's identity is not checked. */
    method MessageRead(messageId: nat)
      requires Valid()
      modifies this, db
      ensures Valid()
      ensures db.users == old(db.users) && db.nextId == old(db.nextId) && db.clock == old(db.clock)
      ensures var found := 1 <= messageId <= |old(db.messages)| && old(db.messages)[messageId - 1].status != Read;
        && (!found ==> db.messages == old(db.messages) && log == old(log))
        && (found ==> db.messages == old(db.messages)[messageId - 1 := old(db.messages)[messageId - 1].(status := Read)])
        && (found ==> var sender := old(db.messages)[messageId - 1].sender;
              log == old(log) + (if sender in registry.sockets
                                 then [StatusUpdate(registry.sockets[sender], messageId, Read)] else []))
    {
      if !(1 <= messageId <= |db.messages|) || db.messages[messageId - 1].status == Read {
        return;
      }
      var m := db.messages[messageId - 1];
      db.messages := db.messages[messageId - 1 := m.(status := Read)];
      if m.sender in registry.sockets {
        log := log + [StatusUpdate(registry.sockets[m.sender], messageId, Read)];
      }
    }

    /** `disconnect`: drops the first registry entry naming this socket, if
        any, and then broadcasts the remaining keys. */
    method Disconnect(socketId: SocketId)
      requires Valid()
      modifies this, registry
      ensures Valid()
      ensures forall u :: u in old(registry.sockets) && old(registry.sockets)[u] != socketId ==>
        u in registry.sockets && registry.sockets[u] == old(registry.sockets)[u]
      ensures |registry.sockets.Keys| + 1 >= |old(registry.sockets).Keys|
      ensures registry.sockets.Keys <= old(registry.sockets).Keys
      ensures var first := FirstMappedTo(old(registry.order), old(registry.sockets), socketId);
        && (first.None? ==>
              registry.sockets == old(registry.sockets) && registry.order == old(registry.order) && log == old(log))
        && (first.Some? ==>
              var u := old(registry.order)[first.value];
              && registry.sockets == old(registry.sockets) - {u}
              && registry.order == old(registry.order)[..first.value] + old(registry.order)[first.value + 1..]
              && log == old(log) + [OnlineUsersList(registry.order)])
    {
      var removed := registry.Disconnect(socketId);
      if removed.Some? {
        log := log + [OnlineUsersList(registry.order)];
      }
    }
  }
}
