/** Shared vocabulary of the three chat-server prototypes: identifiers, the
    message and friendship status enumerations, the error kinds the handlers
    report, the outbound socket events, and pagination. */
module Common {

  /** A user id. The value 0 stands for a missing or falsy id (`undefined`,
      `null`, `""`): every stored user has a non-zero id. */
  type UserId = nat

  /** A socket id. Socket ids are non-empty strings, so every one is truthy. */
  type SocketId = nat

  /** JavaScript truthiness of an id. */
  predicate Present(id: nat) { id != 0 }

  datatype Option<T> = None | Some(value: T)

  /** The distinct failures the handlers raise (thrown errors or HTTP error replies). */
  datatype Error =
    | MissingFields        // a required request field is absent or empty (400)
    | UserNotFound         // no user with that id or username
    | SelfRequest          // a friend request addressed to oneself
    | RequestPending       // a pending request already joins the pair
    | AlreadyFriends       // an accepted relation already joins the pair
    | Blocked              // a blocked relation joins the pair
    | RelationExists       // some relation row joins the pair (raw-SQL variant)
    | DuplicateRequest     // the recipient already holds a request from the sender
    | RequestNotFound      // no such friend request
    | NotAddressee         // only the addressee may answer a request
    | RequestProcessed     // the request is no longer pending
    | NotFriends           // messaging without an accepted relation
    | MessageNotFound      // no message with that id
    | NotReceiver          // only the receiver may change a message's status
    | InvalidStatusUpdate  // unknown target status, or the timestamp is already set
    | UsernameTaken        // registration with an existing username
    | ConstraintViolation  // the database rejects a write (UNIQUE or foreign key)
    | NotInitialized       // the socket server was never created
    | VersionConflict      // a document save lost to an earlier save of the same document

  datatype Result<T> = Ok(value: T) | Err(error: Error)

  /** Message status; the models declare exactly these three values. */
  datatype MessageStatus = Sent | Delivered | Read

  /** The position of a status on the path sent -> delivered -> read. */
  function Rank(s: MessageStatus): nat
  {
    match s
    case Sent => 0
    case Delivered => 1
    case Read => 2
  }

  /** Status of a friendship record. */
  datatype FriendStatus = Pending | Accepted | Rejected | Blocked

  /** Outbound socket traffic, recorded instead of transmitted. */
  datatype Event =
    | OnlineUsersList(users: seq<UserId>)                        // broadcast of the registry's keys
    | UserStatusChange(userId: UserId, online: bool)             // broadcast presence change
    | ErrorMessage(to: SocketId)                                 // refusal sent back to the caller
    | SentConfirmation(to: SocketId, messageId: nat)             // echo of a saved message
    | ReceiveMessage(to: SocketId, messageId: nat)               // real-time delivery
    | StatusUpdate(to: SocketId, messageId: nat, status: MessageStatus)
    | PushAttempt(receiverId: UserId, senderName: string, body: string)  // offline notification hook

  /** No element occurs twice. */
  predicate Distinct<T(==)>(s: seq<T>)
  {
    forall i, j :: 0 <= i < j < |s| ==> s[i] != s[j]
  }

  /** Putting an absent element in front keeps a sequence duplicate-free. */
  lemma DistinctPrepend<T>(a: T, s: seq<T>)
    requires Distinct(s) && a !in s
    ensures Distinct([a] + s)
  {
    forall i, j | 0 <= i < j < |[a] + s| ensures ([a] + s)[i] != ([a] + s)[j] {
      if i == 0 {
        assert ([a] + s)[j] == s[j - 1];
      } else {
        assert ([a] + s)[i] == s[i - 1] && ([a] + s)[j] == s[j - 1];
      }
    }
  }

  function Min(a: nat, b: nat): nat { if a <= b then a else b }

  /** SQL `LIMIT limit OFFSET offset` over an already ordered result. */
  function Page<T>(s: seq<T>, limit: nat, offset: nat): (r: seq<T>)
    ensures |r| == Min(limit, if offset <= |s| then |s| - offset else 0)
    ensures forall k :: 0 <= k < |r| ==> offset + k < |s| && r[k] == s[offset + k]
  {
    var start := Min(offset, |s|);
    s[start .. start + Min(limit, |s| - start)]
  }
}
