/** The Sequelize user service: friend requests over friendship records,
    the addressee's answer, and the two list projections. */
module UserService {
  import opened Common
  import opened SequelizeModels

  /** `User.findOne({ where: { username } })`. */
  function FindUserByUsername(users: seq<User>, username: string): (r: Option<User>)
    ensures r.Some? ==> r.value in users && r.value.username == username
    ensures r.None? <==> forall u :: u in users ==> u.username != username
  {
    if users == [] then None
    else if users[0].username == username then Some(users[0])
    else
      var r := FindUserByUsername(users[1..], username);
      assert forall u :: u in users ==> u == users[0] || u in users[1..];
      r
  }

  /** Index of the first record, from `from` on, that satisfies `p`. */
  function FirstWhere(friends: seq<Friend>, p: Friend -> bool, from: nat := 0): (r: Option<nat>)
    requires from <= |friends|
    ensures r.Some? ==> from <= r.value < |friends| && p(friends[r.value])
    ensures r.Some? ==> forall i :: from <= i < r.value ==> !p(friends[i])
    ensures r.None? <==> forall i :: from <= i < |friends| ==> !p(friends[i])
    decreases |friends| - from
  {
    if from == |friends| then None
    else if p(friends[from]) then Some(from)
    else FirstWhere(friends, p, from + 1)
  }

  /** The error an existing record of this status raises; a rejected record raises none. */
  function StatusConflict(s: FriendStatus): Option<Error>
  {
    match s
    case Pending => Some(RequestPending)
    case Accepted => Some(AlreadyFriends)
    case Blocked => Some(Error.Blocked)
    case Rejected => None
  }

  /** The duplicate check of `sendFriendRequest` AS WRITTEN: `Friend.findOne`
      returns one record joining the pair (here the first in table order) and
      only that record's status is examined. */
  function ExistingGuardAsWritten(friends: seq<Friend>, a: UserId, b: UserId): (r: Option<Error>)
    ensures r.None? <==>
      forall i :: 0 <= i < |friends| && Joins(friends[i], a, b) ==>
        friends[i].status == Rejected || exists j :: 0 <= j < i && Joins(friends[j], a, b)
  {
    match FirstWhere(friends, f => Joins(f, a, b))
    case None => None
    case Some(i) => StatusConflict(friends[i].status)
  }

  /** The duplicate check as intended: any active record joining the pair,
      in either direction, refuses the request. */
  function ExistingGuard(friends: seq<Friend>, a: UserId, b: UserId): (r: Option<Error>)
    ensures r.None? <==> forall i :: 0 <= i < |friends| && Joins(friends[i], a, b) ==> !Active(friends[i])
    ensures r.Some? ==> exists i :: 0 <= i < |friends| && Joins(friends[i], a, b) && StatusConflict(friends[i].status) == r
  {
    match FirstWhere(friends, f => Joins(f, a, b) && Active(f))
    case None => None
    case Some(i) => StatusConflict(friends[i].status)
  }

  /** Every check `sendFriendRequest` makes before it inserts; on success the
      addressee's id. */
  function RequestGuard(users: seq<User>, friends: seq<Friend>, requesterId: UserId, addresseeUsername: string)
    : (r: Result<UserId>)
    requires UniqueUsers(users)
    ensures FindUserByUsername(users, addresseeUsername).None? ==> r == Err(UserNotFound)
    ensures r.Ok? <==>
      exists u :: u in users && u.username == addresseeUsername && u.id != requesterId &&
        forall i :: 0 <= i < |friends| && Joins(friends[i], requesterId, u.id) ==> !Active(friends[i])
    ensures r.Ok? ==> exists u :: u in users && u.username == addresseeUsername && u.id == r.value
    ensures (exists u :: u in users && u.username == addresseeUsername && u.id == requesterId) ==> r == Err(SelfRequest)
  {
    match FindUserByUsername(users, addresseeUsername)
    case None => Err(UserNotFound)
    case Some(addressee) =>
      assert forall u :: u in users && u.username == addresseeUsername ==> u == addressee by {
        forall u | u in users && u.username == addresseeUsername ensures u == addressee {
          var i :| 0 <= i < |users| && users[i] == u;
          var j :| 0 <= j < |users| && users[j] == addressee;
          assert i == j;
        }
      }
      if requesterId == addressee.id then Err(SelfRequest)
      else
        match ExistingGuard(friends, requesterId, addressee.id)
        case Some(e) => Err(e)
        case None => Ok(addressee.id)
  }

  /** A pending record added after a passing guard keeps at most one active
      record per pair. */
  lemma RequestKeepsOneActive(friends: seq<Friend>, a: UserId, b: UserId, now: nat)
    requires AtMostOneActive(friends)
    requires ExistingGuard(friends, a, b).None?
    ensures AtMostOneActive(friends + [Friend(a, b, Pending, now)])
  {
    var fs := friends + [Friend(a, b, Pending, now)];
    forall i, j | 0 <= i < j < |fs| && Active(fs[i]) && Active(fs[j])
      ensures !Joins(fs[i], fs[j].requesterId, fs[j].addresseeId)
    {
      if j == |friends| {
        assert fs[i] == friends[i];
      }
    }
  }

  /** `sendFriendRequest` (with the intended duplicate check): refuses an
      unknown addressee, oneself and a pair with an active record; otherwise
      appends one pending record and returns its id. */
  method SendFriendRequest(db: Store, requesterId: UserId, addresseeUsername: string) returns (r: Result<nat>)
    requires db.Valid()
    modifies db
    ensures db.Valid()
    ensures db.users == old(db.users) && db.messages == old(db.messages)
    ensures var g := RequestGuard(old(db.users), old(db.friends), requesterId, addresseeUsername);
      && (g.Err? ==> r == Err(g.error) && db.friends == old(db.friends) && db.clock == old(db.clock))
      && (g.Ok? ==> r == Ok(|db.friends|) && db.clock == old(db.clock) + 1 &&
                    db.friends == old(db.friends) + [Friend(requesterId, g.value, Pending, old(db.clock))])
  {
    var g := RequestGuard(db.users, db.friends, requesterId, addresseeUsername);
    if g.Err? {
      return Err(g.error);
    }
    RequestKeepsOneActive(db.friends, requesterId, g.value, db.clock);
    db.friends := db.friends + [Friend(requesterId, g.value, Pending, db.clock)];
    db.clock := db.clock + 1;
    r := Ok(|db.friends|);
  }

  /** The change `respondToFriendRequest` makes to a fetched record. */
  function Respond(f: Friend, userId: UserId, status: FriendStatus): (r: Result<Friend>)
    ensures f.addresseeId != userId ==> r == Err(NotAddressee)
    ensures f.addresseeId == userId && f.status != Pending ==> r == Err(RequestProcessed)
    ensures r.Ok? <==> f.addresseeId == userId && f.status == Pending
    ensures r.Ok? ==> r.value.status == status && r.value.(status := f.status) == f
  {
    if f.addresseeId != userId then Err(NotAddressee)
    else if f.status != Pending then Err(RequestProcessed)
    else Ok(f.(status := status))
  }

  /** `respondToFriendRequest`: only the addressee of a still-pending record
      may set its status; nothing else changes. */
  method RespondToFriendRequest(db: Store, requestId: nat, userId: UserId, status: FriendStatus)
    returns (r: Result<Friend>)
    requires db.Valid()
    modifies db
    ensures db.Valid()
    ensures db.users == old(db.users) && db.messages == old(db.messages) && db.clock == old(db.clock)
    ensures !(1 <= requestId <= |old(db.friends)|) ==> r == Err(RequestNotFound)
    ensures 1 <= requestId <= |old(db.friends)| ==> r == Respond(old(db.friends)[requestId - 1], userId, status)
    ensures r.Ok? ==> db.friends == old(db.friends)[requestId - 1 := r.value]
    ensures r.Err? ==> db.friends == old(db.friends)
  {
    if !(1 <= requestId <= |db.friends|) {
      return Err(RequestNotFound);
    }
    r := Respond(db.friends[requestId - 1], userId, status);
    if r.Ok? {
      db.friends := db.friends[requestId - 1 := r.value];
    }
  }

  /** The party of `f` other than `userId`. */
  function Other(f: Friend, userId: UserId): UserId
  {
    if f.requesterId == userId then f.addresseeId else f.requesterId
  }

  /** `getFriendsList`: for each accepted record involving the user, in table
      order, the other party. */
  function GetFriendsList(friends: seq<Friend>, userId: UserId): (r: seq<UserId>)
    ensures |r| <= |friends|
    ensures forall x :: x in r <==> exists f :: f in friends && f.status == Accepted && Joins(f, userId, x)
    ensures AtMostOneActive(friends) ==> Distinct(r)
  {
    if friends == [] then []
    else
      var f := friends[0];
      var rest := GetFriendsList(friends[1..], userId);
      assert forall g :: g in friends <==> g == f || g in friends[1..];
      assert AtMostOneActive(friends) ==> AtMostOneActive(friends[1..]) by {
        if AtMostOneActive(friends) {
          forall i, j | 0 <= i < j < |friends[1..]| && Active(friends[1..][i]) && Active(friends[1..][j])
            ensures !Joins(friends[1..][i], friends[1..][j].requesterId, friends[1..][j].addresseeId)
          {
            assert friends[1..][i] == friends[i + 1] && friends[1..][j] == friends[j + 1];
          }
        }
      }
      if f.status == Accepted && (f.requesterId == userId || f.addresseeId == userId) then
        assert AtMostOneActive(friends) ==> Distinct([Other(f, userId)] + rest) by {
          if AtMostOneActive(friends) {
            forall x | x in rest ensures x != Other(f, userId) {
              var g :| g in friends[1..] && g.status == Accepted && Joins(g, userId, x);
              var j :| 0 <= j < |friends[1..]| && friends[1..][j] == g;
              assert friends[j + 1] == g;
            }
            DistinctPrepend(Other(f, userId), rest);
          }
        }
        [Other(f, userId)] + rest
      else rest
  }

  datatype PendingRequest = PendingRequest(id: nat, requesterId: UserId, createdAt: nat)

  /** The projection of record id `i + 1`. */
  function RequestOf(friends: seq<Friend>, i: nat): PendingRequest
    requires i < |friends|
  {
    PendingRequest(i + 1, friends[i].requesterId, friends[i].createdAt)
  }

  /** The pending requests addressed to the user among the first n records. */
  function PendingUpTo(friends: seq<Friend>, userId: UserId, n: nat): (r: seq<PendingRequest>)
    requires n <= |friends|
    ensures forall k :: 0 <= k < |r| ==>
      1 <= r[k].id <= n && friends[r[k].id - 1].addresseeId == userId &&
      friends[r[k].id - 1].status == Pending && r[k] == RequestOf(friends, r[k].id - 1)
    ensures forall i :: 0 <= i < n && friends[i].addresseeId == userId && friends[i].status == Pending ==>
      RequestOf(friends, i) in r
  {
    if n == 0 then []
    else
      var rest := PendingUpTo(friends, userId, n - 1);
      if friends[n - 1].addresseeId == userId && friends[n - 1].status == Pending then
        rest + [RequestOf(friends, n - 1)]
      else rest
  }

  /** The projection lists each record at most once: ids strictly ascend. */
  lemma {:induction false} PendingIdsAscend(friends: seq<Friend>, userId: UserId, n: nat)
    requires n <= |friends|
    ensures forall j, k :: 0 <= j < k < |PendingUpTo(friends, userId, n)| ==>
      PendingUpTo(friends, userId, n)[j].id < PendingUpTo(friends, userId, n)[k].id
  {
    if n > 0 {
      PendingIdsAscend(friends, userId, n - 1);
      var rest := PendingUpTo(friends, userId, n - 1);
      if friends[n - 1].addresseeId == userId && friends[n - 1].status == Pending {
        var r := rest + [RequestOf(friends, n - 1)];
        assert PendingUpTo(friends, userId, n) == r;
        forall j, k | 0 <= j < k < |r| ensures r[j].id < r[k].id {
          assert r[j] == rest[j];
          if k < |rest| {
            assert r[k] == rest[k];
          }
        }
      }
    }
  }

  /** `getPendingFriendRequests`: exactly the pending records addressed to the user. */
  function GetPendingFriendRequests(friends: seq<Friend>, userId: UserId): (r: seq<PendingRequest>)
    ensures forall p :: p in r <==>
      exists i :: 0 <= i < |friends| && friends[i].addresseeId == userId &&
        friends[i].status == Pending && p == RequestOf(friends, i)
    ensures forall j, k :: 0 <= j < k < |r| ==> r[j].id < r[k].id
  {
    var r := PendingUpTo(friends, userId, |friends|);
    assert forall p :: p in r ==> exists k :: 0 <= k < |r| && r[k] == p;
    PendingIdsAscend(friends, userId, |friends|);
    assert forall j, k :: 0 <= j < k < |r| ==> r[j].id < r[k].id;
    r
  }

  /** The duplicate check as written lets a rejected record hide an accepted
      one, and the request it then admits breaks the one-active-record rule;
      the intended check refuses it. The record table arises from: request,
      reject, request again, accept. */
  lemma FindOneMissesActiveRecord()
    ensures var friends := [Friend(1, 2, Rejected, 0), Friend(1, 2, Accepted, 1)];
      && AtMostOneActive(friends)
      && ExistingGuardAsWritten(friends, 1, 2).None?
      && !AtMostOneActive(friends + [Friend(1, 2, Pending, 2)])
      && ExistingGuard(friends, 1, 2) == Some(AlreadyFriends)
  {
    var friends := [Friend(1, 2, Rejected, 0), Friend(1, 2, Accepted, 1)];
    assert FirstWhere(friends, f => Joins(f, 1, 2)) == Some(0);
    assert FirstWhere(friends, f => Joins(f, 1, 2) && Active(f)) == Some(1);
    var fs := friends + [Friend(1, 2, Pending, 2)];
    assert Active(fs[1]) && Active(fs[2]) && Joins(fs[1], fs[2].requesterId, fs[2].addresseeId);
  }

  /** The table of `FindOneMissesActiveRecord` is reached by the service's own
      steps: each guard passes and each answer is allowed. */
  lemma RejectedThenAcceptedIsReachable()
    ensures ExistingGuard([], 1, 2).None?
    ensures Respond(Friend(1, 2, Pending, 0), 2, Rejected) == Ok(Friend(1, 2, Rejected, 0))
    ensures ExistingGuard([Friend(1, 2, Rejected, 0)], 1, 2).None?
    ensures Respond(Friend(1, 2, Pending, 1), 2, Accepted) == Ok(Friend(1, 2, Accepted, 1))
  {
  }
}
