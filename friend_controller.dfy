/** The raw-SQL friend controller over the `friends` table: `addFriend`
    inserts a pending row after its guards, `acceptFriend` promotes the
    pending row and inserts the accepted reverse row, `getFriends` projects
    a user's accepted rows to the other party. */
module FriendController {
  import opened Common
  import opened PgModels

  /** The user with this id is called `name`. */
  predicate Named(users: seq<PgUser>, id: UserId, name: string)
  {
    exists i :: 0 <= i < |users| && users[i].id == id && users[i].username == name
  }

  /** `SELECT id FROM users WHERE username = $1`: the first matching row. */
  function FindUserId(users: seq<PgUser>, username: string, from: nat := 0): (r: Option<UserId>)
    requires from <= |users|
    ensures r.Some? ==> exists i :: from <= i < |users| && users[i].username == username && users[i].id == r.value
    ensures r.None? <==> forall i :: from <= i < |users| ==> users[i].username != username
    decreases |users| - from
  {
    if from == |users| then None
    else if users[from].username == username then Some(users[from].id)
    else FindUserId(users, username, from + 1)
  }

  /** The outcome of `addFriend`'s checks, in their order: both fields
      given, the named user exists, is not the caller, and no row joins the
      two in either direction whatever its status. */
  function AddFriendGuard(users: seq<PgUser>, friends: seq<FriendRow>, userId: UserId, friendUsername: string)
    : (r: Result<UserId>)
    requires UsersWellFormed(users)
    ensures (userId == 0 || |friendUsername| == 0) ==> r == Err(MissingFields)
    ensures userId != 0 && |friendUsername| > 0 ==>
      (r == Err(UserNotFound) <==> forall i :: 0 <= i < |users| ==> users[i].username != friendUsername)
    ensures r.Ok? ==> Named(users, r.value, friendUsername) && r.value != userId
    ensures r.Ok? ==> !HasRow(friends, userId, r.value) && !HasRow(friends, r.value, userId)
    ensures userId != 0 && |friendUsername| > 0 && Named(users, userId, friendUsername) ==> r == Err(SelfRequest)
    ensures forall f :: (userId != 0 && |friendUsername| > 0 && Named(users, f, friendUsername) && f != userId &&
      (HasRow(friends, userId, f) || HasRow(friends, f, userId))) ==> r == Err(RelationExists)
    ensures r.Ok? <==> (userId != 0 && |friendUsername| > 0 &&
      exists f :: Named(users, f, friendUsername) && f != userId && !HasRow(friends, userId, f) && !HasRow(friends, f, userId))
  {
    if userId == 0 || |friendUsername| == 0 then Err(MissingFields)
    else
      var found := FindUserId(users, friendUsername);
      if found.None? then Err(UserNotFound)
      else
        var friendId := found.value;
        assert forall f :: Named(users, f, friendUsername) ==> f == friendId by {
          var i :| 0 <= i < |users| && users[i].username == friendUsername && users[i].id == friendId;
          forall f | Named(users, f, friendUsername) ensures f == friendId {
            var j :| 0 <= j < |users| && users[j].id == f && users[j].username == friendUsername;
            assert i == j;
          }
        }
        assert Named(users, friendId, friendUsername);
        if userId == friendId then Err(SelfRequest)
        else if HasRow(friends, userId, friendId) || HasRow(friends, friendId, userId) then Err(RelationExists)
        else Ok(friendId)
  }

  /** A successful `addFriend` leaves the store consistent: the new pending
      row is the only row for the pair. */
  lemma AddKeepsInvariant(users: seq<PgUser>, friends: seq<FriendRow>, userId: UserId, friendId: UserId)
    requires UniquePairs(friends) && FriendsReferenceUsers(users, friends) && FriendshipsPaired(friends)
    requires IsUser(users, userId) && IsUser(users, friendId) && userId != friendId
    requires !HasRow(friends, userId, friendId) && !HasRow(friends, friendId, userId)
    ensures var fs := friends + [FriendRow(userId, friendId, Pending)];
      UniquePairs(fs) && FriendsReferenceUsers(users, fs) && FriendshipsPaired(fs)
  {
    var fs := friends + [FriendRow(userId, friendId, Pending)];
    forall i | 0 <= i < |fs| && fs[i].status == Accepted
      ensures HasAccepted(fs, fs[i].friendId, fs[i].userId)
    {
      assert fs[i] == friends[i];
      var j :| 0 <= j < |friends| && friends[j] == FriendRow(friends[i].friendId, friends[i].userId, Accepted);
      assert fs[j] == friends[j];
    }
    forall i, j | 0 <= i < |fs| && 0 <= j < |fs| && fs[i].status == Pending
      ensures fs[j].userId != fs[i].friendId || fs[j].friendId != fs[i].userId
    {
      if i < |friends| {
        assert fs[i] == friends[i];
        assert !HasRow(friends, friends[i].friendId, friends[i].userId);
        if j < |friends| {
          assert fs[j] == friends[j];
        }
      } else if j < |friends| {
        assert fs[j] == friends[j];
      }
    }
  }

  /** `POST /friends/add`: after the checks, inserts one pending row from the caller
      to the named user. The insert fails on the foreign key when the
      caller's id names no user. */
  method AddFriend(db: PgStore, userId: UserId, friendUsername: string) returns (r: Result<()>)
    requires db.Valid()
    modifies db
    ensures db.Valid()
    ensures db.users == old(db.users) && db.messages == old(db.messages) && db.clock == old(db.clock)
    ensures var g := AddFriendGuard(old(db.users), old(db.friends), userId, friendUsername);
      && (g.Err? ==> r == Err(g.error) && db.friends == old(db.friends))
      && (g.Ok? && !IsUser(old(db.users), userId) ==> r == Err(ConstraintViolation) && db.friends == old(db.friends))
      && (g.Ok? && IsUser(old(db.users), userId) ==>
            r == Ok(()) && db.friends == old(db.friends) + [FriendRow(userId, g.value, Pending)])
  {
    var g := AddFriendGuard(db.users, db.friends, userId, friendUsername);
    if g.Err? {
      return Err(g.error);
    }
    if !IsUser(db.users, userId) {
      return Err(ConstraintViolation);
    }
    assert IsUser(db.users, g.value) by {
      var i :| 0 <= i < |db.users| && db.users[i].id == g.value && db.users[i].username == friendUsername;
    }
    AddKeepsInvariant(db.users, db.friends, userId, g.value);
    db.friends := db.friends + [FriendRow(userId, g.value, Pending)];
    r := Ok(());
  }

  /** After a request from u to f, neither u nor f can ask again. */
  lemma RepeatRequestRejected(users: seq<PgUser>, friends: seq<FriendRow>, userId: UserId, friendUsername: string,
                              userName: string)
    requires UsersWellFormed(users)
    requires AddFriendGuard(users, friends, userId, friendUsername).Ok?
    requires Named(users, userId, userName) && |userName| > 0
    ensures var f := AddFriendGuard(users, friends, userId, friendUsername).value;
      var fs := friends + [FriendRow(userId, f, Pending)];
      && AddFriendGuard(users, fs, userId, friendUsername) == Err(RelationExists)
      && AddFriendGuard(users, fs, f, userName) == Err(RelationExists)
  {
    var f := AddFriendGuard(users, friends, userId, friendUsername).value;
    var fs := friends + [FriendRow(userId, f, Pending)];
    assert HasRow(fs, userId, f) by { assert fs[|friends|] == FriendRow(userId, f, Pending); }
    assert f != 0 by {
      var i :| 0 <= i < |users| && users[i].id == f && users[i].username == friendUsername;
    }
  }

  /** Some pending row goes from `requesterId` to `addresseeId`. */
  predicate HasPending(friends: seq<FriendRow>, requesterId: UserId, addresseeId: UserId)
  {
    exists i :: 0 <= i < |friends| && friends[i] == FriendRow(requesterId, addresseeId, Pending)
  }

  /** The `UPDATE` of `acceptFriend`: pending rows from `requesterId` to
      `addresseeId` become accepted; every other row keeps its status. */
  function PromotePending(friends: seq<FriendRow>, requesterId: UserId, addresseeId: UserId): (r: seq<FriendRow>)
    ensures |r| == |friends|
    ensures forall i :: 0 <= i < |friends| ==> r[i].userId == friends[i].userId && r[i].friendId == friends[i].friendId
    ensures forall i :: 0 <= i < |friends| && friends[i] == FriendRow(requesterId, addresseeId, Pending) ==>
      r[i].status == Accepted
    ensures forall i :: 0 <= i < |friends| && friends[i] != FriendRow(requesterId, addresseeId, Pending) ==>
      r[i] == friends[i]
  {
    seq(|friends|, i requires 0 <= i < |friends| =>
      if friends[i] == FriendRow(requesterId, addresseeId, Pending) then friends[i].(status := Accepted) else friends[i])
  }

  /** The `INSERT` checks of the schema: both users exist and the pair has
      no row yet. */
  predicate InsertAllowed(users: seq<PgUser>, friends: seq<FriendRow>, row: FriendRow)
  {
    IsUser(users, row.userId) && IsUser(users, row.friendId) && !HasRow(friends, row.userId, row.friendId)
  }

  /** `acceptFriend` as written: the update runs, then the accepted reverse
      row is inserted whether or not a pending row was updated. The result
      pairs the reply with the table afterwards; a failed insert leaves the
      update in place. */
  function AcceptAsWritten(users: seq<PgUser>, friends: seq<FriendRow>, userId: UserId, friendId: UserId)
    : (r: (Result<()>, seq<FriendRow>))
    ensures (userId == 0 || friendId == 0) ==> r == (Err(MissingFields), friends)
    ensures userId != 0 && friendId != 0 ==>
      var promoted := PromotePending(friends, friendId, userId);
      var reverse := FriendRow(userId, friendId, Accepted);
      && (r.0.Ok? <==> InsertAllowed(users, promoted, reverse))
      && (r.0.Ok? ==> r.1 == promoted + [reverse])
      && (r.0.Err? ==> r.0.error == ConstraintViolation && r.1 == promoted)
  {
    if userId == 0 || friendId == 0 then (Err(MissingFields), friends)
    else
      var promoted := PromotePending(friends, friendId, userId);
      var reverse := FriendRow(userId, friendId, Accepted);
      if InsertAllowed(users, promoted, reverse) then (Ok(()), promoted + [reverse])
      else (Err(ConstraintViolation), promoted)
  }

  /** With no request at all, `acceptFriend` as written still succeeds and
      leaves user 1 listing user 2 as a friend while user 2 lists nobody;
      the message controller's friendship test then lets the two exchange
      messages. */
  lemma AcceptWithoutRequestBefriends()
    ensures var users := [PgUser(1, "ann"), PgUser(2, "bob")];
      && !HasPending([], 2, 1)
      && AcceptAsWritten(users, [], 1, 2).0 == Ok(())
      && AcceptAsWritten(users, [], 1, 2).1 == [FriendRow(1, 2, Accepted)]
      && !FriendshipsPaired([FriendRow(1, 2, Accepted)])
      && FriendIds([FriendRow(1, 2, Accepted)], 1) == [2]
      && FriendIds([FriendRow(1, 2, Accepted)], 2) == []
      && AcceptedEitherWay([FriendRow(1, 2, Accepted)], 2, 1)
  {
    var users := [PgUser(1, "ann"), PgUser(2, "bob")];
    assert IsUser(users, 1) by { assert users[0].id == 1; }
    assert IsUser(users, 2) by { assert users[1].id == 2; }
    var fs := [FriendRow(1, 2, Accepted)];
    assert PromotePending([], 2, 1) == [];
    assert InsertAllowed(users, [], FriendRow(1, 2, Accepted));
    assert AcceptAsWritten(users, [], 1, 2).1 == [] + fs;
    assert !FriendshipsPaired(fs) by { assert fs[0].status == Accepted; }
    assert FriendIds(fs, 1) == [2];
    assert FriendIds(fs, 2) == [];
    assert AcceptedEitherWay(fs, 2, 1) by { assert fs[0] == FriendRow(1, 2, Accepted); }
  }

  /** The accept step keeps the store consistent when a pending request
      from `friendId` to `userId` exists: the reverse row is new, so the
      insert cannot fail, and the two accepted rows pair each other. */
  lemma AcceptKeepsInvariant(users: seq<PgUser>, friends: seq<FriendRow>, userId: UserId, friendId: UserId)
    requires UniquePairs(friends) && FriendsReferenceUsers(users, friends) && FriendshipsPaired(friends)
    requires HasPending(friends, friendId, userId)
    ensures InsertAllowed(users, PromotePending(friends, friendId, userId), FriendRow(userId, friendId, Accepted))
    ensures var fs := PromotePending(friends, friendId, userId) + [FriendRow(userId, friendId, Accepted)];
      UniquePairs(fs) && FriendsReferenceUsers(users, fs) && FriendshipsPaired(fs)
  {
    var k :| 0 <= k < |friends| && friends[k] == FriendRow(friendId, userId, Pending);
    assert !HasRow(friends, userId, friendId);
    var promoted := PromotePending(friends, friendId, userId);
    var reverse := FriendRow(userId, friendId, Accepted);
    var fs := promoted + [reverse];
    assert promoted[k] == FriendRow(friendId, userId, Accepted);
    assert !HasRow(promoted, userId, friendId);
    forall i | 0 <= i < |fs| && fs[i].status == Accepted
      ensures HasAccepted(fs, fs[i].friendId, fs[i].userId)
    {
      if i == |promoted| {
        assert fs[k] == FriendRow(friendId, userId, Accepted);
      } else if friends[i] == FriendRow(friendId, userId, Pending) {
        assert fs[|promoted|] == reverse;
      } else {
        assert fs[i] == friends[i];
        var j :| 0 <= j < |friends| && friends[j] == FriendRow(friends[i].friendId, friends[i].userId, Accepted);
        assert fs[j] == friends[j];
      }
    }
    forall i, j | 0 <= i < |fs| && 0 <= j < |fs| && fs[i].status == Pending
      ensures fs[j].userId != fs[i].friendId || fs[j].friendId != fs[i].userId
    {
      assert fs[i] == friends[i];
      assert !HasRow(friends, friends[i].friendId, friends[i].userId);
      if j < |promoted| {
        assert fs[j] == promoted[j];
      }
    }
    forall i, j | 0 <= i < j < |fs|
      ensures fs[i].userId != fs[j].userId || fs[i].friendId != fs[j].friendId
    {
      if j < |promoted| {
        assert friends[i].userId == fs[i].userId && friends[i].friendId == fs[i].friendId;
        assert friends[j].userId == fs[j].userId && friends[j].friendId == fs[j].friendId;
      } else {
        assert fs[i] == promoted[i];
      }
    }
    forall i | 0 <= i < |fs|
      ensures IsUser(users, fs[i].userId) && IsUser(users, fs[i].friendId)
    {
      if i < |promoted| {
        assert friends[i].userId == fs[i].userId && friends[i].friendId == fs[i].friendId;
      } else {
        assert IsUser(users, friends[k].userId) && IsUser(users, friends[k].friendId);
      }
    }
  }

  /** `POST /friends/accept`, as the request flow intends it: a caller holding a
      pending request from `friendId` accepts it, which promotes that row
      and inserts the accepted reverse row; without such a request nothing
      changes and the call fails. */
  method AcceptFriend(db: PgStore, userId: UserId, friendId: UserId) returns (r: Result<()>)
    requires db.Valid()
    modifies db
    ensures db.Valid()
    ensures db.users == old(db.users) && db.messages == old(db.messages) && db.clock == old(db.clock)
    ensures (userId == 0 || friendId == 0) ==> r == Err(MissingFields)
    ensures r.Ok? <==> userId != 0 && friendId != 0 && HasPending(old(db.friends), friendId, userId)
    ensures r.Err? ==> db.friends == old(db.friends)
    ensures r.Err? && userId != 0 && friendId != 0 ==> r.error == RequestNotFound
    ensures r.Ok? ==> (r, db.friends) == AcceptAsWritten(old(db.users), old(db.friends), userId, friendId)
    ensures r.Ok? ==>
      db.friends == PromotePending(old(db.friends), friendId, userId) + [FriendRow(userId, friendId, Accepted)]
  {
    if userId == 0 || friendId == 0 {
      return Err(MissingFields);
    }
    if !HasPending(db.friends, friendId, userId) {
      return Err(RequestNotFound);
    }
    AcceptKeepsInvariant(db.users, db.friends, userId, friendId);
    db.friends := PromotePending(db.friends, friendId, userId) + [FriendRow(userId, friendId, Accepted)];
    r := Ok(());
  }

  /** The ids `getFriends` lists: `friend_id` of each accepted row whose
      `user_id` is the user, in table order. */
  function FriendIds(friends: seq<FriendRow>, userId: UserId): (r: seq<UserId>)
    ensures |r| <= |friends|
    ensures forall f :: f in r <==> HasAccepted(friends, userId, f)
    ensures UniquePairs(friends) ==> Distinct(r)
  {
    if friends == [] then []
    else
      var rest := FriendIds(friends[1..], userId);
      assert forall f :: HasAccepted(friends, userId, f) <==>
        friends[0] == FriendRow(userId, f, Accepted) || HasAccepted(friends[1..], userId, f) by {
        forall f | HasAccepted(friends, userId, f) && friends[0] != FriendRow(userId, f, Accepted)
          ensures HasAccepted(friends[1..], userId, f)
        {
          var i :| 0 <= i < |friends| && friends[i] == FriendRow(userId, f, Accepted);
          assert friends[1..][i - 1] == friends[i];
        }
        forall f | HasAccepted(friends[1..], userId, f) ensures HasAccepted(friends, userId, f) {
          var i :| 0 <= i < |friends[1..]| && friends[1..][i] == FriendRow(userId, f, Accepted);
          assert friends[i + 1] == friends[1..][i];
        }
      }
      assert UniquePairs(friends) ==> UniquePairs(friends[1..]) by {
        if UniquePairs(friends) {
          forall i, j | 0 <= i < j < |friends[1..]|
            ensures friends[1..][i].userId != friends[1..][j].userId || friends[1..][i].friendId != friends[1..][j].friendId
          {
            assert friends[1..][i] == friends[i + 1] && friends[1..][j] == friends[j + 1];
          }
        }
      }
      if friends[0].userId == userId && friends[0].status == Accepted then
        assert UniquePairs(friends) ==> Distinct([friends[0].friendId] + rest) by {
          if UniquePairs(friends) {
            forall x | x in rest ensures x != friends[0].friendId {
              var i :| 0 <= i < |friends[1..]| && friends[1..][i] == FriendRow(userId, x, Accepted);
              assert friends[i + 1] == friends[1..][i];
            }
            DistinctPrepend(friends[0].friendId, rest);
          }
        }
        [friends[0].friendId] + rest
      else rest
  }

  /** `GET /friends`: a missing user id is refused; otherwise the friend ids. */
  function GetFriends(friends: seq<FriendRow>, userId: UserId): (r: Result<seq<UserId>>)
    ensures userId == 0 <==> r == Err(MissingFields)
    ensures r.Ok? ==> forall f :: f in r.value <==> HasAccepted(friends, userId, f)
    ensures r.Ok? && UniquePairs(friends) ==> Distinct(r.value)
  {
    if userId == 0 then Err(MissingFields) else Ok(FriendIds(friends, userId))
  }

  lemma OneWayFriend(friends: seq<FriendRow>, a: UserId, b: UserId)
    requires FriendshipsPaired(friends)
    ensures b in FriendIds(friends, a) ==> a in FriendIds(friends, b)
  {
    if b in FriendIds(friends, a) {
      var i :| 0 <= i < |friends| && friends[i] == FriendRow(a, b, Accepted);
      var j :| 0 <= j < |friends| && friends[j] == FriendRow(b, a, Accepted);
    }
  }

  /** In a consistent store friendship is mutual: each user lists the other
      or neither does. */
  lemma FriendsSymmetric(friends: seq<FriendRow>, a: UserId, b: UserId)
    requires FriendshipsPaired(friends)
    ensures b in FriendIds(friends, a) <==> a in FriendIds(friends, b)
  {
    OneWayFriend(friends, a, b);
    OneWayFriend(friends, b, a);
  }
}
