/** The module-level `onlineUsers` object of the Mongo socket handlers: user
    id to socket id. Its keys enumerate in insertion order (user ids are not
    array indices), which is the order `for...in` and `Object.keys` see. */
module OnlineRegistry {
  import opened Common

  /** Position, from `from` on, of the first key in `order` whose entry is
      `socketId`. */
  function FirstMappedTo(order: seq<UserId>, sockets: map<UserId, SocketId>, socketId: SocketId, from: nat := 0)
    : (r: Option<nat>)
    requires from <= |order|
    requires forall k :: k in order ==> k in sockets
    ensures r.Some? ==> from <= r.value < |order| && sockets[order[r.value]] == socketId
    ensures r.Some? ==> forall i :: from <= i < r.value ==> sockets[order[i]] != socketId
    ensures r.None? <==> forall i :: from <= i < |order| ==> sockets[order[i]] != socketId
    decreases |order| - from
  {
    if from == |order| then None
    else if sockets[order[from]] == socketId then Some(from)
    else FirstMappedTo(order, sockets, socketId, from + 1)
  }

  /** Dropping position i of a duplicate-free sequence removes exactly that element. */
  lemma RemoveAt(s: seq<UserId>, i: nat)
    requires Distinct(s) && i < |s|
    ensures Distinct(s[..i] + s[i + 1..])
    ensures forall k :: k in s[..i] + s[i + 1..] <==> k in s && k != s[i]
  {
    var t := s[..i] + s[i + 1..];
    assert forall j :: 0 <= j < |t| ==> t[j] == (if j < i then s[j] else s[j + 1]);
    forall k | k in s && k != s[i] ensures k in t {
      var j :| 0 <= j < |s| && s[j] == k;
      if j < i { assert t[j] == k; } else { assert t[j - 1] == k; }
    }
  }

  class OnlineUsers {
    var order: seq<UserId>              // the keys, in enumeration order
    var sockets: map<UserId, SocketId>

    ghost predicate Valid()
      reads this
    {
      Distinct(order) && (forall k :: k in order <==> k in sockets)
    }

    constructor ()
      ensures Valid() && order == [] && sockets == map[]
    {
      order := [];
      sockets := map[];
    }

    /** `onlineUsers[userId]`. */
    function Lookup(userId: UserId): (r: Option<SocketId>)
      reads this
      ensures r.Some? <==> userId in sockets
      ensures r.Some? ==> r.value == sockets[userId]
    {
      if userId in sockets then Some(sockets[userId]) else None
    }

    /** `go-online`: a falsy id changes nothing; otherwise the user's entry
        names this socket, whatever it named before. */
    method GoOnline(userId: UserId, socketId: SocketId)
      requires Valid()
      modifies this
      ensures Valid()
      ensures !Present(userId) ==> order == old(order) && sockets == old(sockets)
      ensures Present(userId) ==> sockets == old(sockets)[userId := socketId]
      ensures Present(userId) ==> order == if userId in old(sockets) then old(order) else old(order) + [userId]
    {
      if !Present(userId) {
        return;
      }
      if userId !in sockets {
        order := order + [userId];
      }
      sockets := sockets[userId := socketId];
    }

    /** `disconnect`: walks the keys in order and deletes the first entry
        that names this socket, then stops. Every other entry survives, in
        particular one whose user has moved to a newer socket. */
    method Disconnect(socketId: SocketId) returns (removed: Option<UserId>)
      requires Valid()
      modifies this
      ensures Valid()
      ensures removed.None? ==> order == old(order) && sockets == old(sockets)
      ensures removed.None? ==> forall u :: u in old(sockets) ==> old(sockets)[u] != socketId
      ensures removed.None? <==> FirstMappedTo(old(order), old(sockets), socketId).None?
      ensures removed.Some? ==> removed.value == old(order)[FirstMappedTo(old(order), old(sockets), socketId).value]
      ensures removed.Some? ==> sockets == old(sockets) - {removed.value} && old(sockets)[removed.value] == socketId
      ensures removed.Some? ==> var k := FirstMappedTo(old(order), old(sockets), socketId).value;
        order == old(order)[..k] + old(order)[k + 1..]
      ensures forall u :: u in old(sockets) && old(sockets)[u] != socketId ==> u in sockets && sockets[u] == old(sockets)[u]
    {
      var i := 0;
      while i < |order|
        invariant 0 <= i <= |order|
        invariant forall j :: 0 <= j < i ==> sockets[order[j]] != socketId
      {
        if sockets[order[i]] == socketId {
          var u := order[i];
          assert FirstMappedTo(order, sockets, socketId) == Some(i);
          RemoveAt(order, i);
          sockets := sockets - {u};
          order := order[..i] + order[i + 1..];
          return Some(u);
        }
        i := i + 1;
      }
      removed := None;
    }
  }
}
