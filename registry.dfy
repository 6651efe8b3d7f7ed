/**
 * The room registry: what index.js reads as `io.sockets.adapter.rooms`.
 * It is a JavaScript `Map` from room name to the `Set` of socket ids in
 * that room. A socket's own `socket.rooms` is not stored separately. It is
 * the set of rooms whose member set holds the socket (`RoomsOf`). The
 * adapter's `addAll` and `del` back `socket.join` and `socket.leave`: a
 * room is created on its first join, appended to the key order, and dropped
 * once its last member leaves.
 */
module RoomRegistry {
  import opened Sequences
  import opened RoomIds

  type PeerID = string

  /** `keys` is the Map's insertion order; `members` its contents. */
  datatype Registry = Registry(keys: seq<RoomID>, members: map<RoomID, set<PeerID>>)

  /** The key order lists each room once, and no room is empty. */
  ghost predicate Wf(reg: Registry) {
    && Enumerates(reg.keys, reg.members.Keys)
    && forall r :: r in reg.members ==> reg.members[r] != {}
  }

  const Empty := Registry([], map[])

  /** `rooms.get(roomID) || []`: the members of a room, none if it does not exist. */
  function Members(reg: Registry, roomID: RoomID): set<PeerID> {
    if roomID in reg.members then reg.members[roomID] else {}
  }

  /**
   * `socket.rooms`, by definition: the rooms whose member set holds the peer.
   * `JoinRoomsOf`, `LeaveRoomsOf` and `LeaveAllRoomsOf` state how it changes.
   */
  function RoomsOf(reg: Registry, peer: PeerID): set<RoomID> {
    set r | r in reg.members && peer in reg.members[r]
  }

  /** In a well-formed registry the rooms that exist are exactly the non-empty ones. */
  lemma WfRoomsAreNonEmpty(reg: Registry)
    requires Wf(reg)
    ensures forall r :: r in reg.members <==> Members(reg, r) != {}
  {
  }

  /**
   * `socket.join(roomID)` (the adapter's `addAll`): the peer is added to the
   * room, which is created and appended to the key order if it is new.
   * No other room changes.
   */
  function Join(reg: Registry, roomID: RoomID, peer: PeerID): (r: Registry)
    requires Wf(reg)
    ensures Wf(r)
    ensures forall x :: Members(r, x) == if x == roomID then Members(reg, x) + {peer} else Members(reg, x)
    ensures r.keys == if roomID in reg.members then reg.keys else reg.keys + [roomID]
  {
    if roomID in reg.members then
      Registry(reg.keys, reg.members[roomID := reg.members[roomID] + {peer}])
    else
      DistinctAppend(reg.keys, roomID);
      Registry(reg.keys + [roomID], reg.members[roomID := {peer}])
  }

  /**
   * `socket.leave(roomID)` (the adapter's `del`): the peer is removed from the
   * room, and the room is deleted once it is empty. Leaving a room one is not
   * in changes nothing. No other room changes, and the surviving rooms keep
   * their key order.
   */
  function Leave(reg: Registry, roomID: RoomID, peer: PeerID): (r: Registry)
    requires Wf(reg)
    ensures Wf(r)
    ensures Members(r, roomID) == Members(reg, roomID) - {peer}
    ensures forall x :: x != roomID ==> Members(r, x) == Members(reg, x)
    ensures r.keys == Restrict(reg.keys, r.members.Keys)
  {
    if roomID !in reg.members then
      RestrictToAll(reg.keys, reg.members.Keys);
      reg
    else if reg.members[roomID] - {peer} == {} then
      DeleteRoom(reg, roomID)
    else
      RemoveMember(reg, roomID, peer)
  }

  /** The adapter deleting an emptied room: the room is gone and the rest keep their members and key order. */
  function DeleteRoom(reg: Registry, roomID: RoomID): (r: Registry)
    requires Wf(reg)
    ensures Wf(r)
    ensures r.members == reg.members - {roomID}
    ensures r.keys == Restrict(reg.keys, r.members.Keys)
  {
    var members := reg.members - {roomID};
    Registry(Restrict(reg.keys, members.Keys), members)
  }

  /** The adapter removing one member from a room that stays non-empty: the key order is untouched. */
  function RemoveMember(reg: Registry, roomID: RoomID, peer: PeerID): (r: Registry)
    requires Wf(reg) && roomID in reg.members && reg.members[roomID] - {peer} != {}
    ensures Wf(r)
    ensures r.members == reg.members[roomID := reg.members[roomID] - {peer}]
    ensures r.keys == reg.keys == Restrict(reg.keys, r.members.Keys)
  {
    var members := reg.members[roomID := reg.members[roomID] - {peer}];
    assert members.Keys == reg.members.Keys;
    RestrictToAll(reg.keys, members.Keys);
    Registry(reg.keys, members)
  }

  /** Leaving each of `rooms` in turn, as `leaveRoom`'s outer loop does. */
  function LeaveAll(reg: Registry, rooms: seq<RoomID>, peer: PeerID): (r: Registry)
    requires Wf(reg)
    ensures Wf(r)
  {
    if rooms == [] then reg
    else Leave(LeaveAll(reg, rooms[..|rooms| - 1], peer), rooms[|rooms| - 1], peer)
  }

  /** After leaving `rooms` the peer is in none of them, and every other membership is as before. */
  lemma {:induction false} LeaveAllMembers(reg: Registry, rooms: seq<RoomID>, peer: PeerID)
    requires Wf(reg)
    ensures forall x :: Members(LeaveAll(reg, rooms, peer), x) ==
              if x in rooms then Members(reg, x) - {peer} else Members(reg, x)
  {
    if rooms != [] {
      var init, last := rooms[..|rooms| - 1], rooms[|rooms| - 1];
      var before := LeaveAll(reg, init, peer);
      var after := Leave(before, last, peer);
      LeaveAllMembers(reg, init, peer);
      assert rooms == init + [last];
      forall x
        ensures Members(after, x) == if x in rooms then Members(reg, x) - {peer} else Members(reg, x)
      {
        assert x in rooms <==> x in init || x == last;
      }
    }
  }

  /** Leaving `rooms` only drops rooms from the key order; the survivors keep their order. */
  lemma {:induction false} LeaveAllKeys(reg: Registry, rooms: seq<RoomID>, peer: PeerID)
    requires Wf(reg)
    ensures LeaveAll(reg, rooms, peer).members.Keys <= reg.members.Keys
    ensures LeaveAll(reg, rooms, peer).keys == Restrict(reg.keys, LeaveAll(reg, rooms, peer).members.Keys)
  {
    if rooms == [] {
      RestrictToAll(reg.keys, reg.members.Keys);
    } else {
      var init, last := rooms[..|rooms| - 1], rooms[|rooms| - 1];
      var before := LeaveAll(reg, init, peer);
      var after := Leave(before, last, peer);
      LeaveAllKeys(reg, init, peer);
      assert after.members.Keys <= before.members.Keys by {
        forall x | x in after.members
          ensures x in before.members
        {
          assert Members(after, x) != {};
        }
      }
      RestrictTwice(reg.keys, before.members.Keys, after.members.Keys);
    }
  }

  /** Leaving one more room after `rooms`. */
  lemma LeaveAllAppend(reg: Registry, rooms: seq<RoomID>, roomID: RoomID, peer: PeerID)
    requires Wf(reg)
    ensures LeaveAll(reg, rooms + [roomID], peer) == Leave(LeaveAll(reg, rooms, peer), roomID, peer)
  {
    assert (rooms + [roomID])[..|rooms|] == rooms;
  }

  /** A room not among `rooms` is untouched by leaving them. */
  lemma {:induction false} LeaveAllUntouched(reg: Registry, rooms: seq<RoomID>, peer: PeerID, roomID: RoomID)
    requires Wf(reg) && roomID !in rooms
    ensures Members(LeaveAll(reg, rooms, peer), roomID) == Members(reg, roomID)
  {
    if rooms != [] {
      LeaveAllUntouched(reg, rooms[..|rooms| - 1], peer, roomID);
    }
  }

  /**
   * Leaving every room the peer is in (`socket.rooms`): afterwards it belongs
   * to no room, no other peer's memberships change, rooms left empty are gone
   * and the surviving rooms keep their key order.
   */
  lemma LeaveAllRoomsOf(reg: Registry, rooms: seq<RoomID>, peer: PeerID)
    requires Wf(reg) && Enumerates(rooms, RoomsOf(reg, peer))
    ensures forall r :: Members(LeaveAll(reg, rooms, peer), r) == Members(reg, r) - {peer}
    ensures forall r :: r in LeaveAll(reg, rooms, peer).members <==> Members(reg, r) - {peer} != {}
    ensures RoomsOf(LeaveAll(reg, rooms, peer), peer) == {}
    ensures LeaveAll(reg, rooms, peer).keys == Restrict(reg.keys, LeaveAll(reg, rooms, peer).members.Keys)
  {
    var after := LeaveAll(reg, rooms, peer);
    LeaveAllMembers(reg, rooms, peer);
    LeaveAllKeys(reg, rooms, peer);
    forall r
      ensures Members(after, r) == Members(reg, r) - {peer}
    {
      if r !in rooms {
        assert peer !in Members(reg, r);
      }
    }
    WfRoomsAreNonEmpty(after);
  }

  /**
   * Leaving a room one has just joined undoes the join exactly: the same
   * members, and the same key order, since a room the join created is
   * deleted again.
   */
  lemma LeaveUndoesJoin(reg: Registry, roomID: RoomID, peer: PeerID)
    requires Wf(reg) && peer !in Members(reg, roomID)
    ensures Leave(Join(reg, roomID, peer), roomID, peer) == reg
  {
    var joined := Join(reg, roomID, peer);
    if roomID in reg.members {
      assert joined.members[roomID := reg.members[roomID]] == reg.members;
    } else {
      assert joined.members - {roomID} == reg.members;
      RestrictAppend(reg.keys, roomID, reg.members.Keys);
      RestrictToAll(reg.keys, reg.members.Keys);
    }
  }

  /** Joining makes the peer a member of the room, and of no other new room; no other peer's rooms change. */
  lemma JoinRoomsOf(reg: Registry, roomID: RoomID, peer: PeerID, other: PeerID)
    requires Wf(reg)
    ensures RoomsOf(Join(reg, roomID, peer), peer) == RoomsOf(reg, peer) + {roomID}
    ensures other != peer ==> RoomsOf(Join(reg, roomID, peer), other) == RoomsOf(reg, other)
  {
    var r := Join(reg, roomID, peer);
    assert forall x :: x in RoomsOf(r, peer) <==> x in RoomsOf(reg, peer) + {roomID};
    assert other != peer ==> forall x :: x in RoomsOf(r, other) <==> x in RoomsOf(reg, other);
  }

  /** Leaving takes the peer out of the room; no other peer's rooms change. */
  lemma LeaveRoomsOf(reg: Registry, roomID: RoomID, peer: PeerID, other: PeerID)
    requires Wf(reg)
    ensures RoomsOf(Leave(reg, roomID, peer), peer) == RoomsOf(reg, peer) - {roomID}
    ensures other != peer ==> RoomsOf(Leave(reg, roomID, peer), other) == RoomsOf(reg, other)
  {
    var r := Leave(reg, roomID, peer);
    forall x
      ensures x in RoomsOf(r, peer) <==> x in RoomsOf(reg, peer) - {roomID}
      ensures other != peer ==> (x in RoomsOf(r, other) <==> x in RoomsOf(reg, other))
    {
      assert x in RoomsOf(r, peer) <==> peer in Members(r, x);
      assert x in RoomsOf(r, other) <==> other in Members(r, x);
      assert x in RoomsOf(reg, other) <==> other in Members(reg, x);
      if x == roomID {
        assert Members(r, x) == Members(reg, x) - {peer};
      } else {
        assert Members(r, x) == Members(reg, x);
      }
    }
  }

  /**
   * `getRooms()`: every room whose name is a v4 UUID, in key order, and no
   * other. In particular it never lists a default room named after a socket id.
   */
  function GetRooms(reg: Registry): (rooms: seq<RoomID>)
    requires Wf(reg)
    ensures forall r :: r in rooms <==> r in reg.members && ValidateRoomID(r)
    ensures Distinct(rooms)
  {
    FilterRoomIDs(reg.keys)
  }
}
