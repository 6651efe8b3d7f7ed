/**
 * The signaling server of index.js: the `connection` handler, the
 * `JOIN_ROOM` handler and `leaveRoom`. It runs against the room registry
 * and appends what it emits to an outbox. Handlers run one at a time, to
 * completion, so each is one method call.
 *
 * index.js has defects that keep these handlers from running at all. The
 * model follows what its comments and names evidently intend, and each
 * place it departs from the text is marked "Source:" below.
 */
module Signaling {
  import opened Sequences
  import opened RoomIds
  import opened RoomRegistry
  import opened Messages

  class Server {
    /** `io.sockets.adapter.rooms`; each socket's `socket.rooms` is `RoomsOf(registry, id)`. */
    var registry: Registry
    /** Everything emitted so far, in order. */
    var outbox: seq<Msg>

    ghost predicate Valid()
      reads this
    {
      Wf(registry)
    }

    constructor ()
      ensures Valid() && registry == Empty && outbox == []
    {
      registry := Empty;
      outbox := [];
    }

    /** `shareRooms()`: broadcast the current room list. */
    method ShareRoomList()
      requires Valid()
      modifies this`outbox
      ensures outbox == old(outbox) + [ShareRooms(GetRooms(registry))]
    {
      outbox := outbox + [ShareRooms(GetRooms(registry))];
    }

    /**
     * A socket connects. socket.io has already put it in a default room
     * named after its id. Then the handler broadcasts the room list, which
     * that default room does not appear in.
     */
    method Connect(id: PeerID)
      requires Valid()
      modifies this
      ensures Valid()
      ensures registry == Join(old(registry), id, id)
      ensures outbox == old(outbox) + [ShareRooms(GetRooms(registry))]
    {
      registry := Join(registry, id, id);
      ShareRoomList();
    }

    /**
     * `JOIN_ROOM` from socket `id` for room `roomID`. If the socket is in the
     * room already, nothing happens. Otherwise each existing member is
     * addressed an ADD_PEER for the joiner (no offer), and the joiner one for
     * each member (make the offer). Then the joiner joins the room and the
     * room list is broadcast. `clients` is the order in which the members were visited.
     *
     * Source: the handler is registered with `io.on` where `socket.on` is
     * meant; the guard reads the undefined `room` where `roomID` is meant; and
     * the snapshot uses the bitwise `|` where `||` is meant. As written, that
     * `|` always yields an empty snapshot.
     */
    method JoinRoom(id: PeerID, roomID: RoomID) returns (ghost clients: seq<PeerID>)
      requires Valid()
      modifies this
      ensures Valid()
      ensures id in Members(registry, roomID)
      ensures forall r :: r != roomID ==> Members(registry, r) == Members(old(registry), r)
      ensures roomID in RoomsOf(old(registry), id) ==>
                registry == old(registry) && outbox == old(outbox)
      ensures roomID !in RoomsOf(old(registry), id) ==>
                && Enumerates(clients, Members(old(registry), roomID))
                && registry == Join(old(registry), roomID, id)
                && outbox == old(outbox) + JoinFanOut(id, clients) + [ShareRooms(GetRooms(registry))]
    {
      clients := [];
      if roomID in RoomsOf(registry, id) {
        return;
      }
      var snapshot := ToSeq(Members(registry, roomID));
      for i := 0 to |snapshot|
        invariant registry == old(registry)
        invariant outbox == old(outbox) + JoinFanOut(id, snapshot[..i])
      {
        outbox := outbox + [AddPeer(snapshot[i], id, false), AddPeer(id, snapshot[i], true)];
        assert snapshot[..i + 1] == snapshot[..i] + [snapshot[i]];
      }
      assert snapshot[..|snapshot|] == snapshot;
      clients := snapshot;
      registry := Join(registry, roomID, id);
      ShareRoomList();
    }

    /**
     * `leaveRoom` for socket `id`, run on `LEAVE_ROOM` and on `disconnecting`.
     * For every room in a snapshot of `socket.rooms`, the socket's own default
     * room included, it takes a snapshot of the members. The leaver is still
     * among them. Every member is addressed a REMOVE_PEER for the leaver,
     * and the leaver one for every member. Then the socket leaves the room.
     * No room list is broadcast. `rooms` is the order in which the rooms were visited,
     * and `snapshots[i]` the order in which the members of `rooms[i]` were.
     *
     * Source: the snapshot reads `io.sicket` where `io.sockets` is meant, and
     * the `LEAVE_ROOM` and `disconnecting` handlers are registered inside
     * `leaveRoom` itself, where registering them in the connection handler is
     * meant.
     */
    method LeaveRoom(id: PeerID) returns (ghost rooms: seq<RoomID>, ghost snapshots: seq<seq<PeerID>>)
      requires Valid()
      modifies this
      ensures Valid()
      ensures Enumerates(rooms, RoomsOf(old(registry), id)) && |snapshots| == |rooms|
      ensures forall i :: 0 <= i < |rooms| ==> Enumerates(snapshots[i], Members(old(registry), rooms[i]))
      ensures outbox == old(outbox) + LeaveFanOut(id, snapshots)
      ensures registry == LeaveAll(old(registry), rooms, id)
      ensures forall r :: Members(registry, r) == Members(old(registry), r) - {id}
      ensures forall r :: r in registry.members <==> Members(old(registry), r) - {id} != {}
      ensures registry.keys == Restrict(old(registry).keys, registry.members.Keys)
    {
      ghost var start := registry;
      var held := ToSeq(RoomsOf(registry, id));
      var reg, sent;
      reg, sent, snapshots := LeaveEach(registry, id, held);
      rooms := held;
      LeaveAllRoomsOf(start, rooms, id);
      registry, outbox := reg, outbox + sent;
    }
  }

  /**
   * The outer `rooms.forEach` of `leaveRoom` over the snapshot `held` of
   * `socket.rooms`: for each room in turn, the removals for a snapshot of its
   * members are emitted and then the socket leaves it. `snapshots[i]` is the
   * order in which the members of `held[i]` were visited.
   */
  method LeaveEach(start: Registry, id: PeerID, held: seq<RoomID>)
    returns (reg: Registry, sent: seq<Msg>, ghost snapshots: seq<seq<PeerID>>)
    requires Wf(start) && Distinct(held)
    ensures reg == LeaveAll(start, held, id)
    ensures |snapshots| == |held|
    ensures forall k :: 0 <= k < |held| ==> Enumerates(snapshots[k], Members(start, held[k]))
    ensures sent == LeaveFanOut(id, snapshots)
  {
    reg, sent, snapshots := start, [], [];
    for i := 0 to |held|
      invariant |snapshots| == i
      invariant forall k :: 0 <= k < i ==> Enumerates(snapshots[k], Members(start, held[k]))
      invariant sent == LeaveFanOut(id, snapshots)
      invariant reg == LeaveAll(start, held[..i], id)
    {
      var roomID := held[i];
      assert roomID !in held[..i];
      LeaveAllUntouched(start, held[..i], id, roomID);
      var visited := ToSeq(Members(reg, roomID));
      var msgs := RemovalMessages(id, visited);
      sent := sent + msgs;
      reg := Leave(reg, roomID, id);
      assert held[..i + 1] == held[..i] + [roomID];
      LeaveAllAppend(start, held[..i], roomID, id);
      LeaveFanOutAppend(id, snapshots, visited);
      ghost var next := snapshots + [visited];
      forall k | 0 <= k <= i
        ensures Enumerates(next[k], Members(start, held[k]))
      {
        if k < i {
          assert next[k] == snapshots[k];
        }
      }
      snapshots := next;
    }
    assert held[..|held|] == held;
  }

  /**
   * The inner `clients.forEach` of `leaveRoom` over one room's snapshot
   * `clients`: each client is addressed a REMOVE_PEER for the leaver `id`,
   * then `id` one for that client.
   */
  method RemovalMessages(id: PeerID, clients: seq<PeerID>) returns (msgs: seq<Msg>)
    ensures msgs == RemoveFanOut(id, clients)
  {
    msgs := [];
    for i := 0 to |clients|
      invariant msgs == RemoveFanOut(id, clients[..i])
    {
      msgs := msgs + [RemovePeer(clients[i], id), RemovePeer(id, clients[i])];
      assert clients[..i + 1] == clients[..i] + [clients[i]];
    }
    assert clients[..|clients|] == clients;
  }

  /**
   * The default room a connecting socket is put in is never listed, so the
   * room list broadcast on connection is the one from before it.
   */
  lemma ConnectKeepsRoomList(reg: Registry, id: PeerID)
    requires Wf(reg) && |id| == 20
    ensures GetRooms(Join(reg, id, id)) == GetRooms(reg)
  {
    SocketIdIsNotRoomID(id);
    FilterRoomIDsAppend(reg.keys, id);
  }

  // ------------------------------------------- what a join addresses to whom

  /**
   * A join into a room whose existing members are M: each member of M is
   * addressed exactly one message, ADD_PEER naming the joiner with
   * createOffer=false. The joiner is addressed |M| messages, each ADD_PEER
   * with createOffer=true, and exactly one of them names each member; none
   * names the joiner itself. Nobody else is addressed anything, and 2·|M|
   * messages go out in all.
   */
  lemma JoinNotifications(reg: Registry, roomID: RoomID, joiner: PeerID, clients: seq<PeerID>)
    requires joiner !in Members(reg, roomID)
    requires Enumerates(clients, Members(reg, roomID))
    ensures |JoinFanOut(joiner, clients)| == 2 * |Members(reg, roomID)|
    ensures forall m :: m in Members(reg, roomID) ==>
              DirectedTo(JoinFanOut(joiner, clients), m) == [AddPeer(m, joiner, false)]
    ensures |DirectedTo(JoinFanOut(joiner, clients), joiner)| == |Members(reg, roomID)|
    ensures forall msg :: msg in DirectedTo(JoinFanOut(joiner, clients), joiner) ==>
              msg.AddPeer? && msg.createOffer && msg.peerID in Members(reg, roomID)
    ensures forall m :: m in Members(reg, roomID) ==>
              multiset(JoinFanOut(joiner, clients))[AddPeer(joiner, m, true)] == 1
    ensures forall b :: multiset(JoinFanOut(joiner, clients))[AddPeer(joiner, joiner, b)] == 0
    ensures forall p :: p != joiner && p !in Members(reg, roomID) ==>
              DirectedTo(JoinFanOut(joiner, clients), p) == []
  {
    var fanOut := JoinFanOut(joiner, clients);
    EnumerationSize(clients, Members(reg, roomID));
    JoinFanOutShape(joiner, clients);
    JoinFanOutToJoiner(joiner, clients);
    JoinFanOutNeverNames(joiner, clients, joiner);
    var toJoiner := DirectedTo(fanOut, joiner);
    forall msg | msg in toJoiner
      ensures msg.AddPeer? && msg.createOffer && msg.peerID in Members(reg, roomID)
    {
      var k :| 0 <= k < |toJoiner| && toJoiner[k] == msg;
      assert msg == AddPeer(joiner, clients[k], true);
    }
    forall m | m in Members(reg, roomID)
      ensures DirectedTo(fanOut, m) == [AddPeer(m, joiner, false)]
      ensures multiset(fanOut)[AddPeer(joiner, m, true)] == 1
    {
      JoinFanOutToMember(joiner, clients, m);
      JoinOneOffererPerPair(joiner, clients, m);
    }
    forall p | p != joiner && p !in Members(reg, roomID)
      ensures DirectedTo(fanOut, p) == []
    {
      JoinFanOutToBystander(joiner, clients, p);
    }
  }

  // ------------------------------------------ what a leave addresses to whom

  /** The number of snapshots holding a peer is the number of visited rooms the peer is in. */
  lemma {:induction false} HoldingCountsRooms(reg: Registry, rooms: seq<RoomID>, snapshots: seq<seq<PeerID>>, peer: PeerID)
    requires Distinct(rooms) && |snapshots| == |rooms|
    requires forall i :: 0 <= i < |rooms| ==> Enumerates(snapshots[i], Members(reg, rooms[i]))
    ensures Holding(snapshots, peer) == |set r | r in rooms && peer in Members(reg, r)|
  {
    if rooms != [] {
      var n := |rooms| - 1;
      var init := rooms[..n];
      DistinctInit(rooms);
      HoldingCountsRooms(reg, init, snapshots[..n], peer);
      assert snapshots[..|snapshots| - 1] == snapshots[..n];
      var before := set r | r in init && peer in Members(reg, r);
      var after := set r | r in rooms && peer in Members(reg, r);
      assert rooms == init + [rooms[n]];
      assert rooms[n] !in init;
      if peer in Members(reg, rooms[n]) {
        assert after == before + {rooms[n]};
      } else {
        assert after == before;
      }
    }
  }

  /**
   * A leave by `leaver` addresses each other peer c one REMOVE_PEER naming
   * the leaver per room the two share, and addresses the leaver one
   * REMOVE_PEER naming c per shared room. The leaver is in the snapshot of
   * every room it leaves, so two REMOVE_PEERs naming itself are addressed to
   * it per room it held, the default room included.
   */
  lemma LeaveNotifications(reg: Registry, leaver: PeerID, rooms: seq<RoomID>, snapshots: seq<seq<PeerID>>, peer: PeerID)
    requires Enumerates(rooms, RoomsOf(reg, leaver)) && |snapshots| == |rooms|
    requires forall i :: 0 <= i < |rooms| ==> Enumerates(snapshots[i], Members(reg, rooms[i]))
    ensures peer != leaver ==>
              && multiset(LeaveFanOut(leaver, snapshots))[RemovePeer(peer, leaver)] == |RoomsOf(reg, leaver) * RoomsOf(reg, peer)|
              && multiset(LeaveFanOut(leaver, snapshots))[RemovePeer(leaver, peer)] == |RoomsOf(reg, leaver) * RoomsOf(reg, peer)|
    ensures multiset(LeaveFanOut(leaver, snapshots))[RemovePeer(leaver, leaver)] == 2 * |RoomsOf(reg, leaver)|
  {
    LeaveFanOutCount(leaver, snapshots, peer);
    HoldingCountsRooms(reg, rooms, snapshots, peer);
    assert (set r | r in rooms && peer in Members(reg, r)) == RoomsOf(reg, leaver) * RoomsOf(reg, peer);
    LeaveFanOutCount(leaver, snapshots, leaver);
    HoldingCountsRooms(reg, rooms, snapshots, leaver);
    assert (set r | r in rooms && leaver in Members(reg, r)) == RoomsOf(reg, leaver);
  }

  /** A peer that shares no room with the leaver is addressed nothing by the leave. */
  lemma LeaveSilentToStrangers(reg: Registry, leaver: PeerID, rooms: seq<RoomID>, snapshots: seq<seq<PeerID>>, peer: PeerID)
    requires Enumerates(rooms, RoomsOf(reg, leaver)) && |snapshots| == |rooms|
    requires forall i :: 0 <= i < |rooms| ==> Enumerates(snapshots[i], Members(reg, rooms[i]))
    requires peer != leaver && RoomsOf(reg, leaver) * RoomsOf(reg, peer) == {}
    ensures DirectedTo(LeaveFanOut(leaver, snapshots), peer) == []
  {
    forall i | 0 <= i < |snapshots|
      ensures peer !in snapshots[i]
    {
      assert rooms[i] in RoomsOf(reg, leaver);
      assert rooms[i] !in RoomsOf(reg, leaver) * RoomsOf(reg, peer);
      assert peer !in Members(reg, rooms[i]);
    }
    LeaveFanOutToBystander(leaver, snapshots, peer);
  }
}
