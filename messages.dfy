/**
 * The messages the server emits, and the exact sequence of messages that
 * one join or one leave appends. An emit is an append to the outbox. A
 * directed emit names in `to` the peer it is addressed to: `socket.emit(...)`
 * addresses the handler's own socket, and `io.to(id).emit(...)` addresses the
 * room named `id`, which is peer `id`'s default room. Which sockets that
 * room holds when the emit is delivered is not part of this model.
 * `ShareRooms` is the `io.emit` broadcast to every socket.
 */
module Messages {
  import opened Sequences
  import opened RoomIds
  import opened RoomRegistry

  datatype Msg =
    | AddPeer(to: PeerID, peerID: PeerID, createOffer: bool)   // 'ADD_PEER'
    | RemovePeer(to: PeerID, peerID: PeerID)                   // 'REMOVE_PEER'
    | ShareRooms(rooms: seq<RoomID>)                           // 'SHARE_ROOMS', broadcast

  predicate IsDirectedTo(m: Msg, peer: PeerID) {
    (m.AddPeer? || m.RemovePeer?) && m.to == peer
  }

  /** The directed messages addressed to `peer`, in emission order. */
  function DirectedTo(msgs: seq<Msg>, peer: PeerID): seq<Msg> {
    if msgs == [] then []
    else
      var last := msgs[|msgs| - 1];
      DirectedTo(msgs[..|msgs| - 1], peer) + (if IsDirectedTo(last, peer) then [last] else [])
  }

  /** What one recipient is addressed by two consecutive stretches of emits is what each stretch addresses to it. */
  lemma {:induction false} DirectedToAppend(a: seq<Msg>, b: seq<Msg>, peer: PeerID)
    ensures DirectedTo(a + b, peer) == DirectedTo(a, peer) + DirectedTo(b, peer)
  {
    if b == [] {
      assert a + b == a;
    } else {
      assert (a + b)[..|a + b| - 1] == a + b[..|b| - 1];
      DirectedToAppend(a, b[..|b| - 1], peer);
    }
  }

  /** What one recipient is addressed by a stretch of two emits. */
  lemma DirectedToPair(a: Msg, b: Msg, peer: PeerID)
    ensures DirectedTo([a, b], peer)
            == (if IsDirectedTo(a, peer) then [a] else []) + (if IsDirectedTo(b, peer) then [b] else [])
  {
    assert [a, b][..1] == [a];
    assert [a][..0] == [];
    assert DirectedTo([a], peer) == (if IsDirectedTo(a, peer) then [a] else []);
  }

  // ---------------------------------------------------------------- join

  /**
   * The emits of the `clients.forEach` loop of the JOIN_ROOM handler, for
   * the existing members listed in the order the loop visits them. Each
   * member is addressed an ADD_PEER for the joiner without an offer, then
   * the joiner one for that member with the offer.
   */
  function JoinFanOut(joiner: PeerID, clients: seq<PeerID>): seq<Msg> {
    if clients == [] then []
    else
      var c := clients[|clients| - 1];
      JoinFanOut(joiner, clients[..|clients| - 1]) + [AddPeer(c, joiner, false), AddPeer(joiner, c, true)]
  }

  /** Two ADD_PEER messages per existing member, the member's first. */
  lemma {:induction false} JoinFanOutShape(joiner: PeerID, clients: seq<PeerID>)
    ensures |JoinFanOut(joiner, clients)| == 2 * |clients|
    ensures forall k :: 0 <= k < |clients| ==>
              && JoinFanOut(joiner, clients)[2 * k] == AddPeer(clients[k], joiner, false)
              && JoinFanOut(joiner, clients)[2 * k + 1] == AddPeer(joiner, clients[k], true)
  {
    if clients != [] {
      var init := clients[..|clients| - 1];
      JoinFanOutShape(joiner, init);
    }
  }

  /** A peer that is neither the joiner nor an existing member is addressed nothing. */
  lemma {:induction false} JoinFanOutToBystander(joiner: PeerID, clients: seq<PeerID>, peer: PeerID)
    requires peer != joiner && peer !in clients
    ensures DirectedTo(JoinFanOut(joiner, clients), peer) == []
  {
    if clients != [] {
      var c := clients[|clients| - 1];
      var init := clients[..|clients| - 1];
      JoinFanOutToBystander(joiner, init, peer);
      DirectedToAppend(JoinFanOut(joiner, init), [AddPeer(c, joiner, false), AddPeer(joiner, c, true)], peer);
      DirectedToPair(AddPeer(c, joiner, false), AddPeer(joiner, c, true), peer);
    }
  }

  /** Every existing member is addressed exactly one message: ADD_PEER naming the joiner, createOffer=false. */
  lemma {:induction false} JoinFanOutToMember(joiner: PeerID, clients: seq<PeerID>, member: PeerID)
    requires Distinct(clients) && joiner !in clients && member in clients
    ensures DirectedTo(JoinFanOut(joiner, clients), member) == [AddPeer(member, joiner, false)]
  {
    var c := clients[|clients| - 1];
    var init := clients[..|clients| - 1];
    assert clients == init + [c];
    DirectedToAppend(JoinFanOut(joiner, init), [AddPeer(c, joiner, false), AddPeer(joiner, c, true)], member);
    DirectedToPair(AddPeer(c, joiner, false), AddPeer(joiner, c, true), member);
    if c == member {
      JoinFanOutToBystander(joiner, init, member);
    } else {
      JoinFanOutToMember(joiner, init, member);
    }
  }

  /**
   * The joiner is addressed one ADD_PEER with createOffer=true per existing
   * member, in visiting order, and none of them names the joiner itself.
   */
  lemma {:induction false} JoinFanOutToJoiner(joiner: PeerID, clients: seq<PeerID>)
    requires joiner !in clients
    ensures |DirectedTo(JoinFanOut(joiner, clients), joiner)| == |clients|
    ensures forall k :: 0 <= k < |clients| ==>
              DirectedTo(JoinFanOut(joiner, clients), joiner)[k] == AddPeer(joiner, clients[k], true)
  {
    if clients != [] {
      var c, init := clients[|clients| - 1], clients[..|clients| - 1];
      var tail := [AddPeer(c, joiner, false), AddPeer(joiner, c, true)];
      JoinFanOutToJoiner(joiner, init);
      DirectedToAppend(JoinFanOut(joiner, init), tail, joiner);
      DirectedToPair(AddPeer(c, joiner, false), AddPeer(joiner, c, true), joiner);
      var before := DirectedTo(JoinFanOut(joiner, init), joiner);
      var now := DirectedTo(JoinFanOut(joiner, clients), joiner);
      assert now == before + [AddPeer(joiner, c, true)];
      forall k | 0 <= k < |clients|
        ensures now[k] == AddPeer(joiner, clients[k], true)
      {
        if k < |init| {
          assert now[k] == before[k] && clients[k] == init[k];
        }
      }
    }
  }

  /**
   * Exactly one side of every (joiner, member) pair makes the offer, and it
   * is the joiner: over the whole join there is one ADD_PEER from the joiner's
   * side with createOffer=true and one from the member's side with
   * createOffer=false, and neither opposite message.
   */
  lemma {:induction false} JoinOneOffererPerPair(joiner: PeerID, clients: seq<PeerID>, member: PeerID)
    requires Distinct(clients) && joiner !in clients && member in clients
    ensures multiset(JoinFanOut(joiner, clients))[AddPeer(joiner, member, true)] == 1
    ensures multiset(JoinFanOut(joiner, clients))[AddPeer(member, joiner, false)] == 1
    ensures multiset(JoinFanOut(joiner, clients))[AddPeer(joiner, member, false)] == 0
    ensures multiset(JoinFanOut(joiner, clients))[AddPeer(member, joiner, true)] == 0
  {
    var c, init := clients[|clients| - 1], clients[..|clients| - 1];
    assert clients == init + [c];
    DistinctInit(clients);
    var tail := [AddPeer(c, joiner, false), AddPeer(joiner, c, true)];
    assert multiset(JoinFanOut(joiner, clients)) == multiset(JoinFanOut(joiner, init)) + multiset(tail);
    if c == member {
      JoinFanOutNeverNames(joiner, init, member);
    } else {
      assert member in init;
      JoinOneOffererPerPair(joiner, init, member);
      assert multiset(tail)[AddPeer(joiner, member, true)] == 0;
      assert multiset(tail)[AddPeer(member, joiner, false)] == 0;
      assert multiset(tail)[AddPeer(joiner, member, false)] == 0;
      assert multiset(tail)[AddPeer(member, joiner, true)] == 0;
    }
  }

  /** A join's fan-out mentions no pair between the joiner and a peer outside the snapshot. */
  lemma {:induction false} JoinFanOutNeverNames(joiner: PeerID, clients: seq<PeerID>, peer: PeerID)
    requires peer !in clients
    ensures forall b :: multiset(JoinFanOut(joiner, clients))[AddPeer(joiner, peer, b)] == 0
    ensures forall b :: multiset(JoinFanOut(joiner, clients))[AddPeer(peer, joiner, b)] == 0
  {
    if clients != [] {
      var c := clients[|clients| - 1];
      var init := clients[..|clients| - 1];
      JoinFanOutNeverNames(joiner, init, peer);
      var tail := [AddPeer(c, joiner, false), AddPeer(joiner, c, true)];
      assert multiset(JoinFanOut(joiner, clients)) == multiset(JoinFanOut(joiner, init)) + multiset(tail);
    }
  }

  // --------------------------------------------------------------- leave

  /**
   * The emits of the inner `clients.forEach` loop of `leaveRoom` for one
   * room: every client of the snapshot is addressed a REMOVE_PEER for the
   * leaver, and the leaver one for that client. The snapshot still holds the
   * leaver, so two REMOVE_PEERs naming the leaver are addressed to it.
   */
  function RemoveFanOut(leaver: PeerID, clients: seq<PeerID>): seq<Msg> {
    if clients == [] then []
    else
      var c := clients[|clients| - 1];
      RemoveFanOut(leaver, clients[..|clients| - 1]) + [RemovePeer(c, leaver), RemovePeer(leaver, c)]
  }

  /** The emits of the outer `rooms.forEach` loop: one `RemoveFanOut` per room, in visiting order. */
  function LeaveFanOut(leaver: PeerID, snapshots: seq<seq<PeerID>>): seq<Msg> {
    if snapshots == [] then []
    else
      LeaveFanOut(leaver, snapshots[..|snapshots| - 1]) + RemoveFanOut(leaver, snapshots[|snapshots| - 1])
  }

  /** One more room's fan-out after `snapshots`. */
  lemma LeaveFanOutAppend(leaver: PeerID, snapshots: seq<seq<PeerID>>, clients: seq<PeerID>)
    ensures LeaveFanOut(leaver, snapshots + [clients]) == LeaveFanOut(leaver, snapshots) + RemoveFanOut(leaver, clients)
  {
    assert (snapshots + [clients])[..|snapshots|] == snapshots;
  }

  /** Two REMOVE_PEER messages per client of the snapshot, the client's first. */
  lemma {:induction false} RemoveFanOutShape(leaver: PeerID, clients: seq<PeerID>)
    ensures |RemoveFanOut(leaver, clients)| == 2 * |clients|
    ensures forall k :: 0 <= k < |clients| ==>
              && RemoveFanOut(leaver, clients)[2 * k] == RemovePeer(clients[k], leaver)
              && RemoveFanOut(leaver, clients)[2 * k + 1] == RemovePeer(leaver, clients[k])
  {
    if clients != [] {
      RemoveFanOutShape(leaver, clients[..|clients| - 1]);
    }
  }

  /** How many times a message names a given pair in one room's fan-out: 1 per client, 2 for the leaver itself. */
  function PairCount(leaver: PeerID, clients: seq<PeerID>, client: PeerID): nat {
    if client !in clients then 0 else if client == leaver then 2 else 1
  }

  /**
   * In one room's fan-out, a client of the snapshot is addressed REMOVE_PEER naming
   * the leaver, and the leaver REMOVE_PEER naming the client, once each; the
   * leaver's message naming itself comes twice; nobody outside the snapshot
   * is named.
   */
  lemma {:induction false} RemoveFanOutCount(leaver: PeerID, clients: seq<PeerID>, client: PeerID)
    requires Distinct(clients)
    ensures multiset(RemoveFanOut(leaver, clients))[RemovePeer(client, leaver)] == PairCount(leaver, clients, client)
    ensures multiset(RemoveFanOut(leaver, clients))[RemovePeer(leaver, client)] == PairCount(leaver, clients, client)
  {
    if clients != [] {
      var c, init := clients[|clients| - 1], clients[..|clients| - 1];
      assert clients == init + [c];
      DistinctInit(clients);
      RemoveFanOutCount(leaver, init, client);
      var tail := [RemovePeer(c, leaver), RemovePeer(leaver, c)];
      var whole := multiset(RemoveFanOut(leaver, clients));
      assert whole == multiset(RemoveFanOut(leaver, init)) + multiset(tail);
      if client == c {
        assert client !in init;
        assert PairCount(leaver, clients, client) == if client == leaver then 2 else 1;
      } else {
        assert client in clients <==> client in init;
        assert multiset(tail)[RemovePeer(client, leaver)] == 0;
        assert multiset(tail)[RemovePeer(leaver, client)] == 0;
      }
    }
  }

  /** The number of snapshots that contain `client`. */
  function Holding(snapshots: seq<seq<PeerID>>, client: PeerID): nat {
    if snapshots == [] then 0
    else Holding(snapshots[..|snapshots| - 1], client) + (if client in snapshots[|snapshots| - 1] then 1 else 0)
  }

  /** Over all rooms, the pair counts of the single rooms add up. */
  lemma {:induction false} LeaveFanOutCount(leaver: PeerID, snapshots: seq<seq<PeerID>>, client: PeerID)
    requires forall i :: 0 <= i < |snapshots| ==> Distinct(snapshots[i])
    ensures multiset(LeaveFanOut(leaver, snapshots))[RemovePeer(client, leaver)]
            == (if client == leaver then 2 else 1) * Holding(snapshots, client)
    ensures multiset(LeaveFanOut(leaver, snapshots))[RemovePeer(leaver, client)]
            == (if client == leaver then 2 else 1) * Holding(snapshots, client)
  {
    if snapshots != [] {
      var init := snapshots[..|snapshots| - 1];
      var last := snapshots[|snapshots| - 1];
      LeaveFanOutCount(leaver, init, client);
      RemoveFanOutCount(leaver, last, client);
      assert multiset(LeaveFanOut(leaver, snapshots))
             == multiset(LeaveFanOut(leaver, init)) + multiset(RemoveFanOut(leaver, last));
    }
  }

  /** A leave sends nothing to a peer that is the leaver of no snapshot's room and in none of the snapshots. */
  lemma {:induction false} LeaveFanOutToBystander(leaver: PeerID, snapshots: seq<seq<PeerID>>, peer: PeerID)
    requires peer != leaver && forall i :: 0 <= i < |snapshots| ==> peer !in snapshots[i]
    ensures DirectedTo(LeaveFanOut(leaver, snapshots), peer) == []
  {
    if snapshots != [] {
      var init := snapshots[..|snapshots| - 1];
      LeaveFanOutToBystander(leaver, init, peer);
      RemoveFanOutToBystander(leaver, snapshots[|snapshots| - 1], peer);
      DirectedToAppend(LeaveFanOut(leaver, init), RemoveFanOut(leaver, snapshots[|snapshots| - 1]), peer);
    }
  }

  lemma {:induction false} RemoveFanOutToBystander(leaver: PeerID, clients: seq<PeerID>, peer: PeerID)
    requires peer != leaver && peer !in clients
    ensures DirectedTo(RemoveFanOut(leaver, clients), peer) == []
  {
    if clients != [] {
      var c := clients[|clients| - 1];
      var init := clients[..|clients| - 1];
      RemoveFanOutToBystander(leaver, init, peer);
      DirectedToAppend(RemoveFanOut(leaver, init), [RemovePeer(c, leaver), RemovePeer(leaver, c)], peer);
      DirectedToPair(RemovePeer(c, leaver), RemovePeer(leaver, c), peer);
    }
  }
}
