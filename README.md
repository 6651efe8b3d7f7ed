# webrtc-caller-server: room membership and signaling fan-out

This project models the signaling server in `index.js`. Browsers connect over
socket.io. They join rooms named by version-4 UUIDs, and the server tells them
whom to open WebRTC connections to (`ADD_PEER`) or tear them down from
(`REMOVE_PEER`). After every connection and every join it broadcasts the list
of rooms (`SHARE_ROOMS`).

The model has four modules:

- `RoomIds` covers `validateRoomID` and the filter that `getRooms` applies to the room names.
- `RoomRegistry` models socket.io's adapter room map (`io.sockets.adapter.rooms`).
  - It is a `Registry` value: the map's key order plus each room's member set.
  - `Join`, `Leave` and `LeaveAll` model `socket.join` / `socket.leave`.
  - `RoomsOf` is `socket.rooms`, defined from the map as the rooms whose member set holds the socket.
  - `GetRooms` models `getRooms`.
- `Messages` defines the emitted messages. It also defines, as pure functions, the exact message sequence one join (`JoinFanOut`) and one leave (`LeaveFanOut`) emit for a given visiting order. The lemmas say who is addressed what, and how often.
- `Signaling` holds the class `Server`, whose fields are the registry and the outbox of everything emitted so far.
  - Its methods are the connection handler, the `JOIN_ROOM` handler and `leaveRoom`. Each runs to completion as one call.
  - Each method's postcondition ties the new registry and outbox to the pure functions. The lemmas beside them turn that into statements about what is addressed to each peer.

Where the code iterates a JavaScript `Set` (a room's members, `socket.rooms`),
JavaScript visits the elements in insertion order. The model leaves that
order open: `Array.from` of a set is any listing of its elements, each once,
and each method returns the order it used. Every property about messages
holds for every such order, and so for insertion order in particular.

### Where the model departs from the text

`index.js` has five defects. Four of them stop a handler from running at
all; the one on line 45 empties the member snapshot. The model follows what
the code evidently intends, and each place is marked `Source:` in
`server.dfy`:

- Line 36 registers `JOIN_ROOM` with `io.on`; `socket.on` is meant.
- Line 40 reads the undefined `room`; `roomID` is meant.
- Line 45 uses the bitwise `|`; `||` is meant. As written, the member snapshot is always empty.
- Line 69 reads `io.sicket`; `io.sockets` is meant.
- Lines 87-88 register the `LEAVE_ROOM` and `disconnecting` handlers inside `leaveRoom` itself; the connection handler is meant.

Details of the code the model keeps:

- `leaveRoom` walks all of `socket.rooms`, including the socket's default room.
- The leaver is still in each snapshot. It is therefore addressed a REMOVE_PEER for every member, itself included, and every member is addressed one for it.
- A leave broadcasts no room list.
- There is no handler that relays session descriptions or ICE candidates.

Connecting puts the socket into its default room, named after its own id, as
socket.io does before the `connection` handler runs.

## Model

| member | source | states |
|---|---|---|
| RoomIds.FilterRoomIDs | index.js:20 | a room name is listed iff it is a key of the room map and a v4 UUID; keys are never repeated and the filter repeats none |
| RoomIds.FilterKeepsValidKeys | index.js:20 | when every key is a v4 UUID the filter returns all of them, in key order |
| RoomIds.FilterDropsInvalidKeys | index.js:19-20 | when no key is a v4 UUID, e.g. only default rooms exist, the list is empty |
| RoomIds.FilterRoomIDsAppend | index.js:20 | a key added at the end of the key order is listed at the end exactly when it is a v4 UUID |
| RoomIds.SocketIdIsNotRoomID | index.js:13 | a 20-character socket id never passes `validateRoomID`, so a default room is never listed |
| RoomIds.ValidateRoomIDExamples | index.js:13 | a concrete v4 UUID passes; the same text with version digit 1 fails, and so does the nil UUID |
| Sequences.ToSeq | index.js:45 | `Array.from` of a set lists each of its elements exactly once |
| RoomRegistry.Join | index.js:61 | joining keeps the registry well formed; the peer is added to that room only; the room is appended to the key order iff it is new |
| RoomRegistry.Leave | index.js:83 | leaving keeps the registry well formed (an emptied room is deleted); the peer is removed from that room and no other room changes; surviving rooms keep their key order |
| RoomRegistry.DeleteRoom | index.js:83 | deleting an emptied room keeps the registry well formed, removes exactly that key and keeps the others in order |
| RoomRegistry.RemoveMember | index.js:83 | removing a member from a room that stays non-empty keeps the registry well formed and the key order unchanged |
| RoomRegistry.LeaveAll | index.js:67-84 | leaving a sequence of rooms in turn keeps the registry well formed |
| RoomRegistry.LeaveAllMembers | index.js:67-84 | after leaving a list of rooms the peer is out of each of them and every other membership is as before |
| RoomRegistry.LeaveAllKeys | index.js:67-84 | leaving rooms only removes keys, and the survivors keep their relative order |
| RoomRegistry.LeaveAllRoomsOf | index.js:66-84 | leaving every room of `socket.rooms` leaves the peer in no room, changes no other peer's memberships, drops exactly the rooms left empty and keeps the rest in order |
| RoomRegistry.LeaveUndoesJoin | index.js:83 | leaving a room just joined (by `socket.join`, line 61) restores the registry exactly, key order included |
| RoomRegistry.JoinRoomsOf | index.js:61 | after a join the joiner's `socket.rooms` (`RoomsOf`: the rooms whose member set holds it) gain exactly that room; every other peer's rooms are unchanged |
| RoomRegistry.LeaveRoomsOf | index.js:83 | after a leave the peer's `socket.rooms` (`RoomsOf`) lose exactly that room; every other peer's rooms are unchanged |
| RoomRegistry.GetRooms | index.js:15-23 | the list holds exactly the existing rooms named by a v4 UUID, each once |
| Messages.JoinFanOutShape | index.js:47-59 | a join emits two ADD_PEERs per visited member: to the member naming the joiner without offer, then to the joiner naming the member with offer |
| Messages.JoinFanOutToBystander | index.js:47-59 | a peer that is neither the joiner nor a member is addressed nothing by a join |
| Messages.JoinFanOutToMember | index.js:49-52 | each existing member is addressed exactly one message, ADD_PEER naming the joiner with createOffer false |
| Messages.JoinFanOutToJoiner | index.js:55-58 | the joiner is addressed one ADD_PEER with createOffer true per member, naming the members in visiting order |
| Messages.JoinOneOffererPerPair | index.js:47-59 | for each member, exactly one offer-making ADD_PEER (to the joiner) and one non-offering ADD_PEER (to the member) are emitted, and neither opposite one |
| Messages.JoinFanOutNeverNames | index.js:47-59 | a join names no pair between the joiner and a peer outside the snapshot |
| Messages.RemoveFanOutShape | index.js:71-81 | one room's leave emits two REMOVE_PEERs per snapshot client: to the client naming the leaver, then to the leaver naming the client |
| Messages.RemoveFanOutCount | index.js:71-81 | in one room's leave, each client and the leaver exchange one REMOVE_PEER each way; the leaver's REMOVE_PEER naming itself appears twice; nobody outside the snapshot is named |
| Messages.LeaveFanOutCount | index.js:67-84 | over all rooms left, the count for a pair is the number of snapshots holding the client (doubled for the leaver itself) |
| Messages.LeaveFanOutToBystander | index.js:67-84 | a peer in no snapshot, other than the leaver, is addressed nothing by a leave |
| Messages.RemoveFanOutToBystander | index.js:71-81 | a peer outside one room's snapshot, other than the leaver, is addressed nothing by that room's removals |
| Signaling.Server.constructor | index.js:7-9 | a new server has no rooms and has emitted nothing |
| Signaling.Server.ShareRoomList | index.js:25-30 | appends one SHARE_ROOMS carrying `getRooms()` of the current registry |
| Signaling.Server.Connect | index.js:32-34 | the socket joins its default room and the room list is broadcast |
| Signaling.Server.JoinRoom | index.js:36-63 | a duplicate join changes nothing and emits nothing. Otherwise the outbox grows by the join fan-out over an enumeration of the room's members, followed by SHARE_ROOMS of the new registry. The joiner is then a member and other rooms are unchanged |
| Signaling.Server.LeaveRoom | index.js:65-84 | the socket's rooms are visited once each and each room's members are snapshotted. The outbox grows by the leave fan-out of those snapshots, and no room list is sent. Afterwards the socket is in no room, other peers' memberships are unchanged, emptied rooms are gone and the rest keep their order |
| Signaling.LeaveEach | index.js:67-84 | the outer loop's registry is `LeaveAll` over the visited rooms, and its emits are the leave fan-out of one member snapshot per room |
| Signaling.RemovalMessages | index.js:71-81 | the inner loop emits exactly the removal fan-out over the room's member snapshot, in snapshot order |
| Signaling.ConnectKeepsRoomList | index.js:32-34 | the room list broadcast on connection equals the list before the connection, because the new default room is never listed |
| Signaling.JoinNotifications | index.js:45-59 | a join into a room with members M emits 2·\|M\| messages. Each member of M is addressed exactly ADD_PEER(joiner, false). The joiner is addressed \|M\| offer-making ADD_PEERs, exactly one per member, and never one naming itself. Bystanders are addressed nothing |
| Signaling.HoldingCountsRooms | index.js:66-69 | the number of snapshots holding a peer is the number of visited rooms it is in |
| Signaling.LeaveNotifications | index.js:65-84 | each other peer is addressed one REMOVE_PEER naming the leaver per room it shares with the leaver, and the leaver is addressed one naming that peer per shared room. Two REMOVE_PEERs naming the leaver itself are addressed to it per room it held |
| Signaling.LeaveSilentToStrangers | index.js:65-84 | a peer sharing no room with the leaver is addressed nothing by the leave |

## Left out

- Express, the HTTP server, `PORT`, `server.listen` and all `console` logging (lines 1-11, 33, 41, 92): they are I/O and configuration, with no effect on membership or messages.
- socket.io's transport: delivery, per-socket queues, acknowledgements, and the interleaving of events from different sockets. Each handler is one atomic method call. The outbox is one global sequence of emits, in emission order.
- Who actually receives a directed emit. `socket.emit` (lines 55, 78) goes to the handler's own socket. `io.to(x).emit` (lines 49, 73) goes to every socket in the ROOM named `x`. The model records both as a message whose `to` is the peer `x`. That room holds exactly peer `x` only while `x` is in its default room, and `leaveRoom` takes the leaver out of it as well. Two consequences are not modelled. (1) In one leave, insertion order visits the default room first. In every later room, the line-73 REMOVE_PEER that names the leaver and is addressed to it reaches nobody, because the default room is gone. Only the line-78 copy arrives there: one per room, where `LeaveNotifications` counts two addressed. (2) After `LEAVE_ROOM` a still-connected socket is in no room at all. If it joins again, the ADD_PEER (line 49) and REMOVE_PEER (line 73) addressed to it by later joins and leaves reach nobody. The other peer still gets `createOffer=true`, so exactly one offerer per pair holds for what is addressed, not for what is delivered. All message lemmas state what is addressed.
- `SHARE_ROOMS` is an `io.emit` broadcast to every connected socket. It is modelled as one outbox entry, not one copy per socket.
- The `uuid` package is not part of this model. `validate` and `version` are stood in for by the canonical shape: 8-4-4-4-12 hex digits in either case, version digit 4, variant digit 8, 9, a or b.
- The 20-character length of socket.io ids is a property of socket.io, not of this code. `SocketIdIsNotRoomID` and `ConnectKeepsRoomList` take it as a precondition.
- The order in which `Array.from` lists a `Set` is left open. The model chooses one nondeterministically and proves every property for all choices.
- A `JOIN_ROOM` payload without a `room` field (`roomID` undefined) is not modelled. Room names are always strings.
- Relaying session descriptions and ICE candidates: `index.js` has no handler for them, so there is nothing to model.
- The `disconnecting` event and `LEAVE_ROOM` both run `leaveRoom`, which `Server.LeaveRoom` models. What socket.io does after `disconnecting` (removing the socket) is not part of this model.
- `Server.LeaveRoom` collects the leave's emits and appends them to the outbox in one step, after the loop. The source emits them one by one inside the loop. They are the same messages in the same order, and no other handler runs in between.
