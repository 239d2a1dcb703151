# Room directory of `RoomManager`

`RoomManager` is the Unity Netcode component that keeps the list of game rooms. Every
peer holds one. On the server it owns the authoritative directory:

- the ordered list of rooms, each with a name (`RoomID`), a capacity (`MaxPlayers`) and its
  members in join order;
- an index from client id to the room that client sits in (`playerRoomMap`).

A client can open a room, join one by name, or leave its room. The public entry points
(`CreateRoom`, `JoinRoom`, `LeaveRoom`) check for a connection and consult the calling
peer's own index. They then either run the server-side mutator directly (on the server) or
forward the request to the server as a ServerRpc. When `autoUpdateRooms` is on, every
change on the server is pushed to all clients as a full snapshot of the room list. A
receiving peer replaces its list and
recomputes its own `currentRoom` from it.

The project has four modules:

- `Rooms` (rooms.dfy): client ids, the `Room` value and the read-only lookups over the list.
  These are `Exists`, `Find`, `GetRoomByName`, `GetPlayersInRoom`, the scan behind
  `GetRoomClientBelongTo`, and `List.Remove` on a member list.
- `Directory` (directory.dfy): the directory as a value, `Table(rooms, playerRoomMap)`, and
  its invariant `Valid`:
  - room names are unique;
  - no room is over capacity or empty;
  - a client sits in at most one room, at most once;
  - the index names exactly the room each seated client is in.

  This module also holds the server-side transitions as functions, the caller-side guards
  as functions of the caller's own index, and the lemmas about them.
- `Manager` (manager.dfy): the `RoomManager` class. Its fields are updated in place by
  methods that are proved against the `Directory` functions.
- `RemoteGuards` (remote_guards.dfy): what the entry guards do when the caller is not the server.

Modelling choices:

- The index maps a client to the room's name rather than to the room object. The
  name identifies the room because names are unique.
- `currentRoom` is held as the name of the room (`Option<string>`).
- Which peer is the server is expressed by the `server` argument of the entry points. When
  `server == this`, the peer is the server (`IsServer`). Otherwise the request is forwarded
  to `server`. `IsConnectedClient` is a boolean argument.
- Each mutator returns an `Outcome` naming the branch it took. The source only logs a
  warning.
- The two static events are recorded in a ghost log (`events`). Each snapshot sent to
  clients is recorded in another ghost log (`broadcasts`).

Facts about the code that shape the model:

- Rooms are identified by their name only; there is no numeric id and no spatial anchor.
- Failures are logged warnings, not returned errors.
- Join and leave notifications are local static events, not messages to every client.
- The "already in a room" guard reads the calling peer's own index. The server-side
  mutators never check it again, so a forwarded request is not checked against the
  server's index. A call made on the server itself is checked against the server's index.

## Model

| member | source | states |
|---|---|---|
| Rooms.AnyRoomNamed | Assets/_Data/Room/RoomManager.cs:109 | `rooms.Exists` by name: the in-order scan answers true exactly when some room carries the name (`NameInUse`) |
| Rooms.FindByName | Assets/_Data/Room/RoomManager.cs:171 | `rooms.Find` by name: None exactly when no room has the name, otherwise the position of the first room carrying it |
| Rooms.GetRoomByName | Assets/_Data/Room/RoomManager.cs:312-315 | null (None) exactly when no room has the name; otherwise a listed room with that name, the first one with it |
| Rooms.GetPlayersInRoom | Assets/_Data/Room/RoomManager.cs:306-310 | the member list of the first room with that name; None (the unchecked null dereference) exactly when the name is unknown |
| Rooms.FirstRoomWith | Assets/_Data/Room/RoomManager.cs:297-304 | the first room whose members contain the client, or None exactly when no room lists it |
| Rooms.RoomOfClient | Assets/_Data/Room/RoomManager.cs:274-278 | the room name `currentRoom` takes: None exactly when the client is in no room, otherwise the name of the first room listing the client |
| Rooms.IndexOf | Assets/_Data/Room/RoomManager.cs:232 | the first position of a member in a list, or the list's length when it is absent |
| Rooms.RemoveFirst | Assets/_Data/Room/RoomManager.cs:232 | `Players.Remove`: one element shorter exactly when the client was present; earlier members keep their place and later ones move up by one |
| Rooms.RemoveFirstMembers | Assets/_Data/Room/RoomManager.cs:232 | on a duplicate-free list, removal takes out exactly that client and leaves the list duplicate-free |
| Directory.CreateOnServer | Assets/_Data/Room/RoomManager.cs:107-124 | afterwards a room carries the name; a taken name changes nothing; otherwise the existing rooms keep their order, the new room with the creator as sole member comes last, and the creator is indexed to it |
| Directory.JoinSpecific | Assets/_Data/Room/RoomManager.cs:169-191 | the number of rooms is kept; the directory is unchanged exactly when the name is unknown or the first room with it is at or above capacity; otherwise the joiner is indexed to the room |
| Directory.RemovePlayer | Assets/_Data/Room/RoomManager.cs:224-245 | the client's index entry is gone and no other entry changes; a client without an entry changes nothing; no room is added |
| Directory.GatewayCreate | Assets/_Data/Room/RoomManager.cs:76-98 | a caller whose own index lists it changes nothing; otherwise the directory is unchanged exactly when the name is taken |
| Directory.GatewayJoin | Assets/_Data/Room/RoomManager.cs:131-160 | a caller whose own index lists it changes nothing; otherwise the directory is unchanged exactly when the room is unknown or full; any change means the caller passed its guard, the room exists and the caller is indexed to it |
| Directory.GatewayLeave | Assets/_Data/Room/RoomManager.cs:193-215 | a caller whose own index lacks it changes nothing; otherwise the server drops the caller's entry |
| Directory.MapIffMember | Assets/_Data/Room/RoomManager.cs:13 | in a valid directory, a client appears in a room's member list exactly when the index maps it to that room's name |
| Directory.CreateKeepsValid | Assets/_Data/Room/RoomManager.cs:107-124 | creating a room for an unseated client with a positive capacity keeps the directory invariant |
| Directory.JoinKeepsValid | Assets/_Data/Room/RoomManager.cs:169-191 | joining a room for an unseated client keeps the invariant; the capacity check at line 178 keeps rooms within capacity |
| Directory.RemoveKeepsValid | Assets/_Data/Room/RoomManager.cs:224-245 | removing a client keeps the invariant, including deleting the room it leaves empty |
| Directory.RoomOfClientMatchesIndex | Assets/_Data/Room/RoomManager.cs:297-304 | in a valid directory, the room found by scanning the list is the one the index names, and None exactly when the client is not indexed |
| Directory.PlayersInRoomMatchesIndex | Assets/_Data/Room/RoomManager.cs:306-310 | in a valid directory, a client is in a room's member list exactly when the index maps it to that room |
| Directory.JoinTouchesOnlyItsRoom | Assets/_Data/Room/RoomManager.cs:184-185 | a successful join appends the client at the end of that room's members and indexes it there; the room keeps its position and capacity, and every other position in the list holds the same room as before |
| Directory.RemoveTouchesOnlyItsRoom | Assets/_Data/Room/RoomManager.cs:232-240 | with unique names and the client's index entry naming a listed room (no other invariant needed, so a client seated twice is covered), a removal drops the client's index entry and leaves the other rooms in order; its room remains exactly when it is not left empty, and then holds the remaining members at the same position with the same capacity, every other position unchanged; otherwise the list is one shorter |
| Directory.RemoveUnseats | Assets/_Data/Room/RoomManager.cs:224-245 | in a valid directory, after a removal the client is neither indexed nor listed in any room (a client seated in two rooms stays listed in the other one) |
| Directory.CreateCheckedKeepsValid | Assets/_Data/Room/RoomManager.cs:84-124 | with the "already in a room" guard read from the server's index, a create request keeps the invariant whoever sends it |
| Directory.JoinCheckedKeepsValid | Assets/_Data/Room/RoomManager.cs:139-191 | with the guard read from the server's index, a join request keeps the invariant whoever sends it |
| Directory.ServeAllKeepsValid | Assets/_Data/Room/RoomManager.cs:101-245 | any sequence of create, join and leave requests served with the server-side guards, with positive capacities, keeps the invariant |
| Directory.CreateKeepsRoomsSound | Assets/_Data/Room/RoomManager.cs:109-118 | for any creator, seated or not, a positive capacity and the duplicate-name check keep names unique, rooms within capacity and no room empty |
| Directory.JoinKeepsRoomsSound | Assets/_Data/Room/RoomManager.cs:171-185 | for any joiner, seated or not, the capacity check keeps names unique, rooms within capacity and no room empty |
| Directory.RemoveKeepsRoomsSound | Assets/_Data/Room/RoomManager.cs:224-240 | for any client, a removal keeps names unique, rooms within capacity, and drops the room it empties |
| Directory.ServeAllRemoteKeepsRoomsSound | Assets/_Data/Room/RoomManager.cs:76-245 | any sequence of requests served with every create and join passing its caller-side guard and every leave reaching the server, with positive capacities, keeps names unique, rooms within capacity and no room empty; a request the source refuses at a guard leaves the directory unchanged, the same as dropping it from the sequence, so this covers every request stream of the server as written |
| Directory.AlphaScenario | Assets/_Data/Room/RoomManager.cs:84-191 | a two-seat room takes its creator and one joiner, then refuses a third client as full; a second room with the same name, or one for an already seated client, is refused |
| RemoteGuards.RemoteCreateSeatsTwice | Assets/_Data/Room/RoomManager.cs:84-118 | a seated client calling `CreateRoom` from a non-server peer gets a second room and so sits in two rooms; the server-side guard refuses it |
| RemoteGuards.RemoteJoinSeatsTwice | Assets/_Data/Room/RoomManager.cs:139-185 | a seated client calling `JoinRoom` from a non-server peer is added again, to another room or twice to its own; the server-side guard refuses it |
| RemoteGuards.RemoteLeaveIgnored | Assets/_Data/Room/RoomManager.cs:201-213 | a seated client calling `LeaveRoom` from a non-server peer is turned away and stays in its room; the forwarded request would have unseated it |
| Manager.RoomManager.constructor | Assets/_Data/Room/RoomManager.cs:10-18 | a fresh manager has no rooms, an empty index, no current room, automatic updates on and the local client id, and satisfies the invariant |
| Manager.RoomManager.UpdateClientsRoomList | Assets/_Data/Room/RoomManager.cs:259-263 | the current room list is pushed to clients as one snapshot |
| Manager.RoomManager.CreateRoomOnServer | Assets/_Data/Room/RoomManager.cs:107-124 | refuses a taken name and changes nothing; otherwise appends the room with the client as its only member, indexes the client, sets `currentRoom` when the client is this peer, pushes a snapshot if automatic updates are on and raises Joined; keeps the invariant for an unseated client and a positive capacity |
| Manager.RoomManager.JoinSpecificRoom | Assets/_Data/Room/RoomManager.cs:169-191 | RoomNotFound, RoomFull (members at or above capacity) or Done, with nothing changed unless Done; on Done the directory becomes `JoinSpecific`, the client is indexed, a snapshot is pushed if automatic updates are on, and Joined is raised; keeps the invariant for an unseated client |
| Manager.RoomManager.RemovePlayerFromRoom | Assets/_Data/Room/RoomManager.cs:224-245 | NotInRoom with nothing changed for an unindexed client; otherwise the directory becomes `RemovePlayer`, the entry is dropped, a snapshot is pushed if automatic updates are on, and Left is raised with the room's name; always keeps the invariant |
| Manager.RoomManager.CreateRoom | Assets/_Data/Room/RoomManager.cs:76-98 | not connected and not the server: NotConnected, nothing changes; otherwise the server's directory becomes the guarded create, which is AlreadyInRoom with nothing changed when the caller's own index lists it; past the guard, RoomExists with the server unchanged for a taken name, else Done with the server's `currentRoom` set when the caller is the server's own client, a snapshot pushed if automatic updates are on and Joined raised; a forwarding peer is left unchanged; on the server, for a positive capacity, the invariant is kept |
| Manager.RoomManager.JoinRoom | Assets/_Data/Room/RoomManager.cs:131-160 | the same dispatch for joining: NotConnected, AlreadyInRoom from the caller's own index, otherwise the server's directory becomes the guarded join; past the guard, RoomNotFound or RoomFull with the server unchanged, else Done with a snapshot pushed if automatic updates are on and Joined raised; on the server the invariant is kept |
| Manager.RoomManager.LeaveRoom | Assets/_Data/Room/RoomManager.cs:193-215 | the same dispatch for leaving: NotConnected, or NotInRoom with nothing changed when the caller's own index lacks it; otherwise the server removes the caller: Done when the server's index lists it, with a snapshot pushed if automatic updates are on and Left raised with the room's name, else NotInRoom with the server unchanged; on the server the invariant is kept |
| Manager.RoomManager.SendRoomDataClientRpc | Assets/_Data/Room/RoomManager.cs:265-272 | the received snapshot replaces the room list, `currentRoom` becomes the receiving client's room in it, and nothing else changes |
| Manager.RoomManager.ClientUpdateCurrentRoom | Assets/_Data/Room/RoomManager.cs:274-278 | `currentRoom` becomes the name of the first room listing this client, or None |
| Manager.RoomManager.GetRoomClientBelongTo | Assets/_Data/Room/RoomManager.cs:297-304 | the loop returns null (None) exactly when no room lists the client, otherwise the first room that does |

## Left out

- Netcode transport: a ServerRpc or ClientRpc is modelled as a synchronous call on the
  receiving peer's object, so message loss, reordering and interleaving between peers are
  not modelled.
- `ClientRpcParams` targeting: each broadcast snapshot is recorded in `broadcasts`; its
  delivery to a peer is `SendRoomDataClientRpc`, which is not applied to the peers
  automatically.
- `JsonUtility` serialisation: a snapshot is passed as a value copy of the room list; the
  JSON text and its round trip are not modelled.
- `ShowRoomList` (lines 247-257): on the server it sends the current snapshot to every
  client, which is what `UpdateClientsRoomList` does; on a client it asks the server
  for a snapshot, as below.
- `RequestRoomDataServerRpc` and the request made in `OnNetworkSpawn` (lines 61-69,
  280-290): the server sends the current snapshot to the one client that asked; a
  delivered snapshot is `SendRoomDataClientRpc`.
- `GetRooms` (lines 292-295) is the `rooms` field itself.
- The parameterless `CreateRoom()` and `JoinRoom()` (lines 71-74, 126-129) only pass the
  inspector fields `roomNameInput` and `maxPlayersInput` on to the modelled overloads.
- The `Awake` singleton check (lines 49-59), `Destroy` and all `Debug.Log` output: these
  are engine plumbing and logging. Which warning was logged is the `Outcome`.
- The event subscribers: `OnClientJoinedRoom` and `OnClientLeftRoom` are recorded as
  entries of the ghost `events` log.
- Reference sharing: the source's index holds the same `Room` object as the list and
  mutates it in place. The model holds values and finds the room by name. On the server,
  in a valid directory, this gives the same result. On a host peer it does not: its own
  `SendRoomDataClientRpc` replaces `rooms` with deserialised copies, so the index then
  points at stale objects. That stale-reference behaviour is not captured.
- The re-pointing of `currentRoom` at line 187 is a no-op when the current room is held by
  name, so it leaves `currentRoom` unchanged.
- `maxPlayers` is not validated by the source. A capacity below one makes a room that is
  born over capacity, so CreateKeepsValid, CreateCheckedKeepsValid, ServeAllKeepsValid,
  CreateKeepsRoomsSound and ServeAllRemoteKeepsRoomsSound require a positive capacity, and
  Manager.RoomManager.CreateRoom and Manager.RoomManager.CreateRoomOnServer promise the
  invariant only for one.
- Manager.RoomManager.JoinSpecificRoom: states the whole new directory through
  `JoinSpecific`. That the other rooms are untouched and the joiner is appended last is
  proved separately, in Directory.JoinTouchesOnlyItsRoom, not repeated in the method's
  ensures.
- Manager.RoomManager.RemovePlayerFromRoom: states the whole new directory through
  `RemovePlayer`. That the other rooms are untouched is proved separately, in
  Directory.RemoveTouchesOnlyItsRoom, not repeated in the method's ensures.
- Manager.RoomManager.CreateRoom, Manager.RoomManager.JoinRoom, Manager.RoomManager.LeaveRoom:
  a `server` argument that is neither this peer nor the real server is not excluded; the
  model trusts the caller to pass the one server.
- UIRoomMoving and the other scene components are not part of this model.

## Findings

| source | as written | input that shows it | evidently intended | confidence | as-written member | corrected member |
|---|---|---|---|---|---|---|
| Assets/_Data/Room/RoomManager.cs:84-97 | The "already in a room" check reads the calling peer's own `playerRoomMap`. Only the server ever writes that map, and `CreateRoomOnServer` does not check it again. | Client 7, on a non-server peer, sits in room "A" and calls `CreateRoom("B", 2)`. The server creates "B" with 7 in it, and 7 is now a member of both "A" and "B". | Refuse a client that is already in a room, judged by the server's index | not executed; high | RemoteGuards.RemoteCreateSeatsTwice | Directory.CreateCheckedKeepsValid |
| Assets/_Data/Room/RoomManager.cs:139-158 | Same guard for joining; `JoinSpecificRoom` does not check membership. | Client 7, on a non-server peer, sits in "A", which has a free seat, and calls `JoinRoom("A")`. The server appends 7 to "A" a second time. With `JoinRoom("B")` instead, 7 ends up in two rooms. | Refuse a join from a client that is already in a room, judged by the server's index | not executed; high | RemoteGuards.RemoteJoinSeatsTwice | Directory.JoinCheckedKeepsValid |
| Assets/_Data/Room/RoomManager.cs:201-205 | The "not in any room" check reads the calling peer's own map, which stays empty on a non-server peer. | Client 7, on a non-server peer, sits in "A" and calls `LeaveRoom()`. The call warns "not in any room", 7 stays in "A", and the request never reaches the server. | Forward the request and let `RemovePlayerFromRoom` decide from the server's index; this unseats the client completely only once rows 1-2 are fixed too, since a client seated twice stays listed in its other room | not executed; high | RemoteGuards.RemoteLeaveIgnored | Directory.RemoveUnseats |
