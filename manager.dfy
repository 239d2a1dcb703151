/** `RoomManager`, the object each peer holds: on the server it owns the authoritative
    directory, on a client it mirrors the last snapshot it received. */
module Manager {
  import opened Rooms
  import opened Directory

  /** Which branch a call took; the source logs it and returns nothing. */
  datatype Outcome =
    | Done
    | NotConnected
    | AlreadyInRoom
    | RoomExists
    | RoomNotFound
    | RoomFull
    | NotInRoom

  /** A raised `OnClientJoinedRoom` or `OnClientLeftRoom` notification. */
  datatype RoomEvent = Joined(client: ulong, roomId: string) | Left(client: ulong, roomId: string)

  class RoomManager {
    var clientId: ulong
    var currentRoom: Option<string>
    var rooms: seq<Room>
    var playerRoomMap: map<ulong, string>
    var autoUpdateRooms: bool
    /** The snapshots pushed to every client, oldest first. */
    ghost var broadcasts: seq<seq<Room>>
    /** The notifications raised, oldest first. */
    ghost var events: seq<RoomEvent>

    /** The directory this object holds. */
    function State(): Table
      reads this
    {
      Table(rooms, playerRoomMap)
    }

    /** The directory invariant, which the server's copy is meant to keep. */
    ghost predicate Valid()
      reads this
    {
      Directory.Valid(State())
    }

    /** A freshly spawned manager: no rooms, the default of `autoUpdateRooms`, and the
        local client id it learns on spawning. */
    constructor (localClientId: ulong)
      ensures clientId == localClientId && currentRoom == None
      ensures rooms == [] && playerRoomMap == map[] && autoUpdateRooms
      ensures broadcasts == [] && events == []
      ensures Valid()
    {
      clientId := localClientId;
      currentRoom := None;
      rooms := [];
      playerRoomMap := map[];
      autoUpdateRooms := true;
      broadcasts := [];
      events := [];
    }

    /** `UpdateClientsRoomList`: a copy of the room list goes to every client. */
    method UpdateClientsRoomList()
      modifies this`broadcasts
      ensures broadcasts == old(broadcasts) + [rooms]
    {
      broadcasts := broadcasts + [rooms];
    }

    /** `CreateRoomOnServer`. */
    method CreateRoomOnServer(client: ulong, roomName: string, maxPlayers: int32)
      returns (outcome: Outcome)
      modifies this
      ensures State() == CreateOnServer(old(State()), client, roomName, maxPlayers)
      ensures clientId == old(clientId) && autoUpdateRooms == old(autoUpdateRooms)
      ensures outcome == if NameInUse(old(rooms), roomName) then RoomExists else Done
      ensures outcome == RoomExists ==> unchanged(this)
      ensures outcome == Done ==>
                rooms == old(rooms) + [Room(roomName, maxPlayers, [client])] &&
                playerRoomMap == old(playerRoomMap)[client := roomName] &&
                currentRoom == (if client == clientId then Some(roomName) else old(currentRoom)) &&
                broadcasts == old(broadcasts) + (if autoUpdateRooms then [rooms] else []) &&
                events == old(events) + [Joined(client, roomName)]
      ensures old(Valid()) && client !in old(playerRoomMap) && maxPlayers >= 1 ==> Valid()
    {
      ghost var before := State();
      if AnyRoomNamed(rooms, roomName) {
        return RoomExists;
      }
      var newRoom := Room(roomName, maxPlayers, []);
      newRoom := newRoom.(players := newRoom.players + [client]);
      assert newRoom.players == [client];
      rooms := rooms + [newRoom];
      playerRoomMap := playerRoomMap[client := roomName];
      assert State() == CreateOnServer(before, client, roomName, maxPlayers);
      if client == clientId {
        currentRoom := Some(roomName);
      }
      if autoUpdateRooms {
        UpdateClientsRoomList();
      }
      events := events + [Joined(client, roomName)];
      outcome := Done;
      if Directory.Valid(before) && client !in before.playerRoomMap && maxPlayers >= 1 {
        CreateKeepsValid(before, client, roomName, maxPlayers);
      }
    }

    /** `JoinSpecificRoom`. */
    method JoinSpecificRoom(client: ulong, roomName: string) returns (outcome: Outcome)
      modifies this
      ensures State() == JoinSpecific(old(State()), client, roomName)
      ensures clientId == old(clientId) && autoUpdateRooms == old(autoUpdateRooms)
      ensures outcome ==
                if !NameInUse(old(rooms), roomName) then RoomNotFound
                else if !HasFreeSeat(old(rooms), roomName) then RoomFull
                else Done
      ensures outcome != Done ==> unchanged(this)
      ensures outcome == Done ==>
                playerRoomMap == old(playerRoomMap)[client := roomName] &&
                currentRoom == old(currentRoom) &&
                broadcasts == old(broadcasts) + (if autoUpdateRooms then [rooms] else []) &&
                events == old(events) + [Joined(client, roomName)]
      ensures old(Valid()) && client !in old(playerRoomMap) ==> Valid()
    {
      ghost var before := State();
      var found := FindByName(rooms, roomName);
      if found.None? {
        return RoomNotFound;
      }
      var i := found.value;
      var room := rooms[i];
      if |room.players| >= room.maxPlayers as int {
        return RoomFull;
      }
      room := room.(players := room.players + [client]);
      rooms := rooms[i := room];
      playerRoomMap := playerRoomMap[client := roomName];
      assert State() == JoinSpecific(before, client, roomName);
      assert Directory.Valid(before) && client !in before.playerRoomMap ==> Valid() by {
        if Directory.Valid(before) && client !in before.playerRoomMap {
          JoinKeepsValid(before, client, roomName);
        }
      }
      if autoUpdateRooms {
        UpdateClientsRoomList();
      }
      if currentRoom.Some? && room.roomId == currentRoom.value {
        currentRoom := Some(room.roomId);
      }
      events := events + [Joined(client, roomName)];
      outcome := Done;
    }

    /** `RemovePlayerFromRoom`. */
    method RemovePlayerFromRoom(client: ulong) returns (outcome: Outcome)
      modifies this
      ensures State() == RemovePlayer(old(State()), client)
      ensures clientId == old(clientId) && autoUpdateRooms == old(autoUpdateRooms)
      ensures outcome == if client in old(playerRoomMap) then Done else NotInRoom
      ensures outcome == NotInRoom ==> unchanged(this)
      ensures outcome == Done ==>
                playerRoomMap == old(playerRoomMap) - {client} &&
                currentRoom == old(currentRoom) &&
                broadcasts == old(broadcasts) + (if autoUpdateRooms then [rooms] else []) &&
                events == old(events) + [Left(client, old(playerRoomMap)[client])]
      ensures old(Valid()) ==> Valid()
    {
      ghost var before := State();
      if client !in playerRoomMap {
        return NotInRoom;
      }
      var roomId := playerRoomMap[client];
      var found := FindByName(rooms, roomId);
      if found.Some? {
        var i := found.value;
        var room := rooms[i].(players := RemoveFirst(rooms[i].players, client));
        rooms := rooms[i := room];
        playerRoomMap := playerRoomMap - {client};
        if |room.players| == 0 {
          rooms := rooms[..i] + rooms[i + 1..];
        }
      } else {
        playerRoomMap := playerRoomMap - {client};
      }
      assert State() == RemovePlayer(before, client);
      assert Directory.Valid(before) ==> Valid() by {
        if Directory.Valid(before) {
          RemoveKeepsValid(before, client);
        }
      }
      if autoUpdateRooms {
        UpdateClientsRoomList();
      }
      events := events + [Left(client, roomId)];
      outcome := Done;
    }

    /** `CreateRoom(roomName, maxPlayers)`, called on this peer. `server` is the peer that
        owns the directory: this one when it is the server, otherwise the call is
        forwarded to it. The "already in a room" guard reads this peer's own map. */
    method CreateRoom(roomName: string, maxPlayers: int32, connectedClient: bool,
                      server: RoomManager)
      returns (outcome: Outcome)
      modifies server
      ensures server != this ==> unchanged(this)
      ensures !connectedClient && server != this ==> outcome == NotConnected && unchanged(server)
      ensures connectedClient || server == this ==>
                server.State() == GatewayCreate(old(playerRoomMap), old(server.State()),
                                                old(clientId), roomName, maxPlayers)
      ensures (connectedClient || server == this) && old(clientId) in old(playerRoomMap) ==>
                outcome == AlreadyInRoom && unchanged(server)
      ensures (connectedClient || server == this) && old(clientId) !in old(playerRoomMap) ==>
                outcome == (if NameInUse(old(server.rooms), roomName) then RoomExists else Done) &&
                server.clientId == old(server.clientId) &&
                server.autoUpdateRooms == old(server.autoUpdateRooms) &&
                (outcome == RoomExists ==> unchanged(server)) &&
                (outcome == Done ==>
                   server.currentRoom == (if old(clientId) == old(server.clientId)
                                          then Some(roomName) else old(server.currentRoom)) &&
                   server.broadcasts == old(server.broadcasts) +
                                        (if server.autoUpdateRooms then [server.rooms] else []) &&
                   server.events == old(server.events) + [Joined(old(clientId), roomName)])
      ensures server == this && old(Valid()) && maxPlayers >= 1 ==> Valid()
    {
      if !connectedClient && server != this {
        return NotConnected;
      }
      if clientId in playerRoomMap {
        return AlreadyInRoom;
      }
      outcome := server.CreateRoomOnServer(clientId, roomName, maxPlayers);
    }

    /** `JoinRoom(roomName)`, dispatched like CreateRoom. */
    method JoinRoom(roomName: string, connectedClient: bool, server: RoomManager)
      returns (outcome: Outcome)
      modifies server
      ensures server != this ==> unchanged(this)
      ensures !connectedClient && server != this ==> outcome == NotConnected && unchanged(server)
      ensures connectedClient || server == this ==>
                server.State() == GatewayJoin(old(playerRoomMap), old(server.State()),
                                              old(clientId), roomName)
      ensures (connectedClient || server == this) && old(clientId) in old(playerRoomMap) ==>
                outcome == AlreadyInRoom && unchanged(server)
      ensures (connectedClient || server == this) && old(clientId) !in old(playerRoomMap) ==>
                outcome == (if !NameInUse(old(server.rooms), roomName) then RoomNotFound
                            else if !HasFreeSeat(old(server.rooms), roomName) then RoomFull
                            else Done) &&
                server.clientId == old(server.clientId) &&
                server.autoUpdateRooms == old(server.autoUpdateRooms) &&
                (outcome != Done ==> unchanged(server)) &&
                (outcome == Done ==>
                   server.currentRoom == old(server.currentRoom) &&
                   server.broadcasts == old(server.broadcasts) +
                                        (if server.autoUpdateRooms then [server.rooms] else []) &&
                   server.events == old(server.events) + [Joined(old(clientId), roomName)])
      ensures server == this && old(Valid()) ==> Valid()
    {
      if !connectedClient && server != this {
        return NotConnected;
      }
      if clientId in playerRoomMap {
        return AlreadyInRoom;
      }
      if server == this {
        if GetRoomByName(rooms, roomName).None? {
          return RoomNotFound;
        }
        outcome := JoinSpecificRoom(clientId, roomName);
      } else {
        outcome := server.JoinSpecificRoom(clientId, roomName);
      }
    }

    /** `LeaveRoom()`, dispatched like CreateRoom; its "not in any room" guard reads this
        peer's own map too. */
    method LeaveRoom(connectedClient: bool, server: RoomManager) returns (outcome: Outcome)
      modifies server
      ensures server != this ==> unchanged(this)
      ensures !connectedClient && server != this ==> outcome == NotConnected && unchanged(server)
      ensures connectedClient || server == this ==>
                server.State() == GatewayLeave(old(playerRoomMap), old(server.State()),
                                               old(clientId))
      ensures (connectedClient || server == this) && old(clientId) !in old(playerRoomMap) ==>
                outcome == NotInRoom && unchanged(server)
      ensures (connectedClient || server == this) && old(clientId) in old(playerRoomMap) ==>
                outcome == (if old(clientId) in old(server.playerRoomMap) then Done else NotInRoom) &&
                server.clientId == old(server.clientId) &&
                server.autoUpdateRooms == old(server.autoUpdateRooms) &&
                (outcome == NotInRoom ==> unchanged(server)) &&
                (outcome == Done ==>
                   server.currentRoom == old(server.currentRoom) &&
                   server.broadcasts == old(server.broadcasts) +
                                        (if server.autoUpdateRooms then [server.rooms] else []) &&
                   server.events == old(server.events) +
                                    [Left(old(clientId), old(server.playerRoomMap)[old(clientId)])])
      ensures server == this && old(Valid()) ==> Valid()
    {
      if !connectedClient && server != this {
        return NotConnected;
      }
      if clientId !in playerRoomMap {
        return NotInRoom;
      }
      outcome := server.RemovePlayerFromRoom(clientId);
    }

    /** `SendRoomDataClientRpc` on the receiving peer: the snapshot replaces the room list
        wholesale and the current room is derived again from it. */
    method SendRoomDataClientRpc(snapshot: seq<Room>)
      modifies this
      ensures rooms == snapshot
      ensures currentRoom == RoomOfClient(snapshot, clientId)
      ensures clientId == old(clientId) && playerRoomMap == old(playerRoomMap)
      ensures autoUpdateRooms == old(autoUpdateRooms)
      ensures broadcasts == old(broadcasts) && events == old(events)
    {
      rooms := snapshot;
      ClientUpdateCurrentRoom();
    }

    /** `ClientUpdateCurrentRoom`. */
    method ClientUpdateCurrentRoom()
      modifies this`currentRoom
      ensures currentRoom == RoomOfClient(rooms, clientId)
    {
      var room := GetRoomClientBelongTo(clientId);
      currentRoom := if room.Some? then Some(room.value.roomId) else None;
    }

    /** `GetRoomClientBelongTo`: scans the rooms in order for the first one listing the
        client. */
    method GetRoomClientBelongTo(client: ulong) returns (room: Option<Room>)
      ensures room.None? <==> forall i :: 0 <= i < |rooms| ==> client !in rooms[i].players
      ensures room.Some? ==> FirstRoomWith(rooms, client).Some? &&
                             room.value == rooms[FirstRoomWith(rooms, client).value]
    {
      var k := 0;
      while k < |rooms|
        invariant k <= |rooms|
        invariant forall j :: 0 <= j < k ==> client !in rooms[j].players
      {
        if client in rooms[k].players {
          return Some(rooms[k]);
        }
        k := k + 1;
      }
      return None;
    }
  }
}
