/** What the public entry points do when the caller is a client and not the server.
    Only the three server-side mutators write `playerRoomMap`, and they run only on the
    server, so a client's own map stays empty (the class in manager.dfy frames it so: a
    call forwarded to another instance leaves the caller untouched). The entry guards
    read that empty map. */
module RemoteGuards {
  import opened Rooms
  import opened Directory

  /** A seated client that asks for a second room gets it: it is then a member of two
      rooms. Guarding on the server's own index refuses the request instead. */
  lemma RemoteCreateSeatsTwice(t: Table, c: ulong, name: string, maxPlayers: int32)
    requires Valid(t) && c in t.playerRoomMap && !NameInUse(t.rooms, name)
    ensures !SingleMembership(GatewayCreate(map[], t, c, name, maxPlayers).rooms)
    ensures CreateChecked(t, c, name, maxPlayers) == t
  {
    var i := SeatOf(t, c);
    var r := GatewayCreate(map[], t, c, name, maxPlayers).rooms;
    assert r[i] == t.rooms[i] && c in r[i].players;
    assert c in r[|t.rooms|].players && i != |t.rooms|;
  }

  /** A seated client that asks to join a room with space gets in: into a second room,
      or a second time into its own. Guarding on the server's own index refuses it. */
  lemma RemoteJoinSeatsTwice(t: Table, c: ulong, name: string)
    requires Valid(t) && c in t.playerRoomMap && HasFreeSeat(t.rooms, name)
    ensures !SingleMembership(GatewayJoin(map[], t, c, name).rooms)
    ensures JoinChecked(t, c, name) == t
  {
    var i := SeatOf(t, c);
    var k := FindByName(t.rooms, name).value;
    var r := GatewayJoin(map[], t, c, name).rooms;
    var players := t.rooms[k].players + [c];
    assert r == t.rooms[k := t.rooms[k].(players := players)];
    if k == i {
      var p := IndexOf(t.rooms[i].players, c);
      assert players[p] == c == players[|players| - 1] && p < |players| - 1;
      assert !NoDuplicates(r[k].players);
    } else {
      assert c in r[i].players && c in r[k].players;
    }
  }

  /** A seated client's request to leave is refused by the caller-side guard and the
      client stays in its room; forwarded to the server, the same request unseats it. */
  lemma RemoteLeaveIgnored(t: Table, c: ulong)
    requires Valid(t) && c in t.playerRoomMap
    ensures GatewayLeave(map[], t, c) == t
    ensures RoomOfClient(GatewayLeave(map[], t, c).rooms, c) == Some(t.playerRoomMap[c])
    ensures RoomOfClient(GatewayLeave(t.playerRoomMap, t, c).rooms, c) == None
  {
    RoomOfClientMatchesIndex(t, c);
    RemoveUnseats(t, c);
  }
}
