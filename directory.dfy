/** The server's room directory as a value: the ordered room list and the index from
    client to the name of the room that client is in, the invariants the directory is
    meant to keep, and the three server-side mutators as functions of the old table. */
module Directory {
  import opened Rooms

  /** `rooms` and `playerRoomMap` of `RoomManager`. The map's values are room names
      (`RoomID`) rather than shared `Room` references. */
  datatype Table = Table(rooms: seq<Room>, playerRoomMap: map<ulong, string>)

  // ---------------------------------------------------------------- invariants

  /** No two live rooms share a name. */
  predicate UniqueNames(rooms: seq<Room>)
  {
    forall i, j :: 0 <= i < j < |rooms| ==> rooms[i].roomId != rooms[j].roomId
  }

  /** Every room holds at most `MaxPlayers` members. */
  predicate WithinCapacity(rooms: seq<Room>)
  {
    forall i :: 0 <= i < |rooms| ==> |rooms[i].players| <= rooms[i].maxPlayers as int
  }

  /** A room whose last member left is not kept. */
  predicate NoEmptyRooms(rooms: seq<Room>)
  {
    forall i :: 0 <= i < |rooms| ==> |rooms[i].players| > 0
  }

  /** A client occurs at most once in at most one room. */
  predicate SingleMembership(rooms: seq<Room>)
  {
    (forall i :: 0 <= i < |rooms| ==> NoDuplicates(rooms[i].players)) &&
    (forall c, i, j ::
       0 <= i < |rooms| && 0 <= j < |rooms| && c in rooms[i].players && c in rooms[j].players
       ==> i == j)
  }

  /** `c` is a member of a room called `name`. */
  predicate Seated(rooms: seq<Room>, c: ulong, name: string)
  {
    exists i :: 0 <= i < |rooms| && rooms[i].roomId == name && c in rooms[i].players
  }

  /** `playerRoomMap` is the reverse index of the rooms' member lists. */
  predicate MapMatchesMembers(t: Table)
  {
    (forall c, i :: 0 <= i < |t.rooms| && c in t.rooms[i].players ==>
                     c in t.playerRoomMap && t.playerRoomMap[c] == t.rooms[i].roomId) &&
    (forall c :: c in t.playerRoomMap ==> Seated(t.rooms, c, t.playerRoomMap[c]))
  }

  /** The directory invariant. */
  predicate Valid(t: Table)
  {
    UniqueNames(t.rooms) && WithinCapacity(t.rooms) && NoEmptyRooms(t.rooms) &&
    SingleMembership(t.rooms) && MapMatchesMembers(t)
  }

  /** In a valid table, `playerRoomMap[c]` names a room exactly when `c` is among that
      room's members. */
  lemma MapIffMember(t: Table, c: ulong, i: nat)
    requires Valid(t) && i < |t.rooms|
    ensures c in t.rooms[i].players <==>
            c in t.playerRoomMap && t.playerRoomMap[c] == t.rooms[i].roomId
  {
    if c in t.playerRoomMap && t.playerRoomMap[c] == t.rooms[i].roomId {
      var k :| 0 <= k < |t.rooms| && t.rooms[k].roomId == t.playerRoomMap[c] &&
               c in t.rooms[k].players;
      assert k == i;
    }
  }

  // ---------------------------------------------------------------- mutators

  /** `CreateRoomOnServer`: a name already in use changes nothing; otherwise a room with
      the creator as its only member is appended and the creator is indexed to it. */
  function CreateOnServer(t: Table, c: ulong, name: string, maxPlayers: int32): (r: Table)
    ensures NameInUse(r.rooms, name)
    ensures NameInUse(t.rooms, name) ==> r == t
    ensures !NameInUse(t.rooms, name) ==>
              |r.rooms| == |t.rooms| + 1 && r.rooms[..|t.rooms|] == t.rooms &&
              r.rooms[|t.rooms|] == Room(name, maxPlayers, [c]) &&
              r.playerRoomMap == t.playerRoomMap[c := name]
  {
    if AnyRoomNamed(t.rooms, name) then t
    else
      var rooms := t.rooms + [Room(name, maxPlayers, [c])];
      assert rooms[|t.rooms|].roomId == name && rooms[..|t.rooms|] == t.rooms;
      Table(rooms, t.playerRoomMap[c := name])
  }

  /** The first room called `name` exists and is below its capacity: the condition under
      which `JoinSpecificRoom` admits a client. */
  predicate HasFreeSeat(rooms: seq<Room>, name: string)
  {
    match FindByName(rooms, name)
    case None => false
    case Some(i) => |rooms[i].players| < rooms[i].maxPlayers as int
  }

  /** `JoinSpecificRoom`: an unknown name or a full room changes nothing; otherwise the
      client is appended to the first room with that name and indexed to it. */
  function JoinSpecific(t: Table, c: ulong, name: string): (r: Table)
    ensures |r.rooms| == |t.rooms|
    ensures r == t <==> !HasFreeSeat(t.rooms, name)
    ensures r != t ==> r.playerRoomMap == t.playerRoomMap[c := name]
  {
    match FindByName(t.rooms, name)
    case None => t
    case Some(i) =>
      if |t.rooms[i].players| >= t.rooms[i].maxPlayers as int then t
      else
        var rooms := t.rooms[i := t.rooms[i].(players := t.rooms[i].players + [c])];
        assert |rooms[i].players| != |t.rooms[i].players|;
        Table(rooms, t.playerRoomMap[c := name])
  }

  /** `RemovePlayerFromRoom`: a client without an entry changes nothing; otherwise its
      first occurrence leaves its room, its entry goes, and a room left empty is removed. */
  function RemovePlayer(t: Table, c: ulong): (r: Table)
    ensures r.playerRoomMap == t.playerRoomMap - {c}
    ensures c !in t.playerRoomMap ==> r == t
    ensures |r.rooms| <= |t.rooms|
  {
    if c !in t.playerRoomMap then t
    else
      var name := t.playerRoomMap[c];
      var index := t.playerRoomMap - {c};
      match FindByName(t.rooms, name)
      case None => Table(t.rooms, index)
      case Some(i) =>
        var left := t.rooms[i].(players := RemoveFirst(t.rooms[i].players, c));
        if |left.players| == 0 then Table(t.rooms[..i] + t.rooms[i + 1..], index)
        else Table(t.rooms[i := left], index)
  }

  // ---------------------------------------------------------------- public entry points

  /** `CreateRoom(name, maxPlayers)` once connected: the "already in a room" guard reads
      the CALLER's own `playerRoomMap`, then the server runs `CreateRoomOnServer`. */
  function GatewayCreate(callerMap: map<ulong, string>, t: Table, c: ulong, name: string,
                         maxPlayers: int32): (r: Table)
    ensures c in callerMap ==> r == t
    ensures c !in callerMap ==> (r == t <==> NameInUse(t.rooms, name))
  {
    if c in callerMap then t else CreateOnServer(t, c, name, maxPlayers)
  }

  /** `JoinRoom(name)` once connected, guard as in GatewayCreate. */
  function GatewayJoin(callerMap: map<ulong, string>, t: Table, c: ulong, name: string)
    : (r: Table)
    ensures c in callerMap ==> r == t
    ensures c !in callerMap ==> (r == t <==> !HasFreeSeat(t.rooms, name))
    ensures r != t ==>
              c !in callerMap && NameInUse(t.rooms, name) &&
              r.playerRoomMap == t.playerRoomMap[c := name]
  {
    if c in callerMap then t else JoinSpecific(t, c, name)
  }

  /** `LeaveRoom()` once connected: the "not in any room" guard reads the caller's map. */
  function GatewayLeave(callerMap: map<ulong, string>, t: Table, c: ulong): (r: Table)
    ensures c !in callerMap ==> r == t
    ensures c in callerMap ==> c !in r.playerRoomMap && r.playerRoomMap == t.playerRoomMap - {c}
  {
    if c !in callerMap then t else RemovePlayer(t, c)
  }

  // ---------------------------------------------------------------- what the mutators keep

  /** Creating a room keeps the invariant when the creator is not yet seated and the
      capacity admits the creator. */
  lemma CreateKeepsValid(t: Table, c: ulong, name: string, maxPlayers: int32)
    requires Valid(t) && c !in t.playerRoomMap && maxPlayers >= 1
    ensures Valid(CreateOnServer(t, c, name, maxPlayers))
  {
    if !NameInUse(t.rooms, name) {
      var created := Room(name, maxPlayers, [c]);
      NotIndexedNotSeated(t, c);
      AppendKeepsShape(t.rooms, created);
      IndexNewMember(t, Table(t.rooms + [created], t.playerRoomMap[c := name]), |t.rooms|, c);
    }
  }

  /** A client without an entry is a member of no room. */
  lemma NotIndexedNotSeated(t: Table, c: ulong)
    requires MapMatchesMembers(t) && c !in t.playerRoomMap
    ensures forall j :: 0 <= j < |t.rooms| ==> c !in t.rooms[j].players
  {
  }

  /** Appending a fresh room whose members are in no room keeps the list invariants. */
  lemma AppendKeepsShape(rooms: seq<Room>, x: Room)
    requires UniqueNames(rooms) && WithinCapacity(rooms) && NoEmptyRooms(rooms)
    requires SingleMembership(rooms)
    requires forall j :: 0 <= j < |rooms| ==> rooms[j].roomId != x.roomId
    requires 0 < |x.players| <= x.maxPlayers as int && NoDuplicates(x.players)
    requires forall c :: c in x.players ==> forall j :: 0 <= j < |rooms| ==> c !in rooms[j].players
    ensures var r := rooms + [x];
            UniqueNames(r) && WithinCapacity(r) && NoEmptyRooms(r) && SingleMembership(r)
  {
    var r := rooms + [x];
    assert forall j :: 0 <= j < |rooms| ==> r[j] == rooms[j];
    forall c, j, k | 0 <= j < |r| && 0 <= k < |r| && c in r[j].players && c in r[k].players
      ensures j == k
    {
      if j < |rooms| && k < |rooms| {
        assert c in rooms[j].players && c in rooms[k].players;
      }
    }
  }

  /** The index stays the reverse of the member lists when client `c`, previously in no
      room, becomes a member of room `i` and nothing else changes but `c`'s entry. */
  lemma IndexNewMember(t: Table, t': Table, i: nat, c: ulong)
    requires MapMatchesMembers(t)
    requires forall j :: 0 <= j < |t.rooms| ==> c !in t.rooms[j].players
    requires |t'.rooms| == if i < |t.rooms| then |t.rooms| else |t.rooms| + 1
    requires i <= |t.rooms|
    requires forall j :: 0 <= j < |t.rooms| && j != i ==> t'.rooms[j] == t.rooms[j]
    requires i < |t.rooms| ==> t'.rooms[i].roomId == t.rooms[i].roomId
    requires i >= |t.rooms| ==> i == |t.rooms| && t'.rooms[i].players == [c]
    requires forall c' :: c' in t'.rooms[i].players <==>
                          c' == c || (i < |t.rooms| && c' in t.rooms[i].players)
    requires t'.playerRoomMap == t.playerRoomMap[c := t'.rooms[i].roomId]
    ensures MapMatchesMembers(t')
  {
    forall c', j | 0 <= j < |t'.rooms| && c' in t'.rooms[j].players
      ensures c' in t'.playerRoomMap && t'.playerRoomMap[c'] == t'.rooms[j].roomId
    {
      if c' != c {
        if j == i {
          assert i < |t.rooms| && c' in t.rooms[i].players;
        } else {
          assert t'.rooms[j] == t.rooms[j];
        }
      }
    }
    forall c' | c' in t'.playerRoomMap
      ensures Seated(t'.rooms, c', t'.playerRoomMap[c'])
    {
      if c' == c {
        assert t'.rooms[i].roomId == t'.playerRoomMap[c] && c in t'.rooms[i].players;
      } else {
        var k :| 0 <= k < |t.rooms| && t.rooms[k].roomId == t.playerRoomMap[c'] &&
                 c' in t.rooms[k].players;
        assert t'.rooms[k].roomId == t.rooms[k].roomId && c' in t'.rooms[k].players;
      }
    }
  }

  /** Joining keeps the invariant when the joiner is not yet seated. */
  lemma JoinKeepsValid(t: Table, c: ulong, name: string)
    requires Valid(t) && c !in t.playerRoomMap
    ensures Valid(JoinSpecific(t, c, name))
  {
    match FindByName(t.rooms, name)
    case None =>
    case Some(i) =>
      var room := t.rooms[i];
      if |room.players| < room.maxPlayers as int {
        var joined := room.(players := room.players + [c]);
        NotIndexedNotSeated(t, c);
        assert NoDuplicates(joined.players);
        assert forall c' :: c' in joined.players <==> c' in room.players || c' == c;
        UpdateKeepsShape(t.rooms, i, joined);
        IndexNewMember(t, Table(t.rooms[i := joined], t.playerRoomMap[c := name]), i, c);
      }
  }

  /** Replacing room `i` by a room of the same name whose members are either old members
      of room `i` or in no room at all keeps the list invariants. */
  lemma UpdateKeepsShape(rooms: seq<Room>, i: nat, x: Room)
    requires UniqueNames(rooms) && WithinCapacity(rooms) && NoEmptyRooms(rooms)
    requires SingleMembership(rooms)
    requires i < |rooms| && x.roomId == rooms[i].roomId
    requires 0 < |x.players| <= x.maxPlayers as int && NoDuplicates(x.players)
    requires forall c :: c in x.players && c !in rooms[i].players ==>
                         forall j :: 0 <= j < |rooms| ==> c !in rooms[j].players
    ensures var r := rooms[i := x];
            UniqueNames(r) && WithinCapacity(r) && NoEmptyRooms(r) && SingleMembership(r)
  {
    var r := rooms[i := x];
    forall c, j, k | 0 <= j < |r| && 0 <= k < |r| && c in r[j].players && c in r[k].players
      ensures j == k
    {
      if j != i && k != i {
        assert c in rooms[j].players && c in rooms[k].players;
      }
    }
  }

  /** Dropping room `i` keeps the list invariants. */
  lemma DeleteKeepsShape(rooms: seq<Room>, i: nat)
    requires UniqueNames(rooms) && WithinCapacity(rooms) && NoEmptyRooms(rooms)
    requires SingleMembership(rooms) && i < |rooms|
    ensures var r := rooms[..i] + rooms[i + 1..];
            UniqueNames(r) && WithinCapacity(r) && NoEmptyRooms(r) && SingleMembership(r)
  {
    var r := rooms[..i] + rooms[i + 1..];
    assert forall j :: 0 <= j < |r| ==> r[j] == rooms[if j < i then j else j + 1];
    forall c, j, k | 0 <= j < |r| && 0 <= k < |r| && c in r[j].players && c in r[k].players
      ensures j == k
    {
      var j', k' := if j < i then j else j + 1, if k < i then k else k + 1;
      assert c in rooms[j'].players && c in rooms[k'].players;
    }
  }

  /** In a valid table a seated client's room is the first (and only) room with the
      name its entry holds, and the client is a member of it. */
  lemma SeatOf(t: Table, c: ulong) returns (i: nat)
    requires Valid(t) && c in t.playerRoomMap
    ensures FindByName(t.rooms, t.playerRoomMap[c]) == Some(i)
    ensures i < |t.rooms| && c in t.rooms[i].players
    ensures forall j :: 0 <= j < |t.rooms| && j != i ==> c !in t.rooms[j].players
  {
    var k :| 0 <= k < |t.rooms| && t.rooms[k].roomId == t.playerRoomMap[c] &&
             c in t.rooms[k].players;
    i := FindByName(t.rooms, t.playerRoomMap[c]).value;
    assert i == k;
  }

  /** Leaving keeps the invariant. */
  lemma RemoveKeepsValid(t: Table, c: ulong)
    requires Valid(t)
    ensures Valid(RemovePlayer(t, c))
  {
    if c in t.playerRoomMap {
      var i := SeatOf(t, c);
      var room := t.rooms[i];
      var left := room.(players := RemoveFirst(room.players, c));
      var index := t.playerRoomMap - {c};
      RemoveFirstMembers(room.players, c);
      if |left.players| == 0 {
        assert forall c' :: c' in room.players ==> c' == c;
        DeleteKeepsShape(t.rooms, i);
        IndexDroppedMember(t, Table(t.rooms[..i] + t.rooms[i + 1..], index), i, c, true);
      } else {
        UpdateKeepsShape(t.rooms, i, left);
        IndexDroppedMember(t, Table(t.rooms[i := left], index), i, c, false);
      }
    }
  }

  /** The index stays the reverse of the member lists when client `c`, a member of room
      `i` only, leaves it: room `i` either loses exactly `c` or, when `c` was its only
      member, is `deleted` from the list. */
  lemma IndexDroppedMember(t: Table, t': Table, i: nat, c: ulong, deleted: bool)
    requires MapMatchesMembers(t) && i < |t.rooms| && c in t.rooms[i].players
    requires forall j :: 0 <= j < |t.rooms| && j != i ==> c !in t.rooms[j].players
    requires t'.playerRoomMap == t.playerRoomMap - {c}
    requires deleted ==> t'.rooms == t.rooms[..i] + t.rooms[i + 1..] &&
                         forall c' :: c' in t.rooms[i].players ==> c' == c
    requires !deleted ==> |t'.rooms| == |t.rooms| && t'.rooms == t.rooms[i := t'.rooms[i]] &&
                          t'.rooms[i].roomId == t.rooms[i].roomId &&
                          forall c' :: c' in t'.rooms[i].players <==>
                                       c' in t.rooms[i].players && c' != c
    ensures MapMatchesMembers(t')
  {
    assert |t'.rooms| == if deleted then |t.rooms| - 1 else |t.rooms|;
    assert forall j :: 0 <= j < |t'.rooms| && Shifted(deleted, i, j) != i ==>
                       t'.rooms[j] == t.rooms[Shifted(deleted, i, j)];
    IndexDroppedMemberListed(t, t', i, c, deleted);
    forall c' | c' in t'.playerRoomMap
      ensures Seated(t'.rooms, c', t'.playerRoomMap[c'])
    {
      var k :| 0 <= k < |t.rooms| && t.rooms[k].roomId == t.playerRoomMap[c'] &&
               c' in t.rooms[k].players;
      var k' := if deleted && k > i then k - 1 else k;
      assert Shifted(deleted, i, k') == k;
      assert t'.rooms[k'].roomId == t.rooms[k].roomId && c' in t'.rooms[k'].players;
    }
  }

  /** Where room `j` of the list after a leave sat before it. */
  function Shifted(deleted: bool, i: nat, j: nat): nat
  {
    if deleted && j >= i then j + 1 else j
  }

  /** First half of IndexDroppedMember: every member of a room after the leave is
      indexed to that room. */
  lemma IndexDroppedMemberListed(t: Table, t': Table, i: nat, c: ulong, deleted: bool)
    requires MapMatchesMembers(t) && i < |t.rooms|
    requires t'.playerRoomMap == t.playerRoomMap - {c}
    requires |t'.rooms| == if deleted then |t.rooms| - 1 else |t.rooms|
    requires forall j :: 0 <= j < |t'.rooms| && Shifted(deleted, i, j) != i ==>
                         t'.rooms[j] == t.rooms[Shifted(deleted, i, j)]
    requires !deleted ==> t'.rooms[i].roomId == t.rooms[i].roomId &&
                          forall c' :: c' in t'.rooms[i].players <==>
                                       c' in t.rooms[i].players && c' != c
    requires forall j :: 0 <= j < |t.rooms| && j != i ==> c !in t.rooms[j].players
    ensures forall c', j :: 0 <= j < |t'.rooms| && c' in t'.rooms[j].players ==>
                            c' in t'.playerRoomMap && t'.playerRoomMap[c'] == t'.rooms[j].roomId
  {
    forall c', j | 0 <= j < |t'.rooms| && c' in t'.rooms[j].players
      ensures c' in t'.playerRoomMap && t'.playerRoomMap[c'] == t'.rooms[j].roomId
    {
      assert c' in t.rooms[Shifted(deleted, i, j)].players && c' != c;
    }
  }

  // ---------------------------------------------------------------- lookups against the index

  /** In a valid table the room a client is found in by scanning the member lists (what a
      client derives as `currentRoom`) is the room the server's index holds for it. */
  lemma RoomOfClientMatchesIndex(t: Table, c: ulong)
    requires Valid(t)
    ensures RoomOfClient(t.rooms, c) ==
            if c in t.playerRoomMap then Some(t.playerRoomMap[c]) else None
  {
    if c in t.playerRoomMap {
      var i := SeatOf(t, c);
    } else {
      NotIndexedNotSeated(t, c);
    }
  }

  /** In a valid table `GetPlayersInRoom(name)` holds exactly the clients the index places
      in `name`. */
  lemma PlayersInRoomMatchesIndex(t: Table, name: string, c: ulong)
    requires Valid(t) && NameInUse(t.rooms, name)
    ensures c in GetPlayersInRoom(t.rooms, name).value <==>
            c in t.playerRoomMap && t.playerRoomMap[c] == name
  {
    var i := FindByName(t.rooms, name).value;
    assert GetPlayersInRoom(t.rooms, name).value == t.rooms[i].players;
    MapIffMember(t, c, i);
  }

  // ---------------------------------------------------------------- what the mutators leave alone

  /** The rooms not called `name`, in list order. */
  function Others(rooms: seq<Room>, name: string): (r: seq<Room>)
    ensures forall x :: x in r <==> x in rooms && x.roomId != name
  {
    if |rooms| == 0 then []
    else
      assert forall x :: x in rooms <==> x == rooms[0] || x in rooms[1..];
      (if rooms[0].roomId == name then [] else [rooms[0]]) + Others(rooms[1..], name)
  }

  lemma {:induction false} OthersConcat(a: seq<Room>, b: seq<Room>, name: string)
    ensures Others(a + b, name) == Others(a, name) + Others(b, name)
  {
    if |a| > 0 {
      assert (a + b)[1..] == a[1..] + b;
      OthersConcat(a[1..], b, name);
    } else {
      assert a + b == b;
    }
  }

  /** A room called `name` contributes nothing to `Others`. */
  lemma OthersSkip(a: seq<Room>, y: Room, b: seq<Room>, name: string)
    requires y.roomId == name
    ensures Others(a + [y] + b, name) == Others(a + b, name)
  {
    assert [y][1..] == [];
    assert Others([y], name) == [];
    calc {
      Others(a + [y] + b, name);
      { OthersConcat(a + [y], b, name); }
      Others(a + [y], name) + Others(b, name);
      { OthersConcat(a, [y], name); }
      Others(a, name) + Others(b, name);
      { OthersConcat(a, b, name); }
      Others(a + b, name);
    }
  }

  /** Replacing or dropping a room called `name` leaves the other rooms, in order. */
  lemma OthersSkipNamed(rooms: seq<Room>, i: nat, x: Room, name: string)
    requires i < |rooms| && rooms[i].roomId == name && x.roomId == name
    ensures Others(rooms[i := x], name) == Others(rooms, name)
    ensures Others(rooms[..i] + rooms[i + 1..], name) == Others(rooms, name)
  {
    var a, b := rooms[..i], rooms[i + 1..];
    assert rooms == a + [rooms[i]] + b;
    assert rooms[i := x] == a + [x] + b;
    OthersSkip(a, rooms[i], b, name);
    OthersSkip(a, x, b, name);
  }

  /** A successful join appends the client to the members of the room it names, keeping
      their order, indexes the client to it, and leaves every other room and their order
      as they were. */
  lemma JoinTouchesOnlyItsRoom(t: Table, c: ulong, name: string)
    requires HasFreeSeat(t.rooms, name)
    ensures var t' := JoinSpecific(t, c, name);
            GetPlayersInRoom(t'.rooms, name) ==
              Some(GetPlayersInRoom(t.rooms, name).value + [c]) &&
            Others(t'.rooms, name) == Others(t.rooms, name) &&
            t'.playerRoomMap == t.playerRoomMap[c := name] && |t'.rooms| == |t.rooms|
    ensures var t' := JoinSpecific(t, c, name);
            FindByName(t'.rooms, name) == FindByName(t.rooms, name) &&
            GetRoomByName(t'.rooms, name).value.maxPlayers ==
              GetRoomByName(t.rooms, name).value.maxPlayers &&
            forall j :: 0 <= j < |t.rooms| && j != FindByName(t.rooms, name).value ==>
                          t'.rooms[j] == t.rooms[j]
  {
    var i := FindByName(t.rooms, name).value;
    var room := t.rooms[i];
    var t' := JoinSpecific(t, c, name);
    var joined := room.(players := room.players + [c]);
    assert t'.rooms == t.rooms[i := joined];
    assert forall j :: 0 <= j < i ==> t'.rooms[j] == t.rooms[j];
    assert t'.rooms[i].roomId == name;
    assert FindByName(t'.rooms, name) == Some(i);
    OthersSkipNamed(t.rooms, i, joined, name);
  }

  /** A successful leave removes the client's first occurrence from its room and its
      entry from the index; the room is gone exactly when no member is left; every other
      room stays, in order. */
  lemma RemoveTouchesOnlyItsRoom(t: Table, c: ulong)
    requires UniqueNames(t.rooms) && c in t.playerRoomMap
    requires NameInUse(t.rooms, t.playerRoomMap[c])
    ensures var name, t' := t.playerRoomMap[c], RemovePlayer(t, c);
            var left := RemoveFirst(GetPlayersInRoom(t.rooms, name).value, c);
            t'.playerRoomMap == t.playerRoomMap - {c} &&
            Others(t'.rooms, name) == Others(t.rooms, name) &&
            (NameInUse(t'.rooms, name) <==> left != []) &&
            (left != [] ==> GetPlayersInRoom(t'.rooms, name) == Some(left))
    ensures var name, t' := t.playerRoomMap[c], RemovePlayer(t, c);
            var left := RemoveFirst(GetPlayersInRoom(t.rooms, name).value, c);
            |t'.rooms| == (if left == [] then |t.rooms| - 1 else |t.rooms|) &&
            (left != [] ==>
               FindByName(t'.rooms, name) == FindByName(t.rooms, name) &&
               GetRoomByName(t'.rooms, name).value.maxPlayers ==
                 GetRoomByName(t.rooms, name).value.maxPlayers &&
               forall j :: 0 <= j < |t.rooms| && j != FindByName(t.rooms, name).value ==>
                             t'.rooms[j] == t.rooms[j])
  {
    var name := t.playerRoomMap[c];
    var i := RemovedFrom(t, c);
    var left := t.rooms[i].(players := RemoveFirst(t.rooms[i].players, c));
    assert GetPlayersInRoom(t.rooms, name).value == t.rooms[i].players;
    assert GetRoomByName(t.rooms, name) == Some(t.rooms[i]);
    UpdateOrDrop(t.rooms, i, left, name);
  }

  /** Updating room `i`, called `name`, in place, or dropping it when the update leaves it
      without members, changes nothing else in the list. */
  lemma UpdateOrDrop(rooms: seq<Room>, i: nat, x: Room, name: string)
    requires UniqueNames(rooms) && i < |rooms| && rooms[i].roomId == name
    requires x.roomId == name
    ensures var r := if x.players == [] then rooms[..i] + rooms[i + 1..] else rooms[i := x];
            Others(r, name) == Others(rooms, name) &&
            (NameInUse(r, name) <==> x.players != []) &&
            |r| == (if x.players == [] then |rooms| - 1 else |rooms|) &&
            (x.players != [] ==>
               FindByName(r, name) == Some(i) && GetRoomByName(r, name) == Some(x) &&
               forall j :: 0 <= j < |rooms| && j != i ==> r[j] == rooms[j])
  {
    OthersSkipNamed(rooms, i, x, name);
    if x.players == [] {
      DroppedRoomIsGone(rooms, i, name);
    } else {
      var r := rooms[i := x];
      assert forall j :: 0 <= j < i ==> r[j] == rooms[j];
      assert r[i].roomId == name;
      assert FindByName(r, name) == Some(i);
    }
  }

  /** The room a leave takes the client out of: the first one carrying the name its index
      entry holds; it is updated in place, or dropped once empty. */
  lemma RemovedFrom(t: Table, c: ulong) returns (i: nat)
    requires c in t.playerRoomMap && NameInUse(t.rooms, t.playerRoomMap[c])
    ensures FindByName(t.rooms, t.playerRoomMap[c]) == Some(i) && i < |t.rooms|
    ensures var left := t.rooms[i].(players := RemoveFirst(t.rooms[i].players, c));
            RemovePlayer(t, c) ==
              Table(if left.players == [] then t.rooms[..i] + t.rooms[i + 1..]
                    else t.rooms[i := left],
                    t.playerRoomMap - {c})
  {
    i := FindByName(t.rooms, t.playerRoomMap[c]).value;
  }

  /** With unique names, dropping the room called `name` leaves no room of that name. */
  lemma DroppedRoomIsGone(rooms: seq<Room>, i: nat, name: string)
    requires UniqueNames(rooms) && i < |rooms| && rooms[i].roomId == name
    ensures !NameInUse(rooms[..i] + rooms[i + 1..], name)
  {
    var rest := rooms[..i] + rooms[i + 1..];
    forall j | 0 <= j < |rest|
      ensures rest[j].roomId != name
    {
      var j' := if j < i then j else j + 1;
      assert rest[j] == rooms[j'];
    }
  }

  /** After a leave the client has no entry and is a member of no room. */
  lemma RemoveUnseats(t: Table, c: ulong)
    requires Valid(t)
    ensures c !in RemovePlayer(t, c).playerRoomMap
    ensures RoomOfClient(RemovePlayer(t, c).rooms, c) == None
  {
    RemoveKeepsValid(t, c);
    RoomOfClientMatchesIndex(RemovePlayer(t, c), c);
  }

  // ---------------------------------------------------------------- guards on the server's index

  /** Create with the "already in a room" guard read from the server's own index. */
  function CreateChecked(t: Table, c: ulong, name: string, maxPlayers: int32): Table
  {
    GatewayCreate(t.playerRoomMap, t, c, name, maxPlayers)
  }

  /** Join with the "already in a room" guard read from the server's own index. */
  function JoinChecked(t: Table, c: ulong, name: string): Table
  {
    GatewayJoin(t.playerRoomMap, t, c, name)
  }

  /** With the guard on the server's index, a create keeps the invariant whoever asks. */
  lemma CreateCheckedKeepsValid(t: Table, c: ulong, name: string, maxPlayers: int32)
    requires Valid(t) && maxPlayers >= 1
    ensures Valid(CreateChecked(t, c, name, maxPlayers))
  {
    if c !in t.playerRoomMap {
      CreateKeepsValid(t, c, name, maxPlayers);
    }
  }

  /** With the guard on the server's index, a join keeps the invariant whoever asks. */
  lemma JoinCheckedKeepsValid(t: Table, c: ulong, name: string)
    requires Valid(t)
    ensures Valid(JoinChecked(t, c, name))
  {
    if c !in t.playerRoomMap {
      JoinKeepsValid(t, c, name);
    }
  }

  /** A request as the server receives it from a client's remote call. */
  datatype Request =
    | CreateRequest(client: ulong, name: string, maxPlayers: int32)
    | JoinRequest(client: ulong, name: string)
    | LeaveRequest(client: ulong)

  /** The server handling one request, guards read from its own index. */
  function Serve(t: Table, req: Request): Table
  {
    match req
    case CreateRequest(c, name, maxPlayers) => CreateChecked(t, c, name, maxPlayers)
    case JoinRequest(c, name) => JoinChecked(t, c, name)
    case LeaveRequest(c) => RemovePlayer(t, c)
  }

  /** The server handling requests one after another, in arrival order. */
  function ServeAll(t: Table, reqs: seq<Request>): Table
    decreases |reqs|
  {
    if |reqs| == 0 then t else ServeAll(Serve(t, reqs[0]), reqs[1..])
  }

  /** Every create asks for room for at least its creator. */
  predicate SaneRequests(reqs: seq<Request>)
  {
    forall k :: 0 <= k < |reqs| && reqs[k].CreateRequest? ==> reqs[k].maxPlayers >= 1
  }

  /** Any sequence of create, join and leave requests keeps names unique, rooms within
      capacity and non-empty, each client in at most one room, and the index exact. */
  lemma {:induction false} ServeAllKeepsValid(t: Table, reqs: seq<Request>)
    requires Valid(t) && SaneRequests(reqs)
    ensures Valid(ServeAll(t, reqs))
    decreases |reqs|
  {
    if |reqs| > 0 {
      match reqs[0] {
        case CreateRequest(c, name, maxPlayers) => CreateCheckedKeepsValid(t, c, name, maxPlayers);
        case JoinRequest(c, name) => JoinCheckedKeepsValid(t, c, name);
        case LeaveRequest(c) => RemoveKeepsValid(t, c);
      }
      assert SaneRequests(reqs[1..]) by {
        assert forall k :: 0 <= k < |reqs| - 1 ==> reqs[1..][k] == reqs[k + 1];
      }
      ServeAllKeepsValid(Serve(t, reqs[0]), reqs[1..]);
    }
  }

  // ---------------------------------------------------------------- the server as written

  /** The invariants the server-side mutators keep whoever calls them, seated or not:
      unique names, rooms within capacity, and no empty room. */
  predicate RoomsSound(rooms: seq<Room>)
  {
    UniqueNames(rooms) && WithinCapacity(rooms) && NoEmptyRooms(rooms)
  }

  /** The duplicate-name check keeps names unique, for a seated creator too. */
  lemma CreateKeepsRoomsSound(t: Table, c: ulong, name: string, maxPlayers: int32)
    requires RoomsSound(t.rooms) && maxPlayers >= 1
    ensures RoomsSound(CreateOnServer(t, c, name, maxPlayers).rooms)
  {
    if !NameInUse(t.rooms, name) {
      var r := CreateOnServer(t, c, name, maxPlayers).rooms;
      assert forall j :: 0 <= j < |t.rooms| ==> r[j] == t.rooms[j];
    }
  }

  /** The capacity check keeps every room within capacity, for a seated joiner too. */
  lemma JoinKeepsRoomsSound(t: Table, c: ulong, name: string)
    requires RoomsSound(t.rooms)
    ensures RoomsSound(JoinSpecific(t, c, name).rooms)
  {
  }

  /** A leave keeps names unique and rooms within capacity, and drops a room it empties. */
  lemma RemoveKeepsRoomsSound(t: Table, c: ulong)
    requires RoomsSound(t.rooms)
    ensures RoomsSound(RemovePlayer(t, c).rooms)
  {
    if c in t.playerRoomMap && NameInUse(t.rooms, t.playerRoomMap[c]) {
      var name := t.playerRoomMap[c];
      var i := FindByName(t.rooms, name).value;
      var left := t.rooms[i].(players := RemoveFirst(t.rooms[i].players, c));
      var r := RemovePlayer(t, c).rooms;
      if left.players == [] {
        assert forall j :: 0 <= j < |r| ==> r[j] == t.rooms[if j < i then j else j + 1];
      }
    }
  }

  /** A request served with no caller-side guard: every create and join is handled as one
      from a remote peer, whose own index is empty, and every leave reaches
      `RemovePlayerFromRoom`. In the server as written the host's own creates and joins are
      guarded by the server's index, and a remote leave never arrives; such a refused
      request leaves the table unchanged, which is the same as leaving it out of the
      sequence, so every request stream of the server as written is one of these. */
  function ServeRemote(t: Table, req: Request): Table
  {
    match req
    case CreateRequest(c, name, maxPlayers) => GatewayCreate(map[], t, c, name, maxPlayers)
    case JoinRequest(c, name) => GatewayJoin(map[], t, c, name)
    case LeaveRequest(c) => RemovePlayer(t, c)
  }

  /** The server as written handling requests one after another, in arrival order. */
  function ServeAllRemote(t: Table, reqs: seq<Request>): Table
    decreases |reqs|
  {
    if |reqs| == 0 then t else ServeAllRemote(ServeRemote(t, reqs[0]), reqs[1..])
  }

  /** Even without the membership guard, any sequence of requests keeps names unique and
      rooms within capacity and non-empty. */
  lemma {:induction false} ServeAllRemoteKeepsRoomsSound(t: Table, reqs: seq<Request>)
    requires RoomsSound(t.rooms) && SaneRequests(reqs)
    ensures RoomsSound(ServeAllRemote(t, reqs).rooms)
    decreases |reqs|
  {
    if |reqs| > 0 {
      match reqs[0] {
        case CreateRequest(c, name, maxPlayers) => CreateKeepsRoomsSound(t, c, name, maxPlayers);
        case JoinRequest(c, name) => JoinKeepsRoomsSound(t, c, name);
        case LeaveRequest(c) => RemoveKeepsRoomsSound(t, c);
      }
      assert SaneRequests(reqs[1..]) by {
        assert forall k :: 0 <= k < |reqs| - 1 ==> reqs[1..][k] == reqs[k + 1];
      }
      ServeAllRemoteKeepsRoomsSound(ServeRemote(t, reqs[0]), reqs[1..]);
    }
  }

  /** Client 1 opens "Alpha" for two, client 2 joins, client 3 finds it full, client 4
      cannot reuse the name, and client 1, already seated, cannot open "Beta". */
  lemma AlphaScenario()
    ensures var t1 := CreateChecked(Table([], map[]), 1, "Alpha", 2);
            var t2 := JoinChecked(t1, 2, "Alpha");
            t1 == Table([Room("Alpha", 2, [1])], map[1 := "Alpha"]) &&
            t2 == Table([Room("Alpha", 2, [1, 2])], map[1 := "Alpha", 2 := "Alpha"]) &&
            JoinChecked(t2, 3, "Alpha") == t2 &&
            CreateChecked(t1, 4, "Alpha", 3) == t1 &&
            CreateChecked(t1, 1, "Beta", 2) == t1
  {
    var t1 := CreateChecked(Table([], map[]), 1, "Alpha", 2);
    assert t1.rooms[0].roomId == "Alpha";
    assert FindByName(t1.rooms, "Alpha") == Some(0);
    var t2 := JoinChecked(t1, 2, "Alpha");
    assert t2.rooms[0].roomId == "Alpha";
    assert FindByName(t2.rooms, "Alpha") == Some(0);
    assert t1.rooms[0].players + [2] == [1, 2];
    assert t2.rooms == [Room("Alpha", 2, [1, 2])];
  }
}
