/** The values the room directory is built from: client handles, rooms, and the
    read-only lookups over the ordered room list. */
module Rooms {

  /** A Netcode client id (C# `ulong`). */
  newtype ulong = x: int | 0 <= x < 0x1_0000_0000_0000_0000

  /** A C# `int`. */
  newtype int32 = x: int | -0x8000_0000 <= x < 0x8000_0000

  datatype Option<T> = None | Some(value: T)

  /** `RoomManager.Room`: its name (`RoomID`), its capacity and its members in join order. */
  datatype Room = Room(roomId: string, maxPlayers: int32, players: seq<ulong>)

  /** Some room carries the name. */
  predicate NameInUse(rooms: seq<Room>, name: string)
  {
    exists i :: 0 <= i < |rooms| && rooms[i].roomId == name
  }

  /** `rooms.Exists(r => r.RoomID == name)`: scans the rooms in order for one carrying the
      name. */
  predicate AnyRoomNamed(rooms: seq<Room>, name: string): (b: bool)
    ensures b <==> NameInUse(rooms, name)
  {
    |rooms| > 0 && (rooms[0].roomId == name || AnyRoomNamed(rooms[1..], name))
  }

  /** The position of the room `rooms.Find(r => r.RoomID == name)` returns: the first one
      carrying that name, or None when there is none. */
  function FindByName(rooms: seq<Room>, name: string): (r: Option<nat>)
    ensures r.None? <==> !NameInUse(rooms, name)
    ensures r.Some? ==> r.value < |rooms| && rooms[r.value].roomId == name
    ensures r.Some? ==> forall j :: 0 <= j < r.value ==> rooms[j].roomId != name
  {
    if |rooms| == 0 then None
    else if rooms[0].roomId == name then Some(0)
    else
      match FindByName(rooms[1..], name)
      case None =>
        assert forall i :: 1 <= i < |rooms| ==> rooms[i] == rooms[1..][i - 1];
        None
      case Some(k) =>
        assert rooms[k + 1] == rooms[1..][k];
        assert forall j :: 1 <= j < k + 1 ==> rooms[j] == rooms[1..][j - 1];
        Some(k + 1)
  }

  /** `GetRoomByName`: the first room with that name, or None (C# `null`). */
  function GetRoomByName(rooms: seq<Room>, name: string): (r: Option<Room>)
    ensures r.None? <==> !NameInUse(rooms, name)
    ensures r.Some? ==> r.value.roomId == name && r.value in rooms
    ensures r.Some? ==> exists i :: 0 <= i < |rooms| && rooms[i] == r.value &&
                                    forall j :: 0 <= j < i ==> rooms[j].roomId != name
  {
    match FindByName(rooms, name)
    case None => None
    case Some(i) => Some(rooms[i])
  }

  /** `GetPlayersInRoom`: the members of the first room with that name. The source
      dereferences the lookup's result unchecked, so an unknown name throws; that
      case is None here. */
  function GetPlayersInRoom(rooms: seq<Room>, name: string): (r: Option<seq<ulong>>)
    ensures r.None? <==> !NameInUse(rooms, name)
    ensures r.Some? ==> exists i :: 0 <= i < |rooms| && rooms[i].roomId == name &&
                                    rooms[i].players == r.value &&
                                    forall j :: 0 <= j < i ==> rooms[j].roomId != name
  {
    match GetRoomByName(rooms, name)
    case None => None
    case Some(room) => Some(room.players)
  }

  /** The position of the room `GetRoomClientBelongTo(c)` returns: the first room whose
      members contain `c`, or None. */
  function FirstRoomWith(rooms: seq<Room>, c: ulong): (r: Option<nat>)
    ensures r.None? <==> forall i :: 0 <= i < |rooms| ==> c !in rooms[i].players
    ensures r.Some? ==> r.value < |rooms| && c in rooms[r.value].players
    ensures r.Some? ==> forall j :: 0 <= j < r.value ==> c !in rooms[j].players
  {
    if |rooms| == 0 then None
    else if c in rooms[0].players then Some(0)
    else
      match FirstRoomWith(rooms[1..], c)
      case None =>
        assert forall i :: 1 <= i < |rooms| ==> rooms[i] == rooms[1..][i - 1];
        None
      case Some(k) =>
        assert rooms[k + 1] == rooms[1..][k];
        assert forall j :: 1 <= j < k + 1 ==> rooms[j] == rooms[1..][j - 1];
        Some(k + 1)
  }

  /** The name of the room `GetRoomClientBelongTo(c)` returns, as `currentRoom` keeps it. */
  function RoomOfClient(rooms: seq<Room>, c: ulong): (r: Option<string>)
    ensures r.None? <==> forall i :: 0 <= i < |rooms| ==> c !in rooms[i].players
    ensures r.Some? ==> exists i :: 0 <= i < |rooms| && rooms[i].roomId == r.value &&
                                    c in rooms[i].players &&
                                    forall j :: 0 <= j < i ==> c !in rooms[j].players
  {
    match FirstRoomWith(rooms, c)
    case None => None
    case Some(i) => Some(rooms[i].roomId)
  }

  /** The position of the first `x` in `s`, or `|s|` when `x` does not occur. */
  function IndexOf(s: seq<ulong>, x: ulong): (k: nat)
    ensures k <= |s| && (k == |s| <==> x !in s)
    ensures k < |s| ==> s[k] == x
    ensures forall j :: 0 <= j < k ==> s[j] != x
  {
    if |s| == 0 then 0
    else if s[0] == x then 0
    else
      var k := IndexOf(s[1..], x);
      assert forall j :: 1 <= j < k + 1 ==> s[j] == s[1..][j - 1];
      assert k < |s[1..]| ==> s[k + 1] == s[1..][k];
      assert k == |s[1..]| ==> forall j :: 1 <= j < |s| ==> s[j] == s[1..][j - 1];
      k + 1
  }

  /** `List<ulong>.Remove(x)`: drops the first occurrence of `x`; members before it keep
      their places, members after it move up by one, and a list without `x` is returned
      as it is. */
  function RemoveFirst(s: seq<ulong>, x: ulong): (r: seq<ulong>)
    ensures |r| == if x in s then |s| - 1 else |s|
    ensures forall j :: 0 <= j < |r| ==> r[j] == s[if j < IndexOf(s, x) then j else j + 1]
  {
    if |s| == 0 then s
    else if s[0] == x then s[1..]
    else
      assert x in s <==> x in s[1..];
      assert IndexOf(s, x) == IndexOf(s[1..], x) + 1;
      [s[0]] + RemoveFirst(s[1..], x)
  }

  /** No client occurs twice in one member list. */
  predicate NoDuplicates(s: seq<ulong>)
  {
    forall k, l :: 0 <= k < l < |s| ==> s[k] != s[l]
  }

  /** On a list without duplicates, removing `x` removes exactly `x` and keeps the list
      free of duplicates. */
  lemma RemoveFirstMembers(s: seq<ulong>, x: ulong)
    requires NoDuplicates(s)
    ensures NoDuplicates(RemoveFirst(s, x))
    ensures forall y :: y in RemoveFirst(s, x) <==> y in s && y != x
  {
    var r, k := RemoveFirst(s, x), IndexOf(s, x);
    forall y
      ensures y in r <==> y in s && y != x
    {
      if y in r {
        var j :| 0 <= j < |r| && r[j] == y;
        assert y == s[if j < k then j else j + 1];
      }
      if y in s && y != x {
        var j :| 0 <= j < |s| && s[j] == y;
        assert r[if j < k then j else j - 1] == y;
      }
    }
  }
}
