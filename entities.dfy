/** The entities the manager orchestrates: players, regions (with the rooms
    inside them) and the session events the statistics recorder keeps. */
module Entities {
  import opened Containers

  /** A player: its identity (the name) and the region names it accepts,
      in the order given. */
  datatype Player = Player(name: string, regions: seq<string>)

  /** One start or stop event recorded by the statistics manager. */
  datatype StatEvent = Start(who: string) | Stop(who: string)

  /** Where a region holds a player: in its direct pool or in a named room. */
  datatype Place = Lobby | Room(room: string)

  /** A region: its unique name, the total number of players it may hold,
      the capacity of each of its rooms, the rooms created so far and the
      players it holds, keyed by name. */
  datatype Region = Region(name: string, maxPlayers: nat, roomSize: nat,
                           rooms: set<string>, members: map<string, Place>)
  {
    predicate HasPlayerName(n: string) {
      n in members
    }

    /** Number of players in the room called `room`. */
    function Occupancy(room: string): nat {
      |set n | n in members && members[n] == Room(room)|
    }

    /** The region never holds more than `maxPlayers` players, every room
        a player sits in exists, and no room exceeds `roomSize`. */
    ghost predicate Valid() {
      && |members| <= maxPlayers
      && (forall n :: n in members && members[n].Room? ==> members[n].room in rooms)
      && (forall room :: room in rooms ==> Occupancy(room) <= roomSize)
    }

    /** Places `p` in the direct pool; refused when the name is already held
        or the region is full. */
    function AddPlayer(p: Player): (r: Option<Region>)
      ensures r.Some? <==> !HasPlayerName(p.name) && |members| < maxPlayers
      ensures r.Some? ==> r.value.SameShape(this)
      ensures r.Some? ==> r.value.members.Keys == members.Keys + {p.name}
      ensures r.Some? ==> r.value.members[p.name] == Lobby && r.value.rooms == rooms
      ensures r.Some? ==> forall m :: m in members ==> r.value.members[m] == members[m]
    {
      if p.name in members || |members| >= maxPlayers then None
      else Some(this.(members := members[p.name := Lobby]))
    }

    /** A region that admits a player stays within its limits. */
    lemma AddPlayerKeepsValid(p: Player)
      requires Valid() && AddPlayer(p).Some?
      ensures AddPlayer(p).value.Valid()
    {
      OccupancyAfterJoin(p.name, Lobby);
    }

    /** Removes the named player from wherever the region holds it; reports
        whether it was held. */
    function RemovePlayerByName(n: string): (r: (bool, Region))
      ensures r.0 <==> HasPlayerName(n)
      ensures r.1.SameShape(this) && r.1.rooms == rooms
      ensures r.1.members.Keys == members.Keys - {n}
      ensures forall m :: m in members && m != n ==> r.1.members[m] == members[m]
    {
      (n in members, this.(members := members - {n}))
    }

    /** A region that lets a player go stays within its limits. */
    lemma RemovePlayerByNameKeepsValid(n: string)
      requires Valid()
      ensures RemovePlayerByName(n).1.Valid()
    {
      OccupancyAfterLeave(n);
    }

    /** Places `p` in the room called `room`, creating the room if it does
        not exist; refused when the name is already held, the region is full
        or the room is full. */
    function AddRoom(room: string, p: Player): (r: Option<Region>)
      ensures r.Some? <==>
        !HasPlayerName(p.name) && |members| < maxPlayers && Occupancy(room) < roomSize
      ensures r.Some? ==> r.value.SameShape(this) && r.value.rooms == rooms + {room}
      ensures r.Some? ==> r.value.members.Keys == members.Keys + {p.name}
      ensures r.Some? ==> r.value.members[p.name] == Room(room)
      ensures r.Some? ==> forall m :: m in members ==> r.value.members[m] == members[m]
    {
      if p.name in members || |members| >= maxPlayers || Occupancy(room) >= roomSize then None
      else Some(this.(rooms := rooms + {room}, members := members[p.name := Room(room)]))
    }

    /** A region that lets a player join a room stays within its limits:
        in particular the room does not exceed `roomSize`. */
    lemma AddRoomKeepsValid(room: string, p: Player)
      requires Valid() && AddRoom(room, p).Some?
      ensures AddRoom(room, p).value.Valid()
    {
      OccupancyAfterJoin(p.name, Room(room));
    }

    /** Removing a player just added restores the region. */
    lemma JoinThenLeave(p: Player)
      requires AddPlayer(p).Some?
      ensures AddPlayer(p).value.RemovePlayerByName(p.name) == (true, this)
    {
      assert (members[p.name := Lobby] - {p.name}) == members;
    }

    /** Same name and capacities. */
    predicate SameShape(other: Region) {
      name == other.name && maxPlayers == other.maxPlayers && roomSize == other.roomSize
    }

    /** A newcomer placed at `place` adds one to that room's occupancy and
        leaves every other room as it was. */
    lemma OccupancyAfterJoin(x: string, place: Place)
      requires x !in members
      ensures forall room ::
        this.(members := members[x := place]).Occupancy(room)
          == Occupancy(room) + (if place == Room(room) then 1 else 0)
    {
      forall room
        ensures this.(members := members[x := place]).Occupancy(room)
          == Occupancy(room) + (if place == Room(room) then 1 else 0)
      {
        OccupancyAfterJoinAt(x, place, room);
      }
    }

    lemma OccupancyAfterJoinAt(x: string, place: Place, room: string)
      requires x !in members
      ensures this.(members := members[x := place]).Occupancy(room)
        == Occupancy(room) + (if place == Room(room) then 1 else 0)
    {
      var m' := members[x := place];
      var before := set n | n in members && members[n] == Room(room);
      var after := set n | n in m' && m'[n] == Room(room);
      if place == Room(room) {
        assert after == before + {x};
      } else {
        assert after == before;
      }
    }

    /** Removing a player never raises a room's occupancy. */
    lemma OccupancyAfterLeave(x: string)
      ensures forall room ::
        this.(members := members - {x}).Occupancy(room) <= Occupancy(room)
    {
      var m' := members - {x};
      forall room
        ensures this.(members := m').Occupancy(room) <= Occupancy(room)
      {
        var before := set n | n in members && members[n] == Room(room);
        var after := set n | n in m' && m'[n] == Room(room);
        assert after == before - {x};
      }
    }
  }

  /** A fresh region, as the source constructs one: no rooms, no players. */
  function NewRegion(name: string, maxPlayers: nat, roomSize: nat): (r: Region)
    ensures r.Valid() && r.name == name && r.members == map[]
  {
    Region(name, maxPlayers, roomSize, {}, map[])
  }

  /** The predicates the manager hands to find_by_lambda / remove_lambda. */
  function NameIs(n: string): Player -> bool {
    (q: Player) => q.name == n
  }

  function ListsRegion(regionName: string): Player -> bool {
    (q: Player) => regionName in q.regions
  }

  function IsPlayer(p: Player): Player -> bool {
    (q: Player) => q == p
  }

  function Named(regionName: string): Region -> bool {
    (r: Region) => r.name == regionName
  }

  function Holds(n: string): Region -> bool {
    (r: Region) => r.HasPlayerName(n)
  }
}
