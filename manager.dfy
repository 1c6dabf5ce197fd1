/** AbstractGameManager as an object: its wait queue, region set and
    statistics log are fields that the operations update in place. Each
    operation is proved to do exactly what the matching transition of
    module Allocation does, and to keep the container invariants. */
module Manager {
  import opened Containers
  import opened Entities
  import opened Allocation
  import AllocationProps

  class GameManager {
    const queueCapacity: nat
    const regionCapacity: nat
    /** most_effective_region_for_player */
    const placement: PlacementPolicy
    /** most_effective_region_for_room */
    const roomPlacement: RoomPolicy

    var queue: seq<Player>
    var regions: seq<Region>
    var stats: seq<StatEvent>

    /** The manager's state as a value. */
    function Model(): State
      reads this
    {
      State(queueCapacity, regionCapacity, queue, regions, stats)
    }

    ghost predicate Valid()
      reads this
    {
      Wf(Model())
    }

    constructor (playersMax: nat, regionsMax: nat, placement: PlacementPolicy, roomPlacement: RoomPolicy)
      ensures Valid() && Model() == Empty(playersMax, regionsMax)
      ensures this.placement == placement && this.roomPlacement == roomPlacement
    {
      queueCapacity, regionCapacity := playersMax, regionsMax;
      this.placement, this.roomPlacement := placement, roomPlacement;
      queue, regions, stats := [], [], [];
    }

    method AddRegion(region: Region) returns (stored: Option<Region>)
      requires Valid() && region.Valid()
      modifies this
      ensures Valid()
      ensures old(Exclusive(Model()) && forall n :: region.HasPlayerName(n) ==> PresenceOf(Model(), n) == Absent)
        ==> Exclusive(Model())
      ensures (Model(), stored) == Allocation.AddRegion(old(Model()), region)
    {
      AllocationProps.AddRegionKeepsWf(Model(), region);
      if Exclusive(Model()) && forall n :: region.HasPlayerName(n) ==> PresenceOf(Model(), n) == Absent {
        AllocationProps.AddRegionKeepsExclusive(Model(), region);
      }
      if HasRegion(Model(), region.name) == [] && HasPlace(regions, regionCapacity) {
        regions := regions + [region];
        stored := Some(region);
      } else {
        stored := None;
      }
    }

    method RemoveRegion(name: string) returns (removed: Removal<Region>)
      requires Valid()
      modifies this
      ensures Valid()
      ensures old(Exclusive(Model())) ==> Exclusive(Model())
      ensures (Model(), removed) == Allocation.RemoveRegion(old(Model()), name)
    {
      AllocationProps.RemoveRegionDropsTheName(Model(), name);
      if Exclusive(Model()) {
        AllocationProps.RemoveRegionKeepsExclusive(Model(), name);
      }
      removed := RemoveFirst(regions, Named(name));
      regions := removed.rest;
    }

    /** _has_player: scans the regions in order, then the queue. */
    method HasPlayer(p: Player) returns (r: Presence)
      ensures r == PresenceOf(Model(), p.name)
    {
      var i := 0;
      while i < |regions|
        invariant 0 <= i <= |regions|
        invariant forall j :: 0 <= j < i ==> !regions[j].HasPlayerName(p.name)
      {
        if regions[i].HasPlayerName(p.name) {
          return InRegion(i);
        }
        i := i + 1;
      }
      FilterHeadIsFirstMatch(queue, NameIs(p.name));
      r := if |Filter(queue, NameIs(p.name))| > 0 then Waiting else Absent;
    }

    /** _has_any_region: stops at the first listed name that is a region. */
    method HasAnyRegion(names: seq<string>) returns (b: bool)
      ensures b == Allocation.HasAnyRegion(Model(), names)
    {
      for i := 0 to |names|
        invariant forall j :: 0 <= j < i ==> !KnowsRegion(Model(), names[j])
      {
        if KnowsRegion(Model(), names[i]) {
          return true;
        }
      }
      return false;
    }

    /** _can_add_player. */
    method CanAddPlayer(p: Player) returns (ok: bool)
      ensures ok == Allocation.CanAddPlayer(Model(), p)
    {
      var presence := HasPlayer(p);
      if presence != Absent {
        return false;
      }
      ok := HasAnyRegion(p.regions);
    }

    method AddPlayer(p: Player) returns (out: AddOutcome)
      requires Valid()
      modifies this
      ensures Valid()
      ensures old(Exclusive(Model())) ==> Exclusive(Model())
      ensures (Model(), out) == Allocation.AddPlayer(old(Model()), p, placement)
    {
      ghost var before := Model();
      AllocationProps.AddPlayerKeepsWf(before, p, placement);
      if Exclusive(before) {
        AllocationProps.AddPlayerKeepsExclusive(before, p, placement);
      }
      var admissible := CanAddPlayer(p);
      if !admissible {
        return Rejected;
      }
      stats := stats + [Start(p.name)];
      assert Allocation.AddPlayer(before, p, placement) == Settle(Model(), p, placement(p, regions));
      match placement(p, regions) {
        case Some(i) =>
          match regions[i].AddPlayer(p) {
            case Some(region') =>
              regions := regions[i := region'];
              out := Placed(i);
            case None =>
              out := RegionRefused(i);
          }
        case None =>
          if HasPlace(queue, queueCapacity) && Filter(queue, NameIs(p.name)) == [] {
            queue := queue + [p];
            out := Queued;
          } else {
            out := NotQueued;
          }
      }
    }

    method RemovePlayer(name: string) returns (out: RemoveOutcome)
      requires Valid()
      modifies this
      ensures Valid()
      ensures old(Exclusive(Model())) ==> Exclusive(Model())
      ensures (Model(), out) == Allocation.RemovePlayer(old(Model()), name)
    {
      ghost var before := Model();
      var dequeued := RemoveFirst(queue, NameIs(name));
      if dequeued.found {
        queue := dequeued.rest;
        KeepsInvariants(before, name);
        return Dequeued(dequeued.elem.value);
      }
      assert forall k :: 0 <= k < |queue| ==> queue[k].name != name;
      var i := 0;
      while i < |regions|
        invariant 0 <= i <= |regions|
        invariant forall j :: 0 <= j < i ==> !regions[j].HasPlayerName(name)
        invariant Model() == before
      {
        if regions[i].HasPlayerName(name) {
          assert FirstIndex(before.regions, Holds(name)) == Some(i);
          AllocationProps.RemovePlayerReachesRegion(before, name, i);
          out := LeaveRegion(name, i);
          KeepsInvariants(before, name);
          return;
        }
        i := i + 1;
      }
      assert FirstIndex(before.regions, Holds(name)) == None;
      KeepsInvariants(before, name);
      return NotFound;
    }

    /** remove_player keeps the container invariants, and exclusivity when
        it held before. */
    static lemma KeepsInvariants(before: State, name: string)
      requires Wf(before)
      ensures Wf(Allocation.RemovePlayer(before, name).0)
      ensures Exclusive(before) ==> Exclusive(Allocation.RemovePlayer(before, name).0)
    {
      AllocationProps.RemovePlayerKeepsWf(before, name);
      if Exclusive(before) {
        AllocationProps.RemovePlayerKeepsExclusive(before, name);
      }
    }

    /** The region side of remove_player, at region `i`. */
    method LeaveRegion(name: string, i: nat) returns (out: RemoveOutcome)
      requires i < |regions|
      modifies this
      ensures (Model(), out) == Allocation.LeaveRegion(old(Model()), name, i)
    {
      var (ok, region') := regions[i].RemovePlayerByName(name);
      regions := regions[i := region'];
      stats := stats + [Stop(name)];
      if ok && CanPop(queue) {
        OnUpdate(region');
      }
      out := LeftRegion(i, ok);
    }

    /** _on_update: drop the earliest waiting player that lists `region`;
        nothing else changes and the player is placed nowhere. */
    method OnUpdate(region: Region)
      modifies this
      ensures queue == Promote(old(queue), region.name)
      ensures regions == old(regions) && stats == old(stats)
    {
      var sameRegion := Filter(queue, ListsRegion(region.name));
      if sameRegion != [] {
        var newPlayer := sameRegion[0];
        queue := RemoveFirst(queue, IsPlayer(newPlayer)).rest;
      }
    }

    method AddRoom(p: Player, room: string) returns (out: RoomOutcome)
      requires Valid()
      modifies this
      ensures Valid()
      ensures (Model(), out) == Allocation.AddRoom(old(Model()), p, room, roomPlacement)
      ensures old(Exclusive(Model()) && PresenceOf(Model(), p.name) == Absent) ==> Exclusive(Model())
    {
      AllocationProps.AddRoomKeepsWf(Model(), p, room, roomPlacement);
      if Exclusive(Model()) && PresenceOf(Model(), p.name) == Absent {
        AllocationProps.AddRoomKeepsExclusiveForNewName(Model(), p, room, roomPlacement);
      }
      match roomPlacement(room, p, regions) {
        case None =>
          out := NoRegion;
        case Some(i) =>
          match regions[i].AddRoom(room, p) {
            case Some(region') =>
              regions := regions[i := region'];
              out := Joined(i);
            case None =>
              out := RoomRefused(i);
          }
      }
    }
  }
}
