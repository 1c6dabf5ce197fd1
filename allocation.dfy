/** The allocation engine of AbstractGameManager as pure state transitions:
    the wait queue, the region set and the statistics log, and what each
    operation of the manager does to them. The class in manager.dfy runs
    the same operations in place and is proved equal to these functions. */
module Allocation {
  import opened Containers
  import opened Entities

  /** The two abstract policies. The placement policy may pick any region of
      the manager's set, or none; it only ever picks a region of that set. */
  type PlacementPolicy = f: (Player, seq<Region>) -> Option<nat>
    | forall p, rs :: f(p, rs).Some? ==> f(p, rs).value < |rs|
    witness (p: Player, rs: seq<Region>) => None

  type RoomPolicy = f: (string, Player, seq<Region>) -> Option<nat>
    | forall room, p, rs :: f(room, p, rs).Some? ==> f(room, p, rs).value < |rs|
    witness (room: string, p: Player, rs: seq<Region>) => None

  /** The manager's state: the capacities of its two containers, the
      waiting players in arrival order, the regions in insertion order and
      the start/stop events recorded so far. */
  datatype State = State(queueCapacity: nat, regionCapacity: nat,
                         queue: seq<Player>, regions: seq<Region>,
                         stats: seq<StatEvent>)

  /** What add_player returns: rejected by the admission check, placed by
      (or refused by) the region the policy chose, pushed on the queue, or
      not pushed because the queue had no room. */
  datatype AddOutcome =
    | Rejected
    | Placed(region: nat)
    | RegionRefused(region: nat)
    | Queued
    | NotQueued
  {
    /** The outcomes the caller sees as success. */
    predicate Admitted() {
      Placed? || Queued?
    }
  }

  /** What remove_player returns: the dequeued player, the status of the
      removal from the first region holding the name, or nothing. */
  datatype RemoveOutcome = Dequeued(player: Player) | LeftRegion(region: nat, ok: bool) | NotFound

  /** What add_room returns: no region chosen, or the room join's result. */
  datatype RoomOutcome = NoRegion | Joined(region: nat) | RoomRefused(region: nat)

  /** Where a name is held, as _has_player finds it: the first region
      holding it, else the queue, else nowhere. */
  datatype Presence = InRegion(index: nat) | Waiting | Absent

  /** A freshly constructed manager. */
  function Empty(playersMax: nat, regionsMax: nat): (s: State)
    ensures Wf(s) && Exclusive(s)
    ensures s.queueCapacity == playersMax && s.regionCapacity == regionsMax
    ensures InQueue(s) == 0 && RegionNames(s) == [] && s.stats == []
  {
    State(playersMax, regionsMax, [], [], [])
  }

  /** The container invariants: both containers within capacity, region
      names unique, queued names unique, every region within its limits. */
  ghost predicate Wf(s: State) {
    && |s.queue| <= s.queueCapacity
    && |s.regions| <= s.regionCapacity
    && (forall i, j :: 0 <= i < j < |s.regions| ==> s.regions[i].name != s.regions[j].name)
    && (forall i, j :: 0 <= i < j < |s.queue| ==> s.queue[i].name != s.queue[j].name)
    && (forall i :: 0 <= i < |s.regions| ==> s.regions[i].Valid())
  }

  /** Every name is in at most one place: no two regions hold it, and no
      region holds a name that is waiting in the queue. */
  ghost predicate Exclusive(s: State) {
    && (forall i, j, n :: 0 <= i < j < |s.regions| && s.regions[i].HasPlayerName(n)
          ==> !s.regions[j].HasPlayerName(n))
    && (forall i, k :: 0 <= i < |s.regions| && 0 <= k < |s.queue|
          ==> !s.regions[i].HasPlayerName(s.queue[k].name))
  }

  // ---------------------------------------------------------------- queries

  /** in_queue: the number of waiting players, never above the queue's
      capacity. */
  function InQueue(s: State): (n: nat)
    ensures Wf(s) ==> n <= s.queueCapacity
  {
    |s.queue|
  }

  /** region_name: the names of the regions in iteration order; they are
      pairwise distinct in a well-formed state. */
  function RegionNames(s: State): (names: seq<string>)
    ensures |names| == |s.regions|
    ensures forall i :: 0 <= i < |names| ==> names[i] == s.regions[i].name
    ensures Wf(s) ==> forall i, j :: 0 <= i < j < |names| ==> names[i] != names[j]
  {
    seq(|s.regions|, i requires 0 <= i < |s.regions| => s.regions[i].name)
  }

  /** has_region: the regions called `n`; non-empty exactly when such a
      region exists, and never more than one in a well-formed state. */
  function HasRegion(s: State, n: string): (found: seq<Region>)
    ensures found != [] <==> exists i :: 0 <= i < |s.regions| && s.regions[i].name == n
    ensures Wf(s) ==> |found| <= 1
  {
    FilterHeadIsFirstMatch(s.regions, Named(n));
    AtMostOneNamed(s.regions, n);
    Filter(s.regions, Named(n))
  }

  /** _has_region. */
  function KnowsRegion(s: State, n: string): (b: bool)
    ensures b <==> exists i :: 0 <= i < |s.regions| && s.regions[i].name == n
  {
    |HasRegion(s, n)| > 0
  }

  /** _has_any_region: some listed name is a known region. */
  function HasAnyRegion(s: State, names: seq<string>): (b: bool)
    ensures b <==> exists i, j :: 0 <= i < |names| && 0 <= j < |s.regions| && names[i] == s.regions[j].name
  {
    exists i :: 0 <= i < |names| && KnowsRegion(s, names[i])
  }

  /** _has_player, by name: the first region holding the name, else
      whether a queued player has it. */
  function PresenceOf(s: State, n: string): (r: Presence)
    ensures r.InRegion? ==> r.index < |s.regions| && s.regions[r.index].HasPlayerName(n)
    ensures r.InRegion? ==> forall j :: 0 <= j < r.index ==> !s.regions[j].HasPlayerName(n)
    ensures !r.InRegion? <==> forall j :: 0 <= j < |s.regions| ==> !s.regions[j].HasPlayerName(n)
    ensures r.Waiting? ==> exists k :: 0 <= k < |s.queue| && s.queue[k].name == n
    ensures r.Absent? ==> forall k :: 0 <= k < |s.queue| ==> s.queue[k].name != n
  {
    match FirstIndex(s.regions, Holds(n))
    case Some(i) => InRegion(i)
    case None =>
      FilterHeadIsFirstMatch(s.queue, NameIs(n));
      if Filter(s.queue, NameIs(n)) != [] then Waiting else Absent
  }

  /** _can_add_player: the name is held nowhere and one of the player's
      region names is a known region. */
  function CanAddPlayer(s: State, p: Player): (b: bool)
    ensures b ==> forall j :: 0 <= j < |s.regions| ==> !s.regions[j].HasPlayerName(p.name)
    ensures b ==> forall k :: 0 <= k < |s.queue| ==> s.queue[k].name != p.name
    ensures !b ==> PresenceOf(s, p.name) != Absent || !HasAnyRegion(s, p.regions)
  {
    PresenceOf(s, p.name) == Absent && HasAnyRegion(s, p.regions)
  }

  // ------------------------------------------------------------ transitions

  /** add_region: stored only when its name is new and the set has room. */
  function AddRegion(s: State, region: Region): (r: (State, Option<Region>))
    ensures r.1.Some? <==>
      (forall i :: 0 <= i < |s.regions| ==> s.regions[i].name != region.name)
      && |s.regions| < s.regionCapacity
    ensures r.1.Some? ==> r.1.value == region && r.0 == s.(regions := s.regions + [region])
    ensures r.1.None? ==> r.0 == s
  {
    if HasRegion(s, region.name) == [] && HasPlace(s.regions, s.regionCapacity) then
      (s.(regions := s.regions + [region]), Some(region))
    else
      (s, None)
  }

  /** remove_region: removes the region called `n`, if there is one. */
  function RemoveRegion(s: State, n: string): (r: (State, Removal<Region>))
    ensures r.1.found <==> exists i :: 0 <= i < |s.regions| && s.regions[i].name == n
    ensures r.0.queue == s.queue && r.0.stats == s.stats
    ensures r.0.regions == r.1.rest
  {
    var removed := RemoveFirst(s.regions, Named(n));
    (s.(regions := removed.rest), removed)
  }

  /** add_player: screen, record the start, then delegate to the region
      the policy chose or fall back to the queue. */
  function AddPlayer(s: State, p: Player, policy: PlacementPolicy): (r: (State, AddOutcome))
    ensures r.1 == Rejected <==> !CanAddPlayer(s, p)
    ensures r.1 == Rejected ==> r.0 == s
    ensures r.1 != Rejected ==> r.0.stats == s.stats + [Start(p.name)]
    ensures |r.0.regions| == |s.regions|
  {
    if !CanAddPlayer(s, p) then (s, Rejected)
    else Settle(s.(stats := s.stats + [Start(p.name)]), p, policy(p, s.regions))
  }

  /** The placement step of add_player, once the start is recorded: the
      region the policy chose, or else the queue. */
  function Settle(s: State, p: Player, choice: Option<nat>): (r: (State, AddOutcome))
    requires choice.Some? ==> choice.value < |s.regions|
    ensures r.0.stats == s.stats && |r.0.regions| == |s.regions|
    ensures choice.Some? ==>
      r.0.queue == s.queue && (r.1 == Placed(choice.value) || (r.1 == RegionRefused(choice.value) && r.0 == s))
    ensures choice.None? ==>
      r.0.regions == s.regions && (r.1 == Queued || (r.1 == NotQueued && r.0 == s))
  {
    match choice
    case Some(i) =>
      (match s.regions[i].AddPlayer(p)
       case Some(region') => (s.(regions := s.regions[i := region']), Placed(i))
       case None => (s, RegionRefused(i)))
    case None =>
      if HasPlace(s.queue, s.queueCapacity) && Filter(s.queue, NameIs(p.name)) == [] then
        (s.(queue := s.queue + [p]), Queued)
      else
        (s, NotQueued)
  }

  /** The queue after _on_update for the region called `regionName`: the
      first waiting player listing that region is dropped. */
  function Promote(queue: seq<Player>, regionName: string): (r: seq<Player>)
    ensures (forall k :: 0 <= k < |queue| ==> regionName !in queue[k].regions) ==> r == queue
    ensures (exists k :: 0 <= k < |queue| && regionName in queue[k].regions) ==> |r| + 1 == |queue|
  {
    var sameRegion := Filter(queue, ListsRegion(regionName));
    if sameRegion != [] then RemoveFirst(queue, IsPlayer(sameRegion[0])).rest else queue
  }

  /** remove_player: the queue first, then the first region holding the
      name; a successful region-side removal triggers _on_update when
      the queue is not empty. */
  function RemovePlayer(s: State, n: string): (r: (State, RemoveOutcome))
    ensures r.1 == NotFound ==> r.0 == s
    ensures r.1.Dequeued? ==> r.1.player.name == n && r.0.regions == s.regions && r.0.stats == s.stats
    ensures r.1.LeftRegion? ==> r.1.region < |s.regions| && r.0.stats == s.stats + [Stop(n)]
    ensures |r.0.regions| == |s.regions|
  {
    var dequeued := RemoveFirst(s.queue, NameIs(n));
    if dequeued.found then (s.(queue := dequeued.rest), Dequeued(dequeued.elem.value))
    else
      match FirstIndex(s.regions, Holds(n))
      case None => (s, NotFound)
      case Some(i) => LeaveRegion(s, n, i)
  }

  /** The region side of remove_player: region `i` lets the name go, a stop
      is recorded and, if that succeeded and the queue is not empty,
      _on_update runs for the region. */
  function LeaveRegion(s: State, n: string, i: nat): (r: (State, RemoveOutcome))
    requires i < |s.regions|
    ensures r.1 == LeftRegion(i, s.regions[i].HasPlayerName(n))
    ensures r.0.stats == s.stats + [Stop(n)] && |r.0.regions| == |s.regions|
    ensures !r.0.regions[i].HasPlayerName(n)
    ensures forall j :: 0 <= j < |s.regions| && j != i ==> r.0.regions[j] == s.regions[j]
  {
    var (ok, region') := s.regions[i].RemovePlayerByName(n);
    var stopped := s.(regions := s.regions[i := region'], stats := s.stats + [Stop(n)]);
    if ok && CanPop(s.queue) then
      (stopped.(queue := Promote(s.queue, region'.name)), LeftRegion(i, ok))
    else
      (stopped, LeftRegion(i, ok))
  }

  /** add_room: delegate to the region the room policy chose. */
  function AddRoom(s: State, p: Player, room: string, policy: RoomPolicy): (r: (State, RoomOutcome))
    ensures r.0.queue == s.queue && r.0.stats == s.stats && |r.0.regions| == |s.regions|
    ensures !r.1.Joined? ==> r.0 == s
    ensures r.1.Joined? ==> r.1.region < |s.regions| && r.0.regions[r.1.region].HasPlayerName(p.name)
    ensures r.1.Joined? ==>
      && s.regions[r.1.region].AddRoom(room, p).Some?
      && r.0.regions == s.regions[r.1.region := s.regions[r.1.region].AddRoom(room, p).value]
  {
    match policy(room, p, s.regions)
    case None => (s, NoRegion)
    case Some(i) =>
      match s.regions[i].AddRoom(room, p)
      case Some(region') => (s.(regions := s.regions[i := region']), Joined(i))
      case None => (s, RoomRefused(i))
  }

  /** With unique region names, at most one region carries a given name. */
  lemma {:induction false} AtMostOneNamed(regions: seq<Region>, n: string)
    ensures (forall i, j :: 0 <= i < j < |regions| ==> regions[i].name != regions[j].name)
            ==> |Filter(regions, Named(n))| <= 1
  {
    if regions != [] && forall i, j :: 0 <= i < j < |regions| ==> regions[i].name != regions[j].name {
      var tail := regions[1..];
      AtMostOneNamed(tail, n);
      if Named(n)(regions[0]) {
        assert forall k :: 0 <= k < |tail| ==> tail[k] == regions[k + 1] && !Named(n)(tail[k]);
        NoMatchFiltersEmpty(tail, Named(n));
        assert Filter(regions, Named(n)) == [regions[0]];
      }
    }
  }
}
