/** What the manager's operations promise, proved about the transitions of
    module Allocation. */
module AllocationProps {
  import opened Containers
  import opened Entities
  import opened Allocation

  // ------------------------------------------------------------ add_region

  lemma AddRegionKeepsWf(s: State, region: Region)
    requires Wf(s) && region.Valid()
    ensures Wf(AddRegion(s, region).0)
  {
  }

  /** A region that brings no name already present keeps names exclusive. */
  lemma AddRegionKeepsExclusive(s: State, region: Region)
    requires Exclusive(s)
    requires forall n :: region.HasPlayerName(n) ==> PresenceOf(s, n) == Absent
    ensures Exclusive(AddRegion(s, region).0)
  {
    var s' := AddRegion(s, region).0;
    if s' != s {
      forall i, j, n | 0 <= i < j < |s'.regions| && s'.regions[i].HasPlayerName(n)
        ensures !s'.regions[j].HasPlayerName(n)
      {
        if j == |s.regions| {
          assert s'.regions[i] == s.regions[i];
          assert PresenceOf(s, n) != Absent;
        }
      }
      forall i, k | 0 <= i < |s'.regions| && 0 <= k < |s'.queue|
        ensures !s'.regions[i].HasPlayerName(s'.queue[k].name)
      {
        if i == |s.regions| {
          assert PresenceOf(s, s.queue[k].name) != Absent;
        }
      }
    }
  }

  // ---------------------------------------------------------- remove_region

  /** After remove_region no region of that name is left, the other
      regions keep their order, and the invariants hold. */
  lemma RemoveRegionDropsTheName(s: State, n: string)
    requires Wf(s)
    ensures var s' := RemoveRegion(s, n).0;
      && Wf(s')
      && (forall i :: 0 <= i < |s'.regions| ==> s'.regions[i].name != n)
      && (forall i :: 0 <= i < |s.regions| && s.regions[i].name != n ==> s.regions[i] in s'.regions)
  {
    var removed := RemoveFirst(s.regions, Named(n));
    if removed.found {
      var k := FirstIndex(s.regions, Named(n)).value;
      assert RemoveRegion(s, n).0 == s.(regions := s.regions[..k] + s.regions[k + 1..]);
      DropRegionKeepsWf(s, k);
      DropNamed(s.regions, k);
    }
  }

  /** Dropping the region at `k` from regions with distinct names leaves no
      region of its name and keeps every other region. */
  lemma DropNamed(rs: seq<Region>, k: nat)
    requires k < |rs|
    requires forall i, j :: 0 <= i < j < |rs| ==> rs[i].name != rs[j].name
    ensures var ys := rs[..k] + rs[k + 1..];
      && (forall i :: 0 <= i < |ys| ==> ys[i].name != rs[k].name)
      && (forall i :: 0 <= i < |rs| && rs[i].name != rs[k].name ==> rs[i] in ys)
  {
    var ys := rs[..k] + rs[k + 1..];
    DropAt(rs, k);
    forall i | 0 <= i < |rs| && rs[i].name != rs[k].name
      ensures rs[i] in ys
    {
      assert ys[if i < k then i else i - 1] == rs[i];
    }
  }

  lemma RemoveRegionKeepsExclusive(s: State, n: string)
    requires Exclusive(s)
    ensures Exclusive(RemoveRegion(s, n).0)
  {
    var removed := RemoveFirst(s.regions, Named(n));
    if removed.found {
      var k := FirstIndex(s.regions, Named(n)).value;
      assert RemoveRegion(s, n).0 == s.(regions := s.regions[..k] + s.regions[k + 1..]);
      DropRegionKeepsExclusive(s, k);
    }
  }

  lemma DropRegionKeepsExclusive(s: State, k: nat)
    requires Exclusive(s) && k < |s.regions|
    ensures Exclusive(s.(regions := s.regions[..k] + s.regions[k + 1..]))
  {
    DropAt(s.regions, k);
  }

  // ------------------------------------------------------------ add_player

  /** add_player is a complete no-op (no stats start, nothing placed,
      falsy result) exactly when the name is already held somewhere or none
      of the player's region names is a known region. */
  lemma AddPlayerNoOpIffInadmissible(s: State, p: Player, policy: PlacementPolicy)
    ensures AddPlayer(s, p, policy).1 == Rejected <==>
      || PresenceOf(s, p.name) != Absent
      || (forall i, j :: 0 <= i < |p.regions| && 0 <= j < |s.regions| ==> p.regions[i] != s.regions[j].name)
    ensures AddPlayer(s, p, policy).1 == Rejected ==> AddPlayer(s, p, policy).0 == s
  {
    if !HasAnyRegion(s, p.regions) {
      forall i, j | 0 <= i < |p.regions| && 0 <= j < |s.regions|
        ensures p.regions[i] != s.regions[j].name
      {
        assert !KnowsRegion(s, p.regions[i]);
      }
    } else {
      var i :| 0 <= i < |p.regions| && KnowsRegion(s, p.regions[i]);
      var j :| 0 <= j < |s.regions| && s.regions[j].name == p.regions[i];
    }
  }

  /** Once the admission check passes, a start event is recorded first,
      whatever happens afterwards: even when the player is neither placed
      nor queued. */
  lemma AddPlayerStartsBeforePlacing(s: State, p: Player, policy: PlacementPolicy)
    requires CanAddPlayer(s, p)
    ensures AddPlayer(s, p, policy).0.stats == s.stats + [Start(p.name)]
    ensures AddPlayer(s, p, policy).1 != Rejected
  {
  }

  /** When the policy picks region `i`, placement is left to that region:
      the queue is untouched, no other region changes, and the player is
      placed exactly when the region has room. */
  lemma AddPlayerDelegatesToChosenRegion(s: State, p: Player, policy: PlacementPolicy, i: nat)
    requires CanAddPlayer(s, p) && policy(p, s.regions) == Some(i)
    ensures var (s', out) := AddPlayer(s, p, policy);
      && s'.queue == s.queue
      && |s'.regions| == |s.regions|
      && (forall j :: 0 <= j < |s.regions| && j != i ==> s'.regions[j] == s.regions[j])
      && (out == Placed(i) <==> |s.regions[i].members| < s.regions[i].maxPlayers)
      && (out == Placed(i) ==> s'.regions[i] == s.regions[i].AddPlayer(p).value)
      && (out == Placed(i) ==> s'.regions[i].members.Keys == s.regions[i].members.Keys + {p.name})
      && (out != Placed(i) ==> out == RegionRefused(i) && s'.regions == s.regions)
  {
    assert i < |s.regions|;
    assert !s.regions[i].HasPlayerName(p.name);
  }

  /** When the policy picks no region, the player is pushed exactly when the
      queue has room; otherwise nothing is returned and the queue is as
      before. The regions never change on this path. */
  lemma AddPlayerFallsBackToQueue(s: State, p: Player, policy: PlacementPolicy)
    requires CanAddPlayer(s, p) && policy(p, s.regions) == None
    ensures var (s', out) := AddPlayer(s, p, policy);
      && s'.regions == s.regions
      && (out == Queued <==> |s.queue| < s.queueCapacity)
      && (out == Queued ==> s'.queue == s.queue + [p])
      && (out != Queued ==> out == NotQueued && s'.queue == s.queue)
  {
    NoMatchFiltersEmpty(s.queue, NameIs(p.name));
  }

  lemma AddPlayerKeepsWf(s: State, p: Player, policy: PlacementPolicy)
    requires Wf(s)
    ensures Wf(AddPlayer(s, p, policy).0)
  {
    if CanAddPlayer(s, p) {
      var started := s.(stats := s.stats + [Start(p.name)]);
      assert AddPlayer(s, p, policy) == Settle(started, p, policy(p, s.regions));
      SettleKeepsWf(started, p, policy(p, s.regions));
    }
  }

  /** The placement step keeps the invariants for a name held nowhere. */
  lemma SettleKeepsWf(s: State, p: Player, choice: Option<nat>)
    requires Wf(s) && (choice.Some? ==> choice.value < |s.regions|)
    requires forall k :: 0 <= k < |s.queue| ==> s.queue[k].name != p.name
    ensures Wf(Settle(s, p, choice).0)
  {
    var (s', out) := Settle(s, p, choice);
    if out.Placed? {
      s.regions[out.region].AddPlayerKeepsValid(p);
      ReplaceRegionKeepsWf(s, out.region, s'.regions[out.region]);
    } else if out.Queued? {
      assert s'.queue == s.queue + [p];
    }
  }

  /** add_player never makes a name appear in two places. */
  lemma AddPlayerKeepsExclusive(s: State, p: Player, policy: PlacementPolicy)
    requires Exclusive(s)
    ensures Exclusive(AddPlayer(s, p, policy).0)
  {
    if CanAddPlayer(s, p) {
      var started := s.(stats := s.stats + [Start(p.name)]);
      assert AddPlayer(s, p, policy) == Settle(started, p, policy(p, s.regions));
      SettleKeepsExclusive(started, p, policy(p, s.regions));
    }
  }

  /** The placement step keeps names exclusive for a name held nowhere. */
  lemma SettleKeepsExclusive(s: State, p: Player, choice: Option<nat>)
    requires Exclusive(s) && (choice.Some? ==> choice.value < |s.regions|)
    requires forall j :: 0 <= j < |s.regions| ==> !s.regions[j].HasPlayerName(p.name)
    requires forall k :: 0 <= k < |s.queue| ==> s.queue[k].name != p.name
    ensures Exclusive(Settle(s, p, choice).0)
  {
    var (s', out) := Settle(s, p, choice);
    if out.Placed? {
      JoinKeepsExclusive(s, out.region, s'.regions[out.region], p.name);
    } else if out.Queued? {
      assert s'.queue == s.queue + [p];
    }
  }

  /** A name is admitted at most once: after an admitting add_player, any
      player of that name is rejected without effect. */
  lemma AdmittedAtMostOnce(s: State, p: Player, q: Player, policy: PlacementPolicy, policy': PlacementPolicy)
    requires AddPlayer(s, p, policy).1.Admitted() && q.name == p.name
    ensures var s' := AddPlayer(s, p, policy).0;
      AddPlayer(s', q, policy') == (s', Rejected)
  {
    var (s', out) := AddPlayer(s, p, policy);
    if out.Queued? {
      assert s'.queue[|s.queue|].name == q.name;
      if PresenceOf(s', q.name).Absent? {
        assert false;
      }
    } else {
      assert s'.regions[out.region].HasPlayerName(q.name);
    }
  }

  // --------------------------------------------------------- remove_player

  /** A queued name is removed from the queue and nothing else changes: no
      region, no stats. The player removed is the earliest of that name. */
  lemma RemovePlayerTriesQueueFirst(s: State, n: string, k: nat)
    requires k < |s.queue| && s.queue[k].name == n
    requires forall j :: 0 <= j < k ==> s.queue[j].name != n
    ensures RemovePlayer(s, n) == (s.(queue := s.queue[..k] + s.queue[k + 1..]), Dequeued(s.queue[k]))
  {
    assert NameIs(n)(s.queue[k]);
    assert forall j :: 0 <= j < k ==> !NameIs(n)(s.queue[j]);
    RemoveFirstAt(s.queue, NameIs(n), k);
  }

  /** A name not queued and held by region `i` (the first region holding
      it) is removed from that region only, a stop event is recorded, and
      the queue undergoes promotion for that region. */
  lemma RemovePlayerLeavesFirstHoldingRegion(s: State, n: string, i: nat)
    requires forall k :: 0 <= k < |s.queue| ==> s.queue[k].name != n
    requires i < |s.regions| && s.regions[i].HasPlayerName(n)
    requires forall j :: 0 <= j < i ==> !s.regions[j].HasPlayerName(n)
    ensures var (s', out) := RemovePlayer(s, n);
      && out == LeftRegion(i, true)
      && s'.regions == s.regions[i := s.regions[i].RemovePlayerByName(n).1]
      && s'.stats == s.stats + [Stop(n)]
      && s'.queue == Promote(s.queue, s.regions[i].name)
  {
    assert Holds(n)(s.regions[i]);
    assert forall j :: 0 <= j < i ==> !Holds(n)(s.regions[j]);
    FirstIndexIs(s.regions, Holds(n), i);
    RemovePlayerReachesRegion(s, n, i);
    LeaveRegionOutcome(s, n, i);
  }

  /** A name not queued goes to the region side, at the first holding region. */
  lemma RemovePlayerReachesRegion(s: State, n: string, i: nat)
    requires forall k :: 0 <= k < |s.queue| ==> s.queue[k].name != n
    requires FirstIndex(s.regions, Holds(n)) == Some(i)
    ensures RemovePlayer(s, n) == LeaveRegion(s, n, i)
  {
    assert FirstIndex(s.queue, NameIs(n)).None?;
  }

  /** What the region side of remove_player does when the region holds the
      name: that region lets it go, a stop is logged, the queue is promoted. */
  lemma LeaveRegionOutcome(s: State, n: string, i: nat)
    requires i < |s.regions| && s.regions[i].HasPlayerName(n)
    ensures var (s', out) := LeaveRegion(s, n, i);
      && out == LeftRegion(i, true)
      && s'.regions == s.regions[i := s.regions[i].RemovePlayerByName(n).1]
      && s'.stats == s.stats + [Stop(n)]
      && s'.queue == Promote(s.queue, s.regions[i].name)
      && s'.queueCapacity == s.queueCapacity && s'.regionCapacity == s.regionCapacity
  {
    if s.queue == [] {
      PromoteWithoutMatch(s.queue, s.regions[i].name);
    }
  }

  /** Removing a name held nowhere reports nothing found and changes no
      state; any other name is found. */
  lemma RemovePlayerNotFoundIsNoOp(s: State, n: string)
    ensures RemovePlayer(s, n).1 == NotFound <==> PresenceOf(s, n) == Absent
    ensures RemovePlayer(s, n).1 == NotFound ==> RemovePlayer(s, n).0 == s
  {
    FilterHeadIsFirstMatch(s.queue, NameIs(n));
  }

  /** Promotion drops exactly the earliest waiting player that lists the
      vacated region, and places it nowhere. */
  lemma PromoteDropsEarliestMatch(queue: seq<Player>, regionName: string, k: nat)
    requires k < |queue| && regionName in queue[k].regions
    requires forall j :: 0 <= j < k ==> regionName !in queue[j].regions
    ensures Promote(queue, regionName) == queue[..k] + queue[k + 1..]
  {
    assert ListsRegion(regionName)(queue[k]);
    assert forall j :: 0 <= j < k ==> !ListsRegion(regionName)(queue[j]);
    FirstIndexIs(queue, ListsRegion(regionName), k);
    FilterHeadIsFirstMatch(queue, ListsRegion(regionName));
    assert Filter(queue, ListsRegion(regionName))[0] == queue[k];
    RemoveFirstOccurrence(queue, k);
  }

  /** remove_lambda with an identity test removes the earliest occurrence. */
  lemma RemoveFirstOccurrence(queue: seq<Player>, k: nat)
    requires k < |queue| && forall j :: 0 <= j < k ==> queue[j] != queue[k]
    ensures RemoveFirst(queue, IsPlayer(queue[k])).rest == queue[..k] + queue[k + 1..]
  {
    assert IsPlayer(queue[k])(queue[k]);
    assert forall j :: 0 <= j < k ==> !IsPlayer(queue[k])(queue[j]);
    RemoveFirstAt(queue, IsPlayer(queue[k]), k);
  }

  /** With no waiting player listing the region, promotion changes nothing. */
  lemma PromoteWithoutMatch(queue: seq<Player>, regionName: string)
    requires forall j :: 0 <= j < |queue| ==> regionName !in queue[j].regions
    ensures Promote(queue, regionName) == queue
  {
    NoMatchFiltersEmpty(queue, ListsRegion(regionName));
  }

  /** Promotion only ever removes one element of the queue. */
  lemma PromoteShrinksByAtMostOne(queue: seq<Player>, regionName: string)
    ensures |Promote(queue, regionName)| <= |queue| <= |Promote(queue, regionName)| + 1
    ensures forall x :: x in Promote(queue, regionName) ==> x in queue
  {
    var sameRegion := Filter(queue, ListsRegion(regionName));
    if sameRegion != [] {
      var r := RemoveFirst(queue, IsPlayer(sameRegion[0]));
      if r.found {
        var k := FirstIndex(queue, IsPlayer(sameRegion[0])).value;
        assert r.rest == queue[..k] + queue[k + 1..];
        forall x | x in r.rest ensures x in queue {
          if x in queue[..k] { assert x in queue; } else { assert x in queue[k + 1..]; }
        }
      }
    }
  }

  lemma RemovePlayerKeepsWf(s: State, n: string)
    requires Wf(s)
    ensures Wf(RemovePlayer(s, n).0)
  {
    var dequeued := RemoveFirst(s.queue, NameIs(n));
    if dequeued.found {
      var k := FirstIndex(s.queue, NameIs(n)).value;
      DropKeepsDistinctNames(s.queue, k);
    } else {
      match FirstIndex(s.regions, Holds(n))
      case None =>
      case Some(i) =>
        LeaveRegionKeepsWf(s, n, i);
    }
  }

  lemma LeaveRegionKeepsWf(s: State, n: string, i: nat)
    requires Wf(s) && i < |s.regions|
    ensures Wf(LeaveRegion(s, n, i).0)
  {
    var region' := s.regions[i].RemovePlayerByName(n).1;
    s.regions[i].RemovePlayerByNameKeepsValid(n);
    ReplaceRegionKeepsWf(s, i, region');
    PromoteKeepsDistinctNames(s.queue, region'.name);
    PromoteShrinksByAtMostOne(s.queue, region'.name);
  }

  /** remove_player never makes a name appear in two places. */
  lemma RemovePlayerKeepsExclusive(s: State, n: string)
    requires Exclusive(s)
    ensures Exclusive(RemovePlayer(s, n).0)
  {
    var dequeued := RemoveFirst(s.queue, NameIs(n));
    if dequeued.found {
      DequeueKeepsExclusive(s, FirstIndex(s.queue, NameIs(n)).value);
    } else {
      match FirstIndex(s.regions, Holds(n))
      case None =>
      case Some(i) =>
        LeaveRegionKeepsExclusive(s, n, i);
    }
  }

  lemma DequeueKeepsExclusive(s: State, k: nat)
    requires Exclusive(s) && k < |s.queue|
    ensures Exclusive(s.(queue := s.queue[..k] + s.queue[k + 1..]))
  {
    DropAt(s.queue, k);
  }

  lemma LeaveRegionKeepsExclusive(s: State, n: string, i: nat)
    requires Exclusive(s) && i < |s.regions|
    ensures Exclusive(LeaveRegion(s, n, i).0)
  {
    var region' := s.regions[i].RemovePlayerByName(n).1;
    var q' := if s.regions[i].HasPlayerName(n) && CanPop(s.queue) then Promote(s.queue, region'.name) else s.queue;
    assert LeaveRegion(s, n, i).0 == s.(regions := s.regions[i := region'], queue := q', stats := s.stats + [Stop(n)]);
    PromoteShrinksByAtMostOne(s.queue, region'.name);
    LeaveKeepsExclusive(s, i, region', q');
  }

  /** Narrowing one region's members and keeping only queued players keeps
      exclusivity. */
  lemma LeaveKeepsExclusive(s: State, i: nat, region': Region, q': seq<Player>)
    requires Exclusive(s) && i < |s.regions|
    requires region'.members.Keys <= s.regions[i].members.Keys
    requires forall x :: x in q' ==> x in s.queue
    ensures Exclusive(s.(regions := s.regions[i := region'], queue := q'))
  {
    var rs := s.regions[i := region'];
    forall a, k | 0 <= a < |rs| && 0 <= k < |q'|
      ensures !rs[a].HasPlayerName(q'[k].name)
    {
      assert q'[k] in s.queue;
    }
  }

  // ------------------------------------------------------------ round trip

  /** add_player followed by remove_player of the same, previously unknown,
      name restores every region, and restores the queue unless promotion
      fired: the stats log keeps a start (and, for a region stay, a stop). */
  lemma AddThenRemove(s: State, p: Player, policy: PlacementPolicy)
    requires PresenceOf(s, p.name) == Absent
    ensures var (s1, out) := AddPlayer(s, p, policy);
      var s2 := RemovePlayer(s1, p.name).0;
      && s2.regions == s.regions
      && (out.Placed? ==> out.region < |s.regions| && s2.queue == Promote(s.queue, s.regions[out.region].name))
      && (!out.Placed? ==> s2.queue == s.queue)
      && s2.stats == s.stats + (if out == Rejected then [] else [Start(p.name)])
                             + (if out.Placed? then [Stop(p.name)] else [])
  {
    var (s1, out) := AddPlayer(s, p, policy);
    if out.Placed? {
      PlacedThenRemoved(s, p, policy, out.region);
    } else if out.Queued? {
      QueuedThenRemoved(s, p, policy);
    } else {
      assert s1.regions == s.regions && s1.queue == s.queue;
      assert PresenceOf(s1, p.name) == Absent;
      RemovePlayerNotFoundIsNoOp(s1, p.name);
    }
  }

  lemma QueuedThenRemoved(s: State, p: Player, policy: PlacementPolicy)
    requires PresenceOf(s, p.name) == Absent && AddPlayer(s, p, policy).1 == Queued
    ensures RemovePlayer(AddPlayer(s, p, policy).0, p.name).0 == s.(stats := s.stats + [Start(p.name)])
  {
    var started := s.(stats := s.stats + [Start(p.name)]);
    assert AddPlayer(s, p, policy) == Settle(started, p, None);
    var s1 := started.(queue := s.queue + [p]);
    RemovePlayerTriesQueueFirst(s1, p.name, |s.queue|);
    assert s1.queue[..|s.queue|] == s.queue;
  }

  lemma PlacedThenRemoved(s: State, p: Player, policy: PlacementPolicy, i: nat)
    requires PresenceOf(s, p.name) == Absent && AddPlayer(s, p, policy).1 == Placed(i)
    ensures i < |s.regions|
    ensures var s2 := RemovePlayer(AddPlayer(s, p, policy).0, p.name).0;
      && s2.regions == s.regions
      && s2.queue == Promote(s.queue, s.regions[i].name)
      && s2.stats == s.stats + [Start(p.name), Stop(p.name)]
  {
    AddPlayerPlacedState(s, p, policy, i);
    LeaveAfterJoin(s, p, i);
  }

  /** Removing a name that was only ever held by the region it just joined
      gives that region back as it was. */
  lemma LeaveAfterJoin(s: State, p: Player, i: nat)
    requires i < |s.regions| && s.regions[i].AddPlayer(p).Some?
    requires forall k :: 0 <= k < |s.queue| ==> s.queue[k].name != p.name
    requires forall j :: 0 <= j < |s.regions| ==> !s.regions[j].HasPlayerName(p.name)
    ensures var region' := s.regions[i].AddPlayer(p).value;
      var s1 := s.(regions := s.regions[i := region'], stats := s.stats + [Start(p.name)]);
      RemovePlayer(s1, p.name).0
        == s.(queue := Promote(s.queue, s.regions[i].name), stats := s.stats + [Start(p.name), Stop(p.name)])
  {
    var region' := s.regions[i].AddPlayer(p).value;
    var s1 := s.(regions := s.regions[i := region'], stats := s.stats + [Start(p.name)]);
    assert forall j :: 0 <= j < i ==> !s1.regions[j].HasPlayerName(p.name);
    assert Holds(p.name)(s1.regions[i]);
    assert forall j :: 0 <= j < i ==> !Holds(p.name)(s1.regions[j]);
    FirstIndexIs(s1.regions, Holds(p.name), i);
    RemovePlayerReachesRegion(s1, p.name, i);
    LeaveRegionOutcome(s1, p.name, i);
    var s2 := LeaveRegion(s1, p.name, i).0;
    s.regions[i].JoinThenLeave(p);
    assert s2.regions == s.regions by {
      assert s.regions[i := region'][i := s.regions[i]] == s.regions;
    }
    assert s2.stats == s.stats + [Start(p.name), Stop(p.name)] by {
      assert s.stats + [Start(p.name)] + [Stop(p.name)] == s.stats + [Start(p.name), Stop(p.name)];
    }
    assert s2 == s.(queue := Promote(s.queue, s.regions[i].name), stats := s.stats + [Start(p.name), Stop(p.name)]);
  }

  /** A player reported placed in region `i` is exactly what region `i`
      admitted, after a start was recorded; nothing else changes. */
  lemma AddPlayerPlacedState(s: State, p: Player, policy: PlacementPolicy, i: nat)
    requires AddPlayer(s, p, policy).1 == Placed(i)
    ensures i < |s.regions| && s.regions[i].AddPlayer(p).Some?
    ensures AddPlayer(s, p, policy).0 ==
      s.(regions := s.regions[i := s.regions[i].AddPlayer(p).value], stats := s.stats + [Start(p.name)])
  {
    var started := s.(stats := s.stats + [Start(p.name)]);
    assert AddPlayer(s, p, policy) == Settle(started, p, Some(i));
  }

  /** The placement policy that always picks the first region. */
  function FirstRegion(): PlacementPolicy {
    (p: Player, rs: seq<Region>) => if |rs| > 0 then Some(0) else None
  }

  /** The round trip does not always restore the queue: removing a player
      just placed in a region evicts a waiting player that lists it. */
  lemma RoundTripCanEvictWaitingPlayer()
    ensures var europa := NewRegion("EUROPA", 2, 4);
      var waiting := Player("w", ["EUROPA"]);
      var s := State(1, 1, [waiting], [europa], []);
      var (s1, out) := AddPlayer(s, Player("p", ["EUROPA"]), FirstRegion());
      var s2 := RemovePlayer(s1, "p").0;
      && Wf(s) && Exclusive(s)
      && out == Placed(0)
      && s2.queue == [] != s.queue
  {
    var europa := NewRegion("EUROPA", 2, 4);
    var waiting := Player("w", ["EUROPA"]);
    var p := Player("p", ["EUROPA"]);
    var s := State(1, 1, [waiting], [europa], []);
    EvictionExampleAdmits();
    assert FirstRegion()(p, s.regions) == Some(0);
    AddPlayerDelegatesToChosenRegion(s, p, FirstRegion(), 0);
    var s1 := AddPlayer(s, p, FirstRegion()).0;
    assert s1.queue == [waiting] && s1.regions[0].name == "EUROPA";
    assert s1.regions[0].HasPlayerName("p");
    RemovePlayerLeavesFirstHoldingRegion(s1, "p", 0);
    PromoteDropsEarliestMatch([waiting], "EUROPA", 0);
  }

  /** The state of the eviction example is well formed and admits "p". */
  lemma EvictionExampleAdmits()
    ensures var s := State(1, 1, [Player("w", ["EUROPA"])], [NewRegion("EUROPA", 2, 4)], []);
      Wf(s) && Exclusive(s) && CanAddPlayer(s, Player("p", ["EUROPA"]))
  {
    var europa := NewRegion("EUROPA", 2, 4);
    var waiting := Player("w", ["EUROPA"]);
    var s := State(1, 1, [waiting], [europa], []);
    assert PresenceOf(s, "p") == Absent by {
      assert NameIs("p")(waiting) == false;
    }
    assert KnowsRegion(s, "EUROPA") by {
      assert Named("EUROPA")(europa);
    }
    assert ["EUROPA"][0] == "EUROPA";
  }

  // --------------------------------------------------------------- add_room

  /** add_room leaves the queue and the stats alone and changes at most the
      region the room policy chose; the player joins exactly when that
      region does not hold the name, has room and the room is not full. */
  lemma AddRoomDelegatesToChosenRegion(s: State, p: Player, room: string, policy: RoomPolicy)
    ensures var (s', out) := AddRoom(s, p, room, policy);
      && s'.queue == s.queue && s'.stats == s.stats
      && (policy(room, p, s.regions).None? ==> out == NoRegion && s' == s)
      && (policy(room, p, s.regions).Some? ==>
            var i := policy(room, p, s.regions).value;
            && |s'.regions| == |s.regions|
            && (forall j :: 0 <= j < |s.regions| && j != i ==> s'.regions[j] == s.regions[j])
            && (out == Joined(i) <==>
                  && !s.regions[i].HasPlayerName(p.name)
                  && |s.regions[i].members| < s.regions[i].maxPlayers
                  && s.regions[i].Occupancy(room) < s.regions[i].roomSize)
            && (out == Joined(i) ==> s'.regions[i].members[p.name] == Room(room))
            && (out == Joined(i) ==> s'.regions[i] == s.regions[i].AddRoom(room, p).value)
            && (out != Joined(i) ==> out == RoomRefused(i) && s' == s))
  {
  }

  lemma AddRoomKeepsWf(s: State, p: Player, room: string, policy: RoomPolicy)
    requires Wf(s)
    ensures Wf(AddRoom(s, p, room, policy).0)
  {
    var (s', out) := AddRoom(s, p, room, policy);
    if out.Joined? {
      s.regions[out.region].AddRoomKeepsValid(room, p);
      ReplaceRegionKeepsWf(s, out.region, s'.regions[out.region]);
    }
  }

  /** add_room keeps names exclusive when the name is held nowhere yet. */
  lemma AddRoomKeepsExclusiveForNewName(s: State, p: Player, room: string, policy: RoomPolicy)
    requires Exclusive(s) && PresenceOf(s, p.name) == Absent
    ensures Exclusive(AddRoom(s, p, room, policy).0)
  {
    var (s', out) := AddRoom(s, p, room, policy);
    if out.Joined? {
      JoinKeepsExclusive(s, out.region, s'.regions[out.region], p.name);
    }
  }

  /** The room policy that always picks the first region. */
  function FirstRegionForRoom(): RoomPolicy {
    (room: string, p: Player, rs: seq<Region>) => if |rs| > 0 then Some(0) else None
  }

  /** add_room does not run the admission check: a waiting player can join a
      room and so be held by a region while still in the queue. */
  lemma AddRoomCanHoldAWaitingPlayer()
    ensures var europa := NewRegion("EUROPA", 2, 4);
      var waiting := Player("w", ["EUROPA"]);
      var s := State(1, 1, [waiting], [europa], []);
      var (s', out) := AddRoom(s, waiting, "r1", FirstRegionForRoom());
      && Wf(s) && Exclusive(s)
      && out == Joined(0)
      && !Exclusive(s')
  {
    var europa := NewRegion("EUROPA", 2, 4);
    var waiting := Player("w", ["EUROPA"]);
    var s := State(1, 1, [waiting], [europa], []);
    var (s', out) := AddRoom(s, waiting, "r1", FirstRegionForRoom());
    assert europa.Occupancy("r1") == 0 by {
      assert europa.members == map[];
    }
    assert out == Joined(0);
    assert s'.regions[0].HasPlayerName(s'.queue[0].name);
  }

  // ---------------------------------------------------------------- helpers

  lemma DropAt<T>(xs: seq<T>, k: nat)
    requires k < |xs|
    ensures var ys := xs[..k] + xs[k + 1..];
      && |ys| == |xs| - 1
      && forall m :: 0 <= m < |ys| ==> ys[m] == xs[if m < k then m else m + 1]
  {
  }

  lemma DropRegionKeepsWf(s: State, k: nat)
    requires Wf(s) && k < |s.regions|
    ensures Wf(s.(regions := s.regions[..k] + s.regions[k + 1..]))
  {
    var rs := s.regions[..k] + s.regions[k + 1..];
    DropAt(s.regions, k);
    forall i, j | 0 <= i < j < |rs| ensures rs[i].name != rs[j].name {
      assert rs[i] == s.regions[if i < k then i else i + 1];
      assert rs[j] == s.regions[if j < k then j else j + 1];
    }
    forall i | 0 <= i < |rs| ensures rs[i].Valid() {
      assert rs[i] == s.regions[if i < k then i else i + 1];
    }
  }

  /** Replacing a region by one of the same name that keeps its own limits
      keeps the container invariants. */
  lemma ReplaceRegionKeepsWf(s: State, i: nat, region: Region)
    requires Wf(s) && i < |s.regions|
    requires region.name == s.regions[i].name && region.Valid()
    ensures Wf(s.(regions := s.regions[i := region]))
  {
  }

  /** A region gaining one name that is held nowhere keeps names exclusive. */
  lemma JoinKeepsExclusive(s: State, i: nat, region: Region, n: string)
    requires Exclusive(s) && i < |s.regions|
    requires forall j :: 0 <= j < |s.regions| ==> !s.regions[j].HasPlayerName(n)
    requires forall k :: 0 <= k < |s.queue| ==> s.queue[k].name != n
    requires region.members.Keys == s.regions[i].members.Keys + {n}
    ensures Exclusive(s.(regions := s.regions[i := region]))
  {
    var s' := s.(regions := s.regions[i := region]);
    forall a, b, m | 0 <= a < b < |s'.regions| && s'.regions[a].HasPlayerName(m)
      ensures !s'.regions[b].HasPlayerName(m)
    {
      if a != i && b != i {
        assert s'.regions[a] == s.regions[a] && s'.regions[b] == s.regions[b];
      } else if a == i {
        assert s'.regions[b] == s.regions[b];
        assert m == n || s.regions[a].HasPlayerName(m);
      } else {
        assert s'.regions[a] == s.regions[a];
      }
    }
    forall a, k | 0 <= a < |s'.regions| && 0 <= k < |s'.queue|
      ensures !s'.regions[a].HasPlayerName(s'.queue[k].name)
    {
      if a != i {
        assert s'.regions[a] == s.regions[a];
      }
    }
  }

  lemma DropKeepsDistinctNames(queue: seq<Player>, k: nat)
    requires k < |queue|
    requires forall i, j :: 0 <= i < j < |queue| ==> queue[i].name != queue[j].name
    ensures var q' := queue[..k] + queue[k + 1..];
      forall i, j :: 0 <= i < j < |q'| ==> q'[i].name != q'[j].name
  {
    var q' := queue[..k] + queue[k + 1..];
    forall m | 0 <= m < |q'| ensures q'[m] == queue[if m < k then m else m + 1] { }
  }

  lemma PromoteKeepsDistinctNames(queue: seq<Player>, regionName: string)
    requires forall i, j :: 0 <= i < j < |queue| ==> queue[i].name != queue[j].name
    ensures var q' := Promote(queue, regionName);
      forall i, j :: 0 <= i < j < |q'| ==> q'[i].name != q'[j].name
  {
    var sameRegion := Filter(queue, ListsRegion(regionName));
    if sameRegion != [] {
      var r := RemoveFirst(queue, IsPlayer(sameRegion[0]));
      if r.found {
        DropKeepsDistinctNames(queue, FirstIndex(queue, IsPlayer(sameRegion[0])).value);
      }
    }
  }
}
