# Allocation engine of AbstractGameManager

This project models `AbstractGameManager`, the allocation engine of a
capacity-bounded matchmaking service, and proves properties of the model.
The manager owns three pieces of state:

- a bounded wait queue of players (a `FixedSizeQueue`);
- a bounded set of regions with distinct names (a `FixedSizeSet`);
- a statistics recorder that logs a start when a player passes the
  admission check (whether or not the player is then placed or queued) and a
  stop when a player leaves a region.

A player asks to join. The manager screens the request and records a start.
It then places the player in the region chosen by the placement policy, or
else pushes the player on the queue. Removal tries the queue first, then the
first region holding the name. A region-side removal triggers the promotion
step `_on_update`, which evicts the earliest waiting player who lists that
region.

The model has five modules:

- `Containers` (containers.dfy) holds the bounded containers as sequences.
  Their predicate lookups are functions: `find_by_lambda` is `Filter` and
  `remove_lambda` is `RemoveFirst`. Capacity tests are `HasPlace` and
  `CanPop`.
- `Entities` (entities.dfy) holds players, start/stop events and regions.
  A region is a datatype: a name, a player limit, a room size, its rooms, and
  its members, keyed by name and mapped to the lobby or a room. Its
  operations `add_player`, `remove_player_by_name` and `add_room` carry the
  contracts their call sites rely on. Lemmas show each operation keeps the
  region within its limits.
- `Allocation` (allocation.dfy) holds the manager's state as a value
  (`State`), the queries, and every operation as a state transition. The
  two abstract policies are functions that may only ever choose a region of
  the manager's set. `Wf` is the container invariant: both containers
  within capacity, region names distinct, queued names distinct, every
  region valid. `Exclusive` says that no name is held in two places.
- `AllocationProps` (allocation_props.dfy) proves what the operations
  promise about those transitions.
- `Manager` (manager.dfy) holds the class `GameManager`. Its fields are the
  queue, the region list and the stats log. Its methods update them in
  place with the source's loops and early returns. Each mutating method is
  proved to produce exactly the state and result of the matching
  `Allocation` transition. Each public mutating method also keeps `Wf`, and
  keeps `Exclusive` under the conditions given below.

One might expect `add_player` followed by `remove_player` of the same name
to restore everything except the stats. It does not: when the player was
placed in a region, removing them runs promotion, and promotion can evict a
waiting player.
`AllocationProps.AddThenRemove` states what does hold, and
`AllocationProps.RoundTripCanEvictWaitingPlayer` gives a concrete state
where the queue is not restored.

`add_room` does not run the admission check, and it records no stats.
`AllocationProps.AddRoomCanHoldAWaitingPlayer` shows that a waiting player
can join a room and so be held in two places at once. `add_region` does not
look at the players a region brings either: a region handed back by
`remove_region` still holds its players, and adding it again after those
names registered elsewhere puts them in two places. For these reasons
`Exclusive` is not part of the class invariant. `add_player`,
`remove_player` and `remove_region` always preserve it; `add_room` preserves
it for a name held nowhere, and `add_region` for a region whose players are
held nowhere.

## Model

| member | source | states |
|---|---|---|
| Containers.RemoveFirst | back/game_manager/abstract_game_manager.py:75 | remove_lambda reports success exactly when some element matches. It then returns the first matching element and the container without it, the others kept in order. Without a match it returns nothing and leaves the container as it was. |
| Containers.Filter | back/game_manager/abstract_game_manager.py:60 | find_by_lambda returns only elements of the container that match, returns every matching element, and is never longer than the container. |
| Containers.FilterAppend | back/game_manager/abstract_game_manager.py:60 | The matches of a concatenation are the matches of the first part followed by those of the second: with Containers.FilterOfOne, the result is the matches in container order, each occurrence kept. |
| Containers.FilterOfOne | back/game_manager/abstract_game_manager.py:60 | On a single element, find_by_lambda keeps it exactly when it matches. |
| Containers.FirstIndex | back/game_manager/abstract_game_manager.py:79-80 | The first position whose element matches: it matches and no earlier one does. There is no such position exactly when no element matches. |
| Containers.FilterHeadIsFirstMatch | back/game_manager/abstract_game_manager.py:88-91 | A find_by_lambda result is non-empty exactly when some element matches. Its head (`same_region[0]`) is the element at the first matching position. |
| Entities.Region.AddPlayer | back/game_manager/abstract_game_manager.py:70 | A region admits a player exactly when it does not hold the name and is not full. The newcomer goes to the direct pool, every other player keeps its place, the rooms stay, and the name and capacities do not change. |
| Entities.Region.RemovePlayerByName | back/game_manager/abstract_game_manager.py:81 | The status is true exactly when the region held the name. Afterwards the name is gone, every other player keeps its place, and the rooms, name and capacities do not change. |
| Entities.Region.AddRoom | back/game_manager/abstract_game_manager.py:97 | A room join succeeds exactly when the name is not held, the region is not full and the room is below room size. The room then exists, the player sits in it, and every other player keeps its place. |
| Entities.Region.AddPlayerKeepsValid | back/game_manager/abstract_game_manager.py:70 | A region that admits a player stays within its player limit and its room sizes. |
| Entities.Region.RemovePlayerByNameKeepsValid | back/game_manager/abstract_game_manager.py:81 | A region that lets a player go stays within its limits. |
| Entities.Region.AddRoomKeepsValid | back/game_manager/abstract_game_manager.py:97 | A region whose room takes a player stays within its limits; in particular no room exceeds the room size. |
| Entities.Region.JoinThenLeave | back/game_manager/abstract_game_manager.py:70-81 | Removing a player a region has just admitted reports success and gives back the region as it was. |
| Allocation.Empty | back/game_manager/abstract_game_manager.py:11-23 | A fresh manager has the given capacities, no waiting player, no region and no stats, and satisfies both invariants. |
| Allocation.InQueue | back/game_manager/abstract_game_manager.py:33-35 | in_queue is the number of waiting players and never exceeds the queue's capacity in a well-formed state. |
| Allocation.RegionNames | back/game_manager/abstract_game_manager.py:37-39 | region_name lists the name of every region, in iteration order, and the names are pairwise distinct. |
| Allocation.HasRegion | back/game_manager/abstract_game_manager.py:59-60 | has_region is non-empty exactly when a region of that name exists. It never holds more than one region. |
| Allocation.AtMostOneNamed | back/game_manager/abstract_game_manager.py:55-60 | When region names are distinct, at most one region carries a given name. |
| Allocation.PresenceOf | back/game_manager/abstract_game_manager.py:99-104 | _has_player finds the first region holding the name, if any region does. Otherwise it reports whether a waiting player has the name, and "absent" means no region and no queued player holds it. |
| Allocation.KnowsRegion | back/game_manager/abstract_game_manager.py:106-107 | _has_region holds exactly when some region carries that name. |
| Allocation.HasAnyRegion | back/game_manager/abstract_game_manager.py:109-113 | _has_any_region holds exactly when some listed name is the name of some region. |
| Allocation.CanAddPlayer | back/game_manager/abstract_game_manager.py:115-116 | _can_add_player holds only for a name no region holds and no waiting player has; it fails only when the name is present or no listed region is known. AllocationProps.AddPlayerNoOpIffInadmissible gives the exact condition. |
| Allocation.AddPlayer | back/game_manager/abstract_game_manager.py:65-72 | add_player is rejected exactly when _can_add_player fails, and a rejection changes nothing; otherwise a start is logged. The number of regions never changes. The lemmas AddPlayerNoOpIffInadmissible, AddPlayerStartsBeforePlacing, AddPlayerDelegatesToChosenRegion, AddPlayerFallsBackToQueue, AddPlayerKeepsWf, AddPlayerKeepsExclusive and AdmittedAtMostOnce state the rest. |
| Allocation.Settle | back/game_manager/abstract_game_manager.py:68-72 | The placement step: with a chosen region, the queue is untouched and the player is placed there or refused with no change; with none, the regions are untouched and the player is queued or nothing changes. |
| Allocation.Promote | back/game_manager/abstract_game_manager.py:87-92 | With no waiting player listing the region the queue is unchanged; otherwise exactly one player leaves it. AllocationProps.PromoteDropsEarliestMatch says which one. |
| Allocation.RemovePlayer | back/game_manager/abstract_game_manager.py:74-85 | Nothing found means nothing changes. A dequeue returns a player of that name and leaves regions and stats alone. A region-side removal names a region and logs a stop. The lemmas RemovePlayerTriesQueueFirst, RemovePlayerLeavesFirstHoldingRegion, RemovePlayerNotFoundIsNoOp, RemovePlayerKeepsWf and RemovePlayerKeepsExclusive state the rest. |
| Allocation.LeaveRegion | back/game_manager/abstract_game_manager.py:81-85 | At region i the status is whether the region held the name. Afterwards region i does not hold it, no other region changes, and a stop is logged. |
| Allocation.AddRoom | back/game_manager/abstract_game_manager.py:94-97 | add_room never changes the queue or the stats; it changes nothing unless the player joins, and then the chosen region becomes exactly what the region's own add_room returns, so it holds the player. AllocationProps.AddRoomDelegatesToChosenRegion gives the exact join condition. |
| Allocation.AddRegion | back/game_manager/abstract_game_manager.py:55-57 | add_region stores the region exactly when no region of that name exists and the set has room. It then appends it; otherwise the state is unchanged and nothing is returned. |
| Allocation.RemoveRegion | back/game_manager/abstract_game_manager.py:62-63 | remove_region reports success exactly when a region of that name exists. It changes neither the queue nor the stats. |
| AllocationProps.AddRegionKeepsWf | back/game_manager/abstract_game_manager.py:55-57 | add_region keeps both containers within capacity and region names unique. |
| AllocationProps.AddRegionKeepsExclusive | back/game_manager/abstract_game_manager.py:55-57 | A region holding only names present nowhere else keeps every name in at most one place. |
| AllocationProps.RemoveRegionDropsTheName | back/game_manager/abstract_game_manager.py:62-63 | After remove_region no region of that name is left, every other region is still there, and the invariants hold. |
| AllocationProps.RemoveRegionKeepsExclusive | back/game_manager/abstract_game_manager.py:62-63 | remove_region never puts a name in two places. |
| AllocationProps.AddPlayerNoOpIffInadmissible | back/game_manager/abstract_game_manager.py:65-66 | add_player is rejected exactly when the name is held by a region or the queue, or when none of the player's region names is a known region. A rejection changes nothing: no stats, no queue, no region. |
| AllocationProps.AddPlayerStartsBeforePlacing | back/game_manager/abstract_game_manager.py:66-72 | Once the admission check passes, a start is recorded whatever follows, even when the player is neither placed nor queued. |
| AllocationProps.AddPlayerDelegatesToChosenRegion | back/game_manager/abstract_game_manager.py:68-70 | When the policy picks a region, the queue is untouched and no other region changes. The player is placed exactly when that region has room, and that region becomes what its own add_player returned. |
| AllocationProps.AddPlayerFallsBackToQueue | back/game_manager/abstract_game_manager.py:69-72 | When the policy picks no region, the player is pushed exactly when the queue has room. Otherwise nothing is returned and the queue is unchanged; the regions never change on this path. |
| AllocationProps.AddPlayerPlacedState | back/game_manager/abstract_game_manager.py:66-70 | A player reported placed in region i changes only region i, to what that region admitted, and adds a start to the stats. |
| AllocationProps.AddPlayerKeepsWf | back/game_manager/abstract_game_manager.py:65-72 | add_player keeps the queue within capacity, queued names distinct and every region within its limits. |
| AllocationProps.SettleKeepsWf | back/game_manager/abstract_game_manager.py:68-72 | The placement step keeps the invariants for a name no waiting player has. |
| AllocationProps.SettleKeepsExclusive | back/game_manager/abstract_game_manager.py:68-72 | The placement step of a name held nowhere never puts a name in two places. |
| AllocationProps.AddPlayerKeepsExclusive | back/game_manager/abstract_game_manager.py:65-72 | add_player never puts a name in two places. |
| AllocationProps.AdmittedAtMostOnce | back/game_manager/abstract_game_manager.py:65-72 | After an add_player that places or queues a player, any player of the same name is rejected and nothing changes. |
| AllocationProps.RemovePlayerTriesQueueFirst | back/game_manager/abstract_game_manager.py:75-77 | A queued name is removed from the queue, earliest occurrence first, and that player is returned. Neither the regions nor the stats change. |
| AllocationProps.RemovePlayerReachesRegion | back/game_manager/abstract_game_manager.py:75-80 | A name not in the queue is handled at the first region that holds it. |
| AllocationProps.LeaveRegionOutcome | back/game_manager/abstract_game_manager.py:81-85 | At a region holding the name, remove_player takes the name out of that region only and logs a stop. It reports success, and the queue undergoes promotion for that region (nothing changes when the queue is empty). |
| AllocationProps.RemovePlayerLeavesFirstHoldingRegion | back/game_manager/abstract_game_manager.py:79-85 | A name not queued and held first by region i is removed from region i only. A stop is recorded and the queue is promoted for that region. |
| AllocationProps.RemovePlayerNotFoundIsNoOp | back/game_manager/abstract_game_manager.py:74-85 | remove_player finds nothing exactly when the name is held nowhere, and then the state is unchanged. |
| AllocationProps.PromoteDropsEarliestMatch | back/game_manager/abstract_game_manager.py:87-92 | Promotion removes exactly the earliest waiting player who lists the vacated region and places that player nowhere. |
| AllocationProps.PromoteWithoutMatch | back/game_manager/abstract_game_manager.py:88-90 | When no waiting player lists the vacated region, promotion leaves the queue unchanged. |
| AllocationProps.PromoteShrinksByAtMostOne | back/game_manager/abstract_game_manager.py:87-92 | Promotion removes at most one player, never lengthens the queue, and never adds a player. |
| AllocationProps.RemoveFirstOccurrence | back/game_manager/abstract_game_manager.py:92 | Removing by identity removes the earliest occurrence of that player. |
| AllocationProps.RemovePlayerKeepsWf | back/game_manager/abstract_game_manager.py:74-92 | remove_player, promotion included, keeps the container invariants. |
| AllocationProps.LeaveRegionKeepsWf | back/game_manager/abstract_game_manager.py:79-85 | The region side of remove_player keeps the container invariants. |
| AllocationProps.RemovePlayerKeepsExclusive | back/game_manager/abstract_game_manager.py:74-92 | remove_player never puts a name in two places. |
| AllocationProps.LeaveRegionKeepsExclusive | back/game_manager/abstract_game_manager.py:79-85 | The region side of remove_player never puts a name in two places. |
| AllocationProps.AddThenRemove | back/game_manager/abstract_game_manager.py:65-92 | For a name held nowhere, add_player then remove_player gives back every region. The queue comes back too unless the player had been placed, in which case it is the promoted queue. The stats keep the start when one was recorded, plus a stop for a region stay. |
| AllocationProps.QueuedThenRemoved | back/game_manager/abstract_game_manager.py:71-77 | A queued player that is removed again leaves the state as it was, except for the start in the stats. |
| AllocationProps.PlacedThenRemoved | back/game_manager/abstract_game_manager.py:68-85 | A player placed in region i and removed again gives back every region. The queue is promoted for region i, and the stats gain a start then a stop. |
| AllocationProps.LeaveAfterJoin | back/game_manager/abstract_game_manager.py:79-85 | Removing a name that only the region it just joined holds gives that region back as it was. |
| AllocationProps.RoundTripCanEvictWaitingPlayer | back/game_manager/abstract_game_manager.py:83-92 | A concrete well-formed state where add_player then remove_player of the same name empties a one-player queue. |
| AllocationProps.AddRoomDelegatesToChosenRegion | back/game_manager/abstract_game_manager.py:94-97 | add_room changes neither the queue nor the stats and changes at most the chosen region. The player joins exactly when that region does not hold the name, has room and the room is not full, and the joined region is then exactly the region's own add_room result. |
| AllocationProps.AddRoomKeepsWf | back/game_manager/abstract_game_manager.py:94-97 | add_room keeps the container invariants and every region within its limits. |
| AllocationProps.AddRoomKeepsExclusiveForNewName | back/game_manager/abstract_game_manager.py:94-97 | add_room for a name held nowhere keeps every name in at most one place. |
| AllocationProps.AddRoomCanHoldAWaitingPlayer | back/game_manager/abstract_game_manager.py:94-97 | A concrete state where add_room, which skips the admission check, lets a waiting player join a room, so the name is in two places. |
| Manager.GameManager.constructor | back/game_manager/abstract_game_manager.py:11-23 | A new manager has an empty queue, no regions and no stats, with the given capacities and policies. |
| Manager.GameManager.AddRegion | back/game_manager/abstract_game_manager.py:55-57 | In place, add_region does exactly what Allocation.AddRegion does and keeps the invariants, and keeps exclusivity when the region's players are held nowhere. |
| Manager.GameManager.RemoveRegion | back/game_manager/abstract_game_manager.py:62-63 | In place, remove_region does exactly what Allocation.RemoveRegion does and keeps the invariants and exclusivity. |
| Manager.GameManager.HasPlayer | back/game_manager/abstract_game_manager.py:99-104 | The region scan with its early return, then the queue lookup, computes Allocation.PresenceOf. |
| Manager.GameManager.HasAnyRegion | back/game_manager/abstract_game_manager.py:106-113 | The scan stops at the first listed name that is a known region. It answers whether any listed name is one. |
| Manager.GameManager.CanAddPlayer | back/game_manager/abstract_game_manager.py:115-116 | Computes Allocation.CanAddPlayer: the name is held nowhere and some listed region is known. |
| Manager.GameManager.AddPlayer | back/game_manager/abstract_game_manager.py:65-72 | In place, add_player does exactly what Allocation.AddPlayer does and keeps the invariants and exclusivity. |
| Manager.GameManager.RemovePlayer | back/game_manager/abstract_game_manager.py:74-85 | The queue attempt, then the region loop with its early return, does exactly what Allocation.RemovePlayer does and keeps the invariants and exclusivity. |
| Manager.GameManager.KeepsInvariants | back/game_manager/abstract_game_manager.py:74-92 | remove_player keeps the container invariants, and exclusivity when it held before. |
| Manager.GameManager.LeaveRegion | back/game_manager/abstract_game_manager.py:81-85 | The region-side steps of remove_player, done in place, match Allocation.LeaveRegion. |
| Manager.GameManager.OnUpdate | back/game_manager/abstract_game_manager.py:87-92 | _on_update replaces the queue with its promotion for the region and leaves the regions and the stats alone. |
| Manager.GameManager.AddRoom | back/game_manager/abstract_game_manager.py:94-97 | In place, add_room does exactly what Allocation.AddRoom does, keeps the invariants, and keeps exclusivity for a player held nowhere. |

## Left out

- `player_names` (back/game_manager/abstract_game_manager.py:51-53) is not modelled. It calls `reduce`, which is never imported, and it folds with `set.update`, which returns `None`, so it cannot produce a value as written.
- `to_dict` and the `stats` property (lines 41-49) are not modelled: they serialise state for the wire. The stats log is a sequence of start and stop events per name. The clock timestamps the statistics recorder attaches are left out.
- `_to_create_room` (lines 17-20) is not modelled: it is computed with float division and never used by the code shown.
- The two policy methods (lines 25-31) are abstract. They are parameters of the model, constrained only to pick a region of the manager's set; the concrete heuristics of `SimpleGameManager` are not part of this model.
- The policies see the player and the regions, but not the stats or the queue.
- `Region`, `FixedSizeQueue`, `FixedSizeSet` and `StatisticsManager` are not part of this model. They are modelled by the contracts their call sites imply. A region's internal waiting queue (`queue_size`) and any limit on its number of rooms are not modelled.
- A region chosen by a policy is modelled as an index into the region list. The source tests the returned object for truthiness; regions are taken to be truthy, so "no region" is modelled as `None`.
- `_has_player` returns the region object or a boolean; the model returns where the name was found (`Presence`). Regions are compared by player name, as `has_player_name` does.
- `FixedSizeSet` is taken to iterate in insertion order, and `remove_lambda` is taken to keep the order of the remaining elements.
- `_on_update` removes the player equal to `same_region[0]`. The model compares players as values (name and region list); since queued names are distinct, this is the same player the source removes.
- The return values of `add_player`, `remove_player` and `add_room` are modelled as outcome datatypes rather than Python's truthy and falsy values.
- The HTTP layer (back/game_server.py) and the front-end client (front/src/api/ApiRequester.js) are not modelled: they are transport glue with no allocation logic.
- Concurrency is not modelled: each operation runs to completion on its own.
