# Verified core of the game server

A Dafny model of six in-memory components of the server, and proofs of what they promise.

* **Pathfinder** (`Geometry`, `OpenHeap`, `AStarSearch`, `Pathfinding`, `PathFinder`, `LongCorridor`, `LineOfSight`).
  `Geometry` says what a legal walk and its cost are, without reference to any search. `OpenHeap` and `AStarSearch`
  are the binary heap and the search as functions; `Pathfinding` proves the search sound, complete and optimal.
  `PathFinder` has the array code (inline heap with its position map, shared node cache, pooled path cache) and proves
  that it computes exactly those functions, whatever an earlier search left in the global cache.
* **Token bucket** (`TokenBucket`). Every atomic load and compare-and-swap of every thread is one step; theorems are
  about every interleaving.
* **Entities** (`EntityIds`, `ComponentStore`, `Registry`, `Components`, `CommandBuffer`, `TickRuns`). Generational IDs,
  the paged sparse set as a finite map, iteration under mutation, the tick-end flush, and whole runs of ticks.
* **Space** (`SpatialGrid`, `Proximity`, `AreaOfInterest`). The chunked index against the brute-force scan, the nearest
  entity, and the Enter and Leave events of watchers.
* **Skills and threat** (`SkillGraph`, `ThreatTable`).
* **Trade and party** (`Trade`, `Party`). State machines with invariants over whole runs.

`Counting`, `HeapShape`, `Int32` and `Integers` hold what several of them need. Classes stand for the objects the source
updates in place; each method is proved equal to a function on plain values, and the theorems are about those functions.

## Where the code and its promises part

Each of these has a lemma with the exact condition or a concrete case.

* The result of `findPath` is documented as found whenever a path exists, and the heuristic as making it optimal. Both
  hold on all maps with at most n cells within reach of the start if and only if n is at most the expansion limit, 512
  by default (`LongCorridor.RightUpToIff`).
* Starts and goals outside 32 bits are answered as if truncated (`Pathfinding.FindPathStartsAtStart`,
  `Pathfinding.FindPathEndsAtGoal`).
* A clear line of sight may cut corners that a step may not. It can be walked if and only if it stays on the board and
  both corners are walkable wherever it moves diagonally; so can a smoothed path (`LineOfSight.ClearLineIsWalkIff`,
  `LineOfSight.SmoothedIsWalkIff`).
* The token count overflows for caps of 2^30 and above (`TokenBucket.TokensInRangeIff`), which only loses
  tokens: at any cap, grants stay within the configured rate if and only if the cap is not negative and the rate divides
  it or exceeds it (`TokenBucket.GrantsWithinRateIff`). A negative cap grants nothing
  (`TokenBucket.NegativeCapGrantsNothing`).
* Removing an entity that is not live breaks the uniqueness of IDs (`EntityIds.RemoveKeepsInvIff`,
  `EntityIds.DoubleRemoveRepeats`); storing under an index held by another ID stops the store from being a map
  (`ComponentStore.Store.Set`).
* Damages fold to max(0, HP - sum) if and only if the healing after some hit does not exceed that; with negative
  amounts it may (`CommandBuffer.DamageAddsUpIff`).
* A flush keeps IDs unique if and only if its commands are orderly (`CommandBuffer.FlushKeepsDisciplineIff`).
* Children lists mirror prerequisites if and only if the skills were registered in good order: for skills that come
  without children, none before one it requires (`SkillGraph.ChildrenMirrorIff`).
* The exported trade swap does not look at the locks (`Trade.DirectSwapIsUnlocked`).
* A full threat table drops additions also for players it holds, so a transfer that fills the last slot creates threat
  (`ThreatTable.TransferConservesIff`); decay above rate 1000 misorders (`ThreatTable.DecayKeepsRankingIff`);
  setting a new player on a full table fails (`ThreatTable.ThreatTable.Set`).
* A watcher with nothing left in range keeps its old neighbours, because the adapter answers nil for an empty result
  (`AreaOfInterest.UpdateFromGrid`).

## Model

| member | source | states |
|---|---|---|
| Pathfinding.FindPathOptimal | server/peakgo/astar/astar.go:278-406 | Where legal steps from the start stay within 512 cells, the path returned costs no more than any legal walk (8 directions, corner rule, bounds) from start to goal |
| Pathfinding.FindPathDecides | server/peakgo/astar/astar.go:278-406 | Where legal steps from the start stay within as many cells as the limit allows to expand, a path is found if and only if start and goal coincide or the start is walkable and a legal walk exists |
| LongCorridor.RightUpToIff | server/peakgo/astar/astar.go:278-406 | For every limit: the pathfinder is complete and optimal on all maps with at most n cells within reach of the start if and only if n is at most the limit (512 by default) |
| LongCorridor.RightUpToAsked | server/peakgo/astar/astar.go:293-295 | The same bound in terms of the caller's maxNodes: taken as it is from 1 to 512, any other value standing for 512 |
| LongCorridor.RightWithinLimit | server/peakgo/astar/astar.go:278-406 | Both promises together on every map whose cells within reach number at most the limit |
| Pathfinding.FindPathDecidesSmallBoard | server/peakgo/astar/astar.go:278-406 | In particular on every board with fewer walkable cells than the limit |
| Pathfinding.RegionBoundsSearch | server/peakgo/astar/astar.go:207-219 | The nodes allocated never outnumber the cells of a region no legal step leaves; up to 512 cells no allocation is refused, up to the limit it is not hit |
| Pathfinding.NodesInRegion | server/peakgo/astar/astar.go:371-384 | Every node allocated lies in any region that holds the start and that no legal step leaves |
| Pathfinding.FindPathOptimalWithRoom | server/peakgo/astar/astar.go:278-406 | On any map: a run that refused no allocation returns a path no dearer than any legal walk |
| Pathfinding.FindPathDecidesWithRoom | server/peakgo/astar/astar.go:278-406 | On any map: a run that refused no allocation and did not hit the limit finds a path if and only if there is one |
| Pathfinding.FindPathSound | server/peakgo/astar/astar.go:278-455 | A path found takes only legal steps, repeats no cell, has at most as many points as the expansion limit and joins the start to the goal (as truncated to 32 bits) |
| Pathfinding.FoundIsChain | server/peakgo/astar/astar.go:426-455 | The path found is the parent chain of the goal node and its cost is exactly the goal's G |
| Pathfinding.FindPathEndsAtGoal | server/peakgo/astar/astar.go:299-303 | The path ends at the goal asked for if and only if that is the start or its coordinates fit 32 bits |
| Pathfinding.FindPathStartsAtStart | server/peakgo/astar/astar.go:299-303 | The path begins at the start asked for if and only if that is the goal or its coordinates fit 32 bits |
| Pathfinding.TruncatedGoalExample | server/peakgo/astar/astar.go:299-303 | A concrete goal outside 32 bits for which a one-cell path is reported |
| LongCorridor.LongCorridorMissed | server/peakgo/astar/astar.go:334-340 | For every limit: a winding corridor one cell longer than the limit (513 by default) has a legal walk through it and no path is found |
| LongCorridor.WalkAdvancesByOne | server/peakgo/astar/astar.go:349-368 | In that corridor k legal steps lead at most k cells further, because the corner rule forbids cutting a turn |
| Pathfinding.SearchOptimal | server/peakgo/astar/astar.go:326-405 | From every loop state, unless an allocation is refused: the loop never runs out of open nodes while a legal walk exists, and a goal it reaches is no dearer than that walk |
| Pathfinding.SearchGrows | server/peakgo/astar/astar.go:326-405 | The search never drops a node, moves one, or makes one dearer |
| Pathfinding.RunSearchBest | server/peakgo/astar/astar.go:326-405 | The same for the whole search, from its first iteration |
| Pathfinding.FrontierOnWalk | server/peakgo/astar/astar.go:326-402 | On every legal walk to the goal stands an open node whose G is at most the cost of the walk up to it |
| Pathfinding.CloseRaisesLevel | server/peakgo/astar/astar.go:326-334 | Popped F never decreases: closed nodes stay at or below, open ones at or above, the F just popped |
| Pathfinding.LimitNeedsNodes | server/peakgo/astar/astar.go:334-340 | The expansion limit is hit only after more nodes were allocated than it allows to expand, and a goal reached is among the nodes it allows |
| Pathfinding.DefaultLimitNeverHit | server/peakgo/astar/astar.go:293-295 | With the default limit the limit is never what ends the search |
| Pathfinding.ChainIsWalk | server/peakgo/astar/astar.go:426-455 | The parent chain of every node is a legal walk from the start whose cost is the node's G |
| Pathfinding.ChainIncreases | server/peakgo/astar/astar.go:426-440 | G strictly increases along a parent chain, so the backward walk ends |
| Pathfinding.ChainIsShort | server/peakgo/astar/astar.go:429-437 | A chain visits each node and cell once and has at most as many cells as nodes allocated: the truncation branch is unreachable |
| Pathfinding.ChainWithinLimit | server/peakgo/astar/astar.go:429-437 | The chain of an expanded node holds expanded nodes only, so the limit bounds the path |
| AStarSearch.SearchKeepsTree | server/peakgo/astar/astar.go:326-405 | Whatever the outcome, the allocated nodes form a tree of legal steps with exact costs |
| AStarSearch.IterateKeeps | server/peakgo/astar/astar.go:326-402 | One whole iteration keeps queue, tree, 32-bit cost bound and "goal not closed" |
| AStarSearch.CloseKeeps | server/peakgo/astar/astar.go:326-334 | Popping the minimum and closing it keeps the queue and the tree |
| AStarSearch.ExpandFromKeeps | server/peakgo/astar/astar.go:347-402 | Trying the remaining directions keeps queue and tree and leaves closed nodes as they are |
| AStarSearch.ExpandFromRelaxes | server/peakgo/astar/astar.go:347-402 | Unless an allocation is refused, after all directions every legal neighbour of the expanded node was reached at G plus the step cost or less |
| AStarSearch.ExpandDirectionKeeps | server/peakgo/astar/astar.go:347-402 | One direction keeps queue and tree |
| AStarSearch.ExpandDirectionRelaxes | server/peakgo/astar/astar.go:347-402 | One direction extends what has been relaxed and keeps closed and open nodes separated by F |
| AStarSearch.OfferKeeps | server/peakgo/astar/astar.go:371-401 | Offering a neighbour (known, new, closed, or cache full) keeps queue and tree |
| AStarSearch.OfferReaches | server/peakgo/astar/astar.go:371-401 | With a slot left or the cell known, the neighbour ends reached at the offered cost or less, also when it is closed and skipped |
| AStarSearch.RoomBefore | server/peakgo/astar/astar.go:371-376 | If every legal step from the nodes of a full cache leads to a node, no earlier allocation was refused |
| AStarSearch.ImproveKeepsQueue | server/peakgo/astar/astar.go:388-401 | A first path is pushed and a cheaper one fixed in place: both keep the queue and relink exactly that node |
| AStarSearch.EqualOfferIgnored | server/peakgo/astar/astar.go:388-392 | An open node changes its parent only for a cheaper path, and then to the offering node |
| AStarSearch.PassableIsLegal | server/peakgo/astar/astar.go:349-368 | The guards of a direction imply a legal step at the table's cost |
| AStarSearch.LegalIsPassable | server/peakgo/astar/astar.go:349-368 | Every legal step is one of the eight directions and passes its guards |
| Geometry.HeuristicConsistent | server/peakgo/astar/astar.go:413-420 | A legal step lowers the heuristic, as computed in 32 bits, by at most its cost |
| Geometry.HeuristicAdmissible | server/peakgo/astar/astar.go:408-420 | Cost so far plus heuristic is at most the cost of any legal walk that goes on to the goal |
| Geometry.HeuristicExact | server/peakgo/astar/astar.go:413-420 | Within 2^26 cells the truncations of the heuristic change nothing |
| Geometry.OctileIsCheapest | server/peakgo/astar/astar.go:408-420 | The octile distance is exactly the cost of the cheapest king's-move walk on an open board |
| Int32.ToInt32Iff | server/peakgo/astar/astar.go:302-303 | The 32-bit conversion is the only value in range congruent to its argument modulo 2^32 |
| OpenHeap.PopIsMinimum | server/peakgo/astar/astar.go:110-124 | Popping a queue leaves a queue and returns a member that no member beats by (F, H) |
| OpenHeap.PopIsCheapest | server/peakgo/astar/astar.go:86-94 | In figures: no member has a smaller G + H than the one popped, nor the same sum with a smaller H |
| OpenHeap.PushKeepsQueue | server/peakgo/astar/astar.go:97-107 | Pushing a node leaves a queue |
| OpenHeap.FixAfterLowering | server/peakgo/astar/astar.go:127-130 | After one member's key was lowered, fix at its place restores the heap order |
| OpenHeap.UpRestores | server/peakgo/astar/astar.go:136-147 | Sifting up repairs a heap with one place that may beat its parent |
| OpenHeap.DownRestores | server/peakgo/astar/astar.go:149-169 | Sifting down repairs a heap with one place that may lose to its children |
| OpenHeap.RootIsMinimum | server/peakgo/astar/astar.go:86-94 | In an ordered heap no member beats the root |
| OpenHeap.HeapBounded | server/peakgo/astar/astar.go:71-75 | The heap never holds more members than nodes allocated, so the fixed array suffices |
| PathFinder.PathCache.FindPath | server/peakgo/astar/astar.go:278-406 | The array code returns the specified answer whatever the global cache held before; nodes in use are those of the specified search |
| PathFinder.FindPathFresh | server/peakgo/astar/astar.go:263-267 | A call with a new path cache gives the same answer |
| PathFinder.FindPathWithCache | server/peakgo/astar/astar.go:272-275 | A call with a reused path cache gives the same answer |
| PathFinder.PathCache.RunLoop | server/peakgo/astar/astar.go:326-405 | The loop over the arrays ends in exactly the state and with the outcome of the specified search |
| PathFinder.PathCache.RunFrom | server/peakgo/astar/astar.go:293-405 | The search proper over the arrays is the specified search from the truncated coordinates |
| PathFinder.PathCache.PopAndClose | server/peakgo/astar/astar.go:326-332 | The best node leaves the open set and is closed |
| PathFinder.PathCache.ExpandNeighbors | server/peakgo/astar/astar.go:347-402 | The loop over the directions does to the arrays what the specification says |
| PathFinder.PathCache.TryDirection | server/peakgo/astar/astar.go:348-402 | One direction: guards in the source's order, then the offer |
| PathFinder.PathCache.OfferNeighborAt | server/peakgo/astar/astar.go:371-401 | Find or allocate, skip if closed or full, else offer |
| PathFinder.PathCache.OfferPath | server/peakgo/astar/astar.go:388-401 | First or cheaper path: relink, then push or fix |
| PathFinder.StaleSlot | server/peakgo/astar/astar.go:205-219 | A slot allocated with stale G and H ends as a cleared one would after its first offer |
| PathFinder.PathCache.AllocNode | server/peakgo/astar/astar.go:207-219 | Takes the next slot, sets five fields and keeps the old G and H; -1 exactly when full |
| PathFinder.PathCache.NodeIndex | server/peakgo/astar/astar.go:223-230 | The first node at the cell, or -1 if there is none |
| PathFinder.PathCache.ReconstructPath | server/peakgo/astar/astar.go:426-455 | The points are the cells of the parent chain, start first |
| PathFinder.PathCache.AddStart | server/peakgo/astar/astar.go:305-313 | The start node alone is open, with G 0 although the slot is not cleared |
| PathFinder.PathCache.Reset | server/peakgo/astar/astar.go:196-203 | No node in use, an empty heap, and slot 0 still with G 0 |
| PathFinder.BinaryHeap.Push | server/peakgo/astar/astar.go:97-107 | The arrays change as the specified push |
| PathFinder.BinaryHeap.Pop | server/peakgo/astar/astar.go:110-124 | The arrays change as the specified pop; an empty heap answers false and changes nothing |
| PathFinder.BinaryHeap.Fix | server/peakgo/astar/astar.go:127-130 | Up then down, as specified |
| PathFinder.BinaryHeap.Up | server/peakgo/astar/astar.go:136-147 | The loop equals the specified sifting up, positions map included |
| PathFinder.BinaryHeap.Down | server/peakgo/astar/astar.go:149-169 | The loop equals the specified sifting down, also while the popped node's place is not yet cleared |
| PathFinder.BinaryHeap.Less | server/peakgo/astar/astar.go:86-94 | Order by F, then by H |
| PathFinder.BinaryHeap.Reset | server/peakgo/astar/astar.go:78-84 | Empties the heap |
| LineOfSight.HasLineOfSight | server/peakgo/astar/astar.go:498-555 | The loop with its running error answers whether every cell of the closed-form line is walkable |
| LineOfSight.LineIsStraight | server/peakgo/astar/astar.go:498-555 | The line starts and lands exactly on its ends after max(dx, dz) king's moves, every cell within half a cell of the ideal line |
| LineOfSight.OffsetIsNearest | server/peakgo/astar/astar.go:530-552 | The offset after k steps is the nearest integer to the ideal one, halves up, and the only such |
| LineOfSight.OffsetStep | server/peakgo/astar/astar.go:530-552 | The sign of the error term decides exactly when the offset grows, and the error update keeps it exact |
| LineOfSight.LineStep | server/peakgo/astar/astar.go:530-552 | The next cell of the line by the sign of the error |
| LineOfSight.NeighboursSeeEachOther | server/peakgo/astar/astar.go:498-555 | Neighbouring cells see each other if and only if both are walkable |
| LineOfSight.ClearLineIsWalkIff | server/peakgo/astar/astar.go:498-555 | A clear line can be walked, every step legal, if and only if it stays on the board and both corners are walkable wherever it moves diagonally |
| LineOfSight.LineStaysInBounds | server/peakgo/astar/astar.go:498-555 | Between cells on the board the line stays on it |
| LineOfSight.ClearLineMayCutCorner | server/peakgo/astar/astar.go:498-555 | A case: a clear line that cuts a corner and cannot be walked |
| LineOfSight.SmoothPath | server/peakgo/astar/astar.go:462-494 | Returns the points of the path at the kept indices, short paths whole |
| LineOfSight.KeysOrdered | server/peakgo/astar/astar.go:462-494 | The kept indices increase strictly from the first point to the last: a subsequence with both endpoints |
| LineOfSight.SmoothingKeepsSight | server/peakgo/astar/astar.go:462-494 | On a path of adjacent walkable points every two consecutive points kept see each other |
| LineOfSight.SmoothingIsGreedy | server/peakgo/astar/astar.go:462-494 | Each point dropped is followed by one that the last point kept sees, and each point kept, the ends aside, by one it does not see |
| LineOfSight.SmoothedIsWalkIff | server/peakgo/astar/astar.go:462-494 | A smoothed path can be walked straight from point to point if and only if each such line stays on the board and has walkable corners wherever it moves diagonally |
| LineOfSight.FoundPathConnected | server/peakgo/astar/astar.go:278-406 | Every path the pathfinder finds between distinct cells is such a path |
| TokenBucket.GrantsBounded | server/peakgo/ratelimit/ratelimit.go:54-115 | Over every interleaving and for every cap from 0 to 2^31 - 1: grants are at most the burst plus rate times ticks passed plus each refill's excess, which is none if the rate divides the cap or exceeds it |
| TokenBucket.GrantsInWindow | server/peakgo/ratelimit/ratelimit.go:54-115 | Between any two states of any interleaving: at most the tokens at hand and in sight, plus rate times ticks passed, plus the excess of each refill |
| TokenBucket.StepSpends | server/peakgo/ratelimit/ratelimit.go:54-115 | No atomic step of any thread spends more than a refill brings, even where the 32-bit sum of tokens wraps |
| TokenBucket.RunSpends | server/peakgo/ratelimit/ratelimit.go:54-115 | Nor does any sequence of them |
| TokenBucket.NegativeCapGrantsNothing | server/peakgo/ratelimit/ratelimit.go:75-114 | With a negative cap no packet is ever granted, whatever the 32-bit products and sums wrap to |
| TokenBucket.GrantsWithinRateIff | server/peakgo/ratelimit/ratelimit.go:54-115 | For every configuration: over every interleaving grants stay within the burst plus rate times ticks passed, if and only if the cap is not negative and the rate divides it or exceeds it |
| TokenBucket.BurstTwice | server/peakgo/ratelimit/ratelimit.go:75-88 | A run for every other cap: two whole bursts, cap / rate ticks apart |
| TokenBucket.Drain | server/peakgo/ratelimit/ratelimit.go:106-114 | One thread takes every token there is |
| TokenBucket.RefillToCap | server/peakgo/ratelimit/ratelimit.go:75-104 | A call that comes cap / rate ticks later fills an empty bucket to the cap |
| TokenBucket.RefillAlone | server/peakgo/ratelimit/ratelimit.go:65-104 | A call with a newer tick brings the bucket, whatever it holds, to the smaller of the cap and what it held plus the refill |
| TokenBucket.AllowAlone | server/peakgo/ratelimit/ratelimit.go:54-115 | A call nobody disturbs refills if its tick is newer, and is granted and takes one token if and only if there is one |
| TokenBucket.CallEnds | server/peakgo/ratelimit/ratelimit.go:106-114 | Among any other calls: a call ends granted with one token taken, or denied having found fewer than one; a lost race never denies it |
| TokenBucket.GrantEndsCall | server/peakgo/ratelimit/ratelimit.go:106-114 | A packet is granted only at the end of a call, one for each |
| TokenBucket.RefillPhaseEnds | server/peakgo/ratelimit/ratelimit.go:65-88 | A call leaves the refill phase only when its tick has been claimed; if by itself, it carries the refill for the ticks it claimed |
| TokenBucket.RefillArrives | server/peakgo/ratelimit/ratelimit.go:91-103 | A refill won is carried unchanged until all of it is added, up to the cap |
| TokenBucket.LosesOnlyWhenFull | server/peakgo/ratelimit/ratelimit.go:91-103 | Below 2^30 tokens are lost only to a bucket that is full |
| TokenBucket.RepeatsOnlyWhenBeaten | server/peakgo/ratelimit/ratelimit.go:65-114 | A call repeats a load if and only if another changed the value it had loaded |
| TokenBucket.RefillConfigured | server/peakgo/ratelimit/ratelimit.go:76-88 | The refill in terms of the configured rate; a rate of 0 or less counts as 1 |
| TokenBucket.TokensInRangeIff | server/peakgo/ratelimit/ratelimit.go:91-103 | In every reachable state tokens stay between 0 and the cap if and only if the cap is from 0 to 2^30 - 1 |
| TokenBucket.OverflowRun | server/peakgo/ratelimit/ratelimit.go:91-103 | For any cap of 2^30 or more, one call on a full bucket makes the count negative |
| TokenBucket.InvRun | server/peakgo/ratelimit/ratelimit.go:54-115 | Over every interleaving of any number of threads and for every cap from 0 up: tokens at most the cap, and not negative below 2^30; claims contiguous; granted + held + pending + lost = cap + refilled |
| TokenBucket.InvStep | server/peakgo/ratelimit/ratelimit.go:54-115 | Every atomic step of every thread keeps that invariant |
| TokenBucket.InvTickStep | server/peakgo/ratelimit/ratelimit.go:65-73 | The steps on the refill tick keep it |
| TokenBucket.InvTokenStep | server/peakgo/ratelimit/ratelimit.go:93-114 | The steps on the token count keep it |
| TokenBucket.InvInitial | server/peakgo/ratelimit/ratelimit.go:35-43 | A registered connection satisfies it |
| TokenBucket.ClaimsDisjoint | server/peakgo/ratelimit/ratelimit.go:65-73 | No two refills cover the same tick |
| TokenBucket.RefillExact | server/peakgo/ratelimit/ratelimit.go:75-88 | For a cap of 0 or more a refill is the cap or elapsed times rate by the guard, with no 32-bit truncation |
| TokenBucket.RefillBound | server/peakgo/ratelimit/ratelimit.go:75-88 | One refill exceeds rate times elapsed by less than the rate |
| TokenBucket.RefillWithinRateIff | server/peakgo/ratelimit/ratelimit.go:75-88 | For every configuration no refill ever exceeds rate times elapsed if and only if the rate divides the cap or exceeds it |
| EntityIds.RunKeepsIdsUnique | server/ecs/ecs.go:464-491 | Over every run that destroys only live entities no ID is handed out twice and live entities have distinct indices |
| EntityIds.NextIdIsNew | server/ecs/ecs.go:476-491 | The next ID was never handed out and shares its index with no live or free entity |
| EntityIds.NewKeepsInv | server/ecs/ecs.go:541-547 | Creating an entity keeps the ID invariant |
| EntityIds.NewKeepsInvIff | server/ecs/ecs.go:476-491 | Creating keeps the invariant if and only if the generation to be used, or the counter, has room in its 32 bits |
| EntityIds.NextIdWithRoom | server/ecs/ecs.go:541-547 | With room an ID is recycled if and only if one is free, one generation on, and a recycled ID is never 0 |
| EntityIds.RemoveKeepsInvIff | server/ecs/ecs.go:464-468 | Freeing an ID keeps the invariant if and only if the entity is live |
| EntityIds.RemoveAllKeepsInvIff | server/ecs/ecs.go:464-468 | Freeing several keeps the invariant if and only if all are live and no two the same |
| EntityIds.DoubleRemoveRepeats | server/ecs/ecs.go:614-615 | Removing an entity twice makes the next two IDs equal |
| EntityIds.Compose | server/ecs/ecs.go:30-36 | An ID composed of index and generation gives both back |
| EntityIds.EntityParts | server/ecs/ecs.go:30-36 | The index is the low 32 bits and the generation the high 32 |
| EntityIds.FreshIs | server/ecs/ecs.go:545-546 | A fresh ID is the 64-bit counter with bit 32 set and every other bit kept |
| ComponentStore.Store.Set | server/ecs/ecs.go:289-320 | Afterwards the store is still a map if and only if no other stored ID has the index, and then it is the old map with the key set |
| ComponentStore.Store.Get | server/ecs/ecs.go:322-347 | The map's value, or absent; a stale generation is absent |
| ComponentStore.Store.Delete | server/ecs/ecs.go:349-392 | The map without the key, the last entity in its place in the dense order; a stale or absent key changes nothing |
| ComponentStore.AppendMutualIff | server/ecs/ecs.go:315-318 | Appending keeps dense and sparse inverse if and only if the index is free |
| ComponentStore.RemoveMutual | server/ecs/ecs.go:372-387 | Swap-remove keeps dense and sparse inverse |
| ComponentStore.WriteSlotWrites | server/ecs/ecs.go:289-320 | Writing one slot of a page changes that index only |
| ComponentStore.EnsurePageReadsSame | server/ecs/ecs.go:292-304 | Growing and making pages changes no reading |
| Registry.Registry.NewEntity | server/ecs/ecs.go:541-547 | A recycled ID if one is free, else a fresh one, with every wrap-around of generation and counter |
| Registry.Registry.PopRecycled | server/ecs/ecs.go:476-491 | The last freed ID with its generation raised, or 0 if none is free |
| Registry.Registry.RemoveEntity | server/ecs/ecs.go:560-616 | Each of the three stores modelled loses exactly the entity, and its ID joins the freelist |
| Registry.Registry.RangeMutate | server/ecs/ecs.go:412-441 | Visits the specified sequence, leaves the state after exactly that many callbacks, and visits no entity twice; if only live entities had positions, none that was not issued before |
| Registry.VisitedIsPresent | server/ecs/ecs.go:412-441 | Whatever the callbacks do: the k-th entity visited is still present after the k callbacks before it, and each of those asked to go on |
| Registry.PresentIsVisited | server/ecs/ecs.go:412-441 | Whatever the callbacks do: an entity of the snapshot that stays present is visited unless a callback stops first |
| Registry.VisitsInOrder | server/ecs/ecs.go:412-441 | Whatever the callbacks do: the entities visited are a subsequence of the snapshot |
| Registry.VisitsDistinct | server/ecs/ecs.go:412-441 | So none is visited twice, and none that was not in the snapshot |
| Registry.CreatedIsNotVisited | server/ecs/ecs.go:470-491 | An ID handed out by a callback, also one recycled from the snapshot, is never visited |
| SpatialGrid.Grid.QueryRadius | server/peakgo/spatial/grid.go:168-204 | Lists exactly once each entity the brute-force scan would: same map, within the radius, not the excluded one |
| SpatialGrid.Grid.UpdateEntityPosition | server/peakgo/spatial/grid.go:99-137 | The grid's map gains the position, buckets and reverse index agreeing |
| SpatialGrid.Grid.RemoveEntity | server/peakgo/spatial/grid.go:143-160 | The grid's map loses the entity; an absent one changes nothing |
| SpatialGrid.ChunksSuffice | server/peakgo/spatial/grid.go:168-204 | Scanning the chunks within the chunk radius finds exactly what scanning every entity would |
| SpatialGrid.ChunkDistance | server/peakgo/spatial/grid.go:83-89 | A coordinate at most d away lies at most ceil(d / 20) chunks away, below zero too |
| SpatialGrid.WithinMeansNearChunk | server/peakgo/spatial/grid.go:173-174 | An entity within the radius lies in a chunk the query scans |
| SpatialGrid.InsertAgrees | server/peakgo/spatial/grid.go:125-133 | Inserting into a chunk keeps buckets and index in agreement and sets the position |
| SpatialGrid.RemoveAgrees | server/peakgo/spatial/grid.go:115-122 | Deleting from a bucket, and the bucket if emptied, keeps agreement and removes the entity |
| SpatialGrid.UpdateInPlaceAgrees | server/peakgo/spatial/grid.go:107-112 | Moving within a chunk keeps agreement and sets the position |
| Proximity.GetNearestByType | server/peakgo/spatial/spatial.go:174-218 | A true nearest entity of the type in range, or none if and only if there is none |
| CommandBuffer.CommandBuffer.Flush | server/ecs/commands.go:140-183 | Stores and grid become the flushed maps; position store and grid, if equal before, are equal after; the queues are empty; IDs stay unique and components with live entities if and only if the commands were orderly |
| CommandBuffer.FlushIs | server/ecs/commands.go:140-183 | Per entity: nothing if destroyed, else the last spawn's components, else the last move's position and the damaged stats |
| CommandBuffer.FlushKeepsDisciplineIff | server/ecs/commands.go:140-183 | A flush keeps IDs unique and components with live entities if and only if destroys are distinct and live and moves and spawns name live entities |
| TickRuns.RunKeepsInStep | server/ecs/commands.go:140-183 | Over every run of created entities and orderly ticks position store and grid stay equal, and each next orderly batch has the distinct indices a flush requires |
| TickRuns.StepKeepsInStep | server/ecs/commands.go:140-183 | Each such step keeps IDs sound, components with live entities, and the grid equal to the position store |
| TickRuns.OrderlyMeansIndexDistinct | server/ecs/commands.go:140-183 | Stored IDs and those of an orderly batch have distinct indices, by the uniqueness of issued IDs |
| CommandBuffer.DamagedHp | server/ecs/commands.go:154-162 | After hits of any sign: HP less all amounts, or the net healing since the clamp if that is more |
| CommandBuffer.ReboundIsGreatest | server/ecs/commands.go:154-162 | That net healing is the greatest over all hits of the negated sum of the damages after it |
| CommandBuffer.DamageAddsUpIff | server/ecs/commands.go:154-162 | Damages of any sign leave max(0, HP - sum) if and only if that net healing does not exceed it (with no hit: if and only if HP is not negative) |
| CommandBuffer.DamageAddsUp | server/ecs/commands.go:154-162 | Non-negative damages to one target leave max(0, HP - sum) and nothing else changed |
| CommandBuffer.NegativeDamageDoesNotAddUp | server/ecs/commands.go:154-162 | A case with a negative amount where the clamp makes the order matter |
| CommandBuffer.DamagedFrame | server/ecs/commands.go:154-162 | Entities not targeted keep their stats |
| CommandBuffer.MovedIs | server/ecs/commands.go:143-151 | The last move of an entity wins, others keep their position |
| CommandBuffer.SpawnedIs | server/ecs/commands.go:165-170 | The last spawn of an entity sets all three components |
| CommandBuffer.LastMoveIs | server/ecs/commands.go:143-151 | The move that counts is the one with no later move of the entity |
| CommandBuffer.LastSpawnIs | server/ecs/commands.go:165-170 | Likewise for spawns |
| CommandBuffer.DestroyedIs | server/ecs/commands.go:173-176 | Exactly the destroyed entities are gone |
| CommandBuffer.CommandBuffer.FlushMoves | server/ecs/commands.go:143-151 | Phase 1 moves store and grid alike |
| CommandBuffer.CommandBuffer.FlushDamages | server/ecs/commands.go:154-162 | Phase 2 changes the stats only, absent targets ignored |
| CommandBuffer.CommandBuffer.FlushSpawns | server/ecs/commands.go:165-170 | Phase 3 stores the spawned components and positions |
| CommandBuffer.CommandBuffer.SpawnOne | server/ecs/commands.go:165-170 | One spawn sets the three components and the grid position |
| CommandBuffer.CommandBuffer.FlushDestroys | server/ecs/commands.go:173-176 | Phase 4 removes from registry and grid and frees the IDs |
| CommandBuffer.CommandBuffer.Apply | server/ecs/commands.go:140-176 | The four phases in order give the flushed maps |
| CommandBuffer.CommandBuffer.AddMove | server/ecs/commands.go:88-95 | Queues one move |
| CommandBuffer.CommandBuffer.AddDamage | server/ecs/commands.go:98-104 | Queues one damage |
| CommandBuffer.CommandBuffer.AddSpawn | server/ecs/commands.go:107-114 | Queues one spawn |
| CommandBuffer.CommandBuffer.AddDestroy | server/ecs/commands.go:117-121 | Queues one destroy |
| SkillGraph.ChainIsReachable | server/peakgo/skilldata/skilldata.go:137-157 | On any graph the chain holds each registered skill reachable through registered skills exactly once, and nothing else |
| SkillGraph.ChainOrderedIff | server/peakgo/skilldata/skilldata.go:137-157 | Every prerequisite precedes its dependents if and only if no cycle is reachable |
| SkillGraph.ChainLearnableIff | server/peakgo/skilldata/skilldata.go:115-157 | The chain can be learnt in order, passing the check at every step, if and only if it is acyclic, all is registered and the level suffices |
| SkillGraph.VisitExtends | server/peakgo/skilldata/skilldata.go:144-157 | From any visited set: what one visit enters, finishes and reaches |
| SkillGraph.PathLeadsBack | server/peakgo/skilldata/skilldata.go:144-157 | In an ordered chain every path leads to earlier entries |
| SkillGraph.Collector.CollectPrereqs | server/peakgo/skilldata/skilldata.go:144-157 | The recursion over shared visited set and result equals the specified visit |
| SkillGraph.SkillGraph.GetPrerequisiteChain | server/peakgo/skilldata/skilldata.go:137-142 | Returns the chain from an empty visited set |
| SkillGraph.SkillGraph.CanLearn | server/peakgo/skilldata/skilldata.go:115-134 | The first failing check in the source's order, else ok |
| SkillGraph.LearnOutcomeIs | server/peakgo/skilldata/skilldata.go:115-134 | When each answer arises, for any known set: unknown skill, else level, else a prerequisite not known, else ok |
| SkillGraph.ChildrenMirrorIff | server/peakgo/skilldata/skilldata.go:68-106 | After any registrations, refused repeats included, the children lists mirror the prerequisites if and only if, among the first of each ID, no skill came with a child that does not require it and none follows one that requires it and is not its child already |
| SkillGraph.ChildrenAre | server/peakgo/skilldata/skilldata.go:97-104 | After any registrations a skill's children are those it came with and every skill that requires it and was not registered before it |
| SkillGraph.FirstsRegister | server/peakgo/skilldata/skilldata.go:68-71 | Repeated registrations change nothing: the graph is that of the first registration of each ID |
| SkillGraph.FirstsAre | server/peakgo/skilldata/skilldata.go:68-71 | The registrations not refused are exactly those whose ID was not registered before |
| SkillGraph.AdoptedIs | server/peakgo/skilldata/skilldata.go:97-104 | Registering changes children lists only, and only those of its prerequisites |
| SkillGraph.AdoptedAppends | server/peakgo/skilldata/skilldata.go:99-104 | A skill is entered at the end of each prerequisite's list, once for each mention |
| SkillGraph.SkillGraph.RegisterSkill | server/peakgo/skilldata/skilldata.go:68-106 | Adds a skill and enters it in its prerequisites' children lists, or refuses a duplicate and changes nothing |
| ThreatTable.ThreatTable.Top | server/peakgo/threat/threat.go:116-121 | An entry whose threat is a true maximum; (0, 0) for an empty table |
| ThreatTable.ThreatTable.Add | server/peakgo/threat/threat.go:71-92 | Keeps distinct players, exact total and max-heap; a full table ignores additions, known players included |
| ThreatTable.ThreatTable.Set | server/peakgo/threat/threat.go:95-113 | The same for setting; a new player on a full table runs off the heap array, leaving one entry too many, and that is the only failure |
| ThreatTable.ThreatTable.Remove | server/peakgo/threat/threat.go:136-145 | The same for removing |
| ThreatTable.ThreatTable.Decay | server/peakgo/threat/threat.go:177-187 | The same for decaying every entry and recomputing the total |
| ThreatTable.ThreatTable.Taunt | server/peakgo/threat/threat.go:198-205 | Adds the multiple of one more than the top threat; an empty table is left alone |
| ThreatTable.ThreatTable.Transfer | server/peakgo/threat/threat.go:208-223 | The two additions of a transfer, keeping the table sound |
| ThreatTable.ThreatTable.ResetWipe | server/peakgo/threat/threat.go:226-235 | Sets a player to zero, keeping the table sound |
| ThreatTable.ThreatTable.Sort | server/peakgo/threat/threat.go:286-298 | From any contents rebuilds a max-heap permutation of the entry indices, also for an empty table |
| ThreatTable.ThreatTable.Down | server/peakgo/threat/threat.go:264-283 | Sifting down extends the heap order by one place |
| ThreatTable.ThreatTable.LargestAmong | server/peakgo/threat/threat.go:264-283 | Picks a largest of a place and its children, the place itself unless a child beats it |
| ThreatTable.RootIsTop | server/peakgo/threat/threat.go:116-121 | The root of a max-heap over all entries is the top threat |
| ThreatTable.SinkStep | server/peakgo/threat/threat.go:264-283 | Swapping with a largest child moves the only fault one level down |
| ThreatTable.TransferConservesIff | server/peakgo/threat/threat.go:208-223 | A transfer conserves the total unless a non-zero share to a new player fills the last slot, and exactly then |
| ThreatTable.AddedSum | server/peakgo/threat/threat.go:71-92 | An addition raises the total by the amount unless the table is full |
| ThreatTable.AddedThreat | server/peakgo/threat/threat.go:71-92 | An addition goes to the player it names and to nobody else; a full table takes none |
| ThreatTable.SetToThreat | server/peakgo/threat/threat.go:95-113 | Setting gives the player named exactly that threat and changes nobody else's |
| ThreatTable.RemovedThreat | server/peakgo/threat/threat.go:136-145 | Removing unlists the player named and changes nobody else's threat |
| ThreatTable.WipedThreat | server/peakgo/threat/threat.go:226-235 | A wipe leaves the player listed at zero and changes nobody else |
| ThreatTable.TransferredThreat | server/peakgo/threat/threat.go:208-223 | A transfer takes the share from the giver, unless the receiver fills the last slot, and adds it to the receiver; nobody else changes |
| ThreatTable.ShareIs | server/peakgo/threat/threat.go:213-216 | The share is that many thousandths of the giver's threat, rounded toward zero |
| ThreatTable.DecayTakesShare | server/peakgo/threat/threat.go:177-182 | Decay takes that many thousandths of a threat, rounded toward zero |
| ThreatTable.DecayedThreat | server/peakgo/threat/threat.go:177-187 | Each player's own threat decays, and who is listed stays the same |
| ThreatTable.TruncDivIs | server/peakgo/threat/threat.go:179-182 | Division rounds toward zero and keeps the dividend's sign |
| ThreatTable.SetToSum | server/peakgo/threat/threat.go:95-113 | Setting changes the total by the difference |
| ThreatTable.RemovedSum | server/peakgo/threat/threat.go:136-145 | Removing lowers the total by the player's threat and leaves no entry of the player |
| ThreatTable.DecayKeepsRankingIff | server/peakgo/threat/threat.go:177-187 | Decay keeps the ranking of every two threats if and only if the rate is at most 1000 |
| ThreatTable.DecayKeepsTop | server/peakgo/threat/threat.go:177-187 | The top after a decay is the decayed top |
| ThreatTable.DecayFixpointIff | server/peakgo/threat/threat.go:177-187 | Decay shrinks a threat of either sign toward zero, and leaves it alone if and only if its size times rate is below 1000 |
| ThreatTable.DecayMirrors | server/peakgo/threat/threat.go:177-187 | Decay treats negative threats as it does positive ones |
| ThreatTable.DecayReachesFixpoint | server/peakgo/threat/threat.go:177-187 | Repeated decay brings every threat, negative ones included, to such a fixpoint |
| AreaOfInterest.UpdateFromGrid | server/peakgo/aoi/aoi.go:192-233 | With something in range the neighbour set becomes at most the fifty nearest in range; with nothing in range it stays as it was; so it is right if and only if something is in range or it was empty |
| AreaOfInterest.Watcher.Update | server/peakgo/aoi/aoi.go:200-232 | Replaying all events since registration still rebuilds the set, which equals the query result; the events are exactly the difference, Leaves first, each once; nil changes nothing |
| AreaOfInterest.AOIManager.UpdateOne | server/peakgo/aoi/aoi.go:192-233 | The update of a registered entity; an unregistered one gets no events |
| AreaOfInterest.AOIManager.RegisterWatcher | server/peakgo/aoi/aoi.go:70-78 | A fresh watcher with an empty set, others untouched |
| AreaOfInterest.EventsAlternate | server/peakgo/aoi/aoi.go:206-232 | A target's events alternate between Enter and Leave, beginning with Enter |
| AreaOfInterest.ReplayAppend | server/peakgo/aoi/aoi.go:206-232 | Replaying two batches is replaying one after the other |
| AreaOfInterest.PairedAppend | server/peakgo/aoi/aoi.go:206-232 | Batches that pair Enter and Leave from where the last ended pair as a whole |
| AreaOfInterest.AoiSpatialQuery | server/world/worker.go:512-530 | Nil if and only if nothing is in range, else the IDs of the nearest in range, at most fifty, each once |
| AreaOfInterest.TrimToMax | server/world/worker.go:469-483 | Up to fifty are kept as they are; of more, fifty such that no dropped one is nearer |
| AreaOfInterest.TrimmedIsNearest | server/world/worker.go:469-530 | The IDs kept are the nearest of the brute-force answer |
| Trade.RunConserves | server/game/trade.go:36-304 | Over every run of trade steps from a sound state each item's total over all players is unchanged and the state stays sound |
| Trade.RunIsSound | server/game/trade.go:36-304 | Over every run, inventories changing elsewhere included, bindings and sessions agree and no quantity is negative |
| Trade.StepKeepsInv | server/game/trade.go:36-304 | Every step keeps bindings and sessions in agreement and leaves no session with both offers locked |
| Trade.OneSessionEach | server/game/trade.go:36-87 | A player is in at most one session |
| Trade.LockedOfferFixed | server/game/trade.go:90-181 | No step changes a locked offer while its session lasts |
| Trade.LockedPlayerGets | server/game/trade.go:90-265 | What locking buys: whatever happens while the session lasts, an exchange leaves a player who had locked with at least the inventory before it, less the offer as locked, plus what the other had offered when the player had locked |
| Trade.RunGrowsOffers | server/game/trade.go:90-181 | Over every run during which a session lasts its offers only grow and a locked one stays as it is |
| Trade.StepGrowsOffers | server/game/trade.go:90-181 | No step takes anything out of an offer while its session lasts |
| Trade.StepAllOrNothing | server/game/trade.go:184-265 | Only the second lock of a session and the direct swap move items, exactly when both offers are covered, and they exchange that session's own two offers between its own two players; else every inventory is left alone |
| Trade.LockAllOrNothing | server/game/trade.go:139-265 | Locking exchanges the session's offers if the counterparty had locked, the player had not and both offers are covered; else it moves nothing |
| Trade.FirstLockWaits | server/game/trade.go:139-181 | The first lock of a session takes effect and waits: the player's offer is locked and all else as it was |
| Trade.SecondLockEnds | server/game/trade.go:139-265 | The second lock swaps, or aborts if an offer is no longer covered; either way the session and both bindings are gone |
| Trade.LockReplies | server/game/trade.go:139-181 | When a lock is refused, and that it swaps if and only if it completes covered offers |
| Trade.SwapIs | server/game/trade.go:184-265 | When a swap succeeds, aborts or finds no session; done or aborted, the session and both bindings are gone |
| Trade.OfferIs | server/game/trade.go:90-136 | When each reply to an offer arises; taken, it adds to the player's own offer and changes nothing else |
| Trade.InitIs | server/game/trade.go:36-87 | When each reply to an opening arises; opened, it binds both players with nothing offered and nothing locked |
| Trade.CancelIs | server/game/trade.go:275-297 | Cancelling ends the player's session, unbinds both players and moves nothing |
| Trade.DirectSwapIsUnlocked | server/game/trade.go:267-272 | The exported swap succeeds if and only if both offers are covered, whatever the locks; in a reachable state one of them is then still open |
| Trade.UnlockedSwapMovesItems | server/game/trade.go:267-272 | A case: with neither offer locked the exported swap hands an item over |
| Trade.StepConserves | server/game/trade.go:184-265 | No trade step changes an item's total |
| Trade.StepKeepsNonNegative | server/game/trade.go:184-265 | No trade step makes a quantity negative, even if inventories changed after offering |
| Trade.ExchangedQty | server/game/trade.go:227-248 | After deduct and inject each quantity is old minus given plus received, zeros dropped or not |
| Trade.ExchangedNonNegative | server/game/trade.go:204-248 | Covered offers leave no negative quantity |
| Trade.ExchangedPositive | server/game/trade.go:227-248 | An exchange of covered offers leaves no entry at zero |
| Trade.InitKeepsInv | server/game/trade.go:36-87 | Opening a session keeps the invariant |
| Trade.OfferKeepsInv | server/game/trade.go:90-136 | Offering keeps the invariant |
| Trade.LockKeepsInv | server/game/trade.go:139-181 | Locking, with the swap or abort it may cause, keeps the invariant |
| Trade.CancelKeepsInv | server/game/trade.go:275-297 | Cancelling keeps the invariant |
| Trade.TradeRegistry.InitializeTradeSession | server/game/trade.go:36-87 | The state and reply specified |
| Trade.TradeRegistry.OfferItemToTrade | server/game/trade.go:90-136 | The state and reply specified, checks in the source's order |
| Trade.TradeRegistry.LockTradeStage | server/game/trade.go:139-181 | The state and reply specified, swapping when both are locked |
| Trade.TradeRegistry.ExecuteSwapLocked | server/game/trade.go:184-265 | Re-validation, then both inventories exchanged and the session gone, or the session cancelled |
| Trade.TradeRegistry.ExecuteAtomicTradeSwap | server/game/trade.go:267-272 | The swap on any session, keeping the invariant |
| Trade.TradeRegistry.CancelTradeSession | server/game/trade.go:275-304 | The session and both bindings gone, or no session to cancel |
| Trade.TradeRegistry.HasAll | server/game/trade.go:208-219 | Whether every offered quantity is held |
| Trade.TradeRegistry.Deduct | server/game/trade.go:230-235 | The loop, in any order, takes each offered quantity and drops items left at zero |
| Trade.TradeRegistry.Inject | server/game/trade.go:236-238 | The loop, in any order, adds each received quantity |
| Party.RunIsSound | server/game/party.go:13-184 | Over every run rosters are duplicate-free, of 1 to 4 members with the leader, agree with memberships, joins never exceed invitations, and no invitation is good for more than 120 ticks |
| Party.MembershipIffRoster | server/game/party.go:13-184 | A player's membership names a party if and only if its roster holds the player |
| Party.JoinConsumesInvite | server/game/party_invite.go:129-157 | A join uses up one unexpired invitation to that party and appends the player |
| Party.AcceptIs | server/game/party_invite.go:129-157 | When each reply to an acceptance arises; whatever the reply the invitation is used up, and only a join changes parties |
| Party.InviteIs | server/game/party_invite.go:73-109 | When each reply to an invitation arises; sent only by the leader of a party with room, for 120 ticks, and nothing else changes |
| Party.PurgedIs | server/game/party_invite.go:54-63 | Exactly the invitations still good survive a purge, as they were |
| Party.InviteExpires | server/game/party_invite.go:36-50 | From its expiry tick on an invitation admits nobody |
| Party.StepKeepsRosters | server/game/party.go:13-184 | Every step keeps rosters and memberships in agreement |
| Party.StepKeepsCover | server/game/party_invite.go:36-50 | Every step keeps joins plus pending invitations within invitations sent |
| Party.StepKeepsTimely | server/game/party_invite.go:105-109 | An invitation sent expires exactly 120 ticks later, and no step lets one last longer |
| Party.CreateKeeps | server/game/party.go:13-34 | Creating keeps agreement |
| Party.CreateIs | server/game/party.go:13-34 | A party is created if and only if the leader is in none; it has the leader alone, and nothing else changes |
| Party.AddedKeeps | server/game/party.go:71-95 | Adding to a party with room keeps agreement |
| Party.LeaveKeeps | server/game/party.go:125-184 | Leaving, with promotion or disbanding, keeps agreement |
| Party.LeaveIs | server/game/party.go:125-184 | Leaving: the membership is gone; a party of one is disbanded, else its roster loses the player in its order and the first left leads if the player did; all else stays |
| Party.LeaveNothing | server/game/party.go:125-131 | Someone in no party leaves nothing |
| Party.WithoutAt | server/game/party.go:141-147 | Dropping a member keeps the others in their order |
| Party.AcceptKeeps | server/game/party_invite.go:129-157 | Accepting keeps agreement on every branch |
| Party.PartySystem.CreateParty | server/game/party.go:13-34 | The state and reply specified |
| Party.PartySystem.TryAddMember | server/game/party.go:71-95 | Adds exactly if the party exists and has room |
| Party.PartySystem.RemovePlayer | server/game/party.go:125-184 | The roster loop, promotion and disbanding as specified |
| Party.PartySystem.SendPartyInvite | server/game/party_invite.go:73-124 | The state and reply specified, checks in the source's order |
| Party.PartySystem.AcceptPartyInvite | server/game/party_invite.go:129-157 | The invitation is taken first, then the checks in the source's order |
| Party.PartySystem.PurgeExpired | server/game/party_invite.go:54-63 | Exactly the expired invitations go |

## Left out

- Pathfinding.FindPathOptimal: for a single map with more than 512 cells within reach nothing is promised beforehand; which cells a full cache refuses depends on the run, and `Pathfinding.FindPathOptimalWithRoom` covers the runs that refuse none.
- Pathfinding.FindPathDecides: for a single map with more cells within reach than the limit a path may or may not be found; `LongCorridor.RightUpToIff` shows that no larger bound holds for all maps.
- ComponentStore.Store.Set: requires fewer than 2^31 - 1 stored entities, the range of the 32-bit slot.
- Registry.Registry.RangeMutate: callbacks are scripts of operations chosen beforehand; destroying an entity that is not live, storing under an index that another stored ID holds, or going beyond the 32-bit limits does nothing in the method's model. The theorems about the visits (`Registry.VisitedIsPresent` and its neighbours) allow callbacks that do anything.
- Registry.Registry.RemoveEntity: three of the twelve component stores are modelled; the others are deleted from alike.
- CommandBuffer.CommandBuffer.Flush: requires stored and queued IDs to have distinct indices, because storing under a taken index stops a store from being a map (`ComponentStore.Store.Set` says exactly when); what the source does from there on is not modelled. `TickRuns.RunKeepsInStep` shows that runs of orderly ticks always meet it.
- CommandBuffer.CommandBuffer.FlushMoves: the same.
- CommandBuffer.CommandBuffer.FlushDamages: the same.
- CommandBuffer.CommandBuffer.FlushSpawns: the same.
- CommandBuffer.CommandBuffer.SpawnOne: the same.
- CommandBuffer.CommandBuffer.Apply: the same.
- One registry only: in the source the freelist is shared by all registries while each has its own counter, so an index freed by one and recycled by another may collide with a live one there.
- Concurrency other than the token bucket's: each method is one atomic step; two searches at once on the shared node cache are not modelled.
- `isWalkable` is a pure predicate; a callback that changes its answers during a search is not modelled.
- The zero padding of the fixed waypoint array: a result's points are a sequence of its length.
- Rate limiter: unregistered connections (always allowed), `UnregisterConnection`, `Reset` and configuration changes during a run.
- Floating point: radii are real numbers of at least 0; rounding and not-a-number are not modelled.
- Integer width other than in the pathfinder, the token bucket, entity IDs and the nearest query's starting distance: threat totals, quantities, coordinates and hit points are unbounded.
- The library sort behind the fifty nearest: an insertion sort stands for it, of which only the ordered permutation is used.
- Slice pools and buffer reuse.
- Threat table: `Clear`, `Close`, `FullWipe`, `TopN`, `SetDecayRate` and the unused sift-up.
- Skill graph: class, name and effect fields, and the readers that only list skills.
- Registry: the stores for connections, AI, lifetimes, equipment, effects, templates and party data, and the clean-up `RemoveEntity` does inside those components before deleting them.
- Grid: chunk listings, statistics and the other radius counters built on the query.
- Area of interest: `UnregisterWatcher` and the callback form `UpdateAll`.
- Trade and party: message texts, notices and broadcasts; session and party IDs are parameters, required to be fresh as `EntityIds.NextIdIsNew` provides; whether the target has metadata is a parameter.
- Party: `AddMemberToParty`, which skips the size check its callers are meant to make.
- IDs allocated by the world or loaded from the database.
- Sockets, dashboard, logging, persistence and the AI: not part of this model.
