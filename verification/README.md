# Multi-AGV scheduling: a verified model

This project models the decision logic of a C++ multi-AGV scheduler and of its Python
simulator in Dafny 4.11 and proves what that logic keeps. `dafny verify dfyconfig.toml`
checks all of it.

**Path search.** `MapModel`, `BestFirst`, `Search`, `AStarSpec` and `AStar` are the turn-
penalised A* over (previous, current) states. The heuristic is Manhattan and the edge cost
Euclidean, so on diagonal edges it is not admissible; what holds is a bound by the largest ratio
of the two, which is exact optimality on axis-aligned maps and a factor of sqrt(2) on any map. A
Euclidean length is a given non-negative number with the right square. The search is proved over
an abstract problem and then instantiated; `TurnAngles` says what turns and penalised nodes
cost. `Routing` and `GlobalPlanner` are the five-strategy cascade, its cache and the fallbacks
around a static table.

**Reservations.** `ConflictIndex` (with `SpatialHash`) is the distance-based conflict relation,
`ReservationSpec` the operations as functions, `ReservationTable` the class over 64 shards that
refines them, and `ReservationProtocol`, `ReservationLiveness` and `ReservationSafety` the same
operations as small steps of any number of threads: the clock is read first, then shards are
locked one by one. Safety, deadlock freedom and atomicity of the decision are proved for every
interleaving, and `Reconfiguration` builds the runs in which replacing the index breaks safety.

**Maps and distances.** `UnionFind` and `MapInfo` load a map and answer connectivity; `Dijkstra`,
`ShortestPath` and `ShortestPathUpdater` fill the travel time matrix. The direction label is kept
per node, so a value approximates the turn-aware optimum; bounds on both sides are proved, the
upper one against every path whose arcs may be taken however one comes.

**Allocation.** `Travel`, `Placement`, `Sanitize`, `ReachabilityFilter` and `ForcedInsertion` are
repair, filter and reinsertion; `Greedy` and `Posta` the two allocators.

**Regions.** `Spreading`, `BridgeGroups`, `Seeding` and `Regions` partition the map for
congestion control; `BridgeMeaning` says on the graph alone which bridge groups there are.

**Simulator.** `SpeedPlan` and `SegmentProfile` plan and follow speeds with exact reals and squared
speeds; `SimOwnership` keeps task queues and owners, and `SimMeaning` says what its events do
without the functions that compute it.

Where the code does not do what one would hope, the code is modelled as it is, and one lemma
gives the exact condition under which it does and another an input that fails: several targets
in one distance query, repeated node ids in the conflict index, reconfiguring the index under
holds, loading edges twice, the direction of the way back between two all but coinciding nodes,
the prefilter for a node against itself, regions over coinciding coordinates, cruising slower
than the smallest divisor, and a task whose stops all lie where the tasks before it end (it gets
its marker only when markers are next built without those tasks). Where nodes forbid turning,
travel times are complete for paths that need no particular way in, and a map shows that they
are not for all others.

Code that changes things step by step is imperative here: classes for objects with fields,
methods with loops proved against functions and predicates about which the lemmas are stated.
Costs, tables and heuristics that the code only calls are functions passed in; random numbers are
any numbers of their range.

## Model

| member | source | states |
|---|---|---|
| `MapModel.RoadMap.ManhattanTriangle` | src/path_planning/AStarPathFinder.cpp:21-37 | the heuristic distance obeys the triangle inequality, so it drops by at most the distance of a step |
| `MapModel.AxisAlignedStretch` | src/path_planning/AStarPathFinder.cpp:21-37 | on an edge parallel to an axis the heuristic distance is at most the Euclidean edge cost (kappa = 1) |
| `MapModel.AdmissibleExactly` | src/path_planning/AStarPathFinder.cpp:21-37 | on an edge the heuristic is at most the edge cost if and only if the edge is parallel to an axis |
| `MapModel.DiagonalStretch` | src/path_planning/AStarPathFinder.cpp:21-37 | on any edge the heuristic distance is at most kappa times the edge cost for every kappa with kappa^2 >= 2 |
| `MapModel.RoadMap.TurnPenaltyMm` | include/common/PathPlanningConstants.h:77-105 | the turn cost is never negative for a non-negative base and at most twice the base |
| `TurnAngles.TurnByAngle` | include/common/PathPlanningConstants.h:77-105 | twice the base when the scalar product of the edges is below -0.999 of the product of their lengths, else the base when the cross product is above 0.001 of it, else nothing |
| `TurnAngles.StraightCostsNothing` | include/common/PathPlanningConstants.h:77-105 | going straight on costs nothing, whatever the lengths |
| `TurnAngles.RightAngleCostsBase` | include/common/PathPlanningConstants.h:77-105 | a right angle costs the base |
| `TurnAngles.ReversalCostsTwice` | include/common/PathPlanningConstants.h:77-105 | going straight back costs twice the base |
| `TurnAngles.NodePenaltyMeans` | src/path_planning/AStarPathFinder.cpp:248-259 | entering a penalised node costs its share of the penalty, cut to between none and all |
| `TurnAngles.PriceIsSum` | src/path_planning/AStarPathFinder.cpp:240-263 | the price of a step is length plus turn plus node penalty, without a turn on the first step |
| `AStarSpec.PriceOf` | src/path_planning/AStarPathFinder.cpp:240-263 | the price of a step: edge length plus turn cost plus clamped node penalty, at least the length |
| `BestFirst.FrontierBound` | src/path_planning/AStarPathFinder.cpp:194-274 | while a route is not finished, some queued state on it has a key at most the route's upper price plus the estimate, although closed states are never reopened |
| `BestFirst.PopBound` | src/path_planning/AStarPathFinder.cpp:195-214 | the popped state's score is within every upper price of every walk to it |
| `BestFirst.ExhaustedClosed` | src/path_planning/AStarPathFinder.cpp:194-276 | with an empty queue every state on every legal walk is closed |
| `BestFirst.ImproveWitness` | src/path_planning/AStarPathFinder.cpp:265-272 | replacing a score keeps every score the exact price of a legal walk that ends in that state |
| `BestFirst.ImproveQueue` | src/path_planning/AStarPathFinder.cpp:265-272 | replacing a score keeps every open state queued with its current score |
| `Search.ReconstructPath` | src/path_planning/AStarPathFinder.cpp:108-127 | following cameFrom terminates, because a predecessor is always closed earlier, and yields a legal walk from the start whose cost is the recorded score |
| `Search.Offer` | src/path_planning/AStarPathFinder.cpp:222-273 | one neighbour: skipped exactly when impassable, banned or closed; otherwise its score becomes at most the offer, with all search invariants kept |
| `Search.ExpandState` | src/path_planning/AStarPathFinder.cpp:216-273 | after closing a state all its legal successors have been offered |
| `Search.FindRoute` | src/path_planning/AStarPathFinder.cpp:164-276 | a route comes back exactly when one exists; its cost is the returned distance, which is within every upper price of every route |
| `AStar.AStarPathFinder.constructor` | src/path_planning/AStarPathFinder.cpp:5-19 | the id tables name, for each id, the last node that carries it |
| `AStar.AStarPathFinder.FindPath` | src/path_planning/AStarPathFinder.cpp:129-277 | found exactly when a passable, unbanned walk exists; the path is the ids of such a walk, the distance its cost; unknown ids and impassable ends give no path |
| `AStarSpec.DistanceWithinStretch` | src/path_planning/AStarPathFinder.cpp:194-274 | for every kappa >= 1 that bounds heuristic over cost on all edges, the distance is at most kappa times the cost of any legal walk |
| `AStarSpec.AxisAlignedDistanceIsLeast` | src/path_planning/AStarPathFinder.cpp:21-37 | on axis-aligned maps the distance is the least cost of any legal walk |
| `AStarSpec.EveryMapDistanceBound` | src/path_planning/AStarPathFinder.cpp:194-274 | on every map the distance is at most sqrt(2) times the least cost |
| `AStarSpec.StretchedIsBounded` | src/path_planning/AStarPathFinder.cpp:263-272 | prices scaled by kappa dominate the search's prices and the heuristic is consistent for them |
| `AStarSpec.RoutesIgnorePenalties` | src/path_planning/GlobalPathPlanner.cpp:642-699 | which walks are legal does not depend on turn or node penalties |
| `AStarSpec.RouteExactly` | src/path_planning/AStarPathFinder.cpp:216-238 | which walks are routes, on the map itself: listed successors, passable nodes, no banned edge, no banned node but the two ends |
| `Routing.AnswerMeans` | src/path_planning/GlobalPathPlanner.cpp:670-699 | an answer of findPath at any penalty decides reachability, and its path is near-best at that penalty |
| `Routing.JoinRoutes` | src/path_planning/GlobalPathPlanner.cpp:706-745 | two legal walks that meet at an unbanned node form a legal walk |
| `Routing.JoinPaths` | src/path_planning/GlobalPathPlanner.cpp:706-745 | the same for stitched node id lists |
| `Routing.RouteLeads` | src/path_planning/GlobalPathPlanner.cpp:642-784 | a legal path is contiguous along listed edges from start to end |
| `Routing.JoinLeads` | src/path_planning/GlobalPathPlanner.cpp:786-817 | joining contiguous paths that meet is contiguous |
| `GlobalPlanner.GlobalPathPlanner.constructor` | src/path_planning/GlobalPathPlanner.cpp:27-84 | key nodes are the ids of the nodes of types 1, 2, 7 and 9, in order; with the nearest-key cache on, some key node and at least one candidate asked for, every ordinary node then has its nearest key node cached, unless -1 itself is a key node (which reads as none); with the cache off both caches start empty |
| `GlobalPlanner.GlobalPathPlanner.NearestKeyNodes` | src/path_planning/GlobalPathPlanner.cpp:605-640 | at most k key nodes other than the given one, nearest first, and all of them when fewer than k exist |
| `GlobalPlanner.GlobalPathPlanner.NearestKeyNode` | src/path_planning/GlobalPathPlanner.cpp:525-603 | a key node is its own; otherwise the answer, remembered or fresh, is the choice among the straight-line nearest candidates: measured by the length of their found paths until one is below 5000, the first least measured one, or the first candidate when none can be reached, -1 when there is none; exactly a freshly chosen one is remembered |
| `GlobalPlanner.LeastNext` | src/path_planning/GlobalPathPlanner.cpp:566-592 | scanning one more candidate keeps the best so far the first of the least measured lengths |
| `GlobalPlanner.GlobalPathPlanner.ViaTwoKeyNodes` | src/path_planning/GlobalPathPlanner.cpp:706-743 | a path stitched of three segments respects all bans and joins start to end |
| `GlobalPlanner.GlobalPathPlanner.ViaOneKeyNode` | src/path_planning/GlobalPathPlanner.cpp:745-769 | a path stitched of two segments respects all bans and joins start to end |
| `GlobalPlanner.GlobalPathPlanner.FiveStrategies` | src/path_planning/GlobalPathPlanner.cpp:654-773 | the cascade returns a path exactly when a legal walk exists, which is exactly when its first strategy does, and then a near-best path at the default penalty |
| `GlobalPlanner.GlobalPathPlanner.AStarSearch` | src/path_planning/GlobalPathPlanner.cpp:642-784 | the same through the cache; every cached path answers its request, and requests with bans never use the cache |
| `GlobalPlanner.GlobalPathPlanner.ConcatenatePaths` | src/path_planning/GlobalPathPlanner.cpp:786-817 | for any segments that each lead from one stop to the next, the concatenation leads from the first stop to the last and its distance is the sum of theirs |
| `GlobalPlanner.JoinedOfMeeting` | src/path_planning/GlobalPathPlanner.cpp:786-844 | dropping each doubled joint keeps a joined path contiguous and as long as its segments together |
| `GlobalPlanner.JoinedLength` | src/path_planning/GlobalPathPlanner.cpp:819-844 | the length of joined paths is the sum of their lengths |
| `GlobalPlanner.GlobalPathPlanner.MixedPlan` | src/path_planning/GlobalPathPlanner.cpp:223-519 | the source is mixed planning exactly when not both ends are key nodes, the hop between two other ends is not short, each such end has a nearest key node that a search connects it with, and the table answers between them; the path is then head, table path and tail without the doubled joints; in every other case the answer is plain A*'s for the whole request |
| `GlobalPlanner.JoinedAppended` | src/path_planning/GlobalPathPlanner.cpp:786-817 | joining one more segment glues it on without the doubled joint |
| `GlobalPlanner.KeyNodesAre` | src/path_planning/GlobalPathPlanner.cpp:55-64 | the key nodes are exactly the ids of the nodes of types 1, 2, 7 and 9 |
| `GlobalPlanner.EdgeLength` | src/path_planning/GlobalPathPlanner.cpp:819-844 | a single edge is as long as the straight line between its nodes |
| `GlobalPlanner.GlobalPathPlanner.PlanGlobalPath` | src/path_planning/GlobalPathPlanner.cpp:98-203 | in pure mode the answer is plain A*'s; otherwise a table answer is passed on with its distance; otherwise, when enabled, the mixed planner's, which has a path whenever A* would; every path leads from start to end along listed edges |
| `SpatialHash.BuildIndex` | src/common/NodeReservationTable.cpp:34-81 | the 3 x 3 cell lookup yields for every node exactly the ids of all near nodes, whatever cell keys collide |
| `ConflictIndex.CellsNear` | src/common/NodeReservationTable.cpp:27-48 | coordinates at most the threshold apart lie in the same or neighbouring cells |
| `ConflictIndex.WithinMeansNear` | src/common/NodeReservationTable.cpp:44-77 | two nodes within the threshold are found through one of the nine cell keys |
| `ConflictIndex.ConfigureDistanceConflict` | src/common/NodeReservationTable.cpp:10-85 | for a non-positive threshold every non-negative id conflicts with itself only; otherwise each id lists the ids in range of its last carrier; the result is symmetric exactly when ranges between last carriers are mutual |
| `ConflictIndex.ConflictsAreNearNodes` | src/common/NodeReservationTable.cpp:10-101 | with unique ids the conflict list of a node is exactly the ids of the nodes within the threshold |
| `ConflictIndex.SymmetricExactly` | src/common/NodeReservationTable.cpp:34-101 | the relation is symmetric if and only if, wherever the last carrier of one id has a carrier of a second id in range, the last carrier of the second has a carrier of the first in range |
| `ConflictIndex.UniqueIdsAreMutual` | src/common/NodeReservationTable.cpp:34-101 | unique ids meet that condition |
| `ConflictIndex.OneSpotKeepsSymmetry` | src/common/NodeReservationTable.cpp:34-101 | so do nodes at one spot, whatever ids repeat |
| `ConflictIndex.SharedIdsBreakSymmetry` | src/common/NodeReservationTable.cpp:34-81 | a map with a repeated id that fails the condition: its relation is asymmetric |
| `ConflictIndex.ConflictIds` | src/common/NodeReservationTable.cpp:87-101 | the node itself comes first, then exactly the other ids of its list |
| `ReservationSpec.ReserveAgreesWithProbe` | src/common/NodeReservationTable.cpp:127-142 | at one instant, for any index: a reservation succeeds exactly when no blocking hold is found (lines 127-142 and 299-334) |
| `ReservationSpec.SnapshotAgreesWithProbe` | src/common/NodeReservationTable.cpp:260-334 | at one instant, for a symmetric index: the blocked snapshot lists exactly the nodes for which a blocking hold is found |
| `ReservationSpec.TryReserveKeepsExclusive` | src/common/NodeReservationTable.cpp:103-162 | a reservation never leaves two owners on conflicting nodes |
| `ReservationSpec.ReleasesKeepExclusive` | src/common/NodeReservationTable.cpp:164-240 | no release or clean-up breaks that exclusion |
| `ReservationSpec.OthersKeepLiveHolds` | src/common/NodeReservationTable.cpp:103-240 | an operation for one owner leaves every live hold of other owners as it is |
| `ReservationSpec.BuiltIndexIsReflexive` | src/common/NodeReservationTable.cpp:34-101 | every node conflicts with itself |
| `ReservationSpec.RuledOutAreConflicts` | src/common/NodeReservationTable.cpp:260-279 | the nodes a live hold rules out in the blocked snapshot are exactly its conflict list |
| `ReservationTable.NodeReservationTable.constructor` | include/common/NodeReservationTable.h:97-100 | all 64 shards start empty, and so does the index |
| `ReservationTable.NodeReservationTable.ConfigureDistanceConflict` | src/common/NodeReservationTable.cpp:10-85 | replaces the index by what the node list and threshold give, in both threshold cases, symmetric exactly when ranges are mutual, and leaves the holds alone |
| `ReservationTable.NodeReservationTable.TryReserve` | src/common/NodeReservationTable.cpp:103-162 | over the sharded maps: refuses invalid requests, purges expired conflicts, and succeeds exactly when no conflicting entry has another owner, writing one entry |
| `ReservationTable.NodeReservationTable.Release` | src/common/NodeReservationTable.cpp:164-177 | removes the node's entry exactly when it has expired or belongs to the caller; every other entry stays as it was |
| `ReservationTable.NodeReservationTable.ReleaseAllByOwner` | src/common/NodeReservationTable.cpp:179-192 | removes exactly what has expired and all of the owner's; every other entry stays as it was |
| `ReservationTable.NodeReservationTable.ReleaseAllByOwnerExcept` | src/common/NodeReservationTable.cpp:194-213 | the same, keeping one node of the owner |
| `ReservationTable.NodeReservationTable.ReleaseAllByOwnerExceptSet` | src/common/NodeReservationTable.cpp:215-240 | the same, keeping listed nodes of the owner |
| `ReservationTable.NodeReservationTable.CleanupExpired` | src/common/NodeReservationTable.cpp:336-348 | removes exactly what has expired; every live entry stays as it was |
| `ReservationSpec.ReleaseLoses` | src/common/NodeReservationTable.cpp:164-177 | what a release removes, entry by entry |
| `ReservationSpec.SweepLoses` | src/common/NodeReservationTable.cpp:179-240 | what a sweep for an owner, or for nobody, removes, entry by entry |
| `ReservationSpec.ReserveWrites` | src/common/NodeReservationTable.cpp:103-162 | a reservation succeeds exactly when every conflicting entry of others has expired; it then writes its entry, and otherwise only purges expired conflicting entries |
| `ReservationSpec.ReleasedNodeCanBeReserved` | src/common/NodeReservationTable.cpp:103-177 | after its owner's release a node can be reserved by anybody whom nothing else blocks |
| `ReservationSpec.SweptOwnerBlocksNobody` | src/common/NodeReservationTable.cpp:103-192 | after an owner's sweep only third owners can block anybody |
| `ReservationSpec.HoldEndsWithTtl` | src/common/NodeReservationTable.cpp:127-160 | a hold with a positive TTL has expired exactly from that much later on, any other never |
| `ReservationTable.NodeReservationTable.SnapshotHeldNodes` | src/common/NodeReservationTable.cpp:242-258 | ascending list of the live nodes held by others |
| `ReservationTable.NodeReservationTable.SnapshotBlockedNodes` | src/common/NodeReservationTable.cpp:260-279 | ascending list of all nodes that conflict with live holds of others |
| `ReservationTable.NodeReservationTable.Get` | src/common/NodeReservationTable.cpp:281-297 | the live entry of a node, if any |
| `ReservationTable.NodeReservationTable.FindBlockingHold` | src/common/NodeReservationTable.cpp:299-334 | a live entry of another owner on a conflicting node, none exactly when there is none |
| `ReservationProtocol.StepKeepsLocks` | src/common/NodeReservationTable.cpp:112-125 | in every step of every thread each held lock is held by one thread, is part of its plan, and was taken in ascending order |
| `ReservationLiveness.NoWaitCycle` | src/common/NodeReservationTable.cpp:112-125 | no reachable state has a cycle of threads waiting for a lock another holds, or behind a queued writer (lines 87-125 and 242-317) |
| `ReservationLiveness.SomeoneRuns` | src/common/NodeReservationTable.cpp:304-317 | if any operation is unfinished, some thread waits neither for a holder nor behind a queued writer |
| `ReservationLiveness.UnblockedCanStep` | src/common/NodeReservationTable.cpp:103-348 | a thread that does not wait for a held lock has a step |
| `ReservationLiveness.DeadlockFreedom` | src/common/NodeReservationTable.cpp:103-348 | in every reachable state of any number of threads no threads wait in a circle and some unfinished operation can step, even if a queued writer holds back later readers |
| `ReservationSafety.ChangesUnderLock` | src/common/NodeReservationTable.cpp:127-160 | a step changes an entry only under the lock of its shard |
| `ReservationSafety.StepKeepsSafe` | src/common/NodeReservationTable.cpp:103-162 | each step keeps: no two owners on conflicting nodes, and what each thread has checked stays true until it unlocks |
| `ReservationSafety.ReconfiguringIsSafeWhen` | src/common/NodeReservationTable.cpp:10-85 | the step that replaces the index keeps safety if and only if the holds exclude each other under the new index and every list already read by an operation is right under it |
| `ReservationSafety.RunIsSafe` | src/common/NodeReservationTable.cpp:103-162 | safety holds in every state of any run over symmetric indices in which each replacement fits |
| `ReservationSafety.RunIsSafeExactly` | src/common/NodeReservationTable.cpp:10-162 | a run over symmetric indices is safe in every state if and only if each replacement fits |
| `ReservationSafety.MutualExclusion` | src/common/NodeReservationTable.cpp:103-162 | no interleaving of any number of threads, fitting replacements of the index included, reaches two owners on conflicting nodes |
| `ReservationSafety.NearNodesExclude` | src/common/NodeReservationTable.cpp:10-162 | in terms of the map: under one configured index with mutual ranges, ids in range of each other are never held by two owners |
| `Reconfiguration.ReconfiguringBreaksExclusion` | src/common/NodeReservationTable.cpp:10-162 | the failing runs: for any two nodes that a symmetric new index makes conflict, a run reserves both for two owners and then configures that index |
| `ReservationSafety.StepKeepsLiveHold` | src/common/NodeReservationTable.cpp:164-240 | a step ends a live hold only if it acts for its owner |
| `ReservationSafety.LiveHoldPersists` | src/common/NodeReservationTable.cpp:164-240 | over any run a hold ends only by its own expiry or an operation of its own owner |
| `ReservationSafety.DecisionIsAtomic` | src/common/NodeReservationTable.cpp:127-160 | at its check, a concurrent reservation decides what the sequential one would decide on the table of that moment |
| `ReservationSafety.ReleaseIsAtomic` | src/common/NodeReservationTable.cpp:164-177 | the acting step of a concurrent release removes the entry by the same rule at that instant |
| `ReservationSafety.SweepErasesRightly` | src/common/NodeReservationTable.cpp:179-240 | a concurrent sweep erases only what has expired or is its owner's to drop |
| `ReservationSafety.SweepLeavesNothing` | src/common/NodeReservationTable.cpp:179-240 | and leaves a shard only when none of that is left in it |
| `Forest.CompressKeepsRoot` | src/data/MapInfo.cpp:16-34 | pointing a node at its root changes no node's root |
| `Forest.LinkKeepsForest` | src/data/MapInfo.cpp:50-65 | linking two roots by rank keeps the parents acyclic |
| `Forest.LinkRelinks` | src/data/MapInfo.cpp:50-65 | after linking, exactly the members of the two trees share a root |
| `Forest.LinkKeepsSized` | src/data/MapInfo.cpp:50-65 | a root of rank r keeps having at least 2^r members |
| `Forest.RankIsLogarithmic` | src/data/MapInfo.cpp:50-65 | 2 to the rank of any tree is at most the number of nodes |
| `UnionFind.UnionFind.constructor` | src/data/MapInfo.cpp:8-14 | every node is its own root |
| `UnionFind.UnionFind.FindConst` | src/data/MapInfo.cpp:36-48 | returns the root, -1 out of range; the step guard never fires |
| `UnionFind.UnionFind.Find` | src/data/MapInfo.cpp:16-34 | returns the same root and, compressing the path, changes no root |
| `UnionFind.UnionFind.Unite` | src/data/MapInfo.cpp:50-65 | afterwards two nodes are together exactly if they were, or through the two arguments; out of range nothing changes |
| `UnionFind.UnionFind.IsConnected` | src/data/MapInfo.cpp:67-73 | true exactly for in-range nodes with one root |
| `Connectivity.MarksDecide` | src/data/MapInfo.cpp:67-73 | if equal marks are exactly connections, equality decides reachability |
| `Connectivity.MergeKeepsAgreement` | src/data/MapInfo.cpp:213 | uniting the ends of an edge keeps marks and undirected reachability in agreement |
| `MapInfo.MapInfo.LoadNodes` | src/data/MapInfo.cpp:95-136 | the nodes come through with the least of the global limit and the limits of the areas that cover them, ids are numbered by the last node that carries them, and no pair is united; an empty list is refused |
| `MapInfo.SpeedLimit` | src/data/MapInfo.cpp:117-124 | a node's limit is at most the global one and that of every area that covers it, and is one of them |
| `MapInfo.MapInfo.LoadEdges` | src/data/MapInfo.cpp:139-215 | a pair is listed exactly when some enabled raw edge between known, open nodes leads that way (both ways for mode 2); the edge list is those edges in order; exactly their end pairs are united on top of what was; the tables mirror each other |
| `MapInfo.ArcsMean` | src/data/MapInfo.cpp:163-205 | which edges one raw edge gives, with length and direction |
| `MapInfo.EdgesAddUp` | src/data/MapInfo.cpp:163-205 | the edge list holds those of the raw edges one after the other |
| `MapInfo.DirectionMeans` | src/data/MapInfo.cpp:85-92 | the larger offset decides the direction |
| `MapInfo.ReverseDirectionExactly` | src/data/MapInfo.cpp:85-92 | the direction written for the way back is the one calculated for it if and only if the larger offset is above the tolerance |
| `MapInfo.ReverseDirectionFails` | src/data/MapInfo.cpp:85-92 | two nodes for which it is not |
| `MapInfo.MapInfo.IsConnectedById` | src/data/MapInfo.cpp:227-233 | true exactly when the two known ids are connected by united pairs |
| `MapInfo.OneLoadIsReachability` | src/data/MapInfo.cpp:139-233 | after one load, connectivity is undirected reachability along the usable raw edges |
| `MapInfo.DirectedPathIsConnected` | src/data/MapInfo.cpp:139-233 | a directed path is never rejected |
| `MapInfo.ReloadIsExactWhen` | src/data/MapInfo.cpp:139-147 | after a further load, connectivity is undirected reachability along the new edges if and only if the new edges connect the ends of every pair united before |
| `MapInfo.ReloadKeepsOldConnections` | src/data/MapInfo.cpp:139-147 | the failing case: two nodes united before stay connected after a load without edges |
| `Dijkstra.FrontierBound` | src/algorithm/ShortestPathUpdater.cpp:206-208 | before an open path's end is settled, the least queued distance is at most its travel time plus a turning time at every node where it can turn |
| `Dijkstra.FinishKeeps` | src/algorithm/ShortestPathUpdater.cpp:206-208 | settling the popped node keeps every settled distance within every open path's upper price |
| `Dijkstra.ImproveWitness` | src/algorithm/ShortestPathUpdater.cpp:239-240 | a new label stands for a rotation-legal path of exactly its distance that arrives in the labelled direction and is, before its last arc, nowhere dearer than an open path |
| `Dijkstra.ExpandNode` | src/algorithm/ShortestPathUpdater.cpp:220-241 | all successors of a settled node are offered; settled labels do not change |
| `Dijkstra.ExhaustedDone` | src/algorithm/ShortestPathUpdater.cpp:206-246 | with an empty queue every open path that meets no other target ends in a settled node |
| `Dijkstra.Run` | src/algorithm/ShortestPathUpdater.cpp:185-246 | every written value is the turn-aware cost of a rotation-legal path; where an open path (every arc may be taken however one comes) leads to a target past no other one, a value within its upper price is written, wherever else turning may be forbidden |
| `Dijkstra.LabelAllowsOpenArc` | src/algorithm/ShortestPathUpdater.cpp:222-236 | a node's one direction label never forbids an arc that is no turn from any side |
| `Dijkstra.TurningNodesOpenPaths` | src/algorithm/ShortestPathUpdater.cpp:222-236 | a path whose interior nodes, other than the start, allow turning is open |
| `Dijkstra.AllPathsAreOpen` | src/algorithm/ShortestPathUpdater.cpp:222-236 | with turning allowed everywhere every passable path is open |
| `ShortestPathMeaning.FirstArrival` | src/algorithm/ShortestPathUpdater.cpp:210-219 | an open path can be cut at its first arrival at the target, at no extra cost |
| `ShortestPathMeaning.SingleTarget` | src/algorithm/ShortestPathUpdater.cpp:150-246 | with one target: the value is a real legal path's cost and within the upper price of every open path; with turning allowed everywhere UNREACHABLE means exactly that no passable path exists |
| `ShortestPathMeaning.FreeTurnsAreExact` | src/algorithm/ShortestPathUpdater.cpp:150-246 | without turning time the value is exactly the least travel time |
| `ShortestPathMeaning.ValueMeansReachablePastNoTarget` | src/algorithm/ShortestPathUpdater.cpp:210-219 | with several targets a value is written where some open path meets no other target before its end, and only where some passable path does; with turning allowed everywhere exactly there, because settled targets are not expanded |
| `ShortestPathMeaning.AnotherTargetHides` | src/algorithm/ShortestPathUpdater.cpp:210-219 | a concrete chain where a reachable target is written UNREACHABLE because another target lies before it |
| `ShortestPathMeaning.OneLabelHides` | src/algorithm/ShortestPathUpdater.cpp:206-241 | a concrete map with one node that forbids turning where a target with a legal path is written UNREACHABLE, because the shorter way in hides the one that leads on |
| `HeuristicFinder.LabelKeepsExplained` | src/algorithm/ShortestPathUpdater.cpp:380-386 | labels of the heuristic finder stand for legal paths |
| `HeuristicFinder.EmptyHeapMeansClosed` | src/algorithm/ShortestPathUpdater.cpp:345-408 | with an empty heap every open path ends in a closed node |
| `HeuristicFinder.FindTime` | src/algorithm/ShortestPathUpdater.cpp:285-416 | whatever the heuristic, a value is a legal path's cost, and one is found where an open path exists; with turning allowed everywhere exactly when a passable path exists |
| `ShortestPathUpdater.RoadsAreValid` | src/algorithm/ShortestPathUpdater.cpp:168-194 | travel times and turning times are never negative, whatever the node and global speeds |
| `ShortestPathUpdater.ShortestPathUpdater.BatchQueryByNodeId` | src/algorithm/ShortestPathUpdater.cpp:150-246 | unknown ids are skipped; exactly the cells of the targets are rewritten, soundly, and within the upper price of every open path; the whole matrix stays sound |
| `ShortestPathUpdater.StoreMeans` | src/algorithm/ShortestPathUpdater.cpp:185-246 | storing writes exactly the row's cells |
| `ShortestPathUpdater.TargetsMean` | src/algorithm/ShortestPathUpdater.cpp:156-162 | the targets are the nodes of the known ids |
| `ShortestPathUpdater.RoadsMean` | src/algorithm/ShortestPathUpdater.cpp:173-235 | which edges, times, turning times and permissions one vehicle type sees |
| `ShortestPathUpdater.DecimalMeans` | src/algorithm/ShortestPathUpdater.cpp:180-194 | the type key is the type's number in decimal, without a leading zero |
| `ShortestPathUpdater.ShortestPathUpdater.ShortestPathFinder` | src/algorithm/ShortestPathUpdater.cpp:285-416 | one cell is rewritten, the matrix stays sound, and the cell has a value where an open path exists, with turning allowed everywhere exactly when a passable path does |
| `ShortestPathUpdater.PrefilterKeepsPaths` | src/algorithm/ShortestPathUpdater.cpp:276-283 | the prefilter accepts the ends of a directed path exactly if it has an edge, or the node has both outgoing and incoming entries |
| `ShortestPathUpdater.LoneNodeIsRejected` | src/algorithm/ShortestPathUpdater.cpp:276-283 | a node without edges is rejected against itself |
| `Travel.Plane.Detour` | src/common/AllocationReachability.cpp:44-76 | connectivity is transitive and a detour is never shorter in seconds |
| `Travel.Plane.SecondsMean` | src/common/AllocationReachability.cpp:44-60 | the seconds times the global speed, or times 1000 without one, are both coordinate distances together |
| `Travel.FiniteMeansConnected` | src/common/AllocationReachability.cpp:65-70 | a finite travel time means undirected reachability over the united edges |
| `Tasks.EndpointsAreCollected` | src/common/TaskReachabilityFilter.cpp:86-103 | with a valid first endpoint the collected nodes start and end exactly at the resolved endpoints (lines 86-103 and 178-196) |
| `Tasks.CollectedNodes` | src/common/TaskReachabilityFilter.cpp:86-103 | the collected nodes are the valid stops, and the declared ends only where there are none |
| `Tasks.ServiceAddsUp` | src/common/TaskReachabilityFilter.cpp:198-204 | service time adds up over the stops |
| `Tasks.ServiceOfOne` | src/common/TaskReachabilityFilter.cpp:198-204 | and counts the positive duration of one |
| `Sanitize.FilterRow` | src/common/AllocationReachability.cpp:110-128 | keeps and removes exactly what the left-to-right filter says |
| `Sanitize.KeptIsFeasible` | src/common/AllocationReachability.cpp:113-128 | what the filter keeps is a chain whose every leg is connected |
| `Sanitize.KeptNext` | src/common/AllocationReachability.cpp:110-128 | a further task is kept exactly when it is reached from where the kept ones end and its own ends are connected |
| `Sanitize.FilterConserves` | src/common/AllocationReachability.cpp:107-133 | kept rows and removed tasks together are the counted input |
| `Placement.FindBest` | src/common/AllocationReachability.cpp:143-160 | among all rows and positions the cheapest offer, the first on ties, none exactly when there is no offer |
| `Sanitize.StepIsRight` | src/common/AllocationReachability.cpp:137-165 | a removed task finds a place exactly when an AMR start is connected to it and its ends are connected; every chain stays feasible |
| `Sanitize.DeltaIsAddedTime` | src/common/AllocationReachability.cpp:150-158 | the minimised value is exactly what the chain gets longer by |
| `Sanitize.SanitizeAllocationResult` | src/common/AllocationReachability.cpp:80-197 | the result is filter, cheapest reinsertion task by task, and the sorted union of old and dropped unallocated tasks; every AMR chain is feasible |
| `Sanitize.Conservation` | src/common/AllocationReachability.cpp:80-197 | rows and dropped tasks together are exactly the counted input, with multiplicity |
| `Sanitize.WellFormedIsConserved` | src/common/AllocationReachability.cpp:167-185 | for well-formed input rows and unallocated list together name every task exactly as often as before, so without duplicates |
| `Sanitize.ChainsAreFeasible` | src/common/AllocationReachability.cpp:106-133 | afterwards every leg of every AMR chain is connected; surplus rows are untouched |
| `Sanitize.DropsExactly` | src/common/AllocationReachability.cpp:137-182 | a removed task is dropped exactly when no AMR start is connected to its start or its own ends are not connected |
| `Sanitize.SecondRunChangesNothing` | src/common/AllocationReachability.cpp:80-197 | a second run changes neither chains nor unallocated list |
| `ReachabilityFilter.IsTaskReachable` | src/common/TaskReachabilityFilter.cpp:105-171 | true exactly when the task has stops and consecutive stops are known and connected |
| `ReachabilityFilter.FilterTasksByReachability` | src/common/TaskReachabilityFilter.cpp:303-412 | accepted and forced indices partition the tasks in order; the two index maps invert each other |
| `ReachabilityFilter.RemapAllocationToOriginal` | src/common/TaskReachabilityFilter.cpp:414-447 | rows are mapped entry by entry, unknown entries to -1; unallocated ids outside the tables disappear |
| `ReachabilityFilter.AppendForcedTasks` | src/common/TaskReachabilityFilter.cpp:449-458 | the ascending duplicate-free union with the non-negative forced indices |
| `ReachabilityFilter.RoundTripCoversAllTasks` | src/common/TaskReachabilityFilter.cpp:303-458 | filter, any complete allocation of the filtered tasks, remap and append name every original task exactly once |
| `ForcedInsertion.LastStopIsNearer` | src/common/TaskReachabilityFilter.cpp:243-257 | going to the last stop directly is never longer than through all stops |
| `ForcedInsertion.DeltaIsNeverNegative` | src/common/TaskReachabilityFilter.cpp:522-555 | every finite insertion difference is non-negative, so the branch that skips negative ones is dead |
| `ForcedInsertion.DeltaIsAddedDuration` | src/common/TaskReachabilityFilter.cpp:269-299 | the minimised value is exactly what the chain's duration grows by |
| `ForcedInsertion.FeasibleMeansFiniteDuration` | src/common/TaskReachabilityFilter.cpp:269-299 | a chain of tasks with valid starts is feasible exactly when its duration is finite |
| `ForcedInsertion.StepIsRight` | src/common/TaskReachabilityFilter.cpp:500-570 | a task is placed exactly when it can be; available chains stay feasible |
| `ForcedInsertion.SortCandidates` | src/common/TaskReachabilityFilter.cpp:485-497 | the candidates are exactly the forced indices that are tasks, by falling priority and then rising start text (lines 259-267 and 485-497) |
| `ForcedInsertion.GoesBeforeIsStrictOrder` | src/common/TaskReachabilityFilter.cpp:494-497 | the comparison is a strict order |
| `ForcedInsertion.TextBeforeExactly` | src/common/TaskReachabilityFilter.cpp:494-497 | a start text is earlier exactly when at the first difference it ends or has the smaller character |
| `ForcedInsertion.InsertForcedTasks` | src/common/TaskReachabilityFilter.cpp:460-579 | the candidates are placed in that order, each at its cheapest place or left pending; without forced tasks or available AMRs the forced list comes back |
| `ForcedInsertion.PendingExactly` | src/common/TaskReachabilityFilter.cpp:495-579 | a task stays pending exactly when it has no valid endpoint, disconnected legs or no connected available AMR; chains stay feasible and no task is lost or doubled |
| `ForcedInsertion.FilterAgreesWithInsertion` | src/common/TaskReachabilityFilter.cpp:303-412 | over the same AMRs the filter accepts a task exactly when insertion can place it |
| `ForcedInsertion.ForcedTasksStayForced` | src/common/TaskReachabilityFilter.cpp:460-579 | tasks the filter forced out over the same AMRs are never inserted |
| `RegionGraph.CountPassableRegionNeighbors` | src/common/CongestionRegionUtils.cpp:87-99 | the number of passable neighbours |
| `RegionGraph.Graph.NeighboursSymmetric` | src/common/CongestionRegionUtils.cpp:27-43 | being neighbours is symmetric |
| `Spreading.LevelsAreLeast` | src/common/CongestionRegionUtils.cpp:300-317 | a node's level in the breadth-first order is at most the length of any walk to it |
| `Spreading.Spread` | src/common/CongestionRegionUtils.cpp:300-317 | labels spread to exactly the reachable open nodes, each getting the label of a source fewest hops away |
| `BridgeGroups.LabelComponents` | src/common/CongestionRegionUtils.cpp:119-147 | component numbers are shared exactly by connected core nodes, and every number is used |
| `BridgeGroups.ConnectorsOf` | src/common/CongestionRegionUtils.cpp:150-164 | the connectors of a component are exactly the passable non-core nodes that touch it |
| `BridgeGroups.MergeComponents` | src/common/CongestionRegionUtils.cpp:166-175 | components that share a connector get one root, and only chains of such sharing do |
| `BridgeGroups.CollectGroups` | src/common/CongestionRegionUtils.cpp:177-200 | the groups are exactly the merged lists that are large enough, in order of their least nodes |
| `BridgeGroups.GroupsAreDisjoint` | src/common/CongestionRegionUtils.cpp:101-202 | distinct groups share no node |
| `BridgeGroups.GroupIsConnected` | src/common/CongestionRegionUtils.cpp:101-202 | a group is connected within itself |
| `BridgeGroups.CollectBridgeRegionGroups` | src/common/CongestionRegionUtils.cpp:101-202 | the whole collection, with all of this |
| `Seeding.NextSeedIsNew` | src/common/CongestionRegionUtils.cpp:266-286 | while the candidates have unused coordinates the next seed takes new ones |
| `Seeding.SeedsAreDistinct` | src/common/CongestionRegionUtils.cpp:249-286 | the seeds are distinct exactly when the candidates have at least as many different coordinates as seeds are wanted |
| `Seeding.OneSpotRepeatsSeeds` | src/common/CongestionRegionUtils.cpp:249-286 | candidates that all lie at one spot give one seed again and again |
| `Seeding.PickSeeds` | src/common/CongestionRegionUtils.cpp:249-286 | the first seed has the least x + y, each further one is farthest from the seeds so far, earliest on ties |
| `Seeding.MinGapMeans` | src/common/CongestionRegionUtils.cpp:266-286 | the distance compared is the one to the nearest seed so far |
| `Regions.AssignGroups` | src/common/CongestionRegionUtils.cpp:219-234 | each bridge group carries its number; all other nodes carry -1 |
| `Regions.LabelSeeds` | src/common/CongestionRegionUtils.cpp:299-305 | a seed carries its number, or that of a later entry for the same node |
| `Regions.FillRest` | src/common/CongestionRegionUtils.cpp:321-340 | candidates the growth missed get the first of the nearest seeds |
| `Regions.StagesPartition` | src/common/CongestionRegionUtils.cpp:206-343 | every passable node gets exactly one region below the count; every other node keeps -1 |
| `Regions.SeedsKeepTheirRegions` | src/common/CongestionRegionUtils.cpp:299-343 | every further region's seed lies in its own region exactly when the candidates have enough different coordinates |
| `Regions.BridgeNodesKeepTheirRegions` | src/common/CongestionRegionUtils.cpp:219-343 | bridge regions come through seeding and growth unchanged |
| `Regions.CandidatesGoToNearestSeeds` | src/common/CongestionRegionUtils.cpp:300-340 | a reached candidate belongs to a hop-nearest seed, any other to the first distance-nearest one |
| `Regions.BuildGraphRegions` | src/common/CongestionRegionUtils.cpp:206-343 | no regions for a non-positive target or an empty map; otherwise the partition with seeds and bridge marks, whose bridge groups are, with bridges on, exactly the large enough bridge components |
| `BridgeMeaning.GroupsExactly` | src/common/CongestionRegionUtils.cpp:101-202 | a list is a group if and only if it is, in order, everything that links between core nodes and their passable neighbours connect to some core node, and is large enough |
| `Regions.BridgeRegionsExactly` | src/common/CongestionRegionUtils.cpp:206-241 | a node's region is marked as a bridge exactly when bridges are on and the node lies in a large enough bridge component |
| `Regions.CoreNodeDecides` | src/common/CongestionRegionUtils.cpp:101-202 | for a core node that is the size of what it is linked to |
| `Regions.BridgeNodesShare` | src/common/CongestionRegionUtils.cpp:219-241 | two nodes in bridge regions share a region exactly when such links connect them |
| `Regions.RegionCount` | src/common/CongestionRegionUtils.cpp:243-263 | the number of regions: the bridges, and as many more as wanted and available, at least one where a node is left |
| `RegionGraph.PassableOfIs` | src/common/CongestionRegionUtils.cpp:87-99 | which neighbours are counted |
| `SpeedPlan.ForwardPass` | simulation_v2/sim_runner_v2.py:1099-1101 | after the forward pass speeds respect the acceleration limit and are not below any admissible profile |
| `SpeedPlan.LowerKeeps` | simulation_v2/sim_runner_v2.py:1102-1104 | lowering a node to what braking allows does not break the acceleration limit |
| `SpeedPlan.ForwardBackwardSpeeds` | simulation_v2/sim_runner_v2.py:1085-1105 | the result meets node limits, acceleration and deceleration limits and is pointwise the greatest such profile |
| `SpeedPlan.PlannedSpeedIsWithin` | simulation_v2/sim_runner_v2.py:1094-1098 | a planned speed is within its node's limit, the first within a given start speed |
| `SpeedPlan.GreatestIsUnique` | simulation_v2/sim_runner_v2.py:1085-1105 | so the result is determined by the limits alone |
| `SegmentProfile.PeakAboveEnds` | simulation_v2/sim_runner_v2.py:996-1001 | the meeting speed is below an end speed exactly when that end cannot be reached from the other |
| `SegmentProfile.ClampNeverFires` | simulation_v2/sim_runner_v2.py:996-1001 | for speeds that can follow each other the clamp of the peak speed never fires |
| `SegmentProfile.ProfileCoversSegment` | simulation_v2/sim_runner_v2.py:977-1017 | the built profile is well-formed, its peak is within the larger of end speeds and limit, and it ends exactly at the length if and only if an end speed or the limit reaches the smaller of the meeting speed and the smallest divisor |
| `SegmentProfile.PeakIsHighest` | simulation_v2/sim_runner_v2.py:1003-1017 | the peak is the meeting speed or what the limits allow, whichever is less, and nothing is cruised while the limit is not reached |
| `SegmentProfile.ZeroLimitNeverCovers` | simulation_v2/sim_runner_v2.py:1003-1017 | with end speeds and limit zero a segment of positive length is never covered |
| `SegmentProfile.ZeroLimitExample` | simulation_v2/sim_runner_v2.py:1003-1017 | one such segment with its numbers |
| `SegmentProfile.MotionIsProper` | simulation_v2/sim_runner_v2.py:952-974 | within a phase distance is mean speed times time and the speed changes within the two rates |
| `SegmentProfile.DistAtMonotone` | simulation_v2/sim_runner_v2.py:952-964 | distance never decreases over time |
| `SegmentProfile.SpeedsAtEnds` | simulation_v2/sim_runner_v2.py:966-974 | a profile starts and ends at the speeds it was built for |
| `SegmentProfile.PlannedSegmentIsDriven` | simulation_v2/sim_runner_v2.py:1520-1524 | over every segment of planned speeds the vehicle leaves and arrives with the planned speeds and covers the segment exactly when that condition on its speeds and limit holds |
| `Posta.SelectBest` | src/algorithm/PostaTaskAllocator.cpp:127-148 | the first of the cheapest states with its own cost |
| `Posta.InitializationTa` | src/algorithm/PostaTaskAllocator.cpp:151-165 | every task once and one separator less than AMRs |
| `Posta.OpSwap` | src/algorithm/PostaTaskAllocator.cpp:168-182 | every state is a rearrangement within one window |
| `Posta.OpShift` | src/algorithm/PostaTaskAllocator.cpp:185-229 | every state is the code itself or the code with a block of the window's length moved past its neighbours |
| `Posta.OpSym` | src/algorithm/PostaTaskAllocator.cpp:232-245 | every state is the code with one window reversed |
| `Posta.FindRuns` | src/algorithm/PostaTaskAllocator.cpp:252-270 | the runs between separators: every AMR's tasks are one of them, and every non-empty run is one AMR's tasks |
| `Posta.ReorderSegment` | src/algorithm/PostaTaskAllocator.cpp:283-292 | only the segment changes, to its own entries stably sorted by the earlier code's entries at the same places |
| `Posta.OpShuffle` | src/algorithm/PostaTaskAllocator.cpp:248-296 | in every state a tenth to six tenths of the AMRs with tasks, rounded up, have theirs sorted by the earlier code's entries, everything else stays; without any task all states are the code |
| `Posta.SortedPairsAreStable` | src/algorithm/PostaTaskAllocator.cpp:287-291 | sorting a segment is stable: pairs with the same earlier entry keep their order |
| `Posta.UpdateAlpha` | src/algorithm/PostaTaskAllocator.cpp:299-322 | six window sizes are tried; the result is the first cheapest of everything tried if that is cheaper, else the code itself, and the size is one whose window gave it |
| `Posta.SymOnce` | src/algorithm/PostaTaskAllocator.cpp:369-397 | the first cheapest of the reversals, and where that is cheaper and shuffling is on of its reorderings too, if cheaper, else the code itself |
| `Posta.ShiftOnce` | src/algorithm/PostaTaskAllocator.cpp:347-366 | the first cheapest of the tried shifts if cheaper, else the code itself |
| `Posta.SwapOnce` | src/algorithm/PostaTaskAllocator.cpp:325-344 | the first cheapest of the tried window shuffles if cheaper, else the code itself |
| `Posta.PicksTwice` | src/algorithm/PostaTaskAllocator.cpp:299-397 | two choices one after the other are one choice among all that were tried |
| `Posta.Search` | src/algorithm/PostaTaskAllocator.cpp:563-624 | each round chooses a window and sweeps with all three operators; every step is the choice among what it tried, the best cost is the best code's and never rises, and the search ends only at the round limit, after fifty rounds without improvement, or for lack of time |
| `Greedy.ChooseTask` | src/algorithm/GreedyTaskAllocator.cpp:60-103 | an AMR's choice is the cheapest reachable unallocated task, by the loop's own tie rule |
| `Greedy.NameTasks` | src/algorithm/GreedyTaskAllocator.cpp:57-110 | every choice is a cheapest open task, and a named task belongs to the first of the cheapest AMRs that named it |
| `Greedy.Commit` | src/algorithm/GreedyTaskAllocator.cpp:112-129 | every named task goes to the end of its AMR's chain in this round, whose time grows by its leg unless it charges; all other chains and flags stay; chains stay drivable and duplicate-free, and something is committed unless nothing was named |
| `Greedy.EffectiveMeans` | src/algorithm/GreedyTaskAllocator.cpp:69-93 | a task that has waited costs its leg plus the waiting time at the given rate, any other its leg |
| `Greedy.Allocate` | src/algorithm/GreedyTaskAllocator.cpp:51-135 | at most one productive round per task; every leg is finite, no task stands twice, and at the end no AMR reaches an unallocated task |
| `Greedy.NoTaskTwice` | src/algorithm/GreedyTaskAllocator.cpp:112-129 | chains are duplicate-free and pairwise disjoint |
| `SimSpec.ApplyKeepsOwned` | simulation/sim_runner.py:1357-1425 | after every assignment, publication or reached stop, a task is in a device's queue exactly when the device owns it, and queues have no duplicates |
| `SimSpec.OwnerStays` | simulation/sim_runner.py:1227-1289 | an owned task keeps its owner, except that it is freed exactly when the event completes it on its owner |
| `SimSpec.RunIsOwned` | simulation/sim_runner.py:1227-1425 | queue and owner table agree at every moment of every run |
| `SimSpec.QueuesAreDisjoint` | simulation/sim_runner.py:1384-1417 | no task stands in two queues or twice in one |
| `SimSpec.MovedOnlyAfterCompletion` | simulation/sim_runner.py:1357-1425 | in any run a task moves to another device only after its owner completed it in between |
| `SimSpec.DefinitionStays` | simulation/sim_runner.py:1336-1343 | the stops of an owned task never change once it has any |
| `SimSpec.OwnedDefinitionsStay` | simulation/sim_runner.py:1336-1343 | the same over any stretch of a run in which the task stays owned |
| `SimSpec.SyncKeepsProgress` | simulation/sim_runner.py:1049-1086 | bringing markers up to date never loses the stop to do next |
| `SimSpec.MarkerExactly` | simulation/sim_runner.py:1189-1217 | a queued task has a marker if and only if one of its stops lies elsewhere than the last stop of the tasks before it |
| `SimSpec.MarkedExactly` | simulation/sim_runner.py:1189-1217 | which tasks have markers, for any queue, repetitions included |
| `SimSpec.HiddenIsNotCompleted` | simulation/sim_runner.py:1227-1289 | while the markers are those of the queue, reaching stops does not complete a task without one |
| `SimSpec.SharedStopHidesTask` | simulation/sim_runner.py:1189-1289 | two one-stop tasks at one node: reaching it completes the first alone; once markers are built again the second has its own, and reaching the node again completes it |
| `SimState.SimState.SetAssignmentResponse` | simulation/sim_runner.py:1357-1425 | the collected entries are each device once, with the tasks of its last usable entry, in the order of the first ones; an unowned listed task then belongs to the first device that lists it, owned ones stay where they are, and each listed device's queue is followed by exactly the tasks free at its turn, in the order of their first listing |
| `SimMeaning.AssignedToFirstLister` | simulation/sim_runner.py:1384-1417 | who owns a task after an assignment |
| `SimMeaning.AssignmentFillsQueues` | simulation/sim_runner.py:1384-1417 | what a listed device's queue becomes |
| `SimMeaning.RefusedExactly` | simulation/sim_runner.py:1399-1412 | a listed task is refused exactly when another device owns it at that moment |
| `SimMeaning.CollectedMeans` | simulation/sim_runner.py:1363-1382 | what the collected entries of a payload are |
| `SimMeaning.SelectionOfNonEmpty` | simulation/sim_runner.py:1372-1380 | leaving out empty task ids keeps the order of first listings |
| `Selections.SelectionNext` | simulation/sim_runner.py:1399-1412 | one more listed entry is taken exactly when it is wanted and not listed before |
| `SimState.SimState.SetTasksPayload` | simulation/sim_runner.py:1291-1355 | the same for publishing, in any order of devices |
| `SimMeaning.PublishedDefinition` | simulation/sim_runner.py:1336-1343 | a published task gets its new stops unless it is owned and has some; no other task changes |
| `SimMeaning.AllSyncedMarkers` | simulation/sim_runner.py:1344-1355 | every device with a queue has its markers brought up to date once, nobody else's change |
| `SimMeaning.MarkersAreCollapsedStops` | simulation/sim_runner.py:1189-1217 | a queue's markers are exactly its stops, without those at the node of the stop before |
| `SimState.SimState.ConsumeReachedSubtasks` | simulation/sim_runner.py:1227-1289 | the same for reaching stops; nothing happens away from a node |
| `SimMeaning.ReachedMeans` | simulation/sim_runner.py:1227-1289 | the markers at the node are popped up to the first elsewhere, and the queue loses exactly the tasks completed by that |
| `SimState.SimState.JoinMarkers` | simulation/sim_runner.py:1049-1086 | the joined markers are those of the specification |
| `SimMeaning.JoinedMeans` | simulation/sim_runner.py:1049-1086 | where the next stop is still listed, the rebuilt markers from it on with existing ones kept; otherwise the existing markers followed by those of exactly the new sub-task ids, in the order of their first listing |
| `SimMeaning.SyncedMarkers` | simulation/sim_runner.py:1049-1086 | rebuilt markers where there were none, joined ones where there were some |

## Left out

- StaticPathTable: its body is not part of this model; a lookup is assumed to lead from start to end along listed edges, and the distance stored with it is passed on as it is.
- Planner statistics, logging, environment switches and estimated times: parameters or absent.
- Shortest-path-updater waits in allocation repair, filter and insertion (`REACH_FINAL_SPU`, `REACH_START_SPU`): only the default mode without them is modelled.
- ShortestPathUpdater.ShortestPathUpdater.ShortestPathFinder: states no optimality, because an improved open node is not pushed again; only soundness and reachability are stated.
- Query queue, worker threads and cached reads of `query`: left out; every writer of the matrix is modelled.
- Dijkstra.Run: edge lengths and the direction penalty are taken to be non-negative; for targets to which only paths lead that depend on how a node without turning is entered, a value may be missing, which `ShortestPathMeaning.OneLabelHides` shows.
- ShortestPathMeaning.ValueMeansReachablePastNoTarget: completeness for several targets fails in general; with turning allowed everywhere it holds exactly for targets that some passable path reaches past no other target.
- Map queries before any load: left out.
- Integer overflow of cell coordinates and of times, and floating-point rounding: numbers are unbounded integers and exact reals.
- A non-finite distance threshold is read as a non-positive one.
- ReservationSafety.MutualExclusion: needs every replaced index to fit the holds and the lists already read; without that it fails, which `Reconfiguration.ReconfiguringBreaksExclusion` shows.
- Results of concurrent snapshots: the step model covers their locking, not the lists they collect.
- Equal keys in priority queues and the iteration order of hash tables: any order.
- `parseSolution`, `deParseSolution`, `calculateTotalCost`, `repairInvalidDuties`, `evaluateCost` and AMR position resolution: not part of this model; allocations start from rows, costs and start nodes are parameters.
- ForcedInsertion.SortCandidates: candidates of equal priority and start text may come in any order, as the sort is not stable.
- The stage that inserts missing tasks before the population search: left out; the search starts from any code with at least one entry.
- Wall-clock limits: loops may stop at any iteration.
- Endurance, detour and priority penalties inside costs: part of the uninterpreted cost.
- The order of nodes inside a bridge component before sorting: components are listed in index order.
- `BridgeRegionDisjointSet` is the same structure as the map's union-find without range checks and step guard; one class models both.
- SegmentProfile.ProfileCoversSegment: comparison tolerances are zero; the guard against dividing by a very small speed is kept and shows in the statement.
- Dwell timers, marker geometry, routes and the `advance` loops of the simulators: left out; whether a vehicle is near a node is a parameter.
- JSON parsing of payloads: assignments arrive as entries and definitions as a table by task id.
- Publishers, visualisation, web servers, dumps and replay: no logic of interest.
- CostMatrixGenerator and the priority planners: weighted sums and configuration, easy members only.
