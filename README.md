# A* navigation plugin for BotNavSim, in Dafny

This project models the A* planner of the BotNavSim navigation plugin
(`Astar/Astar.cs`) and proves properties of it. It has three parts:

- **`SquareGraph`**: an N x N lattice of `Node`s, connected to their
  neighbours, with two scans for the node nearest a world position.
- **`Node`**: the per-cell search state, with setters that have side effects.
  The `parent` setter recomputes G, the `destination` setter recomputes the
  Manhattan heuristic H, and every setter except `destination` raises
  `hasChanged`.
- **`Astar`**: the navigation engine. It keeps an open and a closed list, a
  start node, a destination node and the next node of the committed path. It:
  - runs the search (`StartSearch`, `BuildPath`, `LowestFscoreInOpen`,
    `ReconstructPath`);
  - answers `NodeInPath` and `SearchComplete`;
  - steers the bot (`MoveDirection`);
  - takes reports from a depth sensor (`DepthData`), which mark nodes walkable
    or obstructed and start the search again when the planned path is blocked.

The classes of the source are Dafny classes whose methods update their fields
in place:

- `Graph.Node` and `Graph.SquareGraph`, which keeps the `Node[,]` array as a
  flat arena indexed `x * N + y`;
- `Search.Astar`.

Each method of `Astar` is proved to perform a step defined on values in the
modules `Plan`, `Reset`, `Trace` and `Run`. There, an `Engine` holds the
engine's lists and end points together with the search fields of every node.
The lemmas about those steps carry the properties:

- the open and closed lists stay disjoint and duplicate-free;
- parent links form a tree rooted at the start node, and each node's G is its
  parent's G plus the step between them;
- no listed node's G ever rises;
- the committed path is a walkable, linked route from the start node to the
  destination, and G does not decrease along it;
- `NodeInPath` holds exactly on the committed nodes other than the one in the
  start state;
- a failed search proves that no walkable route exists;
- repeating a clear depth report changes nothing.

The model reproduces four quirks of the code:

- **Diagonal guard.** `ConnectNodes` guards the diagonal (x-1, y-1) with
  `x > 1` (Astar/Astar.cs:60). A node in column 1 therefore has one
  neighbour fewer than the header comment of the file promises (every interior
  node connected to 8), and adjacency is not symmetric there. The model follows
  the code; `Grid.NeighbourCountCases` and `Grid.ColumnOneAsymmetry` state the
  difference.
- **Goal test.** The loop of `BuildPath` stops when the node it picks is in
  the destination state, not when it is the destination node.
- **Stale mark.** The reset of `StartSearch` clears only listed nodes. A node
  left in the destination state by a search that never reached it keeps that
  state, and can stop the next search early. `Trace.RetraceCommits` covers that
  case: the destination alone is committed.
- **`NodeInPath`.** It has no iteration bound. It walks up from the
  destination and stops before the node in the start state, so it never
  reports the start node.

Floating-point numbers are modelled as exact reals. `Vector3.Distance` is a
parameter of the graph: a `Metric`, assumed non-negative only where stated.

## Model

| member | source | states |
|---|---|---|
| Geometry.Manhattan | Astar/Astar.cs:283-286 | the heuristic is non-negative, zero exactly at the same position, and is the sum of the three absolute coordinate differences |
| Geometry.Lerp | Astar/Astar.cs:492 | `Vector3.Lerp` clamps: a parameter at or below 0 gives the start point, at or above 1 the end point |
| Graph.RealMax | Astar/Astar.cs:33 | `Mathf.Max` is at least both arguments and equal to one of them |
| Graph.Node.constructor | Astar/Astar.cs:366-379 | a new node has the given index and position, no connections, no links, G = H = 0, the regular state, the unexplored type and `hasChanged` set |
| Graph.Node.GThrough | Astar/Astar.cs:394-398 | the tentative G through a parent is at least the parent's G when distances are non-negative |
| Graph.Node.HeuristicTo | Astar/Astar.cs:279-292 | H is non-negative, 0 without a destination, and 0 exactly when the node sits at the destination's position |
| Graph.Node.SetParent | Astar/Astar.cs:255-269 | sets the parent and `hasChanged`; G becomes the parent's G plus the step (the old `TentativeG`) or 0 when cleared; keeps `Node.Valid` |
| Graph.Node.SetChild | Astar/Astar.cs:271-277 | sets the child and `hasChanged`, nothing else |
| Graph.Node.SetDestination | Astar/Astar.cs:279-292 | sets the destination and H to the Manhattan distance to it (0 when cleared); does not touch `hasChanged`; keeps `Node.Valid` |
| Graph.Node.SetState | Astar/Astar.cs:294-323 | sets the state and `hasChanged`, nothing else of the search |
| Graph.Node.SetType | Astar/Astar.cs:325-343 | sets the type and `hasChanged`, nothing else of the search |
| Graph.SquareGraph.constructor | Astar/Astar.cs:30-45 | N x N fresh pristine nodes laid out x-major at `corner + (x * spacing, 0, y * spacing)`, spacing the larger of the two extent ratios, each connected as `ConnectNodes` does |
| Graph.SquareGraph.CreateNodes | Astar/Astar.cs:35-42 | the nested loops fill every arena slot with a fresh node at its lattice position, in x-major order |
| Graph.SquareGraph.AddNode | Astar/Astar.cs:37-40 | one loop body: the next slot gets a fresh node at its position and index |
| Graph.SquareGraph.AllCreated | Astar/Astar.cs:34-42 | once all slots are filled the arena is a valid graph of pristine nodes at their lattice positions |
| Graph.SquareGraph.NodeAt | Astar/Astar.cs:57 | `graph[x, y]` is a graph node whose index is its arena slot |
| Graph.SquareGraph.NodesAt | Astar/Astar.cs:58-76 | the nodes at a list of cells, in order, all in the graph |
| Graph.SquareGraph.ConnectNodes | Astar/Astar.cs:54-80 | every node's `connected` list becomes exactly the nodes of `Grid.Neighbours`, in the order of the guarded `Add` calls |
| Graph.SquareGraph.ConnectColumn | Astar/Astar.cs:56-78 | the inner loop connects every node of column x and keeps earlier columns connected |
| Graph.SquareGraph.Connect | Astar/Astar.cs:57-77 | one node's connections are those of `Grid.Neighbours` for its cell |
| Graph.SquareGraph.Unobstructed | Astar/Astar.cs:108 | the candidates of `NearestUnobstructedNode` are exactly the graph nodes not typed obstructed |
| Graph.SquareGraph.NearestNode | Astar/Astar.cs:85-98 | returns a node at least distance, and of those the first in scan order (the strict `<` keeps the earliest) |
| Graph.SquareGraph.NearestUnobstructedNode | Astar/Astar.cs:103-118 | returns the first nearest unobstructed node, or `graph[0, 0]` when every node is obstructed |
| Graph.SquareGraph.ScanStep | Astar/Astar.cs:88-96 | one step of either scan keeps the best-so-far invariant over one more slot |
| Graph.SquareGraph.FirstNearestUnique | Astar/Astar.cs:85-118 | the scans are deterministic: at most one node is first nearest |
| Graph.SquareGraph.FirstNearestClosest | Astar/Astar.cs:85-98 | on an indexed graph the node `NearestNode` returns is the closest by distance, with ties broken by least index |
| Graph.SquareGraph.ReprBound | Astar/Astar.cs:600 | the graph has at most `graph.Length` nodes, the bound `ReconstructPath` uses |
| Grid.IndexInRange | Astar/Astar.cs:34-42 | the arena index of an in-grid cell lies in [0, N*N) |
| Grid.IndexOrder | Astar/Astar.cs:35-36 | arena order is the x-major order of the nested loops, and distinct cells get distinct indices |
| Grid.Neighbours | Astar/Astar.cs:58-77 | every listed cell is in the grid |
| Grid.NeighboursMembers | Astar/Astar.cs:58-77 | the listed cells are exactly the in-grid cells adjacent to (x, y), except (0, y-1) for column 1 |
| Grid.NeighboursDistinct | Astar/Astar.cs:58-77 | no cell is listed twice |
| Grid.NeighbourCount | Astar/Astar.cs:58-77 | the count is the in-grid 3 x 3 block less the cell itself, less one for column 1 below row 0 |
| Grid.NeighbourCountCases | Astar/Astar.cs:58-77 | corners have 3 neighbours, other edge nodes of columns 0 and N-1 have 5, interior nodes of columns 2 .. N-2 have 8, and interior nodes of column 1 have only 7 |
| Grid.ColumnOneAsymmetry | Astar/Astar.cs:60-61 | (0, y-1) lists (1, y) but (1, y) does not list (0, y-1) |
| Grid.NeighboursSymmetric | Astar/Astar.cs:58-77 | apart from that diagonal, adjacency is symmetric |
| Sequences.RemoveFirst | Astar/Astar.cs:563 | `List.Remove` deletes one occurrence of the element, keeps every other element, and leaves a list without it unchanged |
| Sequences.RemoveFirstDistinct | Astar/Astar.cs:563 | on a duplicate-free list `Remove` removes the element entirely and keeps the list duplicate-free |
| Sequences.DistinctWithin | Astar/Astar.cs:600 | a duplicate-free list of graph nodes is no longer than the graph, the counting fact behind the loop bounds |
| Reset.Clear | Astar/Astar.cs:527-530 | a reset node has no links, G = H = 0 and the regular state, and keeps its type and connections |
| Reset.Cleared | Astar/Astar.cs:526-531 | one reset loop keeps the node set |
| Reset.ForgetNodes | Astar/Astar.cs:522-539 | after the reset every listed node is cleared and every unlisted node, including a stale destination mark, keeps its fields |
| Reset.ForgetClears | Astar/Astar.cs:522-539 | the reset leaves no parent, child or search state behind and keeps the engine invariant |
| Reset.BlankConsistent | Astar/Astar.cs:447-455 | an engine with no search is consistent |
| Reset.BeginSplit | Astar/Astar.cs:546-551 | the head of `BuildPath` is the start state, then the destination state, then `open.Add(startNode)`, in that order |
| Reset.BeginSearching | Astar/Astar.cs:546-553 | after the head, the loop invariant holds with the start node the only open node |
| Reset.BeginLinks | Astar/Astar.cs:546-551 | the head keeps lists, idle nodes, ranks and the tree valid |
| Reset.BeginFields | Astar/Astar.cs:546-551 | the head changes only the states of the start and destination nodes |
| Reset.BeginRoles | Astar/Astar.cs:546-551 | after the head every node's role is consistent with its state |
| Plan.CloseStep | Astar/Astar.cs:561-566 | closing a node keeps the node set, ranks, connections and types |
| Plan.RelaxStep | Astar/Astar.cs:568-582 | relaxing a neighbour keeps the node set, connections, types, the closed list, end points and committed path |
| Plan.CloseSplit | Astar/Astar.cs:561-566 | `CloseStep` is the destination assignment, then `Remove`/`Add` between the lists, then the closed state |
| Plan.RelaxSplit | Astar/Astar.cs:572-581 | past the skip test, `RelaxStep` is the destination assignment, then (when not open or improved) the parent assignment and, when not open, the enqueue |
| Plan.RelaxAll | Astar/Astar.cs:568-582 | the inner `foreach` keeps the node set, connections, types, the closed list and end points |
| Plan.ExpandStep | Astar/Astar.cs:561-582 | one expanding iteration keeps the node set, connections and types |
| Plan.CloseKeeps | Astar/Astar.cs:561-566 | closing the picked node keeps the loop invariant with that node pending |
| Plan.CloseLists | Astar/Astar.cs:563-564 | closing keeps the lists disjoint and duplicate-free, and keeps the set of listed nodes |
| Plan.CloseLinks | Astar/Astar.cs:561-566 | closing keeps idle nodes idle and parent links a ranked tree |
| Plan.CloseKeepsParents | Astar/Astar.cs:561-566 | closing changes no parent and no child |
| Plan.CloseTree | Astar/Astar.cs:561-566 | closing keeps the search tree |
| Plan.CloseRoles | Astar/Astar.cs:565-566 | closing keeps the roles and puts the node on the closed list |
| Plan.RelaxKeeps | Astar/Astar.cs:568-582 | relaxing a neighbour keeps the loop invariant, covers the neighbour and keeps covered nodes covered |
| Plan.RelaxLists | Astar/Astar.cs:569-580 | relaxing keeps the lists valid and at most appends the neighbour to the open list, which it does unless the neighbour is closed or obstructed |
| Plan.RelaxLinks | Astar/Astar.cs:574-581 | relaxing keeps idle nodes idle and parent links a ranked tree |
| Plan.Unclosed | Astar/Astar.cs:574-575 | no node hangs below a node that is not closed |
| Plan.AimLinks | Astar/Astar.cs:572-574 | the destination assignment alone keeps the tree |
| Plan.Relabel | Astar/Astar.cs:561-566 | changing states, children and H of listed nodes keeps the tree |
| Plan.OpenLinks | Astar/Astar.cs:574-580 | opening a new node below the expanded node keeps the tree |
| Plan.ReparentLinks | Astar/Astar.cs:574-575 | re-parenting an open node through a strictly smaller G keeps the tree |
| Plan.Hang | Astar/Astar.cs:575 | hanging a childless node below the closed node it is connected from keeps the tree |
| Plan.HangRanked | Astar/Astar.cs:575 | hanging a node one rank below its new parent keeps ranks strictly increasing down the tree |
| Plan.RelaxRoles | Astar/Astar.cs:576-580 | relaxing keeps the roles: a new open node is in the open state unless it is the destination |
| Plan.RelaxAllKeeps | Astar/Astar.cs:568-582 | the whole inner `foreach` keeps the loop invariant and covers every neighbour |
| Plan.Settle | Astar/Astar.cs:568-582 | once every neighbour is covered, nothing is pending |
| Plan.ExpandKeeps | Astar/Astar.cs:561-582 | an expanding iteration keeps the loop invariant and closes exactly the expanded node |
| Plan.RelaxLowers | Astar/Astar.cs:574-575 | relaxing changes only the neighbour's G, lowers it when the neighbour is open, keeps it when closed, and any new G is the G through the expanded node |
| Plan.RelaxAllLowers | Astar/Astar.cs:568-582 | the inner `foreach` never raises the G of an open node, keeps it open, and keeps the G of closed nodes |
| Plan.ExpandLowers | Astar/Astar.cs:561-582 | an iteration keeps every listed node listed and never raises its G |
| Plan.CommittedCosts | Astar/Astar.cs:255-269 | along a committed path each node's G is its predecessor's G plus the step between them |
| Plan.CommittedCostsRise | Astar/Astar.cs:255-269 | with non-negative distances G never decreases along a committed path |
| Run.LowestAt | Astar/Astar.cs:612-618 | the position the scan of `LowestFscoreInOpen` finds is on the list |
| Run.LowestFirst | Astar/Astar.cs:612-618 | that node has the least F on the open list, and every earlier node has a strictly greater F |
| Run.ClosedFits | Astar/Astar.cs:553 | the closed list is no longer than the graph, so the loop ends |
| Run.Explore | Astar/Astar.cs:553-583 | the loop ends in a consistent engine with the same nodes and end points: either failed with an empty open list, or with a committed path ending at the destination and beginning at the start node (or the destination alone) |
| Run.ExploreShape | Astar/Astar.cs:553-583 | the loop keeps every node's connections and type |
| Run.ExploringLists | Astar/Astar.cs:553 | during the loop open nodes are graph nodes and the closed list fits the graph |
| Run.ExploreFinds | Astar/Astar.cs:555-558 | an iteration that picks a node in the destination state reconstructs the path |
| Run.ExploreExpands | Astar/Astar.cs:561-582 | an iteration that does not stops expands the node, keeping the loop towards the same outcome |
| Run.ExploreLowers | Astar/Astar.cs:568-582 | over the whole loop no listed node's G rises (monotone relaxation) |
| Run.StepLowers | Astar/Astar.cs:561-582 | one expanding iteration closes one more node and keeps listed nodes listed with no higher G |
| Run.ExploreFails | Astar/Astar.cs:585-587 | the loop fails only when no walkable route leads from the start node to the destination |
| Run.RouteKept | Astar/Astar.cs:568-570 | a route stays a route while connections and types stay |
| Run.Build | Astar/Astar.cs:543-588 | `BuildPath` ends consistent with the given start and destination, keeps the graph, and a committed path ends at the destination and begins at the start |
| Run.Restart | Astar/Astar.cs:522-541 | `StartSearch` ends the same way from any idle engine |
| Run.ForgetKeeps | Astar/Astar.cs:526-539 | the reset keeps connections and types |
| Run.BeginKeeps | Astar/Astar.cs:546-551 | the head of `BuildPath` keeps connections and types |
| Run.BuildFails | Astar/Astar.cs:585-587 | `BuildPath` fails only when no walkable route joins its end points |
| Run.RestartFails | Astar/Astar.cs:585-587 | a new search fails only when no walkable route joins its end points |
| Trace.SearchingSettled | Astar/Astar.cs:553-558 | what the loop keeps is enough for `ReconstructPath` |
| Trace.Lift | Astar/Astar.cs:595-598 | the parent links down to the current node, and a closed parent goes to the path state; nothing else changes |
| Trace.LiftSplit | Astar/Astar.cs:595-598 | `Lift` is the child assignment, then the path state |
| Trace.Retrace | Astar/Astar.cs:590-606 | `ReconstructPath` keeps the node set, types, connections and G |
| Trace.LiftParented | Astar/Astar.cs:595 | linking down keeps every parent a graph node |
| Trace.RetraceCommits | Astar/Astar.cs:590-606 | on a settled search `ReconstructPath` commits a walkable, linked path from the start node to the destination, or the destination alone when a stale mark stopped the search |
| Trace.TraceFrom | Astar/Astar.cs:593-604 | the rest of the loop from any iteration ends at the start node or at a stale destination |
| Trace.TraceUp | Astar/Astar.cs:594-603 | an iteration that moves up never passes the bound, because the chain is no longer than the graph |
| Trace.RetraceMoves | Astar/Astar.cs:594-599 | one iteration where the current node has a parent lifts it and moves up |
| Trace.RetraceWaits | Astar/Astar.cs:593-604 | one iteration where the current node has no parent only counts |
| Trace.Ascending | Astar/Astar.cs:593-596 | ranks strictly decrease up a parent chain |
| Trace.TraceTooLong | Astar/Astar.cs:600 | a parent chain is no longer than the graph |
| Trace.TraceMove | Astar/Astar.cs:594-599 | one iteration that moves up keeps the loop invariant |
| Trace.TraceMoveTouched | Astar/Astar.cs:595-598 | the loop changes only children and path states |
| Trace.ParentClosed | Astar/Astar.cs:574-575 | every parent is a closed graph node |
| Trace.TraceMoveChain | Astar/Astar.cs:596 | the walked chain grows by a node not yet on it |
| Trace.TraceMoveLifted | Astar/Astar.cs:595-598 | each node of the walked chain links down to the next |
| Trace.TraceStuck | Astar/Astar.cs:593-604 | only a stale, unlisted destination has no parent without being the start, and then nothing is touched |
| Trace.CommitAlone | Astar/Astar.cs:600-605 | giving up at the destination commits the destination alone |
| Trace.RetraceStops | Astar/Astar.cs:600-605 | at the bound the loop stops and commits what it walked |
| Trace.TraceDone | Astar/Astar.cs:605 | reaching the start node commits the walked path |
| Trace.TraceKeeps | Astar/Astar.cs:590-606 | the loop keeps the engine invariant apart from the committed path |
| Trace.TraceWired | Astar/Astar.cs:590-606 | the loop keeps connections and lists valid |
| Trace.TraceValid | Astar/Astar.cs:590-606 | the walked path from the destination to the start node is a valid committed path |
| Trace.TraceRoute | Astar/Astar.cs:590-606 | the walked path is a walkable route |
| Trace.TraceLinked | Astar/Astar.cs:595 | consecutive nodes of the walked path are linked both ways |
| Trace.Walked | Astar/Astar.cs:627-632 | the nodes `NodeInPath` compares are graph nodes not in the start state, beginning at its first node when that is not the start |
| Trace.InPathCommitted | Astar/Astar.cs:625-634 | `NodeInPath(n)` holds exactly when a path is committed and `n` is on it, except the first node when it is in the start state |
| Trace.WalkedPrefix | Astar/Astar.cs:627-632 | the walk from the k-th committed node visits exactly the committed nodes up to it (the first only when not the start) |
| Trace.Retyped | Astar/Astar.cs:325-343 | the type setter changes only that node's type |
| Trace.WalkedRetyped | Astar/Astar.cs:625-634 | the walk of `NodeInPath` does not look at types |
| Trace.RetypeKeeps | Astar/Astar.cs:500-501 | retyping keeps what `NodeInPath` finds, and the engine invariant unless it obstructs a node `NodeInPath` finds |
| Trace.RetypeWalk | Astar/Astar.cs:500-501 | retyping keeps ranks and what `NodeInPath` finds |
| Trace.RetypeLinks | Astar/Astar.cs:495-500 | retyping keeps lists, idle nodes and the tree |
| Trace.RetypeCommitted | Astar/Astar.cs:500 | the committed path survives a retype that does not obstruct one of its nodes after the first |
| Trace.MarkWalkable | Astar/Astar.cs:494-496 | one marking turn changes only node fields |
| Trace.Clearing | Astar/Astar.cs:491-497 | the marking loop changes only node fields |
| Trace.ClearingMore | Astar/Astar.cs:491-497 | the marking loop one turn further is one more `MarkWalkable` |
| Trace.ClearingKinds | Astar/Astar.cs:488-497 | after the marking loop a met node is walkable unless it was obstructed (which stays obstructed); every other node is as it was |
| Trace.ClearingTwice | Astar/Astar.cs:491-497 | reporting the same clear segment twice changes nothing the second time |
| Trace.ClearingKeeps | Astar/Astar.cs:491-497 | the marking loop keeps the engine invariant and what `NodeInPath` finds |
| Trace.ClearingLinks | Astar/Astar.cs:491-497 | the marking loop keeps an engine ready for a new search |
| Trace.MarkLinks | Astar/Astar.cs:494-496 | one marking turn keeps an engine ready for a new search |
| Trace.Reported | Astar/Astar.cs:485-500 | a depth report changes only node fields and leaves an engine ready for a new search |
| Trace.ReportedKinds | Astar/Astar.cs:485-500 | a report obstructs the hit node, never frees an obstructed node, makes the other met nodes walkable and leaves the rest |
| Trace.ReportedKeeps | Astar/Astar.cs:485-501 | a report keeps what `NodeInPath` finds and keeps the engine invariant unless the hit node is on the path `NodeInPath` walks |
| Trace.ReportedSettled | Astar/Astar.cs:485-500 | a report changes nothing when its hit node is already obstructed and every met node is walkable or obstructed |
| Trace.ReportedTwice | Astar/Astar.cs:485-500 | repeating a report changes nothing |
| Trace.Along | Astar/Astar.cs:491 | the loop counter is never negative for a non-negative step |
| Trace.AlongGrows | Astar/Astar.cs:491 | after j more steps the counter has grown by j steps |
| Trace.SampleBound | Astar/Astar.cs:491 | with a positive step some whole number of steps reaches the length, so the loop ends |
| Trace.Fewer | Astar/Astar.cs:491 | below that bound the loop has steps left |
| Trace.ZeroStepNeverEnds | Astar/Astar.cs:491 | with a step of 0 the counter stays below any positive length for ever |
| Trace.CommittedDistinct | Astar/Astar.cs:590-606 | a committed path has no repeated node |
| Trace.AdvanceKeeps | Astar/Astar.cs:474-483 | `MoveDirection` keeps the engine invariant, stays put at the destination, and from the k-th committed node moves, when near, to the (k+1)-th |
| Trace.AdvanceStep | Astar/Astar.cs:478-480 | the step of `MoveDirection` changes only the next node, to a committed node, one step along the path when near |
| Trace.Renext | Astar/Astar.cs:480 | moving the next node along the committed path keeps the engine invariant |
| Trace.RouteClosed | Astar/Astar.cs:553-583 | when the open list runs dry, every node a walkable route from the start reaches is closed |
| Trace.Unreachable | Astar/Astar.cs:585-587 | a search that empties its open list proves no walkable route reaches the destination |
| Search.Kinds | Astar/Astar.cs:325-343 | the type map has the graph's nodes as keys |
| Search.KindsKept | Astar/Astar.cs:325-343 | engines with the same types have the same type map |
| Search.RestatedKinds | Astar/Astar.cs:294-302 | the state setter keeps every type |
| Search.BuildPicks | Astar/Astar.cs:546-549 | a search keeps its end points the nodes `NearestUnobstructedNode` picks on the graph it leaves behind |
| Search.SampledEach | Astar/Astar.cs:491-493 | each marked node is the node closest to its sample point, which lies below the length |
| Search.SampledMore | Astar/Astar.cs:491-493 | one more sample point extends the marked nodes |
| Search.Astar.constructor | Astar/Astar.cs:447-455 | `Astar()` then `SetSearchSpace` gives a valid engine with no search over a fresh n x n graph of pristine nodes |
| Search.Astar.PickedFrom | Astar/Astar.cs:103-118 | what `NearestUnobstructedNode` returns is the pick on the graph's types |
| Search.Astar.GraphFits | Astar/Astar.cs:600 | the graph is wired and no larger than `graph.Length` |
| Search.Astar.Pristine | Astar/Astar.cs:447-455 | a graph of untouched nodes with empty lists is a valid engine |
| Search.Astar.SetParentOf | Astar/Astar.cs:255-269 | the parent setter on the engine changes only that node's parent and G |
| Search.Astar.SetChildOf | Astar/Astar.cs:271-277 | the child setter on the engine changes only that node's child |
| Search.Astar.SetDestinationOf | Astar/Astar.cs:279-292 | the destination setter on the engine changes only that node's destination and H |
| Search.Astar.SetStateOf | Astar/Astar.cs:294-323 | the state setter on the engine changes only that node's state |
| Search.Astar.SetTypeOf | Astar/Astar.cs:325-343 | the type setter on the engine changes only that node's type |
| Search.Astar.ClearNode | Astar/Astar.cs:527-530 | the body of a reset loop clears one node |
| Search.Astar.ClearAll | Astar/Astar.cs:526-531 | one reset loop clears exactly the nodes on the list |
| Search.Astar.ClearClosed | Astar/Astar.cs:526-532 | the closed nodes are cleared and the closed list emptied |
| Search.Astar.ClearOpen | Astar/Astar.cs:533-539 | the open nodes are cleared and the open list emptied |
| Search.Astar.ForgetSearch | Astar/Astar.cs:523-539 | the first half of `StartSearch` is `Reset.Forget` |
| Search.Astar.DropEnds | Astar/Astar.cs:524-525 | the start and next nodes are dropped |
| Search.Astar.StartSearch | Astar/Astar.cs:522-541 | the start and destination are the nodes `NearestUnobstructedNode` picks for the bot and the target, and the engine becomes `Run.Restart` of the old one |
| Search.Astar.Rebuild | Astar/Astar.cs:540 | `BuildPath` on the reset engine |
| Search.Astar.BuildPath | Astar/Astar.cs:543-588 | picks the end points as `NearestUnobstructedNode` does and the engine becomes `Run.Build` of the old one |
| Search.Astar.Tail | Astar/Astar.cs:551-583 | from the opened start node the engine becomes `Run.Build` |
| Search.Astar.Loop | Astar/Astar.cs:553-583 | the loop of `BuildPath` is `Run.Explore` |
| Search.Astar.Iterate | Astar/Astar.cs:554-582 | one iteration either reconstructs the path and ends at the loop's outcome, or closes one more node towards it |
| Search.Astar.Finish | Astar/Astar.cs:555-558 | picking a node in the destination state reconstructs the path, which is the loop's outcome |
| Search.Astar.Advance | Astar/Astar.cs:560-582 | an expanding iteration keeps the loop invariant and closes one more node |
| Search.Astar.Head | Astar/Astar.cs:546-551 | the head of `BuildPath` picks the end points as `NearestUnobstructedNode` does and is `Reset.Begin` |
| Search.Astar.FindEnds | Astar/Astar.cs:546-549 | the start and destination nodes are picked and placed in their states |
| Search.Astar.FindStart | Astar/Astar.cs:546-547 | the start node is the pick for the bot position, in the start state |
| Search.Astar.FindDestination | Astar/Astar.cs:548-549 | the destination node is the pick for the target, in the destination state |
| Search.Astar.Pick | Astar/Astar.cs:103-118 | `NearestUnobstructedNode` returns the pick on the graph's types |
| Search.Astar.PlaceStart | Astar/Astar.cs:547 | the start node goes to the start state |
| Search.Astar.PlaceDestination | Astar/Astar.cs:549 | the destination node goes to the destination state |
| Search.Astar.OpenStart | Astar/Astar.cs:551 | `open.Add(startNode)` |
| Search.Astar.Expand | Astar/Astar.cs:561-582 | an expanding iteration is `Plan.ExpandStep` |
| Search.Astar.Close | Astar/Astar.cs:561-566 | the head of an iteration is `Plan.CloseStep` |
| Search.Astar.Shift | Astar/Astar.cs:563-564 | `open.Remove` then `closed.Add` |
| Search.Astar.Mark | Astar/Astar.cs:565-566 | the closed state unless the start |
| Search.Astar.Relax | Astar/Astar.cs:568-582 | one pass of the inner `foreach` is `Plan.RelaxStep` |
| Search.Astar.Offer | Astar/Astar.cs:574-581 | no change unless the neighbour is new or improved; then re-parented, and enqueued when new |
| Search.Astar.Hang | Astar/Astar.cs:575 | `n.parent = c`, with `n` ranked below `c` |
| Search.Astar.Enqueue | Astar/Astar.cs:576-580 | `open.Add(n)`, and the open state unless the destination |
| Search.Astar.ReconstructPath | Astar/Astar.cs:590-606 | the loop is `Trace.Retrace` from the destination |
| Search.Astar.LinkUp | Astar/Astar.cs:595-598 | the parent links down to the current node and is promoted if closed |
| Search.Astar.Promote | Astar/Astar.cs:597-598 | a closed node goes to the path state |
| Search.Astar.Commit | Astar/Astar.cs:605 | `nextNodeInPath = current` |
| Search.Astar.SetBotPosition | Astar/Astar.cs:466-468 | records the position and changes nothing else |
| Search.Astar.SetDestination | Astar/Astar.cs:457-460 | records the target and starts a search towards the node picked for it from the node picked for the bot |
| Search.Astar.MoveDirection | Astar/Astar.cs:474-483 | without a path returns zero and changes nothing; otherwise records the bot position, advances the next node along the committed path when the bot is within 0.6 spacings (never past the destination), and points from the bot to the next node |
| Search.Astar.Follow | Astar/Astar.cs:476-480 | the body of `MoveDirection` past its null test is `Trace.Advance` |
| Search.Astar.DepthData | Astar/Astar.cs:485-503 | the marked nodes are the nodes closest to the points sampled every spacing along the segment; the hit node exists exactly when an obstruction is reported and is the node closest to `end`; a search starts again exactly when `NodeInPath` finds the hit node, and the engine is then `Run.Restart` of the reported engine, else the reported engine; the engine invariant `Valid()` holds again afterwards |
| Search.Astar.React | Astar/Astar.cs:485-503 | `DepthData` from a given engine value |
| Search.ReactedKinds | Astar/Astar.cs:485-502 | after a report the hit node is obstructed, obstructed nodes stay obstructed, the other marked nodes are walkable and every other node keeps its type; no node is added or removed |
| Search.ReactedConsistent | Astar/Astar.cs:485-502 | a report, with or without the search it restarts, keeps the engine invariant and the node set |
| Search.Astar.Revalid | Astar/Astar.cs:54-80 | the engine invariant holds whenever the arena is intact and the engine snapshot is consistent and within the node bound |
| Search.Astar.Report | Astar/Astar.cs:498-502 | the obstructed branch: a hit exactly when obstructed, closest to `end`, and the reaction of `DepthData` |
| Search.Astar.Strike | Astar/Astar.cs:499-501 | the node obstructs and the search restarts exactly when `NodeInPath` finds it |
| Search.Astar.Sweep | Astar/Astar.cs:491-497 | the marking loop ends, marks the nodes closest to the sample points, and is `Trace.Clearing` over them |
| Search.Astar.Visit | Astar/Astar.cs:492-493 | the next sample's nearest node extends the marked nodes |
| Search.Astar.Locate | Astar/Astar.cs:493 | `NearestNode` returns the closest node and changes nothing |
| Search.Astar.Sample | Astar/Astar.cs:494-496 | the loop body is `Trace.MarkWalkable` |
| Search.Astar.Obstruct | Astar/Astar.cs:499-501 | the node obstructs; the search restarts exactly when `NodeInPath` finds it, from the picked end points |
| Search.Astar.Block | Astar/Astar.cs:500-501 | `n.type = obstructed`, then `NodeInPath(n)` answers on the retyped engine |
| Search.Astar.Replan | Astar/Astar.cs:501 | `StartSearch` on the engine an obstruction left |
| Search.Astar.SearchComplete | Astar/Astar.cs:505-507 | true exactly when a path is committed; it then ends at the destination node and contains the next node |
| Search.Astar.LowestFscoreInOpen | Astar/Astar.cs:612-618 | returns the open node `Run.LowestAt` gives: least F, the first of equals |
| Search.Astar.NodeInPath | Astar/Astar.cs:625-634 | the result is `Trace.InPath`, which `Trace.InPathCommitted` ties to the committed path |

## Left out

- Colour bookkeeping in the `state` and `type` setters and `Node.color`: rendering only; the model keeps `hasChanged`.
- `hasChanged` is not part of the `Engine` snapshot: only the renderer reads it.
- `Debug.LogWarning` and `Debug.LogError` (Astar/Astar.cs:586, 601): logging; the paths that log are modelled.
- `Search.Astar.MoveDirection`: returns the unnormalised vector from the bot to the next node rather than `.normalized`, because the reals have no square root; the direction is the same, the length is not.
- `SquareGraph.DrawGizmos`, `Node.DrawGizmos`, `Astar.DrawGizmos` and the commented-out renderer: editor drawing.
- `RevealObstacles` and `Node.CheckForObstacles`: they throw `NotImplementedException` or call `Physics.CheckSphere`, a physics query.
- `GetDestination` and `GetBotPosition`: plain getters of `target` and `botposition`.
- Calls before `SetSearchSpace`, which throw `NullReferenceException` in the source: the model's constructor builds the graph, so no engine without a graph exists.
- Calling `SetSearchSpace` again: `graphData` is a constant of the model.
- The static `node_count` that numbers nodes across all graphs: a node's index is its arena slot, which is what the counter gives the first graph.
- The `Mathf.Infinity` start value of the nearest-node scans: a `seen` flag stands for "no distance yet".
- `float` arithmetic is modelled on exact reals: no rounding, no infinities.
- `Vector3.Distance` is a parameter (`Metric`), non-negative where the constructor requires it; it is not defined as the Euclidean norm.
- `Search.Astar.DepthData`: requires a positive grid spacing or a segment of length 0. With a spacing of 0 and a positive length the source's loop never ends (see Findings).
- `Search.Astar.DepthData`: the loop counter `dist += spacing` is modelled as exact `k * spacing` (`Trace.Along`), not as a float accumulation.
- `Search.Astar.SetDestination`: requires the engine invariant `Valid()`, which the constructor establishes and the public methods keep; `StartSearch`, which is private, requires the weaker `Ready()` that holds at each of its two call sites.

## Findings

| source | as written | input that shows it | evidently intended | confidence | as-written member | corrected member |
|---|---|---|---|---|---|---|
| Astar/Astar.cs:491 | the marking loop of `DepthData` adds `graphData.spacing` to its counter until it reaches the segment length | a search space with no extent along x and z (spacing 0) and a report with `start != end` | the loop ends after finitely many samples | high; not executed | Trace.ZeroStepNeverEnds | Search.Astar.Sweep |
