# MazeRunner maze engine in Dafny

This project models the engine of MazeRunner, a console maze generator and solver written in Java. The model covers the following.

- **Generation.** `Maze.generate` normalises the requested size to an odd side of at least 5 and fills the grid with walls. It grows a randomized spanning tree over the odd interior cells (`generateGraph`, `searchForFrontierNodes`, `getNextSeed`, `generateInitialSeed`, `isValidNode`). It paints every edge of that graph as passage (`displayGraphOnGrid`, `pavePathBetweenCellsOnGridWithIdentifier`). Finally it binds an entrance on the west wall and an exit on the east wall to the tree with weight-1 edges (`createEntrances`, `bindNewNodeToGraph`).
- **Solving.** `Maze.findPaths` is Dijkstra's search from the entrance and returns a predecessor map. While it runs, it removes reverse edges from the graph's own queues. `Maze.displayEscapePath` follows that map back from the exit and paints the route.
- **Data model.** `Graph` maps each node to the priority queue of the edges it originates. A `Node` is a coordinate plus an edge set. An `Edge` is a target node plus a weight. A `Cell` is an integer coordinate with `shift`. `Direction` holds the four unit vectors.

## Layout

| file | module | contents |
|---|---|---|
| `wrappers.dfy` | `Wrappers` | `Option` (a nullable reference), the exceptions, `Result` and `Outcome` |
| `direction.dfy` | `Directions` | `Direction`, `Values` (the enum's `values()`), `Opposite` |
| `cell.dfy` | `Cells` | `Cell` with `Shift`, `Equals`, `HashCode`, `CompareTo` |
| `edge.dfy` | `Edges` | `Edge` with `CompareTo`, `Equals`, `HashCode` |
| `node.dfy` | `Nodes` | `Node` with `AddEdge`, `Equals`, `HashCode`, `CompareTo`; `GetEdgeTo` |
| `graph.dfy` | `Graphs` | class `Graph`; the adjacency invariants and the `Link` step |
| `segment.dfy` | `Segments` | grid cell kinds, the straight segments painting writes |
| `random.dfy` | `Randomness` | class `Random`: the random source as a stream of draws |
| `generation.dfy` | `Generation` | value-level facts behind generation and entrance binding |
| `paths.dfy` | `ShortestPaths` | predecessor trees, the escape route, the search state, `PollMin` |
| `maze.dfy` | `Mazes` | class `Maze`: every `Maze.java` operation as a method |

### How the Java types map to Dafny

- **Node identity.** Java nodes are equal when their coordinates are. The graph is therefore keyed by `Cell`, and an edge names its target by cell.
- **Graph.** `Graph.adjacencyList` keeps each priority queue as a multiset of its contents. `Graph.keyNodes` keeps the `Node` object that is each key, with that node's own edge set. The Java code shares `Edge` objects between a node's edge set and its queue. Here they are two values that the model keeps equal.
- **Mutable state.** `Graph`, `Maze` and `Random` are classes whose methods update their fields. The grid is an `array2<int>`, indexed `grid[x, y]` as in Java. The frontier list is a `seq<Cell>`.
- **Null and exceptions.** `null` is `None`. A thrown exception is a `Fail(...)` outcome or an `Err(...)` result.
- **Shapes the model names:**
  - `Generation.LatticeShape`: the graph while generation grows it, as a subgraph of the lattice of node sites, with at most one edge per neighbour in each queue. It states no connectivity.
  - `Generation.Opened`: the graph once the entrance and the exit are bound; it includes `Generation.Pendant`: the entrance and the exit each hang on the node beside them by their one weight-1 edge, and every other edge has weight 2.
  - `Mazes.Maze.Generated`: what a successful `generate` leaves.
  - `ShortestPaths.PredecessorTree`: what `findPaths` returns.
  - `ShortestPaths.Closed`: no edge leads from a node `findPaths` reached to one it did not.
  - `ShortestPaths.SearchSafe`: a graph that `findPaths` searches without a NullPointerException. Its edges come in symmetric pairs, each queue holds at most one edge per neighbour, and the queues agree with the nodes' edge sets. Every generated maze is one (`Mazes.Maze.GeneratedSearchSafe`).
  - `ShortestPaths.Mirrored` and `ShortestPaths.Unwinding`: the invariant that keeps the for-each of `findPaths` from throwing on such a graph. Among the nodes still in the local adjacency map, every queued edge leads to such a node, and that node still queues the edge back. While a polled node's queue is scanned, an edge back to it remains only opposite an edge not yet visited.

## Model

| member | source | states |
|---|---|---|
| Cells.Cell.CompareTo | src/aleos/maze/general/Cell.java:89-97 | zero exactly for equal cells; negative exactly when x is smaller, or x is equal and y is smaller; positive in the mirrored case |
| Cells.ShiftAlongOneAxis | src/aleos/maze/general/Cell.java:48-52 | a shift by k moves the cell along exactly one axis by exactly k |
| Cells.ShiftZero | src/aleos/maze/general/Cell.java:48-52 | a shift by 0 gives back an equal cell |
| Cells.ShiftBack | src/aleos/maze/general/Cell.java:48-52 | shifting by k, then by k in the opposite direction, restores the cell |
| Cells.ShiftsDiffer | src/aleos/maze/general/Cell.java:48-52 | shifts by the same nonzero distance in two different directions reach different cells |
| Cells.EqualsIsIdentity | src/aleos/maze/general/Cell.java:61-69 | equals holds exactly when both coordinates agree |
| Cells.EqualCellsHashAlike | src/aleos/maze/general/Cell.java:77-81 | equal cells have equal hash codes |
| Cells.CompareIsTotalOrder | src/aleos/maze/general/Cell.java:89-97 | compareTo is antisymmetric in sign and transitive |
| Directions.Opposite | src/aleos/maze/general/Direction.java:8 | the opposite direction has both components negated and differs from the original |
| Directions.ValuesAreAllDirections | src/aleos/maze/general/Direction.java:8 | values() has four entries, NORTH, EAST, SOUTH, WEST in that order; it lists every direction, each once |
| Edges.Edge.CompareTo | src/aleos/maze/graph/Edge.java:56-58 | the sign of the comparison is the sign of the weight difference |
| Edges.EqualsIsIdentity | src/aleos/maze/graph/Edge.java:67-75 | equals holds exactly when the weights and the target nodes are equal |
| Edges.EqualEdgesAgree | src/aleos/maze/graph/Edge.java:56-87 | equal edges have equal hash codes and compare as 0 |
| Nodes.Node.AddEdge | src/aleos/maze/graph/Node.java:22-24 | the coordinate stays; the edge set gains the edge and nothing else |
| Nodes.NewNode | src/aleos/maze/graph/Node.java:14-16 | a new node has the given coordinate and no edges |
| Nodes.GetEdgeTo | src/aleos/maze/graph/Node.java:54-59 | a result is an edge of the node aimed at the target; there is no result exactly when no edge aims at the target |
| Nodes.AddEdgeIdempotent | src/aleos/maze/graph/Node.java:22-24 | adding an edge the set already holds changes nothing; adding twice is adding once |
| Nodes.EqualsByCoordinate | src/aleos/maze/graph/Node.java:28-40 | two nodes are equal exactly when their coordinates are; equal nodes hash alike |
| Nodes.Node.CompareTo | src/aleos/maze/graph/Node.java:50-52 | zero exactly for nodes at the same coordinate; negative exactly when the coordinate's x is smaller, or equal with a smaller y; positive in the mirrored case |
| Nodes.CompareByCoordinate | src/aleos/maze/graph/Node.java:50-52 | node order is the coordinates' order, ignores the edge set, and is 0 exactly for equal nodes |
| Graphs.Graph.constructor | src/aleos/maze/graph/Graph.java:14 | a new graph has no nodes |
| Graphs.Graph.GetNodes | src/aleos/maze/graph/Graph.java:21-23 | the returned set holds exactly the nodes contains() accepts |
| Graphs.Graph.GetAdjacencyNodes | src/aleos/maze/graph/Graph.java:40-42 | null exactly for a node never added, otherwise that node's queue |
| Graphs.Graph.AddNode | src/aleos/maze/graph/Graph.java:30-32 | afterwards the node is contained and no node is lost; an absent node gets an empty queue; a present node's queue and key object are untouched |
| Graphs.Graph.Offer | src/aleos/maze/general/Maze.java:169-173 | an offer into the live queue of a node changes that queue only, by one occurrence of the edge; no node is lost |
| Graphs.Graph.Remove | src/aleos/maze/general/Maze.java:125 | a removal from the live queue of a node takes one occurrence of the edge from that queue only; no node is lost |
| Graphs.Graph.AddEdgeToNode | src/aleos/maze/general/Maze.java:168-172 | addEdge on a key node changes that node's edge set only, and no queue; no node is lost |
| Graphs.LinkKeepsSymmetric | src/aleos/maze/general/Maze.java:167-173 | linking a new node by an edge pair keeps every edge matched by its reverse of the same weight |
| Graphs.LinkKeepsDistinct | src/aleos/maze/general/Maze.java:167-173 | linking a new node keeps at most one edge per neighbour in every queue |
| Graphs.LinkKeepsWellFormed | src/aleos/maze/general/Maze.java:167-173 | linking a new node by an edge pair that spans its positive weight keeps every edge spanning its weight along one axis |
| Graphs.ShrinkQueue | src/aleos/maze/general/Maze.java:125 | removing an edge from a queue keeps every queue within the one the search started from |
| Graphs.ShrinkKeepsWellFormed | src/aleos/maze/general/Maze.java:125 | removing edges, never nodes, keeps the graph well formed |
| Graphs.WellFormedLinksPositive | src/aleos/maze/general/Maze.java:117-119 | in a well-formed graph every edge has a positive weight and leads to another node |
| Generation.FrontierCellIsInterior | src/aleos/maze/general/Maze.java:156-165 | a valid cell two steps from an interior seed is interior (odd coordinates inside the wall) and two steps from the seed along one axis |
| Generation.FrontierCandidatesAre | src/aleos/maze/general/Maze.java:156-165 | a cell is appended exactly when it is not yet a node, passes isValidNode and lies two steps from the seed along a probed direction |
| Generation.FrontierCandidatesDistinct | src/aleos/maze/general/Maze.java:158-176 | probing distinct directions never appends the same cell twice |
| Generation.LinkAllKeys | src/aleos/maze/general/Maze.java:165 | linking the appended cells adds exactly those cells as nodes |
| Generation.LinkNodesAllKeys | src/aleos/maze/general/Maze.java:165 | linking the appended cells adds exactly those cells as key nodes |
| Generation.LinkKeepsEdgeSetsAgree | src/aleos/maze/general/Maze.java:165-173 | linking a new node keeps every queue equal to its key node's edge set |
| Generation.LinkAllKeepsLatticeShape | src/aleos/maze/general/Maze.java:156-179 | linking new interior cells two steps from a node, one after the other, keeps the lattice shape |
| Generation.OnSomeEdgeLink | src/aleos/maze/general/Maze.java:199-208 | after a new node is linked, the cells on some edge are those before plus exactly the new segment |
| Generation.OnEdgeInAdd | src/aleos/maze/general/Maze.java:201-206 | painting one more edge of a node adds exactly that edge's segment |
| Generation.OnEdgeFromAddSource | src/aleos/maze/general/Maze.java:200-207 | painting one more node's queue adds exactly the segments of its edges |
| Generation.LatticeFitsGrid | src/aleos/maze/general/Maze.java:199-208 | after generation every node is a valid node, and every edge's segment lies on the grid |
| Generation.LatticeNodesAreValid | src/aleos/maze/general/Maze.java:331-337 | after generation every node passes isValidNode |
| Generation.BorderCellsAreFree | src/aleos/maze/general/Maze.java:245-250 | the wall cells beside two valid nodes are not nodes |
| Generation.EntrancesAreNew | src/aleos/maze/general/Maze.java:245-251 | the entrance and the exit are new to the graph and to each other |
| Generation.EntrancesKeepSymmetric | src/aleos/maze/general/Maze.java:260-272 | binding the entrance and the exit keeps every edge matched by its reverse |
| Generation.EntrancesKeepWellFormed | src/aleos/maze/general/Maze.java:260-272 | binding the entrance and the exit keeps every edge spanning its weight |
| Generation.EntrancesKeepEdgeSetsAgree | src/aleos/maze/general/Maze.java:263-271 | binding the entrance and the exit keeps every queue equal to its node's edge set |
| Generation.EntrancesKeepDistinct | src/aleos/maze/general/Maze.java:260-272 | binding the entrance and the exit keeps one edge per neighbour in every queue |
| Generation.EntrancesKeepSites | src/aleos/maze/general/Maze.java:245-251 | afterwards the entrance and the exit are nodes, and every other node is on an interior odd cell |
| Generation.EntrancesOpen | src/aleos/maze/general/Maze.java:231-252 | binding the entrance and the exit to a lattice-shaped graph yields the graph of a generated maze, with both ends pendant |
| Generation.EntrancesArePendant | src/aleos/maze/general/Maze.java:244-271 | after binding, the entrance's only edge is the weight-1 edge to the node east of it, the exit's only edge is the weight-1 edge to the node west of it, and every edge touching neither end keeps weight 2 |
| Generation.EntranceEdgeWeight | src/aleos/maze/general/Maze.java:262-271 | any one edge of the bound graph has weight 1 exactly when it starts or ends at the entrance or the exit, and 2 otherwise |
| Generation.LatticeOpensOnBorders | src/aleos/maze/general/Maze.java:231-252 | the above holds whichever west-wall node and east-wall node createEntrances picks |
| Generation.OpenedOnBorders | src/aleos/maze/general/Maze.java:245-251 | for a particular pick, the graph with the entrance and the exit bound beside it is that of a generated maze |
| Generation.EntrancesAddSegments | src/aleos/maze/general/Maze.java:245-251 | binding the entrance and the exit adds exactly their two segments to the cells on some edge |
| Generation.EntrancesRepaintCell | src/aleos/maze/general/Maze.java:261 | a cell painted from the graph and then repainted on the two new segments is PASSAGE exactly when it is on an edge of the new graph |
| Generation.EntrancesKeepColumns | src/aleos/maze/general/Maze.java:231-251 | binding the entrance at x = 0 and the exit at x = width - 1 leaves the columns x = 1 and x = width - 2 as they were, so the skips leave nodes after binding exactly when they did before |
| Generation.ColumnIgnores | src/aleos/maze/general/Maze.java:232-239 | adding cells outside a column leaves the nodes the column filter keeps as they were |
| Generation.SeedHasFrontier | src/aleos/maze/general/Maze.java:140-147 | the first expansion of an interior seed on a grid with odd sides of at least 5 finds a frontier cell |
| Generation.CandidatesFit | src/aleos/maze/general/Maze.java:156-165 | every cell an expansion appends is new, interior and two steps from the seed |
| Generation.SearchKeepsLatticeShape | src/aleos/maze/general/Maze.java:156-179 | one expansion keeps the lattice shape |
| Generation.SearchShrinksMissing | src/aleos/maze/general/Maze.java:156-179 | an expansion that appends cells leaves fewer interior cells outside the graph |
| Segments.PavedIdempotent | src/aleos/maze/general/Maze.java:306-322 | paving a segment a second time with the same value changes no cell |
| Segments.OnSegmentSymmetric | src/aleos/maze/general/Maze.java:306-322 | a segment holds the same cells whichever end it is painted from |
| Segments.SegmentEnds | src/aleos/maze/general/Maze.java:313-321 | a segment between aligned cells holds both ends; one between unaligned cells is empty |
| Segments.SegmentFitsBetweenInnerCells | src/aleos/maze/general/Maze.java:306-322 | a segment between two cells on the grid stays on the grid |
| ShortestPaths.EscapeRoute | src/aleos/maze/general/Maze.java:216-226 | the route starts at the end node, steps from each node to its predecessor, strictly descends in distance and stops at the first node without one |
| ShortestPaths.OnEscapePathIsOnRoute | src/aleos/maze/general/Maze.java:216-226 | displayEscapePath paints a cell exactly when it lies between two consecutive nodes of the route |
| ShortestPaths.EscapePaintIdempotent | src/aleos/maze/general/Maze.java:216-226 | painting the escape path a second time changes no cell |
| ShortestPaths.RouteEndsAtEntrance | src/aleos/maze/general/Maze.java:216-226 | when every reached node other than the entrance has a predecessor, the route from a reached node ends at the entrance |
| ShortestPaths.TreeDescends | src/aleos/maze/general/Maze.java:117-122 | along a predecessor tree, distances strictly decrease towards the entrance |
| ShortestPaths.TreeKeys | src/aleos/maze/general/Maze.java:117-122 | the reached nodes are the entrance and the nodes that have a predecessor |
| ShortestPaths.RouteStepsBack | src/aleos/maze/general/Maze.java:115-122 | following predecessors walks along edges of the graph whose weight is the drop in distance |
| ShortestPaths.EscapeRouteIsWalk | src/aleos/maze/general/Maze.java:115-122 | from any reached node, the route is such a walk and ends at the entrance |
| ShortestPaths.SearchStarts | src/aleos/maze/general/Maze.java:91-107 | the search starts with only the entrance, at distance 0, queued |
| ShortestPaths.PollKeeps | src/aleos/maze/general/Maze.java:110-111 | polling a nearest queued node keeps the search state, and no settled node is farther than it |
| ShortestPaths.RelaxKeepsTree | src/aleos/maze/general/Maze.java:117-122 | recording a shorter distance through a settled node keeps a predecessor tree |
| ShortestPaths.RelaxKeeps | src/aleos/maze/general/Maze.java:117-122 | a relaxed node is neither the entrance nor settled, and the search state is kept with it queued |
| ShortestPaths.PollMin | src/aleos/maze/general/Maze.java:106-111 | poll removes one entry of least current distance, and every other entry keeps its multiplicity |
| ShortestPaths.ExploredStarts | src/aleos/maze/general/Maze.java:91-107 | at the start no queue has shrunk, every node is in the local map and the entrance is queued |
| ShortestPaths.PollExplores | src/aleos/maze/general/Maze.java:110-113 | polling a node settles it and keeps what is explored; every reached node stays queued, gone from the local map, or is the polled one |
| ShortestPaths.RelaxExplores | src/aleos/maze/general/Maze.java:117-122 | lowering the distance of an unsettled node keeps every relaxed edge relaxed |
| ShortestPaths.RemoveExplores | src/aleos/maze/general/Maze.java:125-128 | removing an edge back to a reached node, and dropping an emptied node from the local map, keeps what is explored |
| ShortestPaths.SettleExplores | src/aleos/maze/general/Maze.java:131 | a node whose queue is relaxed may leave the local map |
| ShortestPaths.ExploredCloses | src/aleos/maze/general/Maze.java:110-134 | when the node queue runs empty, every edge of the original graph out of a reached node leads to a reached node |
| ShortestPaths.SafeToSearch | src/aleos/maze/general/Maze.java:114-128 | a graph whose edges come in symmetric pairs, with one edge per neighbour in each queue and queues equal to the nodes' edge sets, is safe to search |
| ShortestPaths.MirroredStarts | src/aleos/maze/general/Maze.java:98-103 | when the local adjacency map is first built from a graph safe to search, it is mirrored |
| ShortestPaths.UnwindStarts | src/aleos/maze/general/Maze.java:112-114 | a polled node still in a mirrored local map starts its for-each unwinding, with all its edges still to visit |
| ShortestPaths.BackIsReverse | src/aleos/maze/general/Maze.java:125 | on a graph safe to search, the edge getEdgeTo finds from the target back to the polled node is the reverse of the visited edge |
| ShortestPaths.UnwindStep | src/aleos/maze/general/Maze.java:114-128 | removing the reverse of the visited edge, and dropping its target from the local map when its queue is empty, keeps the for-each unwinding with that edge visited |
| ShortestPaths.SafeStep | src/aleos/maze/general/Maze.java:114-128 | on a graph safe to search, one pass of the for-each body keeps it unwinding |
| ShortestPaths.UnwindEnds | src/aleos/maze/general/Maze.java:131 | once every edge of the polled node is visited, removing it leaves the local map mirrored |
| ShortestPaths.ScanSafeStep | src/aleos/maze/general/Maze.java:114-128 | in a queue with one edge per neighbour, visiting an edge removes from the local map no node that an edge still to visit leads to |
| ShortestPaths.ClosedReachesAll | src/aleos/maze/general/Maze.java:89-135 | with the search closed, every node at the end of a walk from the entrance has a distance, and is the entrance or has a predecessor |
| Randomness.Random.constructor | src/aleos/maze/general/Maze.java:52 | the generator holds the given stream of draws |
| Randomness.Random.NextInt | src/aleos/maze/general/Maze.java:189 | the value lies in [0, bound) and comes from the next draw, which is consumed |
| Randomness.Random.NextIntBetween | src/aleos/maze/general/Maze.java:238 | the value lies in [origin, bound) |
| Mazes.Maze.constructor | src/aleos/maze/general/Maze.java:15-52 | a new maze has an empty graph, no grid cells, no entrance or exit, and an empty frontier |
| Mazes.Maze.Generate | src/aleos/maze/general/Maze.java:60-82 | below 5, IllegalArgumentException with a fresh empty graph and frontier and every other field untouched; otherwise an odd square side, skips drawn in [0, width / 2) and [width / 4, width / 2), and success exactly when each column next to a wall holds more nodes than its skip; success leaves a generated maze, whose entrance and exit each hang on a border node by one weight-1 pair with every other edge of weight 2; IllegalStateException leaves the grown graph painted on the grid |
| Mazes.Maze.FillWithBlocks | src/aleos/maze/general/Maze.java:72-76 | every grid cell is BLOCK |
| Mazes.Maze.Carve | src/aleos/maze/general/Maze.java:78-80 | the three steps on a blocked grid succeed exactly when each column next to a wall holds more nodes than its skip, and then leave a generated maze with both ends pendant; otherwise IllegalStateException with the grown graph painted on the grid and the old entrance and exit |
| Mazes.Maze.DrawGraph | src/aleos/maze/general/Maze.java:78-79 | the graph is grown with the lattice shape, every node is valid, and the grid is PASSAGE exactly on the cells of its edges |
| Mazes.Maze.OpenEntrances | src/aleos/maze/general/Maze.java:80 | on a painted graph, createEntrances fails exactly when a column next to a wall holds no more nodes than its skip, changing neither graph nor grid; otherwise it binds both ends beside border nodes and leaves a generated maze |
| Mazes.Maze.ConcludeEntrances | src/aleos/maze/general/Maze.java:245-251 | the facts createEntrances establishes on a painted graph make up a generated maze |
| Mazes.Maze.RepaintEntrances | src/aleos/maze/general/Maze.java:231-252 | on a grid painted from the graph, createEntrances succeeds exactly when each column next to a wall holds more nodes than its skip, and then leaves the grid painted from the graph with both ends bound |
| Mazes.Maze.CreateEntrances | src/aleos/maze/general/Maze.java:231-252 | skips in [0, width / 2) and [width / 4, width / 2); IllegalStateException exactly when a column next to a wall holds no more nodes than its skip, changing nothing; otherwise binds the entrance at x = 0 beside a west node and the exit at x = width - 1 beside an east node, and paints exactly their segments |
| Mazes.Maze.FindBorderNodes | src/aleos/maze/general/Maze.java:232-241 | the skips lie in [0, width / 2) and [width / 4, width / 2); both nodes are found exactly when each column holds more nodes than its skip, and then they are graph nodes at x = 1 and x = width - 2 |
| Mazes.Maze.BindEntrances | src/aleos/maze/general/Maze.java:245-251 | both ends are bound by weight-1 edge pairs, and exactly their two segments are painted |
| Mazes.Maze.BindEntrance | src/aleos/maze/general/Maze.java:245-247 | the entrance is one step west of the west node and is bound to it |
| Mazes.Maze.BindExit | src/aleos/maze/general/Maze.java:249-251 | the exit is one step east of the east node and is bound to it |
| Mazes.Maze.BindNewNodeToGraph | src/aleos/maze/general/Maze.java:260-272 | the graph gains the new node linked to the graph node by a weight-1 edge pair, and exactly the segment between them becomes PASSAGE |
| Mazes.Maze.BindEdges | src/aleos/maze/general/Maze.java:263-271 | both nodes gain the weight-1 edge to the other, in their edge sets and in their queues |
| Mazes.Maze.PavePathBetweenCells | src/aleos/maze/general/Maze.java:306-322 | exactly the cells of the inclusive vertical or horizontal segment take the value; every other cell keeps its value |
| Mazes.Maze.DisplayGraphOnGrid | src/aleos/maze/general/Maze.java:199-208 | exactly the cells on some edge become PASSAGE; the rest keep their value |
| Mazes.Maze.DisplayEscapePath | src/aleos/maze/general/Maze.java:216-226 | terminates, and exactly the cells of the escape path from the end node become PATH; with no predecessor nothing changes |
| Mazes.Maze.GenerateInitialSeed | src/aleos/maze/general/Maze.java:280-297 | the seed passes isValidNode, and along an odd side its coordinate is odd |
| Mazes.Maze.GetNextSeed | src/aleos/maze/general/Maze.java:186-194 | removes and returns the entry at an even index (index 0 for a single entry); the other entries keep their order |
| Mazes.Maze.LinkToSeed | src/aleos/maze/general/Maze.java:161-173 | the new cell becomes a node, and it and the seed gain the edge to each other |
| Mazes.Maze.SearchForFrontierNodes | src/aleos/maze/general/Maze.java:156-179 | the frontier grows by exactly the candidate cells, in probe order, and each is linked to the seed by a weight-2 edge pair |
| Mazes.SearchGrows | src/aleos/maze/general/Maze.java:156-179 | one expansion keeps the lattice shape, adds exactly the candidates, and leaves fewer interior cells missing unless it adds none and changes nothing |
| Mazes.ProbeIsNew | src/aleos/maze/general/Maze.java:160-163 | a probed cell is a node after the earlier probes exactly when it was one before them |
| Mazes.ProbeAdds | src/aleos/maze/general/Maze.java:163-176 | a probe that finds a new valid cell appends it and links it to the seed |
| Mazes.ProbeSkips | src/aleos/maze/general/Maze.java:163 | a probe that finds no new valid cell changes nothing |
| Mazes.Maze.GenerateGraph | src/aleos/maze/general/Maze.java:140-149 | the do-while terminates with an empty frontier, and the graph has the lattice shape |
| Mazes.Maze.ExpandAndDraw | src/aleos/maze/general/Maze.java:144-147 | one round keeps the lattice shape and makes progress: fewer interior cells are missing, or as many and the frontier is shorter |
| Mazes.Maze.Expand | src/aleos/maze/general/Maze.java:145 | an expansion keeps the lattice shape; it either adds nodes and leaves the frontier non-empty, or changes nothing; a lone seed always adds nodes |
| Mazes.Maze.FindPaths | src/aleos/maze/general/Maze.java:89-135 | with no entrance, NullPointerException and no change; with an entrance on a graph safe to search, no exception; on success a predecessor tree over the graph as it was, rooted at the entrance, closed under that graph's edges: every edge out of a reached node leads to a reached node; the graph's queues only lose edges |
| Mazes.Maze.GeneratedSearchSafe | src/aleos/maze/general/Maze.java:89-135 | the graph of a generated maze is safe to search, so findPaths after a successful generate throws nothing |
| Mazes.Maze.RelaxEdges | src/aleos/maze/general/Maze.java:114-130 | the for-each over a polled node's queue throws only NullPointerException; it does not throw when that queue's edges lead to distinct nodes all still in the local map, nor when the graph is safe to search and the local map is mirrored, which it then leaves mirrored without the polled node; on success it keeps the search state, leaves that queue as it was with every edge in it relaxed, and keeps what is explored with the node gone from the local map |
| Mazes.Maze.VisitEdge | src/aleos/maze/general/Maze.java:115-128 | one pass of the for-each body keeps the state of the for-each with that edge visited, and throws only when neither success condition of RelaxEdges holds, then changing nothing |
| Mazes.Maze.RelaxStep | src/aleos/maze/general/Maze.java:115-123 | the distance step for one more edge keeps the state of the for-each with that edge relaxed, or throws NullPointerException exactly when the target has no distance entry |
| Mazes.Maze.RemoveStep | src/aleos/maze/general/Maze.java:125-128 | taking the edge back out of the target's queue keeps the state of the for-each; exactly the edge getEdgeTo finds leaves that queue, and the target leaves the local map exactly when its queue is then empty |
| Mazes.Maze.RelaxEdge | src/aleos/maze/general/Maze.java:115-123 | NullPointerException exactly when the target has no distance entry; otherwise the target ends no farther than through the polled node, settled distances stay, and a shorter distance is recorded with its predecessor and queued, otherwise nothing changes |
| Mazes.Maze.RemoveEdgeBack | src/aleos/maze/general/Maze.java:125-128 | no edge is removed exactly when the target's node has no edge to the polled node; otherwise exactly one such edge leaves the target's queue; a target with an empty queue leaves the local map |

## Left out

- The console menu, its input and printing, and saving and loading (`MazeMenu.java`, `MazeMenuHandler.java`, `Option.java`) are I/O with nothing to verify.
- `Maze.toString`, `Maze.copyOf`, `Maze.isExist` and `Maze.getExit` are rendering, aliasing and null checks. None is modelled.
- `java.util.Random` is an injected stream of draws, each reduced into the requested range. No distribution is modelled. An exhausted stream answers with the lowest value of the range; a Java generator never runs out.
- Hash-set iteration order is not modelled. `getNodes().stream().filter(...).skip(k).findAny()` becomes a nondeterministic choice among the qualifying nodes, taken when more than `k` qualify. `getEdgeTo` picks any matching edge.
- Priority-queue internals are not modelled. The edge queues are multisets, so the ascending-weight order `Edge.compareTo` gives them does not appear. The node queue of `findPaths` is a sequence whose `poll` removes an entry of least *current* distance. The Java heap orders by a comparator that reads the mutable distance map, so its order can go stale and it may poll a different node.
- `Integer.MAX_VALUE` in the distance map is a missing entry. 32-bit overflow is not modelled in distances, in `hashCode`, or in the subtractions inside `compareTo`.
- Cells.Cell.CompareTo: holds for unbounded integers. It matches Java only while coordinate differences fit in 32 bits, which is always the case on a maze grid.
- Randomness.Random.NextIntBetween: states only the range and that draws are consumed, not which draw gives the value.
- `isValidNode` checks the frontier list for a `Cell`. The list holds `Node`s, so that test is always false, and the model keeps only the bounds test.
- Mazes.Maze.GenerateGraph: proves termination, the lattice shape and that the frontier ends empty. It does not prove that every interior odd cell becomes a node, or that the edges form a connected acyclic graph.
- Mazes.Maze.Generate: states that generation fails exactly when a random skip leaves no node next to a wall. It does not prove that this never happens. On a spanning tree of an odd grid the Java skip bounds always leave a node, but that depends on the spanning property left out above.
- Mazes.Maze.FindPaths: requires that every edge has a positive weight and leads to another node. The Java method does not check this. Every generated maze has this property (see `Generation.Opened`). The contract proves a predecessor tree whose distances come from real edges, and that every node reachable from the entrance is reached. It does not prove that those distances are the shortest. It proves that no NullPointerException is thrown when there is an entrance and the graph is `SearchSafe`, which every generated maze is. On other graphs the contract still permits the exception, including inputs where the Java code would not throw.
- Mazes.Maze.RelaxEdges: its two no-throw conditions are sufficient, not necessary. A scan that meets neither may still succeed in Java, and the contract then permits a NullPointerException.
- Mazes.Maze.DisplayEscapePath: requires a distance map along which predecessors strictly descend, as `findPaths` provides. On a map with a cycle the Java recursion overflows the stack, and that case is not modelled. It also requires every segment to fit the grid, where Java would throw an index exception.
- Mazes.Maze.PavePathBetweenCells: requires the segment to fit the grid. Java throws `ArrayIndexOutOfBoundsException` otherwise.
- Mazes.Maze.BindNewNodeToGraph: requires the new node to be absent from the graph, as it always is when `createEntrances` calls it.
- The model follows the code where it changes state before failing:
  - `generate` resets the frontier and the graph before it rejects a size below 5.
  - When `createEntrances` throws, the new width, grid and grown, painted graph stay in place.
  - `findPaths` throws `NullPointerException` when there is no entrance, and on the unchecked paths modelled in `RelaxEdge` and `VisitEdge`. The model does not characterise exactly which graphs reach those paths. It gives two sufficient conditions for no exception: the local one in `RelaxEdges` and `SearchSafe` in `FindPaths`.
