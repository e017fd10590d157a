/**
 * The maze (Maze.java): a square grid of wall and passage cells, the graph
 * whose spanning tree generation carves into it, the entrance and the exit,
 * and the shortest-path search from the entrance together with the painting
 * of the escape route.
 */
module Mazes {
  import opened Wrappers
  import opened Directions
  import opened Cells
  import opened Edges
  import opened Nodes
  import opened Graphs
  import opened Randomness
  import opened Segments
  import opened Generation
  import opened ShortestPaths

  class Maze {
    var width: int
    var height: int
    var graph: Graph
    /** grid[x, y]; the first dimension is the width. */
    var grid: array2<int>
    /** The entrance and exit nodes, None (null) until createEntrances sets them. */
    var entrance: Option<Cell>
    var exit: Option<Cell>
    /** The frontier list of the generation, in insertion order. */
    var frontierNodes: seq<Cell>
    const randomGenerator: Random

    /** While generation runs: the graph is consistent, has the lattice shape and holds every frontier cell. */
    ghost predicate Growing()
      reads this, graph
    {
      && graph.Valid()
      && LatticeShape(graph.adjacencyList, graph.keyNodes, width, height)
      && (forall c :: c in frontierNodes ==> c in graph.adjacencyList)
    }

    /** The node sites that are not yet nodes of the graph. */
    ghost function Remaining(): nat
      reads this`graph, this`width, this`height, graph
    {
      Missing(graph.adjacencyList.Keys, width, height)
    }

    /** The grid has the maze's width and height. */
    ghost predicate GridShape()
      reads this
    {
      grid.Length0 == width && grid.Length1 == height
    }

    /**
     * What a successful generate leaves: a square grid of odd side at least
     * 5; a graph whose edges are well formed, come in symmetric pairs and
     * match their nodes' edge sets; nodes on the node sites plus the
     * entrance on the west wall and the exit on the east wall; and a grid
     * that is PASSAGE exactly on the cells of the graph's edges and BLOCK
     * everywhere else.
     */
    ghost predicate Generated()
      reads this, graph, grid
    {
      && GridShape() && width == height && width >= 5 && width % 2 == 1
      && graph.Valid() && entrance.Some? && exit.Some?
      && Opened(graph.adjacencyList, graph.keyNodes, width, height, entrance.value, exit.value)
      && (forall i, j {:trigger grid[i, j]} :: 0 <= i < width && 0 <= j < height ==>
            grid[i, j] == if OnSomeEdge(Cell(i, j), graph.adjacencyList) then PASSAGE else BLOCK)
    }

    /**
     * A maze not yet generated. The Java fields start as null; here the
     * graph starts empty, the grid has no cells and there is no entrance.
     */
    constructor (rng: Random)
      ensures randomGenerator == rng
      ensures width == 0 && height == 0 && GridShape()
      ensures fresh(graph) && graph.Valid() && graph.adjacencyList == map[]
      ensures entrance == None && exit == None && frontierNodes == []
    {
      randomGenerator := rng;
      width := 0;
      height := 0;
      graph := new Graph();
      grid := new int[0, 0];
      entrance := None;
      exit := None;
      frontierNodes := [];
    }

    /**
     * generate: starts a new frontier list and a new graph, then rejects a
     * size below 5 with IllegalArgumentException. Otherwise an even size is
     * rounded up to the next odd one, the grid becomes a square of that side
     * filled with BLOCK, the graph is grown and painted, and the
     * entrance and exit are bound; when createEntrances throws
     * IllegalStateException the graph stays grown and painted. That
     * happens exactly when a column next to the west or east wall holds no
     * more nodes than the random skip drawn for it. On success the maze is
     * Generated and the search can run on its graph.
     */
    method Generate(size: int) returns (out: Outcome, ghost skipWest: int, ghost skipEast: int)
      modifies this, randomGenerator
      ensures fresh(graph) && frontierNodes == []
      ensures size < 5 <==> out == Fail(IllegalArgument)
      ensures size < 5 ==> && graph.Valid() && graph.adjacencyList == map[]
                           && width == old(width) && height == old(height) && grid == old(grid)
                           && entrance == old(entrance) && exit == old(exit)
      ensures size >= 5 ==> fresh(grid) && width == height == (if size % 2 == 0 then size + 1 else size)
      ensures size >= 5 ==> 0 <= skipWest < width / 2 && width / 4 <= skipEast < width / 2
      ensures size >= 5 ==> (out.Pass? <==> SkipsLeaveNodes(graph.adjacencyList.Keys, width, skipWest, skipEast))
      ensures size >= 5 && out.Fail? ==> && out.error == IllegalState
                                         && entrance == old(entrance) && exit == old(exit)
                                         && graph.Valid() && LatticeShape(graph.adjacencyList, graph.keyNodes, width, height)
                                         && GridShape()
      ensures size >= 5 && out.Fail? ==> forall i, j {:trigger grid[i, j]} :: 0 <= i < width && 0 <= j < height ==>
        grid[i, j] == if OnSomeEdge(Cell(i, j), graph.adjacencyList) then PASSAGE else BLOCK
      ensures out.Pass? ==> Generated()
    {
      frontierNodes := [];
      graph := new Graph();
      if size < 5 {
        return Fail(IllegalArgument), 0, 0;
      }
      var side := if size % 2 == 0 then size + 1 else size;
      width := side;
      height := side;
      grid := new int[width, height];
      FillWithBlocks();
      out, skipWest, skipEast := Carve();
    }

    /**
     * The last three steps of generate, on a blocked grid: generateGraph,
     * displayGraphOnGrid and createEntrances, which fails exactly when the
     * skips leave no node next to a wall.
     */
    method Carve() returns (out: Outcome, ghost skipWest: int, ghost skipEast: int)
      requires graph.Valid() && graph.adjacencyList == map[] && frontierNodes == []
      requires GridShape() && width == height && width >= 5 && width % 2 == 1
      requires forall i, j {:trigger grid[i, j]} :: 0 <= i < width && 0 <= j < height ==> grid[i, j] == BLOCK
      modifies this`frontierNodes, this`entrance, this`exit, graph, grid, randomGenerator
      ensures frontierNodes == []
      ensures 0 <= skipWest < width / 2 && width / 4 <= skipEast < width / 2
      ensures out.Pass? <==> SkipsLeaveNodes(graph.adjacencyList.Keys, width, skipWest, skipEast)
      ensures out.Fail? ==> && out.error == IllegalState && entrance == old(entrance) && exit == old(exit)
                            && graph.Valid() && LatticeShape(graph.adjacencyList, graph.keyNodes, width, height)
      ensures out.Fail? ==> forall i, j {:trigger grid[i, j]} :: 0 <= i < width && 0 <= j < height ==>
        grid[i, j] == if OnSomeEdge(Cell(i, j), graph.adjacencyList) then PASSAGE else BLOCK
      ensures out.Pass? ==> Generated()
    {
      DrawGraph();
      ghost var west, east;
      out, west, east, skipWest, skipEast := OpenEntrances();
    }

    /**
     * generateGraph followed by displayGraphOnGrid on a blocked grid: the
     * graph grows with the lattice shape and exactly the cells on its edges become
     * PASSAGE.
     */
    method DrawGraph()
      requires graph.Valid() && graph.adjacencyList == map[] && frontierNodes == []
      requires GridShape() && width == height && width >= 5 && width % 2 == 1
      requires forall i, j {:trigger grid[i, j]} :: 0 <= i < width && 0 <= j < height ==> grid[i, j] == BLOCK
      modifies this`frontierNodes, graph, grid, randomGenerator
      ensures frontierNodes == []
      ensures graph.Valid() && LatticeShape(graph.adjacencyList, graph.keyNodes, width, height)
      ensures OpensOnBorders(graph.adjacencyList, graph.keyNodes, width, height)
      ensures forall c :: c in graph.adjacencyList ==> IsValidNode(c, width, height)
      ensures forall i, j {:trigger grid[i, j]} :: 0 <= i < width && 0 <= j < height ==>
        grid[i, j] == if OnSomeEdge(Cell(i, j), graph.adjacencyList) then PASSAGE else BLOCK
    {
      GenerateGraph();
      LatticeFitsGrid(graph.adjacencyList, graph.keyNodes, width, height);
      DisplayGraphOnGrid();
      LatticeNodesAreValid(graph.adjacencyList, graph.keyNodes, width, height);
      LatticeOpensOnBorders(graph.adjacencyList, graph.keyNodes, width, height);
    }

    /**
     * The createEntrances call at the end of generate, on a graph with the
     * lattice shape painted on the grid: on success the maze is generated, the
     * entrance and the exit bound one step outside two border nodes; on
     * failure, which happens exactly when the skips leave no node next to a
     * wall, nothing changes but the draws. The entrance and the exit lie in
     * the outer columns, so the columns next to the walls are the same
     * before and after.
     */
    method OpenEntrances() returns (out: Outcome, ghost west: Cell, ghost east: Cell,
                                    ghost skipWest: int, ghost skipEast: int)
      requires graph.Valid() && OpensOnBorders(graph.adjacencyList, graph.keyNodes, width, height)
      requires forall c :: c in graph.adjacencyList ==> IsValidNode(c, width, height)
      requires GridShape() && width == height && width >= 5 && width % 2 == 1
      requires forall i, j {:trigger grid[i, j]} :: 0 <= i < width && 0 <= j < height ==>
        grid[i, j] == if OnSomeEdge(Cell(i, j), graph.adjacencyList) then PASSAGE else BLOCK
      modifies this`entrance, this`exit, graph, grid, randomGenerator
      ensures 0 <= skipWest < width / 2 && width / 4 <= skipEast < width / 2
      ensures out.Pass? <==> SkipsLeaveNodes(graph.adjacencyList.Keys, width, skipWest, skipEast)
      ensures out.Fail? ==> && out.error == IllegalState && entrance == old(entrance) && exit == old(exit)
                            && unchanged(graph, grid)
      ensures out.Pass? ==>
        && west in old(graph.adjacencyList) && west.x == WALL_THICKNESS && entrance.Some? && entrance.value == Cell(0, west.y)
        && east in old(graph.adjacencyList) && east.x == width - WALL_THICKNESS - 1 && exit.Some? && exit.value == Cell(width - 1, east.y)
        && graph.adjacencyList == Link(Link(old(graph.adjacencyList), west, entrance.value, 1), east, exit.value, 1)
      ensures out.Pass? ==> Generated()
    {
      ghost var adj, nodes := graph.adjacencyList, graph.keyNodes;
      out, west, east, skipWest, skipEast := RepaintEntrances();
      if out.Pass? {
        EntrancesKeepColumns(adj, width, west, entrance.value, east, exit.value, skipWest, skipEast);
        ConcludeEntrances(adj, nodes, west, east);
      }
    }

    /** The entrance and the exit bound beside two border nodes of a graph that opens on its borders make a generated maze. */
    ghost method ConcludeEntrances(adj: Adjacency, nodes: map<Cell, Node>, west: Cell, east: Cell)
      requires OpensOnBorders(adj, nodes, width, height)
      requires GridShape() && width == height && width >= 5 && width % 2 == 1 && graph.Valid()
      requires && west in adj && west.x == WALL_THICKNESS && entrance.Some? && entrance.value == Cell(0, west.y)
               && east in adj && east.x == width - WALL_THICKNESS - 1 && exit.Some? && exit.value == Cell(width - 1, east.y)
      requires && graph.adjacencyList == Link(Link(adj, west, entrance.value, 1), east, exit.value, 1)
               && graph.keyNodes == LinkNodes(LinkNodes(nodes, west, entrance.value, 1), east, exit.value, 1)
      requires forall i, j {:trigger grid[i, j]} :: 0 <= i < width && 0 <= j < height ==>
        grid[i, j] == if OnSomeEdge(Cell(i, j), graph.adjacencyList) then PASSAGE else BLOCK
      ensures Generated()
    {
      OpenedOnBorders(adj, nodes, width, height, west, east, graph.adjacencyList, graph.keyNodes, entrance.value, exit.value);
    }

    /**
     * createEntrances on a grid painted from the graph: it succeeds exactly
     * when the skips leave a node next to each wall, and then the grid is
     * painted from the graph with the entrance and the exit bound.
     */
    method RepaintEntrances() returns (out: Outcome, ghost west: Cell, ghost east: Cell,
                                       ghost skipWest: int, ghost skipEast: int)
      requires graph.Valid() && GridShape() && width >= 2
      requires forall c :: c in graph.adjacencyList ==> IsValidNode(c, width, height)
      requires forall i, j {:trigger grid[i, j]} :: 0 <= i < width && 0 <= j < height ==>
        grid[i, j] == if OnSomeEdge(Cell(i, j), graph.adjacencyList) then PASSAGE else BLOCK
      modifies this`entrance, this`exit, graph, grid, randomGenerator
      ensures GridShape()
      ensures 0 <= skipWest < width / 2 && width / 4 <= skipEast < width / 2
      ensures out.Pass? <==> SkipsLeaveNodes(old(graph.adjacencyList).Keys, width, skipWest, skipEast)
      ensures out.Fail? ==> && out.error == IllegalState && entrance == old(entrance) && exit == old(exit)
                            && unchanged(graph, grid)
      ensures out.Pass? ==> graph.Valid()
      ensures out.Pass? ==>
        && west in old(graph.adjacencyList) && west.x == WALL_THICKNESS && entrance.Some? && entrance.value == Cell(0, west.y)
        && east in old(graph.adjacencyList) && east.x == width - WALL_THICKNESS - 1 && exit.Some? && exit.value == Cell(width - 1, east.y)
      ensures out.Pass? ==>
        && graph.adjacencyList == Link(Link(old(graph.adjacencyList), west, entrance.value, 1), east, exit.value, 1)
        && graph.keyNodes == LinkNodes(LinkNodes(old(graph.keyNodes), west, entrance.value, 1), east, exit.value, 1)
      ensures out.Pass? ==> forall i, j {:trigger grid[i, j]} :: 0 <= i < width && 0 <= j < height ==>
        grid[i, j] == if OnSomeEdge(Cell(i, j), graph.adjacencyList) then PASSAGE else BLOCK
    {
      ghost var adj := graph.adjacencyList;
      out, west, east, skipWest, skipEast := CreateEntrances();
      if out.Pass? {
        BorderCellsAreFree(adj, width, height, west, east);
        forall i, j | 0 <= i < width && 0 <= j < height
          ensures grid[i, j] == if OnSomeEdge(Cell(i, j), graph.adjacencyList) then PASSAGE else BLOCK
        {
          EntrancesRepaintCell(adj, west, entrance.value, east, exit.value, Cell(i, j), old(grid[i, j]), grid[i, j]);
        }
      }
    }

    /**
     * pavePathBetweenCellsOnGridWithIdentifier: writes `value` on every cell
     * of the straight segment between the two cells, ends included, and on
     * no other cell; cells not on one line are left alone.
     */
    method PavePathBetweenCells(from: Cell, to: Cell, value: int)
      requires GridShape() && SegmentFits(from, to, width, height)
      modifies grid
      ensures forall i, j {:trigger grid[i, j]} :: 0 <= i < width && 0 <= j < height ==>
        grid[i, j] == Paved(old(grid[i, j]), Cell(i, j), from, to, value)
    {
      if from.x == to.x {
        var i := Min(from.y, to.y);
        while i <= Max(from.y, to.y)
          invariant Min(from.y, to.y) <= i <= Max(from.y, to.y) + 1
          invariant forall a, b :: 0 <= a < width && 0 <= b < height ==>
            grid[a, b] == if a == from.x && Min(from.y, to.y) <= b < i then value else old(grid[a, b])
        {
          grid[from.x, i] := value;
          i := i + 1;
        }
      } else if from.y == to.y {
        var i := Min(from.x, to.x);
        while i <= Max(from.x, to.x)
          invariant Min(from.x, to.x) <= i <= Max(from.x, to.x) + 1
          invariant forall a, b :: 0 <= a < width && 0 <= b < height ==>
            grid[a, b] == if b == from.y && Min(from.x, to.x) <= a < i then value else old(grid[a, b])
        {
          grid[i, from.y] := value;
          i := i + 1;
        }
      }
    }

    /**
     * displayGraphOnGrid: for every node and every edge in its queue, paints
     * the segment from the node to the edge's target as PASSAGE. Afterwards
     * exactly the cells on some edge are PASSAGE; the rest keep their value.
     */
    method DisplayGraphOnGrid()
      requires GridShape()
      requires forall c, e :: c in graph.adjacencyList && e in graph.adjacencyList[c] ==>
        SegmentFits(c, e.target, width, height)
      modifies grid
      ensures forall i, j {:trigger grid[i, j]} :: 0 <= i < width && 0 <= j < height ==>
        grid[i, j] == if OnSomeEdge(Cell(i, j), graph.adjacencyList) then PASSAGE else old(grid[i, j])
    {
      ghost var adj := graph.adjacencyList;
      var nodes := graph.GetNodes();
      ghost var done: set<Cell> := {};
      while nodes != {}
        invariant done == adj.Keys - nodes && nodes <= adj.Keys
        invariant forall i, j {:trigger grid[i, j]} :: 0 <= i < width && 0 <= j < height ==>
          grid[i, j] == if OnEdgeFrom(Cell(i, j), adj, done) then PASSAGE else old(grid[i, j])
        decreases nodes
      {
        var node :| node in nodes;
        var edges := graph.GetAdjacencyNodes(node).value;
        ghost var seen: multiset<Edge> := multiset{};
        while edges != multiset{}
          invariant seen + edges == adj[node]
          invariant forall i, j {:trigger grid[i, j]} :: 0 <= i < width && 0 <= j < height ==>
            grid[i, j] == if OnEdgeFrom(Cell(i, j), adj, done) || OnEdgeIn(Cell(i, j), node, seen) then PASSAGE else old(grid[i, j])
          decreases |edges|
        {
          var edge :| edge in edges;
          PavePathBetweenCells(node, edge.target, PASSAGE);
          forall p: Cell
            ensures OnEdgeIn(p, node, seen + multiset{edge}) <==> OnEdgeIn(p, node, seen) || OnSegment(p, node, edge.target)
          {
            OnEdgeInAdd(p, node, seen, edge);
          }
          seen := seen + multiset{edge};
          edges := edges - multiset{edge};
        }
        forall p: Cell
          ensures OnEdgeFrom(p, adj, done + {node}) <==> OnEdgeFrom(p, adj, done) || OnEdgeIn(p, node, adj[node])
        {
          OnEdgeFromAddSource(p, adj, done, node);
        }
        done := done + {node};
        nodes := nodes - {node};
      }
    }

    /**
     * displayEscapePath: when `end` has a predecessor, paints the segment
     * between them as PATH and continues from the predecessor. It stops
     * because distances strictly decrease along predecessors; afterwards
     * exactly the cells of the escape path are PATH.
     */
    method DisplayEscapePath(paths: map<Cell, Cell>, end: Cell, ghost dist: map<Cell, int>)
      requires GridShape() && Descending(paths, dist)
      requires forall v :: v in paths ==> SegmentFits(v, paths[v], width, height)
      modifies grid
      ensures forall i, j {:trigger grid[i, j]} :: 0 <= i < width && 0 <= j < height ==>
        grid[i, j] == EscapePainted(old(grid[i, j]), Cell(i, j), paths, end, dist)
      decreases if end in paths then dist[end] else 0
    {
      if end !in paths {
        return;
      }
      PavePathBetweenCells(end, paths[end], PATH);
      DisplayEscapePath(paths, paths[end], dist);
    }

    /**
     * bindNewNodeToGraph: paints the segment from the graph node to the new
     * node as PASSAGE, then links the new node to it by an edge pair of
     * weight 1, in both edge sets and both queues.
     */
    method BindNewNodeToGraph(newNode: Cell, graphNode: Cell)
      requires graph.Valid() && graph.Contains(graphNode) && !graph.Contains(newNode)
      requires GridShape() && SegmentFits(graphNode, newNode, width, height)
      modifies graph, grid
      ensures graph.Valid()
      ensures graph.adjacencyList == Link(old(graph.adjacencyList), graphNode, newNode, 1)
      ensures graph.keyNodes == LinkNodes(old(graph.keyNodes), graphNode, newNode, 1)
      ensures forall i, j {:trigger grid[i, j]} :: 0 <= i < width && 0 <= j < height ==>
        grid[i, j] == if OnSegment(Cell(i, j), graphNode, newNode) then PASSAGE else old(grid[i, j])
    {
      PavePathBetweenCells(graphNode, newNode, PASSAGE);
      BindEdges(newNode, graphNode);
    }

    /**
     * The graph half of bindNewNodeToGraph: both nodes gain the weight-1 edge
     * to the other, the new node (already holding its edge) becomes a key, and
     * both edges are offered to the queues.
     */
    method BindEdges(newNode: Cell, graphNode: Cell)
      requires graph.Valid() && graph.Contains(graphNode) && !graph.Contains(newNode)
      modifies graph
      ensures graph.Valid()
      ensures graph.adjacencyList == Link(old(graph.adjacencyList), graphNode, newNode, 1)
      ensures graph.keyNodes == LinkNodes(old(graph.keyNodes), graphNode, newNode, 1)
    {
      var edgeToGraphNode := Edge(graphNode, 1);
      var edgeToNewNode := Edge(newNode, 1);
      var node := NewNode(newNode).AddEdge(edgeToGraphNode);
      var g := graph;
      ghost var adj := g.adjacencyList;
      ghost var nodes := g.keyNodes;
      assert newNode != graphNode;
      g.AddEdgeToNode(graphNode, edgeToNewNode);
      ghost var nodes1 := g.keyNodes;
      assert nodes1 == nodes[graphNode := nodes[graphNode].AddEdge(edgeToNewNode)];
      g.AddNode(node);
      assert g.keyNodes == nodes1[newNode := node];
      assert nodes1[newNode := node] == nodes[newNode := node][graphNode := nodes[graphNode].AddEdge(edgeToNewNode)];
      ghost var adj1 := g.adjacencyList;
      assert adj1 == adj[newNode := multiset{}];
      g.Offer(newNode, edgeToGraphNode);
      assert multiset{} + multiset{edgeToGraphNode} == multiset{edgeToGraphNode};
      ghost var adj2 := g.adjacencyList;
      assert adj2 == adj[newNode := multiset{edgeToGraphNode}];
      assert adj2[graphNode] == adj[graphNode];
      g.Offer(graphNode, edgeToNewNode);
    }

    /**
     * createEntrances: picks a node next to the west wall and one next to the
     * east wall (FindBorderNodes); when either is missing, that is when one
     * of the two columns holds no more nodes than are skipped in it, it
     * fails with IllegalStateException and changes nothing but the draws.
     * Otherwise it
     * binds an entrance one step west of the west node, at x = 0, and an exit
     * one step east of the east node, at x = width - 1.
     */
    method CreateEntrances() returns (out: Outcome, ghost westNode: Cell, ghost eastNode: Cell,
                                      ghost skipWest: int, ghost skipEast: int)
      requires graph.Valid() && GridShape() && width >= 2
      requires forall c :: c in graph.adjacencyList ==> IsValidNode(c, width, height)
      modifies this`entrance, this`exit, graph, grid, randomGenerator
      ensures GridShape()
      ensures out.Fail? ==> out.error == IllegalState
      ensures out.Fail? ==> unchanged(graph, grid) && entrance == old(entrance) && exit == old(exit)
      ensures 0 <= skipWest < width / 2 && width / 4 <= skipEast < width / 2
      ensures out.Pass? <==> SkipsLeaveNodes(old(graph.adjacencyList).Keys, width, skipWest, skipEast)
      ensures out.Pass? ==> graph.Valid()
      ensures out.Pass? ==>
        && westNode in old(graph.adjacencyList) && westNode.x == WALL_THICKNESS
        && eastNode in old(graph.adjacencyList) && eastNode.x == width - WALL_THICKNESS - 1
        && entrance == Some(Cell(0, westNode.y)) && exit == Some(Cell(width - 1, eastNode.y))
      ensures out.Pass? ==>
        && graph.adjacencyList == Link(Link(old(graph.adjacencyList), westNode, entrance.value, 1), eastNode, exit.value, 1)
        && graph.keyNodes == LinkNodes(LinkNodes(old(graph.keyNodes), westNode, entrance.value, 1), eastNode, exit.value, 1)
      ensures out.Pass? ==> forall i, j {:trigger grid[i, j]} :: 0 <= i < width && 0 <= j < height ==>
        grid[i, j] == if OnSegment(Cell(i, j), westNode, entrance.value) || OnSegment(Cell(i, j), eastNode, exit.value)
                      then PASSAGE else old(grid[i, j])
    {
      var found, nodeAdjacentToWestBorder, nodeAdjacentToEastBorder;
      found, nodeAdjacentToWestBorder, nodeAdjacentToEastBorder, skipWest, skipEast := FindBorderNodes();
      westNode, eastNode := nodeAdjacentToWestBorder, nodeAdjacentToEastBorder;
      if !found {
        return Fail(IllegalState), westNode, eastNode, skipWest, skipEast;
      }
      BorderCellsAreFree(graph.adjacencyList, width, height, westNode, eastNode);
      BindEntrances(nodeAdjacentToWestBorder, nodeAdjacentToEastBorder);
      return Pass, westNode, eastNode, skipWest, skipEast;
    }

    /**
     * The two stream queries of createEntrances: the nodes next to the west
     * wall (x = 1) with the first nextInt(width / 2) of them skipped, and
     * those next to the east wall (x = width - 2) with the first
     * nextInt(width / 4, width / 2) skipped; findAny on each. Both are found
     * exactly when each query leaves a node, that is when each column holds
     * more nodes than are skipped; which node is found is the hash set's
     * business.
     */
    method FindBorderNodes() returns (found: bool, westNode: Cell, eastNode: Cell, skipWest: int, skipEast: int)
      requires width >= 2
      modifies randomGenerator
      ensures 0 <= skipWest < width / 2 && width / 4 <= skipEast < width / 2
      ensures found <==> SkipsLeaveNodes(graph.adjacencyList.Keys, width, skipWest, skipEast)
      ensures found ==> && westNode in Column(graph.adjacencyList.Keys, WALL_THICKNESS)
                        && eastNode in Column(graph.adjacencyList.Keys, width - WALL_THICKNESS - 1)
    {
      var west := Column(graph.GetNodes(), WALL_THICKNESS);
      skipWest := randomGenerator.NextInt(width / 2);
      var east := Column(graph.GetNodes(), width - WALL_THICKNESS - 1);
      skipEast := randomGenerator.NextIntBetween(width / 4, width / 2);
      if |west| <= skipWest || |east| <= skipEast {
        return false, Cell(0, 0), Cell(0, 0), skipWest, skipEast;
      }
      westNode :| westNode in west;
      eastNode :| eastNode in east;
      found := true;
    }

    /**
     * The end of createEntrances once both border nodes are chosen: the
     * entrance one step west of the west node and the exit one step east of
     * the east node are created and bound to them.
     */
    method BindEntrances(westNode: Cell, eastNode: Cell)
      requires graph.Valid() && GridShape()
      requires westNode in graph.adjacencyList && westNode.x == WALL_THICKNESS && IsValidNode(westNode, width, height)
      requires eastNode in graph.adjacencyList && eastNode.x == width - WALL_THICKNESS - 1 && IsValidNode(eastNode, width, height)
      requires Cell(0, westNode.y) !in graph.adjacencyList && Cell(width - 1, eastNode.y) !in graph.adjacencyList
      modifies this`entrance, this`exit, graph, grid
      ensures GridShape()
      ensures graph.Valid()
      ensures entrance == Some(Cell(0, westNode.y)) && exit == Some(Cell(width - 1, eastNode.y))
      ensures graph.adjacencyList == Link(Link(old(graph.adjacencyList), westNode, entrance.value, 1), eastNode, exit.value, 1)
      ensures graph.keyNodes == LinkNodes(LinkNodes(old(graph.keyNodes), westNode, entrance.value, 1), eastNode, exit.value, 1)
      ensures forall i, j {:trigger grid[i, j]} :: 0 <= i < width && 0 <= j < height ==>
        grid[i, j] == if OnSegment(Cell(i, j), westNode, entrance.value) || OnSegment(Cell(i, j), eastNode, exit.value)
                      then PASSAGE else old(grid[i, j])
    {
      BindEntrance(westNode);
      label Between:
      BindExit(eastNode);
      forall i, j | 0 <= i < width && 0 <= j < height
        ensures grid[i, j] == if OnSegment(Cell(i, j), westNode, entrance.value) || OnSegment(Cell(i, j), eastNode, exit.value)
                              then PASSAGE else old(grid[i, j])
      {
        assert old@Between(grid[i, j]) == if OnSegment(Cell(i, j), westNode, entrance.value) then PASSAGE else old(grid[i, j]);
      }
    }

    /** The entrance half of createEntrances: the cell one step west of the west node becomes the entrance, bound to that node. */
    method BindEntrance(westNode: Cell)
      requires graph.Valid() && GridShape()
      requires westNode in graph.adjacencyList && westNode.x == WALL_THICKNESS && IsValidNode(westNode, width, height)
      requires Cell(0, westNode.y) !in graph.adjacencyList
      modifies this`entrance, graph, grid
      ensures GridShape()
      ensures graph.Valid()
      ensures entrance == Some(Cell(0, westNode.y))
      ensures graph.adjacencyList == Link(old(graph.adjacencyList), westNode, entrance.value, 1)
      ensures graph.keyNodes == LinkNodes(old(graph.keyNodes), westNode, entrance.value, 1)
      ensures forall i, j {:trigger grid[i, j]} :: 0 <= i < width && 0 <= j < height ==>
        grid[i, j] == if OnSegment(Cell(i, j), westNode, entrance.value) then PASSAGE else old(grid[i, j])
    {
      var entranceCoordinate := westNode.Shift(West, 1);
      assert entranceCoordinate == Cell(0, westNode.y);
      entrance := Some(entranceCoordinate);
      BindNewNodeToGraph(entranceCoordinate, westNode);
    }

    /** The exit half of createEntrances: the cell one step east of the east node becomes the exit, bound to that node. */
    method BindExit(eastNode: Cell)
      requires graph.Valid() && GridShape()
      requires eastNode in graph.adjacencyList && eastNode.x == width - WALL_THICKNESS - 1 && IsValidNode(eastNode, width, height)
      requires Cell(width - 1, eastNode.y) !in graph.adjacencyList
      modifies this`exit, graph, grid
      ensures GridShape()
      ensures graph.Valid()
      ensures exit == Some(Cell(width - 1, eastNode.y))
      ensures graph.adjacencyList == Link(old(graph.adjacencyList), eastNode, exit.value, 1)
      ensures graph.keyNodes == LinkNodes(old(graph.keyNodes), eastNode, exit.value, 1)
      ensures forall i, j {:trigger grid[i, j]} :: 0 <= i < width && 0 <= j < height ==>
        grid[i, j] == if OnSegment(Cell(i, j), eastNode, exit.value) then PASSAGE else old(grid[i, j])
    {
      var exitCoordinate := eastNode.Shift(East, 1);
      assert exitCoordinate == Cell(width - 1, eastNode.y);
      exit := Some(exitCoordinate);
      BindNewNodeToGraph(exitCoordinate, eastNode);
    }

    /**
     * findPaths: Dijkstra's search from the entrance. A node missing from
     * `dist` but in `known` (the keys of Java's distance map) is at distance
     * Integer.MAX_VALUE; `open` holds the keys left in the local adjacency
     * map, whose values are the graph's own queues. With no entrance the
     * first offer throws NullPointerException. On success the predecessor
     * map and the distances found form a predecessor tree over the graph as
     * it was, rooted at the entrance, and no edge of that graph leads from a
     * node with a distance to one without: every node reachable from the
     * entrance is reached. The search removes reverse edges from the graph's
     * queues and never adds any. On a graph safe to search (every generated
     * maze is one) it does not throw.
     */
    method FindPaths() returns (r: Result<map<Cell, Cell>>, ghost dist: map<Cell, int>)
      requires graph.Valid() && PositiveLinks(graph.adjacencyList)
      modifies graph
      ensures graph.Valid() && graph.keyNodes == old(graph.keyNodes)
      ensures Shrunk(old(graph.adjacencyList), graph.adjacencyList)
      ensures entrance.None? ==> r == Err(NullPointer) && unchanged(graph)
      ensures r.Err? ==> r.error == NullPointer
      ensures r.Ok? ==> entrance.Some? && PredecessorTree(old(graph.adjacencyList), entrance.value, r.value, dist)
      ensures r.Ok? ==> Closed(old(graph.adjacencyList), dist)
      ensures entrance.Some? && SearchSafe(old(graph.adjacencyList), old(graph.keyNodes)) ==> r.Ok?
    {
      dist := map[];
      if entrance.None? {
        return Err(NullPointer), dist;
      }
      var source := entrance.value;
      ghost var adj0 := graph.adjacencyList;
      var paths: map<Cell, Cell> := map[];
      var known := graph.GetNodes() + {source};
      var distances := map[source := 0];
      var open := graph.GetNodes();
      var pq := [source];
      ghost var settled: set<Cell> := {};
      ghost var safe := SearchSafe(adj0, graph.keyNodes);
      SearchStarts(adj0, source);
      ExploredStarts(adj0, source);
      if safe {
        MirroredStarts(adj0, graph.keyNodes);
      }
      while pq != []
        invariant graph.Valid() && graph.keyNodes == old(graph.keyNodes) && Shrunk(adj0, graph.adjacencyList)
        invariant open <= adj0.Keys
        invariant safe ==> SearchSafe(adj0, graph.keyNodes) && Mirrored(graph.adjacencyList, open)
        invariant Searching(adj0, source, paths, distances, pq, settled)
        invariant Explored(adj0, graph.adjacencyList, distances, open, settled) && Pending(distances, pq, open)
        decreases open, |pq|
      {
        var sourceNode, rest := PollMin(pq, distances);
        PollKeeps(adj0, source, paths, distances, pq, settled, sourceNode, rest);
        PollExplores(adj0, graph.adjacencyList, distances, open, settled, pq, sourceNode, rest);
        settled := settled + {sourceNode};
        assert |rest| < |pq| by {
          assert |multiset(rest)| + 1 == |multiset(pq)|;
        }
        pq := rest;
        if sourceNode !in open {
          assert open - {sourceNode} == open;
          continue;
        }
        var outcome, open';
        outcome, distances, paths, pq, open' := RelaxEdges(sourceNode, adj0, source, known, distances, paths, pq, open, settled);
        if outcome.Fail? {
          return Err(NullPointer), distances;
        }
        assert open' - {sourceNode} < open;
        open := open' - {sourceNode};
      }
      ExploredCloses(adj0, graph.adjacencyList, distances, open, settled);
      return Ok(paths), distances;
    }

    /**
     * A generated maze is safe to search: findPaths on it, which starts from
     * the entrance, never throws.
     */
    lemma GeneratedSearchSafe()
      requires Generated()
      ensures SearchSafe(graph.adjacencyList, graph.keyNodes)
    {
      SafeToSearch(graph.adjacencyList, graph.keyNodes);
    }

    /**
     * The for-each of findPaths over the polled node `u`'s queue. For each
     * edge u -> destNode: the distance check and update (RelaxEdge); then a
     * target no longer in the local adjacency map throws
     * NullPointerException, and otherwise the edge back to `u` is removed
     * (RemoveEdgeBack). On success every edge of u's queue, which the loop
     * leaves as it was, has been relaxed, and `u` may leave the local map.
     * It does not throw when u's queue leads to distinct nodes all in the
     * local map, nor when the graph is safe to search and the local map
     * mirrored, which it then stays once `u` leaves it.
     */
    method RelaxEdges(u: Cell, ghost adj0: Adjacency, ghost s: Cell, known: set<Cell>,
                      dist: map<Cell, int>, paths: map<Cell, Cell>, pq: seq<Cell>, open: set<Cell>, ghost settled: set<Cell>)
      returns (r: Outcome, dist': map<Cell, int>, paths': map<Cell, Cell>, pq': seq<Cell>, open': set<Cell>)
      requires graph.Valid() && Shrunk(adj0, graph.adjacencyList) && PositiveLinks(adj0)
      requires known == adj0.Keys + {s} && open <= adj0.Keys && u in open
      requires Searching(adj0, s, paths, dist, pq, settled)
      requires u in settled && (forall x :: x in settled ==> dist[x] <= dist[u])
      requires Explored(adj0, graph.adjacencyList, dist, open, settled) && Pending(dist, pq, open - {u})
      modifies graph
      ensures graph.Valid() && graph.keyNodes == old(graph.keyNodes) && Shrunk(adj0, graph.adjacencyList)
      ensures open' <= open
      ensures r.Fail? ==> r.error == NullPointer
      ensures r.Pass? ==> Searching(adj0, s, paths', dist', pq', settled)
      ensures r.Pass? ==> u in open' && graph.adjacencyList[u] == old(graph.adjacencyList[u])
      ensures r.Pass? ==> Relaxed(graph.adjacencyList, dist', settled, u)
      ensures r.Pass? ==> Explored(adj0, graph.adjacencyList, dist', open' - {u}, settled) && Pending(dist', pq', open' - {u})
      ensures ScanSafe(old(graph.adjacencyList)[u], open) ==> r.Pass?
      ensures SearchSafe(adj0, graph.keyNodes) && Mirrored(old(graph.adjacencyList), open) ==>
                r.Pass? && Mirrored(graph.adjacencyList, open' - {u})
    {
      dist', paths', pq', open' := dist, paths, pq, open;
      var edges := graph.GetAdjacencyNodes(u).value;
      ghost var queue := edges;
      ghost var local := ScanSafe(queue, open);
      ghost var safe := SearchSafe(adj0, graph.keyNodes) && Mirrored(graph.adjacencyList, open);
      if safe {
        UnwindStarts(u, graph.adjacencyList, open);
      }
      while edges != multiset{}
        invariant graph.keyNodes == old(graph.keyNodes)
        invariant Scanning(u, adj0, s, settled, dist[u], queue, edges, open, dist', paths', pq', open')
        invariant Unthrowing(u, adj0, local, safe, queue, edges, open')
        decreases |edges|
      {
        var edge :| edge in edges;
        r, dist', paths', pq', open' := VisitEdge(u, edge, adj0, s, known, settled, dist[u], queue, edges, open,
                                                  local, safe, dist', paths', pq', open');
        if r.Fail? {
          return;
        }
        edges := edges - multiset{edge};
      }
      SettleExplores(adj0, graph.adjacencyList, dist', open', settled, u);
      if safe {
        UnwindEnds(u, graph.adjacencyList, open');
      }
      return Pass, dist', paths', pq', open';
    }

    /**
     * The state of findPaths' for-each over the queue of `u` with the edges
     * `rest` still to visit: the search state, with `u` settled at distance
     * `du` and no settled node farther; u's queue as it was when the loop
     * began, and `u` still in the local map; what is explored; and every
     * edge already visited relaxed.
     */
    ghost predicate Scanning(u: Cell, adj0: Adjacency, s: Cell, settled: set<Cell>, du: int,
                             queue: multiset<Edge>, rest: multiset<Edge>, open0: set<Cell>,
                             dist: map<Cell, int>, paths: map<Cell, Cell>, pq: seq<Cell>, open: set<Cell>)
      reads this, graph
    {
      && graph.Valid() && Shrunk(adj0, graph.adjacencyList) && PositiveLinks(adj0)
      && u in graph.adjacencyList && rest <= queue && queue == graph.adjacencyList[u]
      && open <= open0 && open0 <= adj0.Keys && u in open
      && Searching(adj0, s, paths, dist, pq, settled)
      && u in settled && (forall x :: x in settled ==> dist[x] <= dist[u]) && dist[u] == du
      && Explored(adj0, graph.adjacencyList, dist, open, settled) && Pending(dist, pq, open - {u})
      && (forall e :: e in queue && e !in rest ==> e.target in dist && dist[e.target] <= du + e.weight)
    }

    /**
     * What keeps findPaths' for-each from throwing while the edges `rest`
     * of u's queue are left: when the queue had one edge per neighbour, all
     * in the local map (`local`), the edges left still lead into it; when
     * the graph is safe to search and the local map was mirrored (`safe`),
     * the scan is unwinding.
     */
    ghost predicate Unthrowing(u: Cell, adj0: Adjacency, local: bool, safe: bool,
                               queue: multiset<Edge>, rest: multiset<Edge>, open: set<Cell>)
      reads this, graph
    {
      && (local ==> UniqueTargets(queue) && forall e {:trigger Among(rest, e)} :: Among(rest, e) ==> e.target in open)
      && (safe ==> SearchSafe(adj0, graph.keyNodes) && Unwinding(u, rest, graph.adjacencyList, open))
    }

    /**
     * One pass of findPaths' for-each body over the edge u -> destNode: the
     * distance step (RelaxStep), the NullPointerException on a target that
     * has left the local map, and the removal of the edge back (RemoveStep).
     * It throws only where nothing kept it from throwing, and otherwise
     * leaves the scan's state with that edge visited.
     */
    method VisitEdge(u: Cell, edge: Edge, ghost adj0: Adjacency, ghost s: Cell, known: set<Cell>, ghost settled: set<Cell>,
                     ghost du: int, ghost queue: multiset<Edge>, ghost rest: multiset<Edge>, ghost open0: set<Cell>,
                     ghost local: bool, ghost safe: bool,
                     dist: map<Cell, int>, paths: map<Cell, Cell>, pq: seq<Cell>, open: set<Cell>)
      returns (r: Outcome, dist': map<Cell, int>, paths': map<Cell, Cell>, pq': seq<Cell>, open': set<Cell>)
      requires Scanning(u, adj0, s, settled, du, queue, rest, open0, dist, paths, pq, open)
      requires edge in rest && known == adj0.Keys + {s}
      requires Unthrowing(u, adj0, local, safe, queue, rest, open)
      modifies graph
      ensures graph.keyNodes == old(graph.keyNodes)
      ensures r.Fail? ==> r.error == NullPointer && !local && !safe && unchanged(graph) && open' == open
      ensures r.Pass? ==> Scanning(u, adj0, s, settled, du, queue, rest - multiset{edge}, open0, dist', paths', pq', open')
      ensures r.Pass? ==> Unthrowing(u, adj0, local, safe, queue, rest - multiset{edge}, open')
    {
      open' := open;
      assert Among(rest, edge);
      assert safe ==> edge.target in adj0 by {
        assert safe ==> Queued(graph.adjacencyList, edge.target, Edge(u, edge.weight));
      }
      r, dist', paths', pq' := RelaxStep(u, edge, adj0, s, known, settled, du, queue, rest, open, dist, paths, pq, open);
      if r.Fail? {
        return;
      }
      if edge.target !in open {
        return Fail(NullPointer), dist', paths', pq', open';
      }
      ghost var adj := graph.adjacencyList;
      ghost var back;
      open', back := RemoveStep(u, edge, adj0, s, settled, du, queue, rest - multiset{edge}, open0, dist', paths', pq', open);
      if local {
        ScanSafeStep(queue, rest, edge, open, open');
      }
      if safe {
        SafeStep(u, rest, adj0, graph.keyNodes, adj, open, edge, back, graph.adjacencyList, open');
      }
    }

    /** The distance step for one more edge of u's queue keeps the scan's state with that edge visited. */
    method RelaxStep(u: Cell, edge: Edge, ghost adj0: Adjacency, ghost s: Cell, known: set<Cell>, ghost settled: set<Cell>,
                     ghost du: int, ghost queue: multiset<Edge>, ghost rest: multiset<Edge>, ghost open0: set<Cell>,
                     dist: map<Cell, int>, paths: map<Cell, Cell>, pq: seq<Cell>, open: set<Cell>)
      returns (r: Outcome, dist': map<Cell, int>, paths': map<Cell, Cell>, pq': seq<Cell>)
      requires Scanning(u, adj0, s, settled, du, queue, rest, open0, dist, paths, pq, open)
      requires edge in rest && known == adj0.Keys + {s}
      ensures r.Fail? <==> edge.target !in known
      ensures r.Fail? ==> r.error == NullPointer
      ensures r.Pass? ==> Scanning(u, adj0, s, settled, du, queue, rest - multiset{edge}, open0, dist', paths', pq', open)
    {
      r, dist', paths', pq' := RelaxEdge(u, edge, adj0, s, known, dist, paths, pq, settled);
      if r.Pass? && dist' != dist {
        RelaxExplores(adj0, graph.adjacencyList, dist, open, settled, edge.target, dist'[edge.target]);
      }
    }

    /** Taking the edge back to `u` out of the target's queue keeps the scan's state. */
    method RemoveStep(u: Cell, edge: Edge, ghost adj0: Adjacency, ghost s: Cell, ghost settled: set<Cell>,
                      ghost du: int, ghost queue: multiset<Edge>, ghost rest: multiset<Edge>, ghost open0: set<Cell>,
                      ghost dist: map<Cell, int>, ghost paths: map<Cell, Cell>, ghost pq: seq<Cell>, open: set<Cell>)
      returns (open': set<Cell>, ghost back: Option<Edge>)
      requires Scanning(u, adj0, s, settled, du, queue, rest, open0, dist, paths, pq, open)
      requires edge in queue && edge.target in open
      modifies graph
      ensures graph.keyNodes == old(graph.keyNodes)
      ensures Scanning(u, adj0, s, settled, du, queue, rest, open0, dist, paths, pq, open')
      ensures back.None? <==> forall e :: e in graph.keyNodes[edge.target].edges ==> e.target != u
      ensures back.None? ==> graph.adjacencyList == old(graph.adjacencyList)
      ensures back.Some? ==> && back.value.target == u && back.value in graph.keyNodes[edge.target].edges
                             && graph.adjacencyList == old(graph.adjacencyList)[edge.target := old(graph.adjacencyList)[edge.target] - multiset{back.value}]
      ensures open' == if graph.adjacencyList[edge.target] == multiset{} then open - {edge.target} else open
    {
      assert edge.target != u;
      ghost var adj := graph.adjacencyList;
      open', back := RemoveEdgeBack(edge.target, u, adj0, open);
      RemoveExplores(adj0, adj, dist, open, settled, edge.target, back, graph.adjacencyList, open');
    }

    /**
     * The distance step of findPaths' for-each for the edge u -> destNode: a
     * target outside the distance map throws NullPointerException; a target
     * whose distance through `u` is shorter than its own (a missing distance
     * being Integer.MAX_VALUE) gets that distance and `u` as predecessor and
     * is queued; otherwise nothing changes. Either way the target ends no
     * farther than through `u`, the search state is kept, no settled node
     * changes its distance, and none gets nearer than `u`.
     */
    method RelaxEdge(u: Cell, edge: Edge, ghost adj0: Adjacency, ghost s: Cell, known: set<Cell>,
                     dist: map<Cell, int>, paths: map<Cell, Cell>, pq: seq<Cell>, ghost settled: set<Cell>)
      returns (r: Outcome, dist': map<Cell, int>, paths': map<Cell, Cell>, pq': seq<Cell>)
      requires PositiveLinks(adj0) && known == adj0.Keys + {s} && u in adj0 && edge in adj0[u]
      requires Searching(adj0, s, paths, dist, pq, settled)
      requires u in settled && (forall x :: x in settled ==> dist[x] <= dist[u])
      ensures r.Fail? <==> edge.target !in known
      ensures r.Fail? ==> r.error == NullPointer
      ensures r.Pass? ==> Searching(adj0, s, paths', dist', pq', settled)
      ensures r.Pass? ==> forall x :: x in settled ==> dist'[x] <= dist'[u]
      ensures r.Pass? ==> forall x :: x in settled ==> x in dist' && dist'[x] == dist[x]
      ensures r.Pass? ==> edge.target in dist' && dist'[edge.target] <= dist[u] + edge.weight
      ensures r.Pass? ==> if edge.target !in dist || dist[u] + edge.weight < dist[edge.target]
                          then && edge.target !in settled
                               && dist' == dist[edge.target := dist[u] + edge.weight]
                               && paths' == paths[edge.target := u] && pq' == pq + [edge.target]
                          else dist' == dist && paths' == paths && pq' == pq
    {
      dist', paths', pq' := dist, paths, pq;
      var destNode := edge.target;
      if destNode !in known {
        return Fail(NullPointer), dist', paths', pq';
      }
      var newDistance := dist[u] + edge.weight;
      if destNode !in dist || newDistance < dist[destNode] {
        assert edge.weight >= 1 && Edge(destNode, edge.weight) in adj0[u];
        RelaxKeeps(adj0, s, paths, dist, pq, settled, u, destNode, edge.weight);
        return Pass, dist[destNode := newDistance], paths[destNode := u], pq + [destNode];
      }
      return Pass, dist, paths, pq;
    }

    /**
     * The end of findPaths' for-each body: the edge that getEdgeTo finds from
     * the target back to `u` leaves the target's queue (nothing leaves when
     * the target's node has no edge to `u`), and a target whose queue is
     * then empty leaves the local adjacency map.
     */
    method RemoveEdgeBack(destNode: Cell, u: Cell, ghost adj0: Adjacency, open: set<Cell>)
      returns (open': set<Cell>, ghost back: Option<Edge>)
      requires graph.Valid() && Shrunk(adj0, graph.adjacencyList) && destNode in open && open <= adj0.Keys
      modifies graph
      ensures graph.Valid() && graph.keyNodes == old(graph.keyNodes) && Shrunk(adj0, graph.adjacencyList)
      ensures back.None? <==> forall e :: e in graph.keyNodes[destNode].edges ==> e.target != u
      ensures back.None? ==> graph.adjacencyList == old(graph.adjacencyList)
      ensures back.Some? ==> && back.value.target == u && back.value in graph.keyNodes[destNode].edges
                             && graph.adjacencyList == old(graph.adjacencyList)[destNode := old(graph.adjacencyList)[destNode] - multiset{back.value}]
      ensures open' == if graph.adjacencyList[destNode] == multiset{} then open - {destNode} else open
    {
      var edgeBack := GetEdgeTo(graph.keyNodes[destNode], u);
      back := edgeBack;
      if edgeBack.Some? {
        ShrinkQueue(adj0, graph.adjacencyList, destNode, edgeBack.value);
        graph.Remove(destNode, edgeBack.value);
      }
      if graph.GetAdjacencyNodes(destNode).value == multiset{} {
        open' := open - {destNode};
      } else {
        open' := open;
      }
    }

    /** The fill of a new grid with BLOCK, row by row. */
    method FillWithBlocks()
      requires GridShape()
      modifies grid
      ensures forall i, j {:trigger grid[i, j]} :: 0 <= i < width && 0 <= j < height ==> grid[i, j] == BLOCK
    {
      var x := 0;
      while x < width
        invariant 0 <= x <= width
        invariant forall i, j :: 0 <= i < x && 0 <= j < height ==> grid[i, j] == BLOCK
      {
        var y := 0;
        while y < height
          invariant 0 <= y <= height
          invariant forall i, j :: 0 <= i < x && 0 <= j < height ==> grid[i, j] == BLOCK
          invariant forall j :: 0 <= j < y ==> grid[x, j] == BLOCK
        {
          grid[x, y] := BLOCK;
          y := y + 1;
        }
        x := x + 1;
      }
    }

    /**
     * generateInitialSeed: draws cells inside the wall until each coordinate
     * is odd along every odd side; the seed is a valid node.
     */
    method GenerateInitialSeed() returns (seed: Cell)
      requires width > 2 && height > 2
      modifies randomGenerator
      ensures IsValidNode(seed, width, height)
      ensures width % 2 == 1 ==> seed.x % 2 == 1
      ensures height % 2 == 1 ==> seed.y % 2 == 1
    {
      var shift := 2;
      while true
        decreases |randomGenerator.draws|
      {
        var x := randomGenerator.NextInt(width - shift);
        x := x + WALL_THICKNESS;
        var y := randomGenerator.NextInt(height - shift);
        y := y + WALL_THICKNESS;
        if width % 2 == 1 && x % 2 != 1 {
          continue;
        }
        if height % 2 == 1 && y % 2 != 1 {
          continue;
        }
        return Cell(x, y);
      }
    }

    /**
     * getNextSeed: removes and returns the frontier entry at a random even
     * index (index 0 when the frontier has one entry); the other entries keep
     * their order.
     */
    method GetNextSeed() returns (seed: Cell)
      requires frontierNodes != []
      modifies this`frontierNodes, randomGenerator
      ensures exists i :: && 0 <= i < |old(frontierNodes)| && i % 2 == 0 && seed == old(frontierNodes)[i]
                          && frontierNodes == old(frontierNodes)[..i] + old(frontierNodes)[i + 1..]
      ensures |old(frontierNodes)| == 1 ==> seed == old(frontierNodes)[0]
      ensures seed in old(frontierNodes) && |frontierNodes| == |old(frontierNodes)| - 1
      ensures forall c :: c in frontierNodes ==> c in old(frontierNodes)
      ensures unchanged(graph)
    {
      var index := 0;
      if |frontierNodes| > 1 {
        index := randomGenerator.NextInt(|frontierNodes|);
        index := if index % 2 == 0 then index else index - 1;
      }
      seed := frontierNodes[index];
      frontierNodes := frontierNodes[..index] + frontierNodes[index + 1..];
    }

    /**
     * The body of searchForFrontierNodes for one new cell: it becomes a node
     * and it and the seed each gain the edge to the other, in their edge sets
     * and in their queues.
     */
    method LinkToSeed(c: Cell, seed: Cell, distance: int)
      requires graph.Valid() && graph.Contains(seed) && !graph.Contains(c)
      modifies graph
      ensures graph.Valid()
      ensures graph.adjacencyList == Link(old(graph.adjacencyList), seed, c, distance)
      ensures graph.keyNodes == LinkNodes(old(graph.keyNodes), seed, c, distance)
    {
      var newFrontierNode := NewNode(c);
      var g := graph;
      ghost var adj := g.adjacencyList;
      ghost var nodes := g.keyNodes;
      g.AddNode(newFrontierNode);
      ghost var adj1 := g.adjacencyList;
      assert adj1 == adj[c := multiset{}];
      assert g.keyNodes == nodes[c := newFrontierNode];
      var edgeToSeed := Edge(seed, distance);
      g.AddEdgeToNode(c, edgeToSeed);
      assert g.keyNodes == nodes[c := newFrontierNode.AddEdge(edgeToSeed)];
      g.Offer(c, edgeToSeed);
      assert g.adjacencyList == adj1[c := multiset{} + multiset{edgeToSeed}];
      assert multiset{} + multiset{edgeToSeed} == multiset{edgeToSeed};
      ghost var adj2 := g.adjacencyList;
      ghost var nodes2 := g.keyNodes;
      assert adj2 == adj[c := multiset{edgeToSeed}];
      var edgeToNewFrontierNode := Edge(c, distance);
      g.AddEdgeToNode(seed, edgeToNewFrontierNode);
      assert nodes2[seed] == nodes[seed];
      g.Offer(seed, edgeToNewFrontierNode);
      assert adj2[seed] == adj[seed];
    }

    /**
     * searchForFrontierNodes: every cell two steps from the seed that is not
     * yet a node and lies inside the wall, probed north, east, south, west,
     * becomes a node linked to the seed by a weight-2 edge pair and is
     * appended to the frontier.
     */
    method SearchForFrontierNodes(seed: Cell)
      requires graph.Valid() && graph.Contains(seed)
      modifies this`frontierNodes, graph
      ensures graph.Valid()
      ensures frontierNodes ==
        old(frontierNodes) + FrontierCandidates(seed, old(graph.adjacencyList).Keys, width, height, Values)
      ensures graph.adjacencyList ==
        LinkAll(old(graph.adjacencyList), seed, FrontierCandidates(seed, old(graph.adjacencyList).Keys, width, height, Values), 2)
      ensures graph.keyNodes ==
        LinkNodesAll(old(graph.keyNodes), seed, FrontierCandidates(seed, old(graph.adjacencyList).Keys, width, height, Values), 2)
    {
      var distance := 2;
      ghost var adj0 := graph.adjacencyList;
      ghost var nodes0 := graph.keyNodes;
      ghost var frontier0 := frontierNodes;
      assert seed in nodes0;
      for i := 0 to |Values|
        invariant graph.Valid() && seed in graph.adjacencyList
        invariant frontierNodes == frontier0 + FrontierCandidates(seed, adj0.Keys, width, height, Values[..i])
        invariant graph.adjacencyList == LinkAll(adj0, seed, FrontierCandidates(seed, adj0.Keys, width, height, Values[..i]), 2)
        invariant graph.keyNodes == LinkNodesAll(nodes0, seed, FrontierCandidates(seed, adj0.Keys, width, height, Values[..i]), 2)
      {
        var direction := Values[i];
        var shiftedCell := seed.Shift(direction, distance);
        ProbeIsNew(adj0, seed, width, height, i);
        if !graph.Contains(shiftedCell) && IsValidNode(shiftedCell, width, height) {
          ProbeAdds(adj0, nodes0, seed, width, height, i);
          LinkToSeed(shiftedCell, seed, distance);
          AppendAssociates(frontier0, FrontierCandidates(seed, adj0.Keys, width, height, Values[..i]), shiftedCell);
          frontierNodes := frontierNodes + [shiftedCell];
        } else {
          ProbeSkips(adj0, seed, width, height, i);
        }
      }
      assert Values[..|Values|] == Values;
    }


    /**
     * generateGraph: from a random interior seed, expands seeds drawn from
     * the frontier until the frontier is empty (a do-while: the last seed
     * drawn is not expanded). The graph keeps the lattice shape throughout.
     */
    method GenerateGraph()
      requires graph.Valid() && graph.adjacencyList == map[] && frontierNodes == []
      requires width >= 5 && height >= 5 && width % 2 == 1 && height % 2 == 1
      modifies this`frontierNodes, graph, randomGenerator
      ensures graph.Valid() && LatticeShape(graph.adjacencyList, graph.keyNodes, width, height)
      ensures frontierNodes == []
    {
      var seed := GenerateInitialSeed();
      graph.AddNode(NewNode(seed));
      assert graph.adjacencyList.Keys == {seed};
      NodeSitesAre(seed, width, height);
      seed := ExpandAndDraw(seed);
      while frontierNodes != []
        invariant Growing() && seed in graph.adjacencyList
        decreases Remaining(), |frontierNodes|
      {
        seed := ExpandAndDraw(seed);
      }
    }

    /**
     * One round of generateGraph's do-while: searchForFrontierNodes from the
     * seed, then getNextSeed. It keeps the lattice shape and makes progress:
     * fewer node sites are missing, or as many and the frontier is shorter.
     */
    method ExpandAndDraw(seed: Cell) returns (next: Cell)
      requires Growing() && seed in graph.adjacencyList
      requires frontierNodes != [] || (graph.adjacencyList.Keys == {seed} && width >= 5 && height >= 5 && width % 2 == 1 && height % 2 == 1)
      modifies this`frontierNodes, graph, randomGenerator
      ensures Growing() && next in graph.adjacencyList
      ensures Remaining() < old(Remaining()) || (Remaining() == old(Remaining()) && |frontierNodes| < |old(frontierNodes)|)
    {
      Expand(seed);
      next := GetNextSeed();
    }

    /**
     * The searchForFrontierNodes call of generateGraph's loop, with the
     * shape it keeps, the frontier cells it leaves inside the graph, and the
     * progress it makes: either fewer node sites are missing and the
     * frontier grew, or nothing changed. A seed that is the only node always
     * finds frontier cells.
     */
    method Expand(seed: Cell)
      requires Growing() && seed in graph.adjacencyList
      modifies this`frontierNodes, graph
      ensures Growing()
      ensures || (Remaining() < old(Remaining()) && frontierNodes != [])
              || (Remaining() == old(Remaining()) && frontierNodes == old(frontierNodes))
      ensures old(graph.adjacencyList).Keys == {seed} && width >= 5 && height >= 5 && width % 2 == 1 && height % 2 == 1
        ==> frontierNodes != []
    {
      ghost var adj, nodes := graph.adjacencyList, graph.keyNodes;
      SearchForFrontierNodes(seed);
      SearchGrows(adj, nodes, graph.adjacencyList, graph.keyNodes, seed, width, height);
      if adj.Keys == {seed} && width >= 5 && height >= 5 && width % 2 == 1 && height % 2 == 1 {
        NodeSitesAre(seed, width, height);
        SeedHasFrontier(seed, width, height);
      }
    }
  }

  /**
   * What one searchForFrontierNodes call of generateGraph keeps: the lattice
   * shape; the cells it appends become nodes; and it either adds nodes,
   * so fewer interior cells are missing, or changes nothing.
   */
  lemma SearchGrows(adj: Adjacency, nodes: map<Cell, Node>, adj': Adjacency, nodes': map<Cell, Node>,
                    seed: Cell, width: int, height: int)
    requires LatticeShape(adj, nodes, width, height) && seed in adj && seed in nodes
    requires adj' == LinkAll(adj, seed, FrontierCandidates(seed, adj.Keys, width, height, Values), 2)
    requires nodes' == LinkNodesAll(nodes, seed, FrontierCandidates(seed, adj.Keys, width, height, Values), 2)
    ensures LatticeShape(adj', nodes', width, height)
    ensures forall c :: c in adj' <==> c in adj || c in FrontierCandidates(seed, adj.Keys, width, height, Values)
    ensures FrontierCandidates(seed, adj.Keys, width, height, Values) != [] ==>
      Missing(adj'.Keys, width, height) < Missing(adj.Keys, width, height)
    ensures FrontierCandidates(seed, adj.Keys, width, height, Values) == [] ==> adj' == adj
  {
    var added := FrontierCandidates(seed, adj.Keys, width, height, Values);
    SearchKeepsLatticeShape(adj, nodes, seed, width, height);
    LinkAllKeys(adj, seed, added, 2);
    if added != [] {
      NodeSitesAre(seed, width, height);
      SearchShrinksMissing(adj, seed, width, height);
    }
  }

  /** The cell probed in direction Values[i] is a node after the earlier probes exactly when it was one before them. */
  lemma ProbeIsNew(adj: Adjacency, seed: Cell, width: int, height: int, i: int)
    requires seed in adj && 0 <= i < |Values|
    ensures var c := seed.Shift(Values[i], 2);
      c in LinkAll(adj, seed, FrontierCandidates(seed, adj.Keys, width, height, Values[..i]), 2) <==> c in adj
  {
    var c := seed.Shift(Values[i], 2);
    var before := FrontierCandidates(seed, adj.Keys, width, height, Values[..i]);
    LinkAllKeys(adj, seed, before, 2);
    if c in before {
      FrontierCandidatesAre(seed, adj.Keys, width, height, Values[..i], c);
      var d :| d in Values[..i] && c == seed.Shift(d, 2);
      var k :| 0 <= k < i && Values[k] == d;
      assert d != Values[i] by {
        ValuesDistinct(k, i);
      }
      ShiftsDiffer(seed, d, Values[i], 2);
    }
  }

  /** A probe that finds a new valid cell appends it and links it to the seed. */
  lemma ProbeAdds(adj: Adjacency, nodes: map<Cell, Node>, seed: Cell, width: int, height: int, i: int)
    requires seed in adj && seed in nodes && 0 <= i < |Values|
    requires seed.Shift(Values[i], 2) !in adj && IsValidNode(seed.Shift(Values[i], 2), width, height)
    ensures var c := seed.Shift(Values[i], 2);
      var before := FrontierCandidates(seed, adj.Keys, width, height, Values[..i]);
      && FrontierCandidates(seed, adj.Keys, width, height, Values[..i + 1]) == before + [c]
      && LinkAll(adj, seed, before + [c], 2) == Link(LinkAll(adj, seed, before, 2), seed, c, 2)
      && LinkNodesAll(nodes, seed, before + [c], 2) == LinkNodes(LinkNodesAll(nodes, seed, before, 2), seed, c, 2)
  {
    var c := seed.Shift(Values[i], 2);
    var before := FrontierCandidates(seed, adj.Keys, width, height, Values[..i]);
    assert Values[..i + 1] == Values[..i] + [Values[i]];
    FrontierSnoc(seed, adj.Keys, width, height, Values[..i], Values[i]);
    LinkAllSnoc(adj, seed, before, c, 2);
    LinkNodesAllSnoc(nodes, seed, before, c, 2);
  }

  /** Probing one more direction that leads to a new valid cell appends that cell (used by ProbeAdds for one probe of searchForFrontierNodes). */
  lemma FrontierSnoc(seed: Cell, keys: set<Cell>, width: int, height: int, ds: seq<Direction>, d: Direction)
    requires seed.Shift(d, 2) !in keys && IsValidNode(seed.Shift(d, 2), width, height)
    ensures FrontierCandidates(seed, keys, width, height, ds + [d]) ==
      FrontierCandidates(seed, keys, width, height, ds) + [seed.Shift(d, 2)]
  {
    assert (ds + [d])[..|ds|] == ds;
  }

  /** Linking one more cell after a list is one more Link (used by ProbeAdds: the queues after one more addEdge/offer pair). */
  lemma LinkAllSnoc(adj: Adjacency, a: Cell, bs: seq<Cell>, b: Cell, w: int)
    requires a in adj
    ensures LinkAll(adj, a, bs + [b], w) == Link(LinkAll(adj, a, bs, w), a, b, w)
  {
    assert (bs + [b])[..|bs|] == bs;
  }

  /** Linking one more cell after a list is one more LinkNodes (used by ProbeAdds: the key nodes after one more addEdge pair). */
  lemma LinkNodesAllSnoc(nodes: map<Cell, Node>, a: Cell, bs: seq<Cell>, b: Cell, w: int)
    requires a in nodes
    ensures LinkNodesAll(nodes, a, bs + [b], w) == LinkNodes(LinkNodesAll(nodes, a, bs, w), a, b, w)
  {
    assert (bs + [b])[..|bs|] == bs;
  }

  /** A probe that finds no new valid cell changes nothing. */
  lemma ProbeSkips(adj: Adjacency, seed: Cell, width: int, height: int, i: int)
    requires 0 <= i < |Values|
    requires !(seed.Shift(Values[i], 2) !in adj && IsValidNode(seed.Shift(Values[i], 2), width, height))
    ensures FrontierCandidates(seed, adj.Keys, width, height, Values[..i + 1]) ==
      FrontierCandidates(seed, adj.Keys, width, height, Values[..i])
  {
    assert Values[..i + 1][..i] == Values[..i];
  }

  /** Appending one cell after two lists is appending it to the second (keeps the frontier invariant of searchForFrontierNodes' loop when a probe adds a cell). */
  lemma AppendAssociates(a: seq<Cell>, b: seq<Cell>, c: Cell)
    ensures (a + b) + [c] == a + (b + [c])
  {
  }

  /** The four directions are listed once each (used by ProbeIsNew: earlier probes of one expansion reach other cells). */
  lemma ValuesDistinct(k: int, i: int)
    requires 0 <= k < i < |Values|
    ensures Values[k] != Values[i]
  {
  }
}
