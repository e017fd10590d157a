/**
 * Value-level facts behind maze generation (Maze.generateGraph and
 * Maze.searchForFrontierNodes): which cells a seed adds to the frontier,
 * the graph after they are linked to it, and the shape the graph keeps.
 */
module Generation {
  import opened Directions
  import opened Cells
  import opened Edges
  import opened Nodes
  import opened Graphs
  import opened Segments

  const WALL_THICKNESS: int := 1

  /** Maze.isValidNode: the cell lies strictly inside the outer wall. */
  predicate IsValidNode(c: Cell, width: int, height: int) {
    && c.x >= WALL_THICKNESS && c.x < width - WALL_THICKNESS
    && c.y >= WALL_THICKNESS && c.y < height - WALL_THICKNESS
  }

  /** A cell the spanning tree may use: inside the wall, with both coordinates odd. */
  predicate InteriorCell(c: Cell, width: int, height: int) {
    IsValidNode(c, width, height) && c.x % 2 == 1 && c.y % 2 == 1
  }

  /** The cells of column x whose row is odd and between 1 and top. */
  ghost function NodeColumn(x: int, top: int): set<Cell>
    decreases top
  {
    if top < 1 then {} else NodeColumn(x, top - 1) + (if top % 2 == 1 then {Cell(x, top)} else {})
  }

  /** The cells with odd column between 1 and right and odd row between 1 and top. */
  ghost function NodeCells(right: int, top: int): set<Cell>
    decreases right
  {
    if right < 1 then {} else NodeCells(right - 1, top) + (if right % 2 == 1 then NodeColumn(right, top) else {})
  }

  /** Every place a node of the spanning tree can stand: a finite set of cells. */
  ghost function NodeSites(width: int, height: int): set<Cell> {
    NodeCells(width - 2, height - 2)
  }

  lemma {:induction false} InNodeColumn(c: Cell, x: int, top: int)
    ensures c in NodeColumn(x, top) <==> c.x == x && 1 <= c.y <= top && c.y % 2 == 1
    decreases top
  {
    if top >= 1 {
      InNodeColumn(c, x, top - 1);
    }
  }

  lemma {:induction false} InNodeCells(c: Cell, right: int, top: int)
    ensures c in NodeCells(right, top) <==> 1 <= c.x <= right && c.x % 2 == 1 && 1 <= c.y <= top && c.y % 2 == 1
    decreases right
  {
    if right >= 1 {
      InNodeCells(c, right - 1, top);
      InNodeColumn(c, right, top);
    }
  }

  /** The node sites are exactly the interior cells. */
  lemma NodeSitesAre(c: Cell, width: int, height: int)
    ensures c in NodeSites(width, height) <==> InteriorCell(c, width, height)
  {
    InNodeCells(c, width - 2, height - 2);
  }

  /** How many node sites are not yet nodes: what maze generation drives down. */
  ghost function Missing(keys: set<Cell>, width: int, height: int): nat {
    |NodeSites(width, height) - keys|
  }

  /** A valid cell two steps from an interior seed is itself interior and adjacent to the seed at distance 2. */
  lemma FrontierCellIsInterior(seed: Cell, d: Direction, width: int, height: int)
    requires InteriorCell(seed, width, height)
    requires IsValidNode(seed.Shift(d, 2), width, height)
    ensures InteriorCell(seed.Shift(d, 2), width, height)
    ensures Adjacent(seed, seed.Shift(d, 2), 2)
  {
    match d
    case North =>
    case East =>
    case South =>
    case West =>
  }

  /**
   * The cells searchForFrontierNodes appends to the frontier when it probes
   * the directions `ds` in order: each probe two steps away that is not yet a
   * node and passes isValidNode.
   */
  function FrontierCandidates(seed: Cell, keys: set<Cell>, width: int, height: int, ds: seq<Direction>): seq<Cell>
    decreases |ds|
  {
    if ds == [] then []
    else
      var rest := FrontierCandidates(seed, keys, width, height, ds[..|ds| - 1]);
      var c := seed.Shift(ds[|ds| - 1], 2);
      if c !in keys && IsValidNode(c, width, height) then rest + [c] else rest
  }

  /** A cell is a frontier candidate iff it is a new, valid cell two steps from the seed along a probed direction. */
  lemma {:induction false} FrontierCandidatesAre(seed: Cell, keys: set<Cell>, width: int, height: int, ds: seq<Direction>, c: Cell)
    ensures c in FrontierCandidates(seed, keys, width, height, ds) <==>
      c !in keys && IsValidNode(c, width, height) && exists d :: d in ds && c == seed.Shift(d, 2)
    decreases |ds|
  {
    if ds != [] {
      var init := ds[..|ds| - 1];
      var last := ds[|ds| - 1];
      FrontierCandidatesAre(seed, keys, width, height, init, c);
      assert ds == init + [last];
      if exists d :: d in ds && c == seed.Shift(d, 2) {
        var d :| d in ds && c == seed.Shift(d, 2);
        if d != last {
          assert d in init;
        }
      }
    }
  }

  /** No element of `s` occurs twice. */
  ghost predicate Distinct<T>(s: seq<T>) {
    forall i, j :: 0 <= i < j < |s| ==> s[i] != s[j]
  }

  /** Probing distinct directions never appends the same cell twice. */
  lemma {:induction false} FrontierCandidatesDistinct(seed: Cell, keys: set<Cell>, width: int, height: int, ds: seq<Direction>)
    requires Distinct(ds)
    ensures Distinct(FrontierCandidates(seed, keys, width, height, ds))
    decreases |ds|
  {
    if ds != [] {
      var init := ds[..|ds| - 1];
      var last := ds[|ds| - 1];
      FrontierCandidatesDistinct(seed, keys, width, height, init);
      var c := seed.Shift(last, 2);
      var rest := FrontierCandidates(seed, keys, width, height, init);
      assert c !in rest by {
        FrontierCandidatesAre(seed, keys, width, height, init, c);
        if c in rest {
          var d :| d in init && c == seed.Shift(d, 2);
          var i :| 0 <= i < |init| && init[i] == d;
          assert ds[i] != ds[|ds| - 1];
          ShiftsDiffer(seed, d, last, 2);
        }
      }
      var r := FrontierCandidates(seed, keys, width, height, ds);
      assert r == rest + [c] || r == rest;
      forall i, j | 0 <= i < j < |r|
        ensures r[i] != r[j]
      {
        if j < |rest| {
          assert r[i] == rest[i] && r[j] == rest[j];
          assert rest[i] != rest[j];
        } else {
          assert j == |rest|;
          assert r == rest + [c] && r[j] == c && r[i] == rest[i];
        }
      }
    }
  }

  /** The node table after `new` node `b` and node `a` each add the edge to the other (Node.addEdge on both). */
  function LinkNodes(nodes: map<Cell, Node>, a: Cell, b: Cell, w: int): map<Cell, Node>
    requires a in nodes
  {
    nodes[b := NewNode(b).AddEdge(Edge(a, w))][a := nodes[a].AddEdge(Edge(b, w))]
  }

  /** The adjacency after the cells `bs` are linked, one after the other, to `a`. */
  function LinkAll(adj: Adjacency, a: Cell, bs: seq<Cell>, w: int): (r: Adjacency)
    requires a in adj
    ensures a in r
    decreases |bs|
  {
    if bs == [] then adj
    else Link(LinkAll(adj, a, bs[..|bs| - 1], w), a, bs[|bs| - 1], w)
  }

  /** The node table after the cells `bs` are linked, one after the other, to `a`. */
  function LinkNodesAll(nodes: map<Cell, Node>, a: Cell, bs: seq<Cell>, w: int): (r: map<Cell, Node>)
    requires a in nodes
    ensures a in r
    decreases |bs|
  {
    if bs == [] then nodes
    else LinkNodes(LinkNodesAll(nodes, a, bs[..|bs| - 1], w), a, bs[|bs| - 1], w)
  }

  /** Linking the cells `bs` to `a` adds exactly those cells as nodes. */
  lemma {:induction false} LinkAllKeys(adj: Adjacency, a: Cell, bs: seq<Cell>, w: int)
    requires a in adj
    ensures forall c :: c in LinkAll(adj, a, bs, w) <==> c in adj || c in bs
    decreases |bs|
  {
    if bs != [] {
      LinkAllKeys(adj, a, bs[..|bs| - 1], w);
      assert forall c :: c in bs <==> c in bs[..|bs| - 1] || c == bs[|bs| - 1];
    }
  }

  /** Linking the cells `bs` to `a` adds exactly those cells to the node table. */
  lemma {:induction false} LinkNodesAllKeys(nodes: map<Cell, Node>, a: Cell, bs: seq<Cell>, w: int)
    requires a in nodes
    ensures forall c :: c in LinkNodesAll(nodes, a, bs, w) <==> c in nodes || c in bs
    decreases |bs|
  {
    if bs != [] {
      LinkNodesAllKeys(nodes, a, bs[..|bs| - 1], w);
      assert forall c :: c in bs <==> c in bs[..|bs| - 1] || c == bs[|bs| - 1];
    }
  }

  /**
   * The shape of the graph while generation grows it, as a subgraph of the
   * lattice of node sites: nodes on node sites only, weight-2 edges in
   * symmetric pairs between cells two steps apart, at most one per
   * neighbour in each queue, and each node's queue equal to its own edge
   * set. It says nothing about connectivity or
   * cycles: that the graph is a spanning tree is not part of it.
   */
  ghost predicate LatticeShape(adj: Adjacency, nodes: map<Cell, Node>, width: int, height: int) {
    && (forall c :: c in adj ==> c in NodeSites(width, height))
    && Symmetric(adj)
    && WellFormed(adj)
    && EdgeSetsAgree(adj, nodes)
    && DistinctTargets(adj)
    && (forall c, e :: c in adj && e in adj[c] ==> e.weight == 2)
  }

  /** Linking a new node keeps each queue equal to its node's edge set. */
  lemma LinkKeepsEdgeSetsAgree(adj: Adjacency, nodes: map<Cell, Node>, a: Cell, b: Cell, w: int)
    requires EdgeSetsAgree(adj, nodes) && a in adj && a in nodes && b !in adj
    ensures EdgeSetsAgree(Link(adj, a, b, w), LinkNodes(nodes, a, b, w))
  {
    var adj', nodes' := Link(adj, a, b, w), LinkNodes(nodes, a, b, w);
    forall c: Cell, e: Edge | c in adj' && c in nodes'
      ensures e in adj'[c] <==> e in nodes'[c].edges
    {
      if c != a && c != b {
        assert adj'[c] == adj[c] && nodes'[c] == nodes[c];
      }
    }
  }

  /** Linking interior cells two steps from `a`, one after the other, keeps the lattice shape. */
  lemma {:induction false} LinkAllKeepsLatticeShape(adj: Adjacency, nodes: map<Cell, Node>, a: Cell, bs: seq<Cell>, width: int, height: int)
    requires LatticeShape(adj, nodes, width, height) && a in adj && a in nodes
    requires forall b :: b in bs ==> b !in adj && InteriorCell(b, width, height) && Adjacent(a, b, 2)
    requires Distinct(bs)
    ensures LatticeShape(LinkAll(adj, a, bs, 2), LinkNodesAll(nodes, a, bs, 2), width, height)
    decreases |bs|
  {
    if bs != [] {
      var init := bs[..|bs| - 1];
      var b := bs[|bs| - 1];
      LinkAllKeepsLatticeShape(adj, nodes, a, init, width, height);
      var prev, prevNodes := LinkAll(adj, a, init, 2), LinkNodesAll(nodes, a, init, 2);
      LinkAllKeys(adj, a, init, 2);
      assert b !in init;
      assert b !in prev;
      LinkKeepsSymmetric(prev, a, b, 2);
      LinkKeepsWellFormed(prev, a, b, 2);
      LinkKeepsEdgeSetsAgree(prev, prevNodes, a, b, 2);
      LinkKeepsDistinct(prev, a, b, 2);
      NodeSitesAre(b, width, height);
      var next := Link(prev, a, b, 2);
      forall c: Cell, e: Edge | c in next && e in next[c]
        ensures e.weight == 2
      {
        if !(c == b || (c == a && e == Edge(b, 2))) {
          assert e in prev[c];
        }
      }
    }
  }

  /** `p` lies on the segment of some edge whose source is in `from`. */
  ghost predicate OnEdgeFrom(p: Cell, adj: Adjacency, from: set<Cell>) {
    exists c, e {:trigger OnSegment(p, c, e.target)} :: c in from && c in adj && e in adj[c] && OnSegment(p, c, e.target)
  }

  /** `p` lies on the segment of some edge of the graph: the cells generation paints as PASSAGE. */
  ghost predicate OnSomeEdge(p: Cell, adj: Adjacency) {
    OnEdgeFrom(p, adj, adj.Keys)
  }

  /** Linking `b` to `a` adds exactly the cells of the segment between them to those on some edge. */
  lemma OnSomeEdgeLink(p: Cell, adj: Adjacency, a: Cell, b: Cell, w: int)
    requires a in adj && b !in adj
    ensures OnSomeEdge(p, Link(adj, a, b, w)) <==> OnSomeEdge(p, adj) || OnSegment(p, a, b)
  {
    var adj' := Link(adj, a, b, w);
    if OnSomeEdge(p, adj') {
      var c: Cell, e: Edge :| c in adj' && e in adj'[c] && OnSegment(p, c, e.target);
      if c == b {
        assert e == Edge(a, w);
        OnSegmentSymmetric(p, a, b);
      } else if c == a && e == Edge(b, w) {
      } else {
        assert e in adj[c];
      }
    }
    if OnSomeEdge(p, adj) {
      var c: Cell, e: Edge :| c in adj && e in adj[c] && OnSegment(p, c, e.target);
      assert e in adj'[c];
    }
    if OnSegment(p, a, b) {
      assert Edge(b, w) in adj'[a];
    }
  }

  /** `p` lies on the segment of one of the edges `es` that leave `n`. */
  ghost predicate OnEdgeIn(p: Cell, n: Cell, es: multiset<Edge>) {
    exists e :: e in es && OnSegment(p, n, e.target)
  }

  /** One more edge out of `n` adds exactly its own segment. */
  lemma OnEdgeInAdd(p: Cell, n: Cell, es: multiset<Edge>, e: Edge)
    ensures OnEdgeIn(p, n, es + multiset{e}) <==> OnEdgeIn(p, n, es) || OnSegment(p, n, e.target)
  {
    if OnEdgeIn(p, n, es + multiset{e}) {
      var f :| f in es + multiset{e} && OnSegment(p, n, f.target);
      if f != e {
        assert f in es;
      }
    }
    if OnSegment(p, n, e.target) {
      assert e in es + multiset{e};
    }
  }

  /** Painting one more source node's edges adds exactly the segments of its queue. */
  lemma OnEdgeFromAddSource(p: Cell, adj: Adjacency, from: set<Cell>, n: Cell)
    requires n in adj
    ensures OnEdgeFrom(p, adj, from + {n}) <==> OnEdgeFrom(p, adj, from) || OnEdgeIn(p, n, adj[n])
  {
    if OnEdgeFrom(p, adj, from + {n}) {
      var c: Cell, e: Edge :| c in from + {n} && c in adj && e in adj[c] && OnSegment(p, c, e.target);
      if c != n {
        assert c in from;
      }
    }
    if OnEdgeIn(p, n, adj[n]) {
      var e :| e in adj[n] && OnSegment(p, n, e.target);
      assert n in from + {n};
    }
  }

  /**
   * After generation every node lies inside the wall, and so does the
   * segment of every edge: painting the graph stays on the grid.
   */
  lemma LatticeFitsGrid(adj: Adjacency, nodes: map<Cell, Node>, width: int, height: int)
    requires LatticeShape(adj, nodes, width, height)
    ensures forall c :: c in adj ==> IsValidNode(c, width, height)
    ensures forall c, e :: c in adj && e in adj[c] ==> SegmentFits(c, e.target, width, height)
  {
    LatticeNodesAreValid(adj, nodes, width, height);
    forall c, e | c in adj && e in adj[c]
      ensures SegmentFits(c, e.target, width, height)
    {
      SegmentFitsBetweenInnerCells(c, e.target, width, height);
    }
  }

  /** After generation every node lies inside the wall. */
  lemma LatticeNodesAreValid(adj: Adjacency, nodes: map<Cell, Node>, width: int, height: int)
    requires LatticeShape(adj, nodes, width, height)
    ensures forall c :: c in adj ==> IsValidNode(c, width, height)
  {
    forall c | c in adj
      ensures IsValidNode(c, width, height)
    {
      NodeSitesAre(c, width, height);
    }
  }

  /** The wall cells beside two valid nodes are not nodes themselves. */
  lemma BorderCellsAreFree(adj: Adjacency, width: int, height: int, west: Cell, east: Cell)
    requires forall c :: c in adj ==> IsValidNode(c, width, height)
    requires west in adj && east in adj
    ensures IsValidNode(west, width, height) && IsValidNode(east, width, height)
    ensures Cell(0, west.y) !in adj && Cell(width - 1, east.y) !in adj
  {
    assert Cell(0, west.y) in adj ==> IsValidNode(Cell(0, west.y), width, height);
    assert Cell(width - 1, east.y) in adj ==> IsValidNode(Cell(width - 1, east.y), width, height);
  }

  /**
   * The entrance, one step west of a node on x = 1, and the exit, one step
   * east of a node on x = width - 2, are new to the graph and to each other.
   */
  lemma EntrancesAreNew(adj: Adjacency, nodes: map<Cell, Node>, width: int, height: int, west: Cell, ent: Cell, east: Cell, ex: Cell)
    requires LatticeShape(adj, nodes, width, height)
    requires west in adj && west.x == WALL_THICKNESS && ent == Cell(0, west.y)
    requires east in adj && east.x == width - WALL_THICKNESS - 1 && ex == Cell(width - 1, east.y)
    ensures ent !in adj && ex !in Link(adj, west, ent, 1)
  {
    LatticeFitsGrid(adj, nodes, width, height);
  }

  /** Binding the entrance and the exit keeps the edges in symmetric pairs. */
  lemma EntrancesKeepSymmetric(adj: Adjacency, nodes: map<Cell, Node>, width: int, height: int, west: Cell, ent: Cell, east: Cell, ex: Cell)
    requires LatticeShape(adj, nodes, width, height)
    requires west in adj && west.x == WALL_THICKNESS && ent == Cell(0, west.y)
    requires east in adj && east.x == width - WALL_THICKNESS - 1 && ex == Cell(width - 1, east.y)
    ensures Symmetric(Link(Link(adj, west, ent, 1), east, ex, 1))
  {
    EntrancesAreNew(adj, nodes, width, height, west, ent, east, ex);
    LinkKeepsSymmetric(adj, west, ent, 1);
    LinkKeepsSymmetric(Link(adj, west, ent, 1), east, ex, 1);
  }

  /** Binding the entrance and the exit, one step from their border nodes, keeps the edges well formed. */
  lemma EntrancesKeepWellFormed(adj: Adjacency, nodes: map<Cell, Node>, width: int, height: int, west: Cell, ent: Cell, east: Cell, ex: Cell)
    requires LatticeShape(adj, nodes, width, height)
    requires west in adj && west.x == WALL_THICKNESS && ent == Cell(0, west.y)
    requires east in adj && east.x == width - WALL_THICKNESS - 1 && ex == Cell(width - 1, east.y)
    ensures WellFormed(Link(Link(adj, west, ent, 1), east, ex, 1))
  {
    EntrancesAreNew(adj, nodes, width, height, west, ent, east, ex);
    LinkKeepsWellFormed(adj, west, ent, 1);
    LinkKeepsWellFormed(Link(adj, west, ent, 1), east, ex, 1);
  }

  /** Binding the entrance and the exit keeps each queue equal to its node's edge set. */
  lemma EntrancesKeepEdgeSetsAgree(adj: Adjacency, nodes: map<Cell, Node>, width: int, height: int, west: Cell, ent: Cell, east: Cell, ex: Cell)
    requires LatticeShape(adj, nodes, width, height)
    requires west in adj && west.x == WALL_THICKNESS && ent == Cell(0, west.y)
    requires east in adj && east.x == width - WALL_THICKNESS - 1 && ex == Cell(width - 1, east.y)
    requires adj.Keys == nodes.Keys
    ensures EdgeSetsAgree(Link(Link(adj, west, ent, 1), east, ex, 1), LinkNodes(LinkNodes(nodes, west, ent, 1), east, ex, 1))
  {
    EntrancesAreNew(adj, nodes, width, height, west, ent, east, ex);
    LinkKeepsEdgeSetsAgree(adj, nodes, west, ent, 1);
    LinkKeepsEdgeSetsAgree(Link(adj, west, ent, 1), LinkNodes(nodes, west, ent, 1), east, ex, 1);
  }

  /** After binding the entrance and the exit, they are nodes and every other node is on a node site. */
  lemma EntrancesKeepSites(adj: Adjacency, nodes: map<Cell, Node>, width: int, height: int, west: Cell, ent: Cell, east: Cell, ex: Cell)
    requires LatticeShape(adj, nodes, width, height)
    requires west in adj && west.x == WALL_THICKNESS && ent == Cell(0, west.y)
    requires east in adj && east.x == width - WALL_THICKNESS - 1 && ex == Cell(width - 1, east.y)
    ensures var adj' := Link(Link(adj, west, ent, 1), east, ex, 1);
      ent in adj' && ex in adj' && forall c :: c in adj' ==> c in NodeSites(width, height) || c == ent || c == ex
  {
  }

  /**
   * Binding the entrance and the exit hangs each of them on its border node
   * by one weight-1 pair and leaves every other edge of weight 2.
   */
  lemma EntrancesArePendant(adj: Adjacency, nodes: map<Cell, Node>, width: int, height: int, west: Cell, ent: Cell, east: Cell, ex: Cell)
    requires LatticeShape(adj, nodes, width, height)
    requires west in adj && west.x == WALL_THICKNESS && ent == Cell(0, west.y)
    requires east in adj && east.x == width - WALL_THICKNESS - 1 && ex == Cell(width - 1, east.y)
    ensures Pendant(Link(Link(adj, west, ent, 1), east, ex, 1), width, ent, ex)
  {
    EntrancesAreNew(adj, nodes, width, height, west, ent, east, ex);
    var adj' := Link(Link(adj, west, ent, 1), east, ex, 1);
    assert forall c, e :: c in adj && e in adj[c] ==> e.target in adj && e.weight == 2;
    forall c: Cell, e: Edge | c in adj' && e in adj'[c]
      ensures e.weight == EdgeWeight(c, e.target, ent, ex)
    {
      EntranceEdgeWeight(adj, west, ent, east, ex, c, e);
    }
  }

  /**
   * The entrance and the exit each hang on the node beside them by their
   * one weight-1 edge, and every edge not at either end has weight 2.
   */
  ghost predicate Pendant(adj: Adjacency, width: int, ent: Cell, ex: Cell) {
    && ent in adj && adj[ent] == multiset{Edge(Cell(WALL_THICKNESS, ent.y), 1)}
    && ex in adj && adj[ex] == multiset{Edge(Cell(width - WALL_THICKNESS - 1, ex.y), 1)}
    && forall c, e :: c in adj && e in adj[c] ==> e.weight == EdgeWeight(c, e.target, ent, ex)
  }

  /** One edge of the graph with the entrance and the exit bound has the weight a generated maze gives it. */
  lemma EntranceEdgeWeight(adj: Adjacency, west: Cell, ent: Cell, east: Cell, ex: Cell, c: Cell, e: Edge)
    requires west in adj && east in adj && ent !in adj && ex !in Link(adj, west, ent, 1)
    requires forall c, e :: c in adj && e in adj[c] ==> e.target in adj && e.weight == 2
    requires c in Link(Link(adj, west, ent, 1), east, ex, 1) && e in Link(Link(adj, west, ent, 1), east, ex, 1)[c]
    ensures e.weight == EdgeWeight(c, e.target, ent, ex)
  {
    LinkedEdge(Link(adj, west, ent, 1), east, ex, 1, c, e);
    if c != ex && !(c == east && e == Edge(ex, 1)) {
      LinkedEdge(adj, west, ent, 1, c, e);
    }
  }

  /** An edge of a graph with `b` linked to `a` is one of the new pair or an edge the graph had. */
  lemma LinkedEdge(adj: Adjacency, a: Cell, b: Cell, w: int, c: Cell, e: Edge)
    requires a in adj && b !in adj && c in Link(adj, a, b, w) && e in Link(adj, a, b, w)[c]
    ensures || (c == b && e == Edge(a, w))
            || (c == a && e == Edge(b, w))
            || (c != b && c in adj && e in adj[c])
  {
  }

  /** The weight a generated maze gives the edge from `c` to `t`: 1 at the entrance or the exit, 2 elsewhere. */
  function EdgeWeight(c: Cell, t: Cell, ent: Cell, ex: Cell): (w: int)
    ensures w == 1 <==> c == ent || c == ex || t == ent || t == ex
    ensures w == 1 || w == 2
  {
    if c == ent || c == ex || t == ent || t == ex then 1 else 2
  }

  /**
   * The graph of a generated maze: edges well formed, in symmetric pairs,
   * leading to other nodes, one per neighbour in each queue, and matching
   * the nodes' edge sets; the entrance
   * on the west wall and the exit on the east wall are nodes, each with the
   * one weight-1 edge to the node beside it, every other edge has weight 2,
   * and every other node is on a node site.
   */
  ghost predicate Opened(adj: Adjacency, nodes: map<Cell, Node>, width: int, height: int, ent: Cell, ex: Cell) {
    && Symmetric(adj) && WellFormed(adj) && PositiveLinks(adj) && EdgeSetsAgree(adj, nodes) && DistinctTargets(adj)
    && ent.x == 0 && ent in adj && ex.x == width - 1 && ex in adj
    && Pendant(adj, width, ent, ex)
    && (forall c :: c in adj ==> c in NodeSites(width, height) || c == ent || c == ex)
  }

  /** Binding the entrance and the exit keeps one edge per neighbour in every queue. */
  lemma EntrancesKeepDistinct(adj: Adjacency, nodes: map<Cell, Node>, width: int, height: int, west: Cell, ent: Cell, east: Cell, ex: Cell)
    requires LatticeShape(adj, nodes, width, height)
    requires west in adj && west.x == WALL_THICKNESS && ent == Cell(0, west.y)
    requires east in adj && east.x == width - WALL_THICKNESS - 1 && ex == Cell(width - 1, east.y)
    ensures DistinctTargets(Link(Link(adj, west, ent, 1), east, ex, 1))
  {
    EntrancesAreNew(adj, nodes, width, height, west, ent, east, ex);
    LinkKeepsDistinct(adj, west, ent, 1);
    LinkKeepsWellFormed(adj, west, ent, 1);
    LinkKeepsDistinct(Link(adj, west, ent, 1), east, ex, 1);
  }

  /** Binding the entrance and the exit to a lattice-shaped graph gives the graph of a generated maze. */
  lemma EntrancesOpen(adj: Adjacency, nodes: map<Cell, Node>, width: int, height: int, west: Cell, ent: Cell, east: Cell, ex: Cell)
    requires LatticeShape(adj, nodes, width, height)
    requires west in adj && west.x == WALL_THICKNESS && ent == Cell(0, west.y)
    requires east in adj && east.x == width - WALL_THICKNESS - 1 && ex == Cell(width - 1, east.y)
    requires adj.Keys == nodes.Keys
    ensures Opened(Link(Link(adj, west, ent, 1), east, ex, 1), LinkNodes(LinkNodes(nodes, west, ent, 1), east, ex, 1),
                   width, height, ent, ex)
  {
    EntrancesKeepSymmetric(adj, nodes, width, height, west, ent, east, ex);
    EntrancesKeepWellFormed(adj, nodes, width, height, west, ent, east, ex);
    EntrancesKeepEdgeSetsAgree(adj, nodes, width, height, west, ent, east, ex);
    EntrancesKeepDistinct(adj, nodes, width, height, west, ent, east, ex);
    EntrancesKeepSites(adj, nodes, width, height, west, ent, east, ex);
    EntrancesArePendant(adj, nodes, width, height, west, ent, east, ex);
    WellFormedLinksPositive(Link(Link(adj, west, ent, 1), east, ex, 1));
  }

  /** The graph with the entrance bound beside `west` and the exit bound beside `east`. */
  ghost function WithEntrances(adj: Adjacency, width: int, west: Cell, east: Cell): Adjacency
    requires west in adj && east in adj
  {
    Link(Link(adj, west, Cell(0, west.y), 1), east, Cell(width - 1, east.y), 1)
  }

  /**
   * Whichever node next to the west wall and whichever node next to the
   * east wall are chosen, binding the entrance and the exit beside them
   * gives the graph of a generated maze.
   */
  ghost predicate OpensOnBorders(adj: Adjacency, nodes: map<Cell, Node>, width: int, height: int) {
    && adj.Keys == nodes.Keys
    && forall west, east {:trigger WithEntrances(adj, width, west, east)} ::
         west in adj && west.x == WALL_THICKNESS && east in adj && east.x == width - WALL_THICKNESS - 1 ==>
         Opened(WithEntrances(adj, width, west, east),
                LinkNodes(LinkNodes(nodes, west, Cell(0, west.y), 1), east, Cell(width - 1, east.y), 1),
                width, height, Cell(0, west.y), Cell(width - 1, east.y))
  }

  /** A lattice-shaped graph opens into a generated maze on any pair of border nodes. */
  lemma LatticeOpensOnBorders(adj: Adjacency, nodes: map<Cell, Node>, width: int, height: int)
    requires LatticeShape(adj, nodes, width, height) && adj.Keys == nodes.Keys
    ensures OpensOnBorders(adj, nodes, width, height)
  {
    forall west, east | west in adj && west.x == WALL_THICKNESS && east in adj && east.x == width - WALL_THICKNESS - 1
      ensures Opened(WithEntrances(adj, width, west, east),
                     LinkNodes(LinkNodes(nodes, west, Cell(0, west.y), 1), east, Cell(width - 1, east.y), 1),
                     width, height, Cell(0, west.y), Cell(width - 1, east.y))
    {
      EntrancesOpen(adj, nodes, width, height, west, Cell(0, west.y), east, Cell(width - 1, east.y));
    }
  }

  /** A graph that opens on its borders, with the entrance and the exit bound beside two border nodes, is opened. */
  lemma OpenedOnBorders(adj: Adjacency, nodes: map<Cell, Node>, width: int, height: int, west: Cell, east: Cell,
                        adj': Adjacency, nodes': map<Cell, Node>, ent: Cell, ex: Cell)
    requires OpensOnBorders(adj, nodes, width, height)
    requires west in adj && west.x == WALL_THICKNESS && ent == Cell(0, west.y)
    requires east in adj && east.x == width - WALL_THICKNESS - 1 && ex == Cell(width - 1, east.y)
    requires adj' == Link(Link(adj, west, ent, 1), east, ex, 1)
    requires nodes' == LinkNodes(LinkNodes(nodes, west, ent, 1), east, ex, 1)
    ensures Opened(adj', nodes', width, height, ent, ex)
  {
    assert adj' == WithEntrances(adj, width, west, east);
  }

  /** Binding the entrance and the exit adds exactly their two segments to the cells on some edge. */
  lemma EntrancesAddSegments(adj: Adjacency, west: Cell, ent: Cell, east: Cell, ex: Cell, p: Cell)
    requires west in adj && east in adj && ent !in adj && ex !in adj && ex != ent
    ensures OnSomeEdge(p, Link(Link(adj, west, ent, 1), east, ex, 1))
        <==> OnSomeEdge(p, adj) || OnSegment(p, west, ent) || OnSegment(p, east, ex)
  {
    OnSomeEdgeLink(p, adj, west, ent, 1);
    assert ex !in Link(adj, west, ent, 1);
    OnSomeEdgeLink(p, Link(adj, west, ent, 1), east, ex, 1);
  }

  /**
   * A grid cell painted from the graph, then repainted with the entrance's
   * and the exit's segments, is PASSAGE exactly when it lies on some edge
   * of the graph with the entrance and the exit bound.
   */
  lemma EntrancesRepaintCell(adj: Adjacency, west: Cell, ent: Cell, east: Cell, ex: Cell, p: Cell, before: int, after: int)
    requires west in adj && east in adj && ent !in adj && ex !in adj && ex != ent
    requires before == if OnSomeEdge(p, adj) then PASSAGE else BLOCK
    requires after == if OnSegment(p, west, ent) || OnSegment(p, east, ex) then PASSAGE else before
    ensures after == if OnSomeEdge(p, Link(Link(adj, west, ent, 1), east, ex, 1)) then PASSAGE else BLOCK
  {
    EntrancesAddSegments(adj, west, ent, east, ex, p);
  }

  /** The nodes in column `x`: what each stream of createEntrances keeps after its getX() filter. */
  function Column(nodes: set<Cell>, x: int): set<Cell> {
    set c | c in nodes && c.x == x
  }

  /**
   * Both streams of createEntrances leave a node: each column next to a
   * wall holds more nodes than the number skipped in it.
   */
  ghost predicate SkipsLeaveNodes(nodes: set<Cell>, width: int, skipWest: int, skipEast: int) {
    |Column(nodes, WALL_THICKNESS)| > skipWest && |Column(nodes, width - WALL_THICKNESS - 1)| > skipEast
  }

  /**
   * Binding an entrance in the first column and an exit in the last one
   * leaves the columns next to the west and east walls as they were, so the
   * skips leave nodes afterwards exactly when they did before.
   */
  lemma EntrancesKeepColumns(adj: Adjacency, width: int, west: Cell, ent: Cell, east: Cell, ex: Cell, skipWest: int, skipEast: int)
    requires west in adj && east in adj && width >= 3 && ent.x == 0 && ex.x == width - 1
    ensures SkipsLeaveNodes(Link(Link(adj, west, ent, 1), east, ex, 1).Keys, width, skipWest, skipEast)
        <==> SkipsLeaveNodes(adj.Keys, width, skipWest, skipEast)
  {
    var keys := Link(Link(adj, west, ent, 1), east, ex, 1).Keys;
    assert keys == adj.Keys + {ent, ex};
    ColumnIgnores(adj.Keys, {ent, ex}, WALL_THICKNESS);
    ColumnIgnores(adj.Keys, {ent, ex}, width - WALL_THICKNESS - 1);
  }

  /** Adding cells outside column `x` leaves the column as it was. */
  lemma ColumnIgnores(nodes: set<Cell>, extra: set<Cell>, x: int)
    requires forall c :: c in extra ==> c.x != x
    ensures Column(nodes + extra, x) == Column(nodes, x)
  {
  }

  /** A subset has at most as many elements as its superset. */
  lemma {:induction false} SubsetCardinality<T>(a: set<T>, b: set<T>)
    requires a <= b
    ensures |a| <= |b|
    decreases |a|
  {
    if a != {} {
      var x :| x in a;
      SubsetCardinality(a - {x}, b - {x});
    }
  }

  /** Every interior seed of a grid at least 5 by 5 with odd sides has a valid cell two steps away. */
  lemma SeedHasFrontier(seed: Cell, width: int, height: int)
    requires InteriorCell(seed, width, height)
    requires width >= 5 && height >= 5 && width % 2 == 1 && height % 2 == 1
    ensures FrontierCandidates(seed, {seed}, width, height, Values) != []
  {
    var d := if seed.x + 2 <= width - 2 then East else West;
    var c := seed.Shift(d, 2);
    assert d in Values;
    FrontierCandidatesAre(seed, {seed}, width, height, Values, c);
  }

  /** Every cell an expansion adds is new, interior and two steps from the seed. */
  lemma CandidatesFit(seed: Cell, keys: set<Cell>, width: int, height: int)
    requires InteriorCell(seed, width, height)
    ensures forall b :: b in FrontierCandidates(seed, keys, width, height, Values) ==>
      b !in keys && InteriorCell(b, width, height) && Adjacent(seed, b, 2)
  {
    forall b | b in FrontierCandidates(seed, keys, width, height, Values)
      ensures b !in keys && InteriorCell(b, width, height) && Adjacent(seed, b, 2)
    {
      FrontierCandidatesAre(seed, keys, width, height, Values, b);
      var d :| d in Values && b == seed.Shift(d, 2) && IsValidNode(b, width, height);
      FrontierCellIsInterior(seed, d, width, height);
    }
  }

  /** Adding a cell of a finite box that was missing leaves fewer cells of the box missing. */
  lemma FewerMissing(box: set<Cell>, keys: set<Cell>, keys': set<Cell>, b: Cell)
    requires keys <= keys' && b in box && b !in keys && b in keys'
    ensures |box - keys'| < |box - keys|
  {
    assert box - keys' <= (box - keys) - {b};
    SubsetCardinality(box - keys', (box - keys) - {b});
  }

  /** One expansion of a seed keeps the lattice shape. */
  lemma SearchKeepsLatticeShape(adj: Adjacency, nodes: map<Cell, Node>, seed: Cell, width: int, height: int)
    requires LatticeShape(adj, nodes, width, height) && seed in adj && seed in nodes
    ensures LatticeShape(LinkAll(adj, seed, FrontierCandidates(seed, adj.Keys, width, height, Values), 2),
                      LinkNodesAll(nodes, seed, FrontierCandidates(seed, adj.Keys, width, height, Values), 2), width, height)
  {
    var added := FrontierCandidates(seed, adj.Keys, width, height, Values);
    NodeSitesAre(seed, width, height);
    ValuesAreAllDirections();
    FrontierCandidatesDistinct(seed, adj.Keys, width, height, Values);
    CandidatesFit(seed, adj.Keys, width, height);
    LinkAllKeepsLatticeShape(adj, nodes, seed, added, width, height);
  }

  /** An expansion that adds cells leaves fewer interior cells outside the graph. */
  lemma SearchShrinksMissing(adj: Adjacency, seed: Cell, width: int, height: int)
    requires seed in adj && InteriorCell(seed, width, height)
    requires FrontierCandidates(seed, adj.Keys, width, height, Values) != []
    ensures Missing(LinkAll(adj, seed, FrontierCandidates(seed, adj.Keys, width, height, Values), 2).Keys, width, height)
      < Missing(adj.Keys, width, height)
  {
    var added := FrontierCandidates(seed, adj.Keys, width, height, Values);
    var adj' := LinkAll(adj, seed, added, 2);
    CandidatesFit(seed, adj.Keys, width, height);
    LinkAllKeys(adj, seed, added, 2);
    assert added[0] in added;
    NodeSitesAre(added[0], width, height);
    FewerMissing(NodeSites(width, height), adj.Keys, adj'.Keys, added[0]);
  }
}
