/**
 * What the shortest-path search hands to path display: a predecessor map
 * whose distances strictly decrease towards the entrance, the route it
 * encodes, and the minimum-distance poll of the node queue.
 */
module ShortestPaths {
  import opened Wrappers
  import opened Cells
  import opened Edges
  import opened Nodes
  import opened Graphs
  import opened Segments

  /** Each predecessor is strictly closer to the entrance than its node, and distances are not negative. */
  ghost predicate Descending(paths: map<Cell, Cell>, dist: map<Cell, int>) {
    forall v :: v in paths ==> v in dist && paths[v] in dist && 0 <= dist[paths[v]] < dist[v]
  }

  /**
   * The cells displayEscapePath paints when started at `end`: the segment
   * from `end` to its predecessor, then those painted from the predecessor.
   */
  ghost predicate OnEscapePath(p: Cell, paths: map<Cell, Cell>, end: Cell, dist: map<Cell, int>)
    requires Descending(paths, dist)
    decreases if end in paths then dist[end] else 0
  {
    end in paths && (OnSegment(p, end, paths[end]) || OnEscapePath(p, paths, paths[end], dist))
  }

  /** What cell `p`, holding `before`, holds once the escape path from `end` is painted. */
  ghost function EscapePainted(before: int, p: Cell, paths: map<Cell, Cell>, end: Cell, dist: map<Cell, int>): int
    requires Descending(paths, dist)
  {
    if OnEscapePath(p, paths, end, dist) then PATH else before
  }

  /** Painting the escape path a second time changes no cell. */
  lemma EscapePaintIdempotent(before: int, p: Cell, paths: map<Cell, Cell>, end: Cell, dist: map<Cell, int>)
    requires Descending(paths, dist)
    ensures EscapePainted(EscapePainted(before, p, paths, end, dist), p, paths, end, dist)
         == EscapePainted(before, p, paths, end, dist)
  {
  }

  /**
   * The route obtained by following predecessors from `end`: it starts at
   * `end`, each node's successor in it is its predecessor in `paths`,
   * distances strictly decrease along it, and it stops at the first node
   * without a predecessor.
   */
  ghost function EscapeRoute(paths: map<Cell, Cell>, end: Cell, dist: map<Cell, int>): (r: seq<Cell>)
    requires Descending(paths, dist)
    ensures |r| >= 1 && r[0] == end && r[|r| - 1] !in paths
    ensures forall k :: 0 <= k < |r| - 1 ==> r[k] in paths && paths[r[k]] == r[k + 1]
    ensures forall k :: 0 < k < |r| ==> r[k] in dist && dist[r[k]] < dist[r[k - 1]]
    decreases if end in paths then dist[end] else 0
  {
    if end !in paths then [end] else [end] + EscapeRoute(paths, paths[end], dist)
  }

  /** `p` lies on the segment between some two consecutive nodes of `r`. */
  ghost predicate OnRoute(p: Cell, r: seq<Cell>) {
    exists k :: 0 <= k < |r| - 1 && OnSegment(p, r[k], r[k + 1])
  }

  /** The segments of `[a] + r` are the one from `a` to the head of `r`, and those of `r` (the induction step of OnEscapePathIsOnRoute, one node of displayEscapePath's loop). */
  lemma OnRouteCons(p: Cell, a: Cell, r: seq<Cell>)
    requires |r| >= 1
    ensures OnRoute(p, [a] + r) <==> OnSegment(p, a, r[0]) || OnRoute(p, r)
  {
    var s := [a] + r;
    assert s[0] == a && s[1] == r[0];
    if OnRoute(p, s) {
      var k :| 0 <= k < |s| - 1 && OnSegment(p, s[k], s[k + 1]);
      if k > 0 {
        assert s[k] == r[k - 1] && s[k + 1] == r[k];
        assert 0 <= k - 1 < |r| - 1 && OnSegment(p, r[k - 1], r[k - 1 + 1]);
      }
    }
    if OnRoute(p, r) {
      var k :| 0 <= k < |r| - 1 && OnSegment(p, r[k], r[k + 1]);
      assert s[k + 1] == r[k] && s[k + 2] == r[k + 1];
      assert 0 <= k + 1 < |s| - 1 && OnSegment(p, s[k + 1], s[k + 1 + 1]);
    }
    if OnSegment(p, a, r[0]) {
      assert 0 <= 0 < |s| - 1 && OnSegment(p, s[0], s[0 + 1]);
    }
  }

  /** A cell is painted by the walk from `end` iff it lies on a segment between consecutive route nodes. */
  lemma {:induction false} OnEscapePathIsOnRoute(p: Cell, paths: map<Cell, Cell>, end: Cell, dist: map<Cell, int>)
    requires Descending(paths, dist)
    ensures OnEscapePath(p, paths, end, dist) <==> OnRoute(p, EscapeRoute(paths, end, dist))
    decreases if end in paths then dist[end] else 0
  {
    if end in paths {
      var next := paths[end];
      OnEscapePathIsOnRoute(p, paths, next, dist);
      var r' := EscapeRoute(paths, next, dist);
      assert EscapeRoute(paths, end, dist) == [end] + r';
      OnRouteCons(p, end, r');
    } else {
      assert EscapeRoute(paths, end, dist) == [end];
      assert !OnRoute(p, [end]);
    }
  }

  /**
   * When every node with a distance is the entrance or has a predecessor,
   * the route from any such node ends at the entrance.
   */
  lemma RouteEndsAtEntrance(paths: map<Cell, Cell>, end: Cell, dist: map<Cell, int>, entrance: Cell)
    requires Descending(paths, dist)
    requires dist.Keys == paths.Keys + {entrance} && entrance !in paths
    requires end in dist
    ensures var r := EscapeRoute(paths, end, dist); r[|r| - 1] == entrance
  {
    var r := EscapeRoute(paths, end, dist);
    if |r| > 1 {
      assert r[|r| - 1] in dist;
    }
  }

  /**
   * `v` has a finite distance. A predecessor tree states that such a node
   * other than the source has a predecessor only for nodes named through
   * this predicate: stated for every key of the distance map, the fact
   * would lead from each predecessor to its own predecessor without end.
   */
  ghost predicate Reached(dist: map<Cell, int>, v: Cell) {
    v in dist
  }

  /** The graph has an edge from `u` back to `v` whose weight is the drop in distance from `v` to `u`. */
  ghost predicate StepBack(adj: Adjacency, dist: map<Cell, int>, v: Cell, u: Cell) {
    v in dist && u in dist && u in adj && Edge(v, dist[v] - dist[u]) in adj[u]
  }

  /**
   * What findPaths hands back, with the finite distances it found from the
   * source `s`: the source is at distance 0 and has no predecessor, every
   * other node with a finite distance has one, and each predecessor is a
   * strictly closer node with an edge to it whose weight is the difference
   * of their distances.
   */
  ghost predicate PredecessorTree(adj: Adjacency, s: Cell, paths: map<Cell, Cell>, dist: map<Cell, int>) {
    && s in dist && dist[s] == 0 && s !in paths
    && paths.Keys <= dist.Keys
    && (forall v {:trigger Reached(dist, v)} :: Reached(dist, v) && v != s ==> v in paths)
    && (forall v :: v in dist ==> dist[v] >= 0)
    && (forall v :: v in paths ==> StepBack(adj, dist, v, paths[v]) && dist[paths[v]] < dist[v])
  }

  /**
   * The state of findPaths' loop: the predecessor tree so far, finite
   * distances only for keys of the distance map, the queue holding nodes
   * with finite distances, every predecessor already polled, and no polled
   * node farther than any node still queued.
   */
  ghost predicate Searching(adj: Adjacency, s: Cell, paths: map<Cell, Cell>, dist: map<Cell, int>,
                            pq: seq<Cell>, settled: set<Cell>) {
    && PredecessorTree(adj, s, paths, dist)
    && dist.Keys <= adj.Keys + {s}
    && settled <= dist.Keys
    && (forall v :: v in paths ==> paths[v] in settled)
    && (forall c :: c in pq ==> c in dist)
    && (forall x, y :: x in settled && y in pq ==> dist[x] <= dist[y])
  }

  /** A predecessor tree's distances descend along predecessors. */
  lemma TreeDescends(adj: Adjacency, s: Cell, paths: map<Cell, Cell>, dist: map<Cell, int>)
    requires PredecessorTree(adj, s, paths, dist)
    ensures Descending(paths, dist)
  {
    forall v | v in paths
      ensures v in dist && paths[v] in dist && 0 <= dist[paths[v]] < dist[v]
    {
      assert StepBack(adj, dist, v, paths[v]);
    }
  }

  /** The nodes of a predecessor tree with a finite distance are the source and the nodes with a predecessor. */
  lemma TreeKeys(adj: Adjacency, s: Cell, paths: map<Cell, Cell>, dist: map<Cell, int>)
    requires PredecessorTree(adj, s, paths, dist)
    ensures dist.Keys == paths.Keys + {s}
  {
    forall v | v in dist
      ensures v in paths || v == s
    {
      assert Reached(dist, v);
    }
  }

  /** Each step of `r` follows an edge of the graph back to the node it came from. */
  ghost predicate WalkBack(adj: Adjacency, dist: map<Cell, int>, r: seq<Cell>) {
    forall k :: 0 <= k < |r| - 1 ==> StepBack(adj, dist, r[k], r[k + 1])
  }

  /** Following predecessors of a predecessor tree walks back along edges of the graph. */
  lemma RouteStepsBack(adj: Adjacency, s: Cell, paths: map<Cell, Cell>, dist: map<Cell, int>, r: seq<Cell>)
    requires PredecessorTree(adj, s, paths, dist)
    requires forall k :: 0 <= k < |r| - 1 ==> r[k] in paths && paths[r[k]] == r[k + 1]
    ensures WalkBack(adj, dist, r)
  {
    forall k | 0 <= k < |r| - 1
      ensures StepBack(adj, dist, r[k], r[k + 1])
    {
      assert r[k] in paths && paths[r[k]] == r[k + 1];
    }
  }

  /**
   * The route from any node with a finite distance is a walk over edges of
   * the graph, each step's weight being the drop in distance, ending at the
   * source.
   */
  lemma EscapeRouteIsWalk(adj: Adjacency, s: Cell, paths: map<Cell, Cell>, dist: map<Cell, int>, end: Cell)
    requires PredecessorTree(adj, s, paths, dist) && end in dist
    ensures Descending(paths, dist)
    ensures WalkBack(adj, dist, EscapeRoute(paths, end, dist))
    ensures var r := EscapeRoute(paths, end, dist); r[|r| - 1] == s
  {
    TreeDescends(adj, s, paths, dist);
    TreeKeys(adj, s, paths, dist);
    RouteEndsAtEntrance(paths, end, dist, s);
    RouteStepsBack(adj, s, paths, dist, EscapeRoute(paths, end, dist));
  }

  /** The initial state: only the source, at distance 0, queued. */
  lemma SearchStarts(adj: Adjacency, s: Cell)
    ensures Searching(adj, s, map[], map[s := 0], [s], {})
  {
    assert map[s := 0].Keys == {s};
  }

  /**
   * Polling a nearest queued node keeps the state, with the polled node
   * settled and no settled node farther than it.
   */
  lemma PollKeeps(adj: Adjacency, s: Cell, paths: map<Cell, Cell>, dist: map<Cell, int>,
                  pq: seq<Cell>, settled: set<Cell>, u: Cell, rest: seq<Cell>)
    requires Searching(adj, s, paths, dist, pq, settled)
    requires u in pq && (forall c :: c in pq ==> dist[u] <= dist[c])
    requires multiset(rest) + multiset{u} == multiset(pq)
    ensures Searching(adj, s, paths, dist, rest, settled + {u})
    ensures forall x :: x in settled + {u} ==> x in dist && dist[x] <= dist[u]
  {
    forall c | c in rest
      ensures c in pq
    {
      assert c in multiset(rest);
      assert c in multiset(pq);
    }
  }

  /**
   * Giving `v` the settled node `u` as predecessor, across an edge u -> v of
   * weight `w`, keeps a predecessor tree whose other predecessors are settled
   * when `v` is neither the source nor settled.
   */
  lemma RelaxKeepsTree(adj: Adjacency, s: Cell, paths: map<Cell, Cell>, dist: map<Cell, int>,
                       settled: set<Cell>, u: Cell, v: Cell, w: int)
    requires PredecessorTree(adj, s, paths, dist) && (forall x :: x in paths ==> paths[x] in settled)
    requires u in settled && u in dist && u in adj && v != s && v !in settled
    requires Edge(v, w) in adj[u] && w >= 1
    ensures PredecessorTree(adj, s, paths[v := u], dist[v := dist[u] + w])
  {
    var paths', dist' := paths[v := u], dist[v := dist[u] + w];
    forall x | x in paths'
      ensures StepBack(adj, dist', x, paths'[x]) && dist'[paths'[x]] < dist'[x]
    {
      if x != v {
        assert paths[x] in settled;
      }
    }
    forall x | x in dist'
      ensures dist'[x] >= 0
    {
      if x != v {
        assert x in dist;
      }
    }
    forall x | Reached(dist', x) && x != s
      ensures x in paths'
    {
      if x != v {
        assert Reached(dist, x);
      }
    }
  }

  /**
   * Relaxing an edge u -> v from a settled node no nearer than any other
   * settled node, when it shortens v's distance: v gets u as predecessor and
   * is queued. The relaxed node is never the source and never settled, so
   * settled distances do not change.
   */
  lemma RelaxKeeps(adj: Adjacency, s: Cell, paths: map<Cell, Cell>, dist: map<Cell, int>,
                   pq: seq<Cell>, settled: set<Cell>, u: Cell, v: Cell, w: int)
    requires Searching(adj, s, paths, dist, pq, settled)
    requires u in settled && u in adj && (forall x :: x in settled ==> dist[x] <= dist[u])
    requires Edge(v, w) in adj[u] && w >= 1 && v in adj.Keys + {s}
    requires v !in dist || dist[u] + w < dist[v]
    ensures v != s && v !in settled
    ensures Searching(adj, s, paths[v := u], dist[v := dist[u] + w], pq + [v], settled)
    ensures forall x :: x in settled ==> dist[v := dist[u] + w][x] <= dist[v := dist[u] + w][u]
  {
    var dist', pq' := dist[v := dist[u] + w], pq + [v];
    RelaxKeepsTree(adj, s, paths, dist, settled, u, v, w);
    forall x | x in settled
      ensures dist'[x] <= dist'[u]
    {
      assert x != v && u != v;
    }
    forall x, y | x in settled && y in pq'
      ensures dist'[x] <= dist'[y]
    {
      if y != v {
        assert y in pq;
      }
    }
  }

  /**
   * Every edge left in the queue of `u` has been relaxed from `u`: `u` is
   * settled, and the edge's target has a distance no greater than u's plus
   * the edge's weight.
   */
  ghost predicate Relaxed(adj: Adjacency, dist: map<Cell, int>, settled: set<Cell>, u: Cell)
    requires u in adj
  {
    forall e :: e in adj[u] ==> u in settled && u in dist && e.target in dist && dist[e.target] <= dist[u] + e.weight
  }

  /**
   * How far findPaths' loop has explored, with `adj` the graph's queues as
   * the search has shrunk them from `adj0` and `open` the keys left in its
   * local adjacency map: every edge taken out of a queue leads to a node
   * with a distance, and every node gone from the local map has the edges
   * left in its queue relaxed.
   */
  ghost predicate Explored(adj0: Adjacency, adj: Adjacency, dist: map<Cell, int>, open: set<Cell>, settled: set<Cell>) {
    && (forall c, e :: c in adj && c in adj0 && e in adj0[c] && e !in adj[c] ==> e.target in dist)
    && (forall c :: c in adj && c !in open ==> Relaxed(adj, dist, settled, c))
  }

  /** Every node with a distance is still queued or gone from the local adjacency map. */
  ghost predicate Pending(dist: map<Cell, int>, pq: seq<Cell>, open: set<Cell>) {
    forall v :: v in dist ==> v in pq || v !in open
  }

  /** Every edge out of a node with a distance leads to a node with a distance. */
  ghost predicate Closed(adj: Adjacency, dist: map<Cell, int>) {
    forall u, e :: u in dist && u in adj && e in adj[u] ==> e.target in dist
  }

  /** At the start nothing is explored: no queue has shrunk and every node is in the local map. */
  lemma ExploredStarts(adj0: Adjacency, s: Cell)
    ensures Explored(adj0, adj0, map[s := 0], adj0.Keys, {})
    ensures Pending(map[s := 0], [s], adj0.Keys)
  {
  }

  /**
   * Polling `u` from the node queue settles it, keeps what is explored, and
   * leaves every node with a distance queued, gone from the local map, or `u`.
   */
  lemma PollExplores(adj0: Adjacency, adj: Adjacency, dist: map<Cell, int>, open: set<Cell>, settled: set<Cell>,
                     pq: seq<Cell>, u: Cell, rest: seq<Cell>)
    requires Explored(adj0, adj, dist, open, settled) && Pending(dist, pq, open)
    requires multiset(rest) + multiset{u} == multiset(pq)
    ensures Explored(adj0, adj, dist, open, settled + {u})
    ensures Pending(dist, rest, open - {u})
  {
    forall c | c in adj && c !in open
      ensures Relaxed(adj, dist, settled + {u}, c)
    {
      assert Relaxed(adj, dist, settled, c);
    }
    forall v | v in dist
      ensures v in rest || v !in open - {u}
    {
      if v in pq && v != u {
        assert v in multiset(pq);
        assert v in multiset(rest);
      }
    }
  }

  /**
   * Lowering the distance of a node `v` that is not settled keeps what is
   * explored: the settled distances stay, and a relaxed edge into `v` stays
   * relaxed.
   */
  lemma RelaxExplores(adj0: Adjacency, adj: Adjacency, dist: map<Cell, int>, open: set<Cell>, settled: set<Cell>,
                      v: Cell, d: int)
    requires Explored(adj0, adj, dist, open, settled)
    requires v !in settled && (v in dist ==> d < dist[v])
    ensures Explored(adj0, adj, dist[v := d], open, settled)
  {
    var dist' := dist[v := d];
    forall c | c in adj && c !in open
      ensures Relaxed(adj, dist', settled, c)
    {
      assert Relaxed(adj, dist, settled, c);
      forall e | e in adj[c]
        ensures c in settled && c in dist' && e.target in dist' && dist'[e.target] <= dist'[c] + e.weight
      {
        assert c in settled && c != v;
      }
    }
  }

  /**
   * Taking the edge `back`, which leads to a node with a distance, out of
   * the queue of `n` (or nothing, when there is no such edge), and then
   * dropping `n` from the local map when its queue is empty, keeps what is
   * explored.
   */
  lemma RemoveExplores(adj0: Adjacency, adj: Adjacency, dist: map<Cell, int>, open: set<Cell>, settled: set<Cell>,
                       n: Cell, back: Option<Edge>, adj': Adjacency, open': set<Cell>)
    requires Explored(adj0, adj, dist, open, settled) && Shrunk(adj0, adj)
    requires n in open && n in adj
    requires back.None? ==> adj' == adj
    requires back.Some? ==> back.value.target in dist && adj' == adj[n := adj[n] - multiset{back.value}]
    requires open' == if adj'[n] == multiset{} then open - {n} else open
    ensures Explored(adj0, adj', dist, open', settled)
  {
    forall c, e | c in adj' && c in adj0 && e in adj0[c] && e !in adj'[c]
      ensures e.target in dist
    {
      if c == n && back.Some? && e == back.value {
      } else {
        assert e !in adj[c];
      }
    }
    forall c | c in adj' && c !in open'
      ensures Relaxed(adj', dist, settled, c)
    {
      if c != n {
        assert Relaxed(adj, dist, settled, c);
        assert adj'[c] == adj[c];
      }
    }
  }

  /** Once every edge left in the queue of `u` is relaxed, dropping `u` from the local map keeps what is explored. */
  lemma SettleExplores(adj0: Adjacency, adj: Adjacency, dist: map<Cell, int>, open: set<Cell>, settled: set<Cell>, u: Cell)
    requires Explored(adj0, adj, dist, open, settled)
    requires u in adj && Relaxed(adj, dist, settled, u)
    ensures Explored(adj0, adj, dist, open - {u}, settled)
  {
  }

  /**
   * With no node queued, every node with a distance is gone from the local
   * map, so every edge of the original graph out of such a node was either
   * taken out of its queue or relaxed: its target has a distance.
   */
  lemma ExploredCloses(adj0: Adjacency, adj: Adjacency, dist: map<Cell, int>, open: set<Cell>, settled: set<Cell>)
    requires Shrunk(adj0, adj) && Explored(adj0, adj, dist, open, settled) && Pending(dist, [], open)
    ensures Closed(adj0, dist)
  {
    forall u, e | u in dist && u in adj0 && e in adj0[u]
      ensures e.target in dist
    {
      assert u !in open;
      if e in adj[u] {
        assert Relaxed(adj, dist, settled, u);
      }
    }
  }

  /**
   * A graph findPaths searches without a NullPointerException: every node
   * with a queue has a node, each queue holds at most one edge per
   * neighbour, each queued edge has its reverse queued at its target and is
   * in its node's edge set, and each edge in a node's set is queued. The
   * facts about one edge are drawn only where Queued or Listed names it.
   */
  ghost predicate SearchSafe(adj: Adjacency, nodes: map<Cell, Node>) {
    && adj.Keys <= nodes.Keys && DistinctTargets(adj)
    && (forall c, e {:trigger Queued(adj, c, e)} :: Queued(adj, c, e) ==>
          Queued(adj, e.target, Edge(c, e.weight)) && e in nodes[c].edges)
    && (forall c, e {:trigger Listed(nodes, c, e)} :: c in adj && Listed(nodes, c, e) ==> e in adj[c])
  }

  /** The edge `e` is in the edge set of the node at `c`. */
  ghost predicate Listed(nodes: map<Cell, Node>, c: Cell, e: Edge) {
    c in nodes && e in nodes[c].edges
  }

  /**
   * A graph is safe to search when its edges come in symmetric pairs, its
   * queues hold one edge per neighbour and agree with its nodes' edge sets.
   */
  lemma SafeToSearch(adj: Adjacency, nodes: map<Cell, Node>)
    requires Symmetric(adj) && DistinctTargets(adj) && EdgeSetsAgree(adj, nodes) && adj.Keys <= nodes.Keys
    ensures SearchSafe(adj, nodes)
  {
    forall c, e | Queued(adj, c, e)
      ensures Queued(adj, e.target, Edge(c, e.weight)) && e in nodes[c].edges
    {
      assert e in adj[c];
    }
    forall c, e | c in adj && Listed(nodes, c, e)
      ensures e in adj[c]
    {
      assert e in nodes[c].edges;
    }
  }

  /** Among the nodes still in the local adjacency map, every queued edge leads to such a node and has its reverse queued. */
  ghost predicate Mirrored(adj: Adjacency, open: set<Cell>) {
    forall a, e {:trigger Queued(adj, a, e)} :: a in open && Queued(adj, a, e) ==>
      e.target in open && Queued(adj, e.target, Edge(a, e.weight))
  }

  /** The edge `e` is in the queue of `a`. */
  ghost predicate Queued(adj: Adjacency, a: Cell, e: Edge) {
    a in adj && e in adj[a]
  }

  /** The edge `e` is among the edges `m`. */
  ghost predicate Among(m: multiset<Edge>, e: Edge) {
    e in m
  }

  /** The queue of a polled node whose edges all lead to distinct nodes still in the local adjacency map. */
  ghost predicate ScanSafe(queue: multiset<Edge>, open: set<Cell>) {
    UniqueTargets(queue) && forall e {:trigger Among(queue, e)} :: Among(queue, e) ==> e.target in open
  }

  /**
   * In a queue with one edge per neighbour, visiting the edge u -> w takes
   * at most `w` out of the local map, which no edge left to visit leads to.
   */
  lemma ScanSafeStep(queue: multiset<Edge>, rest: multiset<Edge>, edge: Edge, open: set<Cell>, open': set<Cell>)
    requires UniqueTargets(queue) && rest <= queue && edge in rest
    requires (forall e {:trigger Among(rest, e)} :: Among(rest, e) ==> e.target in open) && open - {edge.target} <= open'
    ensures forall e {:trigger Among(rest - multiset{edge}, e)} :: Among(rest - multiset{edge}, e) ==> e.target in open'
  {
    forall e | Among(rest - multiset{edge}, e)
      ensures e.target in open'
    {
      assert Among(rest, e) && e in queue - multiset{edge};
    }
  }

  /**
   * The for-each over the queue of `u` with the edges `rest` still to visit,
   * on a graph that is safe to search: each edge left leads to a node still
   * in the local map whose edge back to `u` is still queued (UnwindRest);
   * among the other nodes in the local map every queued edge leads to such
   * a node and has its reverse, and an edge back to `u` remains only
   * opposite an edge not yet visited (UnwindOthers).
   */
  ghost predicate Unwinding(u: Cell, rest: multiset<Edge>, adj: Adjacency, open: set<Cell>) {
    UnwindRest(u, rest, adj, open) && UnwindOthers(u, rest, adj, open)
  }

  /** Each edge of `u` still to visit leads to a node in the local map that still queues its edge back to `u`. */
  ghost predicate UnwindRest(u: Cell, rest: multiset<Edge>, adj: Adjacency, open: set<Cell>) {
    forall e {:trigger Among(rest, e)} :: Among(rest, e) ==> e.target in open && Queued(adj, e.target, Edge(u, e.weight))
  }

  /** The nodes of the local map other than `u` are mirrored, with edges back to `u` only opposite edges still to visit. */
  ghost predicate UnwindOthers(u: Cell, rest: multiset<Edge>, adj: Adjacency, open: set<Cell>) {
    forall a, e {:trigger Queued(adj, a, e)} :: a in open && a != u && Queued(adj, a, e) ==>
      && e.target in open && Queued(adj, e.target, Edge(a, e.weight))
      && (e.target == u ==> Among(rest, Edge(a, e.weight)))
  }

  /** Before the search starts, the local map holds every node and a graph safe to search is mirrored. */
  lemma MirroredStarts(adj: Adjacency, nodes: map<Cell, Node>)
    requires SearchSafe(adj, nodes)
    ensures Mirrored(adj, adj.Keys)
  {
  }

  /** A mirrored node about to be scanned has every edge still to visit. */
  lemma UnwindStarts(u: Cell, adj: Adjacency, open: set<Cell>)
    requires Mirrored(adj, open) && u in open && u in adj
    ensures Unwinding(u, adj[u], adj, open)
  {
    forall e | Among(adj[u], e)
      ensures e.target in open && Queued(adj, e.target, Edge(u, e.weight))
    {
      assert Queued(adj, u, e);
    }
  }

  /** Once every edge of `u` is visited, dropping `u` leaves the local map mirrored. */
  lemma UnwindEnds(u: Cell, adj: Adjacency, open: set<Cell>)
    requires Unwinding(u, multiset{}, adj, open)
    ensures Mirrored(adj, open - {u})
  {
  }

  /**
   * On a graph safe to search, the edge that getEdgeTo finds from the
   * target of u -> w back to `u` is the reverse of that edge.
   */
  lemma BackIsReverse(adj0: Adjacency, nodes: map<Cell, Node>, adj: Adjacency, u: Cell, edge: Edge, back: Option<Edge>)
    requires SearchSafe(adj0, nodes) && Shrunk(adj0, adj)
    requires edge.target in adj && Edge(u, edge.weight) in adj[edge.target]
    requires back.None? <==> forall e :: e in nodes[edge.target].edges ==> e.target != u
    requires back.Some? ==> back.value.target == u && back.value in nodes[edge.target].edges
    ensures back == Some(Edge(u, edge.weight))
  {
    var w := edge.target;
    var q := adj0[w];
    assert Edge(u, edge.weight) in q;
    assert Queued(adj0, w, Edge(u, edge.weight));
    assert back.Some?;
    var b := back.value;
    assert Listed(nodes, w, b);
    assert OneEdgeEach(adj0, w);
    assert b == Edge(u, edge.weight) || b in q - multiset{Edge(u, edge.weight)};
  }

  /**
   * Visiting one more edge u -> w of the queue keeps the scan unwinding:
   * the edge back from `w` to `u` leaves w's queue, and `w` leaves the local
   * map only when nothing else leads to it.
   */
  lemma UnwindStep(u: Cell, rest: multiset<Edge>, adj0: Adjacency, adj: Adjacency, open: set<Cell>,
                   edge: Edge, adj': Adjacency, open': set<Cell>)
    requires DistinctTargets(adj0) && PositiveLinks(adj0) && Shrunk(adj0, adj)
    requires u in adj && rest <= adj[u] && edge in rest
    requires Unwinding(u, rest, adj, open)
    requires edge.target in adj && adj' == adj[edge.target := adj[edge.target] - multiset{Edge(u, edge.weight)}]
    requires open' == if adj'[edge.target] == multiset{} then open - {edge.target} else open
    ensures Unwinding(u, rest - multiset{edge}, adj', open')
  {
    assert Among(rest, edge);
    QueueKeepsShape(adj0, adj, u);
    QueueKeepsShape(adj0, adj, edge.target);
    UniqueTargetsShrink(adj[u], rest);
    UnwindRestStep(u, rest, adj, open, edge, adj', open');
    UnwindOthersStep(u, rest, adj, open, edge, adj', open');
  }

  /** A queue shrunk from a graph safe to search still has one edge per neighbour and no edge to its own node. */
  lemma QueueKeepsShape(adj0: Adjacency, adj: Adjacency, c: Cell)
    requires DistinctTargets(adj0) && PositiveLinks(adj0) && Shrunk(adj0, adj) && c in adj
    ensures UniqueTargets(adj[c]) && forall x :: x in adj[c] ==> x.target != c
  {
    assert OneEdgeEach(adj0, c);
    UniqueTargetsShrink(adj0[c], adj[c]);
    forall x | x in adj[c]
      ensures x.target != c
    {
      assert x in adj0[c];
    }
  }

  /**
   * One visit of the edge u -> w on a graph safe to search: getEdgeTo finds
   * the reverse edge, whose removal keeps the scan unwinding.
   */
  lemma SafeStep(u: Cell, rest: multiset<Edge>, adj0: Adjacency, nodes: map<Cell, Node>, adj: Adjacency, open: set<Cell>,
                 edge: Edge, back: Option<Edge>, adj': Adjacency, open': set<Cell>)
    requires SearchSafe(adj0, nodes) && PositiveLinks(adj0) && Shrunk(adj0, adj)
    requires u in adj && rest <= adj[u] && edge in rest && edge.target in adj && Unwinding(u, rest, adj, open)
    requires back.None? <==> forall e :: e in nodes[edge.target].edges ==> e.target != u
    requires back.None? ==> adj' == adj
    requires back.Some? ==> && back.value.target == u && back.value in nodes[edge.target].edges
                            && adj' == adj[edge.target := adj[edge.target] - multiset{back.value}]
    requires open' == if adj'[edge.target] == multiset{} then open - {edge.target} else open
    ensures Unwinding(u, rest - multiset{edge}, adj', open')
  {
    assert Among(rest, edge);
    BackIsReverse(adj0, nodes, adj, u, edge, back);
    UnwindStep(u, rest, adj0, adj, open, edge, adj', open');
  }

  /** Visiting the edge u -> w keeps the edges still to visit leading to the local map, with their edges back queued. */
  lemma UnwindRestStep(u: Cell, rest: multiset<Edge>, adj: Adjacency, open: set<Cell>, edge: Edge, adj': Adjacency, open': set<Cell>)
    requires UnwindRest(u, rest, adj, open) && UniqueTargets(rest) && edge in rest
    requires edge.target in adj && adj' == adj[edge.target := adj[edge.target] - multiset{Edge(u, edge.weight)}]
    requires open' == if adj'[edge.target] == multiset{} then open - {edge.target} else open
    ensures UnwindRest(u, rest - multiset{edge}, adj', open')
  {
    forall e | Among(rest - multiset{edge}, e)
      ensures e.target in open' && Queued(adj', e.target, Edge(u, e.weight))
    {
      assert Among(rest, e);
      assert e.target != edge.target;
    }
  }

  /** Visiting the edge u -> w keeps the other nodes of the local map mirrored. */
  lemma UnwindOthersStep(u: Cell, rest: multiset<Edge>, adj: Adjacency, open: set<Cell>, edge: Edge, adj': Adjacency, open': set<Cell>)
    requires UnwindOthers(u, rest, adj, open) && edge in rest && edge.target != u
    requires edge.target in adj && Edge(u, edge.weight) in adj[edge.target] && UniqueTargets(adj[edge.target])
    requires forall x :: x in adj[edge.target] ==> x.target != edge.target
    requires adj' == adj[edge.target := adj[edge.target] - multiset{Edge(u, edge.weight)}]
    requires open' == if adj'[edge.target] == multiset{} then open - {edge.target} else open
    ensures UnwindOthers(u, rest - multiset{edge}, adj', open')
  {
    forall a, e | a in open' && a != u && Queued(adj', a, e)
      ensures && e.target in open' && Queued(adj', e.target, Edge(a, e.weight))
              && (e.target == u ==> Among(rest - multiset{edge}, Edge(a, e.weight)))
    {
      OthersStepAt(u, rest, adj, open, edge, adj', open', a, e);
    }
  }

  /** One queued edge `e` of a node `a` of the local map, after the edge u -> w is visited. */
  lemma OthersStepAt(u: Cell, rest: multiset<Edge>, adj: Adjacency, open: set<Cell>, edge: Edge, adj': Adjacency, open': set<Cell>,
                     a: Cell, e: Edge)
    requires UnwindOthers(u, rest, adj, open) && edge in rest && edge.target != u
    requires edge.target in adj && Edge(u, edge.weight) in adj[edge.target] && UniqueTargets(adj[edge.target])
    requires forall x :: x in adj[edge.target] ==> x.target != edge.target
    requires adj' == adj[edge.target := adj[edge.target] - multiset{Edge(u, edge.weight)}]
    requires open' == if adj'[edge.target] == multiset{} then open - {edge.target} else open
    requires a in open' && a != u && a in adj' && e in adj'[a]
    ensures e.target in open' && e.target in adj' && Edge(a, e.weight) in adj'[e.target]
    ensures e.target == u ==> Edge(a, e.weight) in rest - multiset{edge}
  {
    var w := edge.target;
    if a == w {
      assert Queued(adj, w, e) by {
        assert e in adj[w] - multiset{Edge(u, edge.weight)};
      }
      OthersFromTarget(u, w, Edge(u, edge.weight), e, adj, open, adj', open');
    } else {
      assert Queued(adj, a, e);
      OthersFromOther(u, a, e, rest, edge, adj, open, adj', open');
    }
  }

  /** An edge left in the queue of the visited target `w` is not the one back to `u` and stays mirrored. */
  lemma OthersFromTarget(u: Cell, w: Cell, back: Edge, e: Edge, adj: Adjacency, open: set<Cell>, adj': Adjacency, open': set<Cell>)
    requires w in adj && back in adj[w] && back.target == u && UniqueTargets(adj[w])
    requires forall x :: x in adj[w] ==> x.target != w
    requires adj' == adj[w := adj[w] - multiset{back}] && open - {w} <= open'
    requires e in adj'[w]
    requires e in adj[w] ==> e.target in open && e.target in adj && Edge(w, e.weight) in adj[e.target]
    ensures e.target != u && e.target in open' && e.target in adj' && Edge(w, e.weight) in adj'[e.target]
  {
    assert e in adj[w] - multiset{back};
    assert e in adj[w];
  }

  /** An edge of a node other than `u` and the visited target `w` stays mirrored. */
  lemma OthersFromOther(u: Cell, a: Cell, e: Edge, rest: multiset<Edge>, edge: Edge, adj: Adjacency, open: set<Cell>,
                        adj': Adjacency, open': set<Cell>)
    requires a != u && a != edge.target && a in adj && e in adj[a] && edge.target in adj && edge.target != u
    requires e.target in open && e.target in adj && Edge(a, e.weight) in adj[e.target]
    requires e.target == u ==> Edge(a, e.weight) in rest
    requires adj' == adj[edge.target := adj[edge.target] - multiset{Edge(u, edge.weight)}]
    requires open' == if adj'[edge.target] == multiset{} then open - {edge.target} else open
    ensures e.target in open' && e.target in adj' && Edge(a, e.weight) in adj'[e.target]
    ensures e.target == u ==> Edge(a, e.weight) in rest - multiset{edge}
  {
    if e.target == edge.target {
      assert Edge(a, e.weight) in adj'[edge.target];
    }
  }

  /** The graph has an edge from `a` to `b`. */
  ghost predicate Step(adj: Adjacency, a: Cell, b: Cell) {
    a in adj && exists e :: e in adj[a] && e.target == b
  }

  /** `w` steps along edges of the graph from its first node to its last. */
  ghost predicate Walk(adj: Adjacency, w: seq<Cell>) {
    forall k :: 0 <= k < |w| - 1 ==> Step(adj, w[k], w[k + 1])
  }

  /** An edge out of a node with a distance, in a graph closed around those nodes, leads to a node with a distance (the induction step of ClosedReachesAll). */
  lemma ClosedStep(adj: Adjacency, dist: map<Cell, int>, a: Cell, b: Cell)
    requires Closed(adj, dist) && a in dist && Step(adj, a, b)
    ensures b in dist
  {
    var e :| e in adj[a] && e.target == b;
  }

  /**
   * In a graph closed around the nodes with a distance, every node at the
   * end of a walk from the source has a distance, so it is the source or
   * has a predecessor.
   */
  lemma {:induction false} ClosedReachesAll(adj: Adjacency, s: Cell, paths: map<Cell, Cell>, dist: map<Cell, int>, w: seq<Cell>)
    requires PredecessorTree(adj, s, paths, dist) && Closed(adj, dist)
    requires |w| >= 1 && w[0] == s && Walk(adj, w)
    ensures w[|w| - 1] in dist
    ensures w[|w| - 1] == s || w[|w| - 1] in paths
    decreases |w|
  {
    if |w| > 1 {
      var w' := w[..|w| - 1];
      assert Walk(adj, w') by {
        forall k | 0 <= k < |w'| - 1
          ensures Step(adj, w'[k], w'[k + 1])
        {
          assert w'[k] == w[k] && w'[k + 1] == w[k + 1];
        }
      }
      ClosedReachesAll(adj, s, paths, dist, w');
      ClosedStep(adj, dist, w[|w| - 2], w[|w| - 1]);
    }
    assert Reached(dist, w[|w| - 1]);
  }

  /**
   * PriorityQueue.poll on the node queue: removes one entry whose current
   * distance is the least; the rest keep their multiplicities.
   */
  method PollMin(pq: seq<Cell>, dist: map<Cell, int>) returns (u: Cell, rest: seq<Cell>)
    requires |pq| > 0
    requires forall c :: c in pq ==> c in dist
    ensures u in pq
    ensures forall c :: c in pq ==> dist[u] <= dist[c]
    ensures multiset(rest) + multiset{u} == multiset(pq)
  {
    var m := 0;
    var i := 1;
    while i < |pq|
      invariant 1 <= i <= |pq| && 0 <= m < i
      invariant forall k :: 0 <= k < i ==> dist[pq[m]] <= dist[pq[k]]
    {
      if dist[pq[i]] < dist[pq[m]] {
        m := i;
      }
      i := i + 1;
    }
    u := pq[m];
    rest := pq[..m] + pq[m + 1..];
    assert pq == pq[..m] + [u] + pq[m + 1..];
  }
}
