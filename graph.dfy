/**
 * The maze graph (Graph.java): a map from each node to the priority queue of
 * the edges it originates. A queue is modelled by its contents, a multiset of
 * edges; the heap order inside it is not modelled. Since a Java Node is keyed
 * by its coordinate, the map is keyed by Cell, and `keyNodes` keeps the Node
 * object that is the key, with its own edge set.
 */
module Graphs {
  import opened Wrappers
  import opened Cells
  import opened Edges
  import opened Nodes

  type Adjacency = map<Cell, multiset<Edge>>

  /** `b` lies exactly `w` steps from `a` along one axis. */
  ghost predicate Adjacent(a: Cell, b: Cell, w: int) {
    || (a.x == b.x && (b.y == a.y + w || b.y == a.y - w))
    || (a.y == b.y && (b.x == a.x + w || b.x == a.x - w))
  }

  /** Every edge targets a node of the graph, has positive weight and spans its weight along one axis. */
  ghost predicate WellFormed(adj: Adjacency) {
    forall c, e :: c in adj && e in adj[c] ==>
      e.target in adj && e.weight >= 1 && Adjacent(c, e.target, e.weight)
  }

  /** Every edge c -> t of weight w has its partner t -> c of the same weight. */
  ghost predicate Symmetric(adj: Adjacency) {
    forall c, e :: c in adj && e in adj[c] ==> e.target in adj && Edge(c, e.weight) in adj[e.target]
  }

  /** Each node's queue holds exactly the edges of the node's own edge set. */
  ghost predicate EdgeSetsAgree(adj: Adjacency, nodes: map<Cell, Node>) {
    forall c, e :: c in adj && c in nodes ==> (e in adj[c] <==> e in nodes[c].edges)
  }

  /** Every edge has a positive weight and leads to another node: what the shortest-path search needs. */
  ghost predicate PositiveLinks(adj: Adjacency) {
    forall c, e :: c in adj && e in adj[c] ==> e.weight >= 1 && e.target != c
  }

  /** No two edges of a queue lead to the same node, and no edge is queued twice. */
  ghost predicate UniqueTargets(q: multiset<Edge>) {
    forall e, e' :: e in q && e' in q - multiset{e} ==> e.target != e'.target
  }

  /** The queue of `c`, if there is one, holds at most one edge per neighbour. */
  ghost predicate OneEdgeEach(adj: Adjacency, c: Cell) {
    c in adj ==> UniqueTargets(adj[c])
  }

  /**
   * Each queue holds at most one edge per neighbour. The fact about one
   * queue is drawn only where OneEdgeEach names that queue.
   */
  ghost predicate DistinctTargets(adj: Adjacency) {
    forall c {:trigger OneEdgeEach(adj, c)} :: OneEdgeEach(adj, c)
  }

  /** One more edge to a node the queue does not lead to yet keeps its targets unique. */
  lemma UniqueTargetsAdd(q: multiset<Edge>, x: Edge)
    requires UniqueTargets(q) && forall e :: e in q ==> e.target != x.target
    ensures UniqueTargets(q + multiset{x})
  {
    var q' := q + multiset{x};
    forall e, e' | e in q' && e' in q' - multiset{e}
      ensures e.target != e'.target
    {
      if e != x && e' != x {
        assert e' in q - multiset{e};
      }
    }
  }

  /** Linking a new node keeps one edge per neighbour in every queue. */
  lemma LinkKeepsDistinct(adj: Adjacency, a: Cell, b: Cell, w: int)
    requires DistinctTargets(adj) && WellFormed(adj) && a in adj && b !in adj
    ensures DistinctTargets(Link(adj, a, b, w))
  {
    var adj' := Link(adj, a, b, w);
    forall c
      ensures OneEdgeEach(adj', c)
    {
      if c == a {
        assert OneEdgeEach(adj, a);
        UniqueTargetsAdd(adj[a], Edge(b, w));
      } else if c != b {
        assert OneEdgeEach(adj, c);
      }
    }
  }

  /** A queue with fewer edges keeps its targets unique. */
  lemma UniqueTargetsShrink(q: multiset<Edge>, q': multiset<Edge>)
    requires UniqueTargets(q) && q' <= q
    ensures UniqueTargets(q')
  {
    forall e, e' | e in q' && e' in q' - multiset{e}
      ensures e.target != e'.target
    {
      assert e' in q - multiset{e};
    }
  }

  /** `adj` has the nodes of `adj0`, and each of its queues holds some of the edges of the original one. */
  ghost predicate Shrunk(adj0: Adjacency, adj: Adjacency) {
    adj.Keys == adj0.Keys && forall c :: c in adj ==> adj[c] <= adj0[c]
  }

  /** Taking one edge out of a queue keeps the queues within the original ones. */
  lemma ShrinkQueue(adj0: Adjacency, adj: Adjacency, n: Cell, e: Edge)
    requires Shrunk(adj0, adj) && n in adj
    ensures Shrunk(adj0, adj[n := adj[n] - multiset{e}])
  {
    var adj' := adj[n := adj[n] - multiset{e}];
    assert adj'.Keys == adj.Keys;
    forall c | c in adj'
      ensures adj'[c] <= adj0[c]
    {
      if c == n {
        assert adj'[c] <= adj[c];
      }
    }
  }

  /**
   * The adjacency after a new node `b` is linked to the node `a` by an edge
   * pair of weight `w`: b's fresh queue holds b -> a and a's queue gains a -> b.
   */
  function Link(adj: Adjacency, a: Cell, b: Cell, w: int): Adjacency
    requires a in adj
  {
    adj[b := multiset{Edge(a, w)}][a := adj[a] + multiset{Edge(b, w)}]
  }

  /** Adjacency is symmetric in its two cells. */
  lemma AdjacentSymmetric(a: Cell, b: Cell, w: int)
    ensures Adjacent(a, b, w) <==> Adjacent(b, a, w)
  {
  }

  /** Linking a new node keeps the edges in symmetric pairs. */
  lemma LinkKeepsSymmetric(adj: Adjacency, a: Cell, b: Cell, w: int)
    requires Symmetric(adj) && a in adj && b !in adj
    ensures Symmetric(Link(adj, a, b, w))
  {
    var adj' := Link(adj, a, b, w);
    forall c: Cell, e: Edge | c in adj' && e in adj'[c]
      ensures e.target in adj' && Edge(c, e.weight) in adj'[e.target]
    {
      if c == b {
        assert e == Edge(a, w);
      } else if c == a && e == Edge(b, w) {
      } else {
        assert e in adj[c];
      }
    }
  }

  /** Linking a new node by an edge pair that spans its positive weight keeps the graph well formed. */
  lemma LinkKeepsWellFormed(adj: Adjacency, a: Cell, b: Cell, w: int)
    requires WellFormed(adj) && a in adj && b !in adj
    requires w >= 1 && Adjacent(a, b, w)
    ensures WellFormed(Link(adj, a, b, w))
  {
    var adj' := Link(adj, a, b, w);
    forall c: Cell, e: Edge | c in adj' && e in adj'[c]
      ensures e.target in adj' && e.weight >= 1 && Adjacent(c, e.target, e.weight)
    {
      if c == b {
        assert e == Edge(a, w);
        AdjacentSymmetric(a, b, w);
      } else if c == a && e == Edge(b, w) {
      } else {
        assert e in adj[c];
      }
    }
  }

  /** Removing edges from queues (never nodes) keeps the graph well formed. */
  lemma ShrinkKeepsWellFormed(adj: Adjacency, adj': Adjacency)
    requires WellFormed(adj)
    requires adj'.Keys == adj.Keys
    requires forall c :: c in adj' ==> adj'[c] <= adj[c]
    ensures WellFormed(adj')
  {
    forall c: Cell, e: Edge | c in adj' && e in adj'[c]
      ensures e.target in adj' && e.weight >= 1 && Adjacent(c, e.target, e.weight)
    {
      assert e in adj[c];
    }
  }

  /** A well-formed graph has no self-loop and no edge of weight below one: the search can run on it. */
  lemma WellFormedLinksPositive(adj: Adjacency)
    requires WellFormed(adj)
    ensures PositiveLinks(adj)
  {
    forall c: Cell, e: Edge | c in adj && e in adj[c]
      ensures e.weight >= 1 && e.target != c
    {
      assert Adjacent(c, e.target, e.weight);
    }
  }

  class Graph {
    /** Each node's priority queue of outgoing edges, by contents. */
    var adjacencyList: Adjacency
    /** The Node object that is the key of each entry. */
    var keyNodes: map<Cell, Node>

    ghost predicate Valid()
      reads this
    {
      && adjacencyList.Keys == keyNodes.Keys
      && forall c :: c in keyNodes ==> keyNodes[c].coordinate == c
    }

    constructor ()
      ensures Valid()
      ensures adjacencyList == map[] && keyNodes == map[]
    {
      adjacencyList := map[];
      keyNodes := map[];
    }

    /** Graph.contains: membership by node equality, that is by coordinate. */
    predicate Contains(n: Cell)
      reads this
    {
      n in adjacencyList
    }

    /**
     * Graph.getNodes: a new set holding the current keys. Being a value, it
     * cannot be used to change the graph.
     */
    function GetNodes(): (r: set<Cell>)
      reads this
      ensures forall c :: c in r <==> Contains(c)
    {
      adjacencyList.Keys
    }

    /** Graph.getAdjacencyNodes: the node's queue, or None (null) for a node never added. */
    function GetAdjacencyNodes(n: Cell): (r: Option<multiset<Edge>>)
      reads this
      ensures r.None? <==> !Contains(n)
      ensures r.Some? ==> r.value == adjacencyList[n]
    {
      if n in adjacencyList then Some(adjacencyList[n]) else None
    }

    /**
     * Graph.addNode (computeIfAbsent): a node not yet present becomes a key
     * with an empty queue; for a node already present nothing changes.
     */
    method AddNode(n: Node)
      requires Valid()
      modifies this
      ensures Valid()
      ensures old(adjacencyList).Keys <= adjacencyList.Keys
      ensures Contains(n.coordinate)
      ensures old(Contains(n.coordinate)) ==>
        adjacencyList == old(adjacencyList) && keyNodes == old(keyNodes)
      ensures !old(Contains(n.coordinate)) ==>
        && adjacencyList == old(adjacencyList)[n.coordinate := multiset{}]
        && keyNodes == old(keyNodes)[n.coordinate := n]
    {
      if n.coordinate !in adjacencyList {
        adjacencyList := adjacencyList[n.coordinate := multiset{}];
        keyNodes := keyNodes[n.coordinate := n];
      }
    }

    /** `getAdjacencyNodes(n).offer(e)` on the live queue of a node that is present. */
    method Offer(n: Cell, e: Edge)
      requires Valid() && Contains(n)
      modifies this
      ensures Valid()
      ensures old(adjacencyList).Keys <= adjacencyList.Keys
      ensures adjacencyList == old(adjacencyList)[n := old(adjacencyList[n]) + multiset{e}]
      ensures keyNodes == old(keyNodes)
    {
      adjacencyList := adjacencyList[n := adjacencyList[n] + multiset{e}];
    }

    /** `getAdjacencyNodes(n).remove(e)`: one occurrence of `e` leaves the live queue, if there is one. */
    method Remove(n: Cell, e: Edge)
      requires Valid() && Contains(n)
      modifies this
      ensures Valid()
      ensures old(adjacencyList).Keys <= adjacencyList.Keys
      ensures adjacencyList == old(adjacencyList)[n := old(adjacencyList[n]) - multiset{e}]
      ensures keyNodes == old(keyNodes)
    {
      adjacencyList := adjacencyList[n := adjacencyList[n] - multiset{e}];
    }

    /** `addEdge(e)` called on the Node object that is the key for `n`. */
    method AddEdgeToNode(n: Cell, e: Edge)
      requires Valid() && Contains(n)
      modifies this
      ensures Valid()
      ensures old(adjacencyList).Keys <= adjacencyList.Keys
      ensures adjacencyList == old(adjacencyList)
      ensures keyNodes == old(keyNodes)[n := old(keyNodes[n]).AddEdge(e)]
    {
      keyNodes := keyNodes[n := keyNodes[n].AddEdge(e)];
    }
  }
}
