/**
 * A graph vertex (Node.java): a fixed coordinate plus the set of edges it
 * originates. Equality, hashing and ordering look at the coordinate only.
 */
module Nodes {
  import opened Wrappers
  import opened Cells
  import opened Edges

  datatype Node = Node(coordinate: Cell, edges: set<Edge>) {

    /** Node.addEdge: the edge set gains `e`; the coordinate is never replaced. */
    function AddEdge(e: Edge): (r: Node)
      ensures r.coordinate == coordinate
      ensures e in r.edges && edges <= r.edges && r.edges - edges <= {e}
    {
      Node(coordinate, edges + {e})
    }

    /** Node.equals: the coordinates are equal cells. */
    predicate Equals(o: Node) {
      coordinate.Equals(o.coordinate)
    }

    /** Node.hashCode: the coordinate's hash code. */
    function HashCode(): int {
      coordinate.HashCode()
    }

    /** Node.compareTo: the coordinates' comparison, so nodes are ordered by x and then by y. */
    function CompareTo(o: Node): (r: int)
      ensures r == 0 <==> coordinate == o.coordinate
      ensures r < 0 <==> coordinate.x < o.coordinate.x || (coordinate.x == o.coordinate.x && coordinate.y < o.coordinate.y)
      ensures r > 0 <==> coordinate.x > o.coordinate.x || (coordinate.x == o.coordinate.x && coordinate.y > o.coordinate.y)
    {
      coordinate.CompareTo(o.coordinate)
    }
  }

  /** `new Node(cell)`: a node with no edges yet. */
  function NewNode(c: Cell): (n: Node)
    ensures n.coordinate == c && n.edges == {}
  {
    Node(c, {})
  }

  /**
   * Node.getEdgeTo: some edge of `node` whose target is `target`, or None
   * (null) when there is none. Which one is found is the hash set's business.
   */
  method GetEdgeTo(node: Node, target: Cell) returns (r: Option<Edge>)
    ensures r.Some? ==> r.value in node.edges && r.value.target == target
    ensures r.None? <==> forall e :: e in node.edges ==> e.target != target
  {
    if e :| e in node.edges && e.target == target {
      r := Some(e);
    } else {
      r := None;
    }
  }

  /** Adding an edge that is already there leaves the node as it was; adding twice is adding once. */
  lemma AddEdgeIdempotent(n: Node, e: Edge)
    ensures e in n.edges ==> n.AddEdge(e) == n
    ensures n.AddEdge(e).AddEdge(e) == n.AddEdge(e)
  {
  }

  /** Two nodes are equal iff their coordinates are, and equal nodes hash alike. */
  lemma EqualsByCoordinate(a: Node, b: Node)
    ensures a.Equals(b) <==> a.coordinate == b.coordinate
    ensures a.Equals(b) ==> a.HashCode() == b.HashCode()
  {
  }

  /** Node ordering has the sign of the coordinates' ordering and ignores the edge sets. */
  lemma CompareByCoordinate(a: Node, b: Node, e: Edge)
    ensures a.CompareTo(b) == a.coordinate.CompareTo(b.coordinate)
    ensures a.AddEdge(e).CompareTo(b) == a.CompareTo(b)
    ensures a.CompareTo(b) == 0 <==> a.Equals(b)
  {
  }
}
