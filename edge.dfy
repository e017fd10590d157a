/**
 * A directed, weighted edge (Edge.java). The target node is named by its
 * coordinate, which is exactly what Node equality compares.
 */
module Edges {
  import opened Cells

  datatype Edge = Edge(target: Cell, weight: int) {

    /** Edge.compareTo: orders edges by weight alone. */
    function CompareTo(o: Edge): (r: int)
      ensures r < 0 <==> weight < o.weight
      ensures r == 0 <==> weight == o.weight
      ensures r > 0 <==> weight > o.weight
    {
      weight - o.weight
    }

    /** Edge.equals: equal weights and equal target nodes. */
    predicate Equals(o: Edge) {
      weight == o.weight && target.Equals(o.target)
    }

    /** Edge.hashCode, without Java's 32-bit wrap-around. */
    function HashCode(): int {
      30 * (31 + target.HashCode()) + weight
    }
  }

  /** Edge.equals is value equality of (target, weight). */
  lemma EqualsIsIdentity(a: Edge, b: Edge)
    ensures a.Equals(b) <==> a == b
  {
  }

  /** Equal edges hash alike and compare as 0. */
  lemma EqualEdgesAgree(a: Edge, b: Edge)
    requires a.Equals(b)
    ensures a.HashCode() == b.HashCode()
    ensures a.CompareTo(b) == 0
  {
  }
}
