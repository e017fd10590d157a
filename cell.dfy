/** Immutable integer grid coordinates (Cell.java). */
module Cells {
  import opened Directions

  datatype Cell = Cell(x: int, y: int) {

    /** A new cell moved `distance` steps along `d`; the receiver is a value and stays as it was. */
    function Shift(d: Direction, distance: int): (r: Cell)
      ensures r.x == x || r.y == y
    {
      Cell(x + d.X() * distance, y + d.Y() * distance)
    }

    /** Cell.equals: both coordinates agree. */
    predicate Equals(o: Cell) {
      x == o.x && y == o.y
    }

    /** Cell.hashCode, without Java's 32-bit wrap-around. */
    function HashCode(): int {
      31 * x + y
    }

    /** Cell.compareTo: the x difference when nonzero, else the y difference. */
    function CompareTo(o: Cell): (r: int)
      ensures r == 0 <==> this == o
      ensures r < 0 <==> x < o.x || (x == o.x && y < o.y)
      ensures r > 0 <==> x > o.x || (x == o.x && y > o.y)
    {
      var xCompare := x - o.x;
      if xCompare != 0 then xCompare else y - o.y
    }
  }

  /** Shifting by a distance moves along exactly one axis by exactly that many steps. */
  lemma ShiftAlongOneAxis(c: Cell, d: Direction, k: int)
    ensures var r := c.Shift(d, k);
      (r.x == c.x && (r.y == c.y + k || r.y == c.y - k)) || (r.y == c.y && (r.x == c.x + k || r.x == c.x - k))
  {
    match d
    case North =>
    case East =>
    case South =>
    case West =>
  }

  /** shift(d, 0) gives back an equal cell. */
  lemma ShiftZero(c: Cell, d: Direction)
    ensures c.Shift(d, 0) == c
  {
  }

  /** Shifting by k and then by k the opposite way is the identity. */
  lemma ShiftBack(c: Cell, d: Direction, k: int)
    ensures c.Shift(d, k).Shift(Opposite(d), k) == c
  {
    match d
    case North =>
    case East =>
    case South =>
    case West =>
  }

  /** Shifts by the same nonzero distance in two different directions land on different cells. */
  lemma ShiftsDiffer(c: Cell, d1: Direction, d2: Direction, k: int)
    requires d1 != d2 && k != 0
    ensures c.Shift(d1, k) != c.Shift(d2, k)
  {
    match d1
    case North =>
    case East =>
    case South =>
    case West =>
  }

  /** Cell.equals is value equality. */
  lemma EqualsIsIdentity(a: Cell, b: Cell)
    ensures a.Equals(b) <==> a == b
  {
  }

  /** Equal cells have equal hash codes. */
  lemma EqualCellsHashAlike(a: Cell, b: Cell)
    requires a.Equals(b)
    ensures a.HashCode() == b.HashCode()
  {
  }

  /** compareTo is antisymmetric in sign and transitive. */
  lemma CompareIsTotalOrder(a: Cell, b: Cell, c: Cell)
    ensures a.CompareTo(b) < 0 <==> b.CompareTo(a) > 0
    ensures a.CompareTo(b) < 0 && b.CompareTo(c) < 0 ==> a.CompareTo(c) < 0
  {
  }
}
