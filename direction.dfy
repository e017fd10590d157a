/** The four axis-aligned unit vectors of the maze (Direction.java). */
module Directions {

  datatype Direction = North | East | South | West {

    /** The x component fixed for this constant. */
    function X(): int {
      match this
      case North => 0
      case East => 1
      case South => 0
      case West => -1
    }

    /** The y component fixed for this constant (y grows southwards). */
    function Y(): int {
      match this
      case North => -1
      case East => 0
      case South => 1
      case West => 0
    }
  }

  /** Direction.values(): the constants in declaration order. */
  const Values: seq<Direction> := [North, East, South, West]

  /** The direction pointing the other way. */
  function Opposite(d: Direction): (r: Direction)
    ensures r.X() == -d.X() && r.Y() == -d.Y()
    ensures r != d
  {
    match d
    case North => South
    case East => West
    case South => North
    case West => East
  }

  /** values() lists every direction exactly once, NORTH, EAST, SOUTH, WEST. */
  lemma ValuesAreAllDirections()
    ensures |Values| == 4
    ensures Values[0] == North && Values[1] == East && Values[2] == South && Values[3] == West
    ensures forall d: Direction :: d in Values
    ensures forall i, j :: 0 <= i < j < |Values| ==> Values[i] != Values[j]
  {
    forall d: Direction
      ensures d in Values
    {
      match d
      case North => assert Values[0] == d;
      case East => assert Values[1] == d;
      case South => assert Values[2] == d;
      case West => assert Values[3] == d;
    }
  }
}
