/**
 * Grid cell kinds and the straight segments that painting writes
 * (Maze.pavePathBetweenCellsOnGridWithIdentifier).
 */
module Segments {
  import opened Cells

  const PASSAGE: int := 0
  const BLOCK: int := 1
  const PATH: int := 2

  function Min(a: int, b: int): int { if a <= b then a else b }
  function Max(a: int, b: int): int { if a <= b then b else a }

  /**
   * `p` lies on the inclusive segment from `from` to `to`: vertical when the
   * x coordinates agree, else horizontal when the y coordinates agree, else
   * the segment is empty.
   */
  predicate OnSegment(p: Cell, from: Cell, to: Cell) {
    if from.x == to.x then
      p.x == from.x && Min(from.y, to.y) <= p.y <= Max(from.y, to.y)
    else if from.y == to.y then
      p.y == from.y && Min(from.x, to.x) <= p.x <= Max(from.x, to.x)
    else
      false
  }

  /** Every cell the paint from `from` to `to` writes lies in [0, width) x [0, height). */
  predicate SegmentFits(from: Cell, to: Cell, width: int, height: int) {
    if from.x == to.x then
      0 <= from.x < width && 0 <= Min(from.y, to.y) && Max(from.y, to.y) < height
    else if from.y == to.y then
      0 <= from.y < height && 0 <= Min(from.x, to.x) && Max(from.x, to.x) < width
    else
      true
  }

  /** What cell `p`, holding `before`, holds once the segment from `from` to `to` is paved with `value`. */
  function Paved(before: int, p: Cell, from: Cell, to: Cell, value: int): int {
    if OnSegment(p, from, to) then value else before
  }

  /** Paving a segment a second time with the same value changes no cell: paving is idempotent. */
  lemma PavedIdempotent(before: int, p: Cell, from: Cell, to: Cell, value: int)
    ensures Paved(Paved(before, p, from, to, value), p, from, to, value) == Paved(before, p, from, to, value)
  {
  }

  /** A segment is the same set of cells whichever end it is painted from. */
  lemma OnSegmentSymmetric(p: Cell, a: Cell, b: Cell)
    ensures OnSegment(p, a, b) <==> OnSegment(p, b, a)
  {
  }

  /** A segment between two aligned cells contains both ends; one between unaligned cells is empty. */
  lemma SegmentEnds(a: Cell, b: Cell)
    ensures (a.x == b.x || a.y == b.y) ==> OnSegment(a, a, b) && OnSegment(b, a, b)
    ensures a.x != b.x && a.y != b.y ==> forall p :: !OnSegment(p, a, b)
  {
  }

  /** A segment between two cells inside the grid stays inside the grid. */
  lemma SegmentFitsBetweenInnerCells(a: Cell, b: Cell, width: int, height: int)
    requires 0 <= a.x < width && 0 <= a.y < height
    requires 0 <= b.x < width && 0 <= b.y < height
    ensures SegmentFits(a, b, width, height)
    ensures forall p :: OnSegment(p, a, b) ==> 0 <= p.x < width && 0 <= p.y < height
  {
  }
}
