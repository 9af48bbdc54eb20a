/** Positions on a board: a column `x` and a row `y`. */
module Positions {

  datatype Pos = Pos(x: int, y: int)

  /** `samePos`: two positions are the same when both coordinates agree. */
  function SamePos(p1: Pos, p2: Pos): (same: bool)
    ensures same <==> p1 == p2
  {
    p1.x == p2.x && p1.y == p2.y
  }

  /** A position lies on a square board of side `size`. */
  predicate InBounds(p: Pos, size: int)
  {
    0 <= p.x < size && 0 <= p.y < size
  }
}
