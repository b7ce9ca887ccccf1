/** Direction constants and point arithmetic of the maze library.
    A point is a (row, column) pair; UP decreases the row, LEFT decreases the column. */
module Directions {

  type Point = (int, int)

  const UP: int := 0
  const LEFT: int := 1
  const DOWN: int := 2
  const RIGHT: int := 3
  const FAIL: int := 4

  /** One of the four real directions (everything but FAIL and stray integers). */
  predicate IsDir(d: int) {
    0 <= d < 4
  }

  function Abs(x: int): nat {
    if x < 0 then -x else x
  }

  /** The direction pointing back; FAIL for anything that is not a direction. */
  function Opposite(dir: int): (r: int)
    ensures IsDir(dir) ==> IsDir(r) && r == (dir + 2) % 4
    ensures !IsDir(dir) ==> r == FAIL
  {
    match dir
    case 0 => DOWN
    case 1 => RIGHT
    case 2 => UP
    case 3 => LEFT
    case _ => FAIL
  }

  /** The unit offset of one step in `dir`; (-1, -1) for anything that is not a direction. */
  function MoveIn(dir: int): (r: Point)
    ensures IsDir(dir) ==> Abs(r.0) + Abs(r.1) == 1
    ensures IsDir(dir) ==> (r.0 == 0 <==> dir == LEFT || dir == RIGHT)
    ensures !IsDir(dir) ==> r == (-1, -1)
  {
    match dir
    case 0 => (-1, 0)
    case 1 => (0, -1)
    case 2 => (1, 0)
    case 3 => (0, 1)
    case _ => (-1, -1)
  }

  /** The direction of the step from `p1` to `p2`. The row difference is tested first, so a
      pair whose rows differ by one is UP or DOWN whatever the columns are. */
  function Direction(p1: Point, p2: Point): (r: int)
    ensures IsDir(r) || r == FAIL
    ensures r == FAIL <==> Abs(p1.0 - p2.0) != 1 && Abs(p1.1 - p2.1) != 1
    ensures Abs(p1.0 - p2.0) == 1 ==> r == UP || r == DOWN
    ensures Abs(p1.0 - p2.0) != 1 && Abs(p1.1 - p2.1) == 1 ==> r == LEFT || r == RIGHT
  {
    if p1.0 - p2.0 == 1 then UP
    else if p1.0 - p2.0 == -1 then DOWN
    else if p1.1 - p2.1 == 1 then LEFT
    else if p1.1 - p2.1 == -1 then RIGHT
    else FAIL
  }

  function Add(l: Point, r: Point): Point {
    (l.0 + r.0, l.1 + r.1)
  }

  /** The point one step from `p` in `dir`. */
  function Neighbor(p: Point, dir: int): Point {
    Add(p, MoveIn(dir))
  }

  /** `Opposite` is an involution on the four directions and fixes FAIL. */
  lemma OppositeInvolution(d: int)
    ensures IsDir(d) ==> Opposite(Opposite(d)) == d
    ensures !IsDir(d) ==> Opposite(Opposite(d)) == FAIL
  {
  }

  /** Distinct directions move to distinct points. */
  lemma MoveInInjective(d: int, e: int)
    requires IsDir(d) && IsDir(e) && d != e
    ensures MoveIn(d) != MoveIn(e)
  {
  }

  /** Stepping in the opposite direction is the negated offset. */
  lemma MoveInOpposite(d: int)
    requires IsDir(d)
    ensures MoveIn(Opposite(d)) == (-MoveIn(d).0, -MoveIn(d).1)
  {
  }

  /** Going one step and then one step back returns to the start. */
  lemma NeighborOpposite(p: Point, d: int)
    requires IsDir(d)
    ensures Neighbor(Neighbor(p, d), Opposite(d)) == p
  {
    MoveInOpposite(d);
  }

  /** `Direction(from, to)` names the step from `from` to `to`. */
  lemma DirectionOfMove(p: Point, d: int)
    requires IsDir(d)
    ensures Direction(p, Neighbor(p, d)) == d
  {
  }

  /** A point has no direction to itself. */
  lemma DirectionSelf(p: Point)
    ensures Direction(p, p) == FAIL
  {
  }

  /** Swapping the arguments of `Direction` gives the opposite answer (FAIL stays FAIL). */
  lemma DirectionSwap(p1: Point, p2: Point)
    ensures Direction(p2, p1) == Opposite(Direction(p1, p2))
  {
  }

  /** When `Direction` names a direction and the points are adjacent, the second point is
      the neighbour of the first in that direction. */
  lemma DirectionAdjacent(p1: Point, p2: Point)
    requires Abs(p1.0 - p2.0) + Abs(p1.1 - p2.1) == 1
    ensures IsDir(Direction(p1, p2)) && p2 == Neighbor(p1, Direction(p1, p2))
  {
  }
}
