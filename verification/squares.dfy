/** One room of the maze: four passability flags indexed by direction, and a height. */
module Squares {
  import opened Directions

  /** The four flags, indexed UP, LEFT, DOWN, RIGHT. */
  type Walls = w: seq<bool> | |w| == 4 witness [false, false, false, false]

  datatype Square = Square(walls: Walls, height: int) {

    /** Whether the room is open toward `dir`. */
    predicate CanGoDir(dir: int)
      requires IsDir(dir)
    {
      walls[dir]
    }

    function Height(): int {
      height
    }

    /** Opens (`val`) or closes the side toward `dir`. */
    function SetDir(val: bool, dir: int): (s: Square)
      requires IsDir(dir)
      ensures s.CanGoDir(dir) == val
      ensures forall e | IsDir(e) && e != dir :: s.CanGoDir(e) == CanGoDir(e)
      ensures s.Height() == Height()
    {
      Square(walls[dir := val], height)
    }

    function SetHeight(h: int): (s: Square)
      ensures s.Height() == h
      ensures forall e | IsDir(e) :: s.CanGoDir(e) == CanGoDir(e)
    {
      Square(walls, h)
    }
  }

  /** The default room: closed on every side, height 0. */
  function NewSquare(): (s: Square)
    ensures forall e | IsDir(e) :: !s.CanGoDir(e)
    ensures s.Height() == 0
  {
    Square([false, false, false, false], 0)
  }

  /** A closed room of the given height. */
  function SquareOfHeight(h: int): (s: Square)
    ensures forall e | IsDir(e) :: !s.CanGoDir(e)
    ensures s.Height() == h
  {
    Square([false, false, false, false], h)
  }

  /** The copy constructor: flag vector and height are copied. */
  function CopySquare(s: Square): (t: Square)
    ensures forall e | IsDir(e) :: t.CanGoDir(e) == s.CanGoDir(e)
    ensures t.Height() == s.Height()
  {
    Square(s.walls, s.height)
  }

  /** Setting a flag to the value it already has changes nothing. */
  lemma SetDirIdempotent(s: Square, val: bool, dir: int)
    requires IsDir(dir) && s.CanGoDir(dir) == val
    ensures s.SetDir(val, dir) == s
  {
  }
}
