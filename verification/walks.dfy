/** Moves through open walls, walks, and reachability over a grid. */
module Walks {
  import opened Directions
  import opened Grid

  /** One move from a to the adjacent room b, through a side of a that is open. */
  predicate Step(m: Maze, a: Point, b: Point)
    requires m.WellFormed()
  {
    var d := Direction(a, b);
    IsDir(d) && b == Neighbor(a, d) && m.Open(a, d)
  }

  /** Consecutive rooms are joined by steps. */
  ghost predicate IsWalk(m: Maze, w: seq<Point>)
    requires m.WellFormed()
  {
    forall i | 0 <= i < |w| - 1 :: Step(m, w[i], w[i + 1])
  }

  /** Some walk leads from a to b. */
  ghost predicate Reachable(m: Maze, a: Point, b: Point)
    requires m.WellFormed()
  {
    exists w :: |w| > 0 && w[0] == a && w[|w| - 1] == b && IsWalk(m, w)
  }

  /** A set of rooms no open side leads out of. */
  ghost predicate StepClosed(m: Maze, s: set<Point>)
    requires m.WellFormed()
  {
    forall q, d | q in s && m.Open(q, d) :: Neighbor(q, d) in s
  }

  /** A set of rooms that holds every in-bounds neighbour of its in-bounds members. */
  ghost predicate GridClosed(m: Maze, s: set<Point>) {
    forall q, d | q in s && m.InBounds(q) && IsDir(d) && m.InBounds(Neighbor(q, d)) :: Neighbor(q, d) in s
  }

  lemma StepIntro(m: Maze, a: Point, d: int)
    requires m.WellFormed() && m.Open(a, d)
    ensures Step(m, a, Neighbor(a, d))
  {
    DirectionOfMove(a, d);
  }

  /** Under the wall invariant a step can be taken back. */
  lemma StepSymmetric(m: Maze, a: Point, b: Point)
    requires m.Valid() && Step(m, a, b)
    ensures Step(m, b, a)
  {
    var d := Direction(a, b);
    assert m.Open(b, Opposite(d));
    NeighborOpposite(a, d);
    StepIntro(m, b, Opposite(d));
  }

  /** Opening more walls keeps every step a step. */
  lemma StepMono(m: Maze, m': Maze, a: Point, b: Point)
    requires SameShape(m, m') && OpensMore(m, m') && Step(m, a, b)
    ensures Step(m', a, b)
  {
    assert m.Open(a, Direction(a, b));
  }

  lemma ReachableRefl(m: Maze, a: Point)
    requires m.WellFormed()
    ensures Reachable(m, a, a)
  {
    assert IsWalk(m, [a]);
  }

  lemma ReachablePrepend(m: Maze, a: Point, b: Point, c: Point)
    requires m.WellFormed() && Step(m, a, b) && Reachable(m, b, c)
    ensures Reachable(m, a, c)
  {
    var w :| |w| > 0 && w[0] == b && w[|w| - 1] == c && IsWalk(m, w);
    var w' := [a] + w;
    assert forall i | 0 <= i < |w'| - 1 :: w'[i + 1] == w[i] && (i > 0 ==> w'[i] == w[i - 1]);
    assert IsWalk(m, w');
  }

  /** Dropping the first room of a walk leaves a walk. */
  lemma WalkTail(m: Maze, w: seq<Point>)
    requires m.WellFormed() && |w| > 1 && IsWalk(m, w)
    ensures IsWalk(m, w[1..])
  {
    var t := w[1..];
    forall i | 0 <= i < |t| - 1
      ensures Step(m, t[i], t[i + 1])
    {
      assert t[i] == w[i + 1] && t[i + 1] == w[i + 2];
    }
  }

  lemma {:induction false} ReachableTrans(m: Maze, a: Point, b: Point, c: Point)
    requires m.WellFormed() && Reachable(m, a, b) && Reachable(m, b, c)
    ensures Reachable(m, a, c)
  {
    var w :| |w| > 0 && w[0] == a && w[|w| - 1] == b && IsWalk(m, w);
    WalkThenReachable(m, w, c);
  }

  lemma {:induction false} WalkThenReachable(m: Maze, w: seq<Point>, c: Point)
    requires m.WellFormed() && |w| > 0 && IsWalk(m, w) && Reachable(m, w[|w| - 1], c)
    ensures Reachable(m, w[0], c)
    decreases |w|
  {
    if |w| > 1 {
      var t := w[1..];
      WalkTail(m, w);
      WalkThenReachable(m, t, c);
      assert Step(m, w[0], w[1]);
      ReachablePrepend(m, w[0], w[1], c);
    }
  }

  /** Opening more walls keeps everything reachable. */
  lemma ReachableMono(m: Maze, m': Maze, a: Point, b: Point)
    requires SameShape(m, m') && OpensMore(m, m') && Reachable(m, a, b)
    ensures Reachable(m', a, b)
  {
    var w :| |w| > 0 && w[0] == a && w[|w| - 1] == b && IsWalk(m, w);
    forall i | 0 <= i < |w| - 1
      ensures Step(m', w[i], w[i + 1])
    {
      StepMono(m, m', w[i], w[i + 1]);
    }
    assert IsWalk(m', w);
  }

  /** Under the wall invariant reachability is symmetric. */
  lemma {:induction false} ReachableSymmetric(m: Maze, a: Point, b: Point)
    requires m.Valid() && Reachable(m, a, b)
    ensures Reachable(m, b, a)
  {
    var w :| |w| > 0 && w[0] == a && w[|w| - 1] == b && IsWalk(m, w);
    WalkBackwards(m, w);
  }

  lemma {:induction false} WalkBackwards(m: Maze, w: seq<Point>)
    requires m.Valid() && |w| > 0 && IsWalk(m, w)
    ensures Reachable(m, w[|w| - 1], w[0])
    decreases |w|
  {
    if |w| == 1 {
      ReachableRefl(m, w[0]);
    } else {
      var t := w[1..];
      assert t[0] == w[1] && t[|t| - 1] == w[|w| - 1];
      WalkTail(m, w);
      WalkBackwards(m, t);
      assert Step(m, w[0], w[1]);
      StepSymmetric(m, w[0], w[1]);
      ReachableAppend(m, w[|w| - 1], w[1], w[0]);
    }
  }

  lemma ReachableAppend(m: Maze, a: Point, b: Point, c: Point)
    requires m.WellFormed() && Reachable(m, a, b) && Step(m, b, c)
    ensures Reachable(m, a, c)
  {
    assert IsWalk(m, [b, c]);
    assert Reachable(m, b, c);
    ReachableTrans(m, a, b, c);
  }

  /** A walk starting inside a set no open side leaves stays inside it. */
  lemma {:induction false} WalkStaysInClosed(m: Maze, s: set<Point>, w: seq<Point>)
    requires m.WellFormed() && StepClosed(m, s) && |w| > 0 && w[0] in s && IsWalk(m, w)
    ensures w[|w| - 1] in s
    decreases |w|
  {
    if |w| > 1 {
      var d := Direction(w[0], w[1]);
      assert Step(m, w[0], w[1]);
      assert m.Open(w[0], d);
      var t := w[1..];
      WalkTail(m, w);
      WalkStaysInClosed(m, s, t);
    }
  }

  /** Everything reachable from a member of a closed set is in it. */
  lemma ReachableInClosed(m: Maze, s: set<Point>, a: Point, b: Point)
    requires m.WellFormed() && StepClosed(m, s) && a in s && Reachable(m, a, b)
    ensures b in s
  {
    var w :| |w| > 0 && w[0] == a && w[|w| - 1] == b && IsWalk(m, w);
    WalkStaysInClosed(m, s, w);
  }

  /** A grid-closed set holding the top-left room holds every room. */
  lemma GridClosedCoversAll(m: Maze, s: set<Point>)
    requires m.WellFormed() && GridClosed(m, s) && (0, 0) in s
    ensures forall p | m.InBounds(p) :: p in s
  {
    forall p | m.InBounds(p)
      ensures p in s
    {
      TopRowCovered(m, s, p.1);
      ColumnCovered(m, s, p.0, p.1);
    }
  }

  lemma {:induction false} TopRowCovered(m: Maze, s: set<Point>, c: int)
    requires m.WellFormed() && GridClosed(m, s) && (0, 0) in s && 0 <= c < m.cols
    ensures (0, c) in s
    decreases c
  {
    if c > 0 {
      TopRowCovered(m, s, c - 1);
      assert Neighbor((0, c - 1), RIGHT) == (0, c);
    }
  }

  lemma {:induction false} ColumnCovered(m: Maze, s: set<Point>, r: int, c: int)
    requires m.WellFormed() && GridClosed(m, s) && (0, c) in s && 0 <= r < m.rows && 0 <= c < m.cols
    ensures (r, c) in s
    decreases r
  {
    if r > 0 {
      ColumnCovered(m, s, r - 1, c);
      assert Neighbor((r - 1, c), DOWN) == (r, c);
    }
  }

  /** Under a closed border every room of a walk from inside the grid is inside it. */
  lemma {:induction false} WalkInBounds(m: Maze, w: seq<Point>)
    requires m.Valid() && |w| > 0 && m.InBounds(w[0]) && IsWalk(m, w)
    ensures forall i | 0 <= i < |w| :: m.InBounds(w[i])
    decreases |w|
  {
    if |w| > 1 {
      assert Step(m, w[0], w[1]);
      var t := w[1..];
      WalkTail(m, w);
      WalkInBounds(m, t);
      assert forall i | 1 <= i < |w| :: w[i] == t[i - 1];
    }
  }
}
