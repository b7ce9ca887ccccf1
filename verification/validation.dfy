/** The path checks of the library (`valid_path`, `valid_solution`, `valid_tour`) and the
    total time of a path (the height-difference sum reported next to a printed path). */
module Validation {
  import opened Directions
  import opened Grid
  import opened Walks

  /** The test `valid_path` applies to each room `cur` after the first: the direction from
      `cur` back to the room before it must be a real direction that `cur` is open toward. */
  predicate BackCheck(m: Maze, cur: Point, last: Point)
    requires m.WellFormed()
  {
    var dir := Direction(cur, last);
    dir != FAIL && m.Open(cur, dir)
  }

  /** `valid_path` reads the square of `p[i]` only when the direction from it back to
      `p[i - 1]` is not FAIL, and goes on only while the checks pass; this is exactly the set
      of lists on which it reads no square outside the grid. */
  predicate Checkable(m: Maze, p: seq<Point>, i: nat)
    requires m.WellFormed() && 1 <= i <= |p|
    decreases |p| - i
  {
    i == |p| ||
    var dir := Direction(p[i], p[i - 1]);
    dir == FAIL || (m.InBounds(p[i]) && (!m.CanGo(dir, p[i].0, p[i].1) || Checkable(m, p, i + 1)))
  }

  /** The loop of `valid_path` from the i-th room on. */
  function ValidFrom(m: Maze, p: seq<Point>, i: nat): (ok: bool)
    requires m.WellFormed() && 1 <= i <= |p| && Checkable(m, p, i)
    ensures ok <==> forall j | i <= j < |p| :: BackCheck(m, p[j], p[j - 1])
    decreases |p| - i
  {
    if i == |p| then true
    else
      var dir := Direction(p[i], p[i - 1]);
      if dir == FAIL || !m.CanGo(dir, p[i].0, p[i].1) then false
      else ValidFrom(m, p, i + 1)
  }

  /** `valid_path`: a non-empty list whose every room after the first passes `BackCheck`
      against the room before it. The list must not make it read outside the grid. */
  function ValidPath(m: Maze, p: seq<Point>): (ok: bool)
    requires m.WellFormed() && (|p| > 0 ==> Checkable(m, p, 1))
    ensures ok <==> |p| > 0 && forall j | 1 <= j < |p| :: BackCheck(m, p[j], p[j - 1])
  {
    if |p| == 0 then false else ValidFrom(m, p, 1)
  }

  /** `valid_solution`: non-empty, from (0, 0) to the exit, and `valid_path`. */
  function ValidSolution(m: Maze, p: seq<Point>): (ok: bool)
    requires m.WellFormed()
    requires |p| > 0 && p[0] == (0, 0) && p[|p| - 1] == (m.Rows() - 1, m.Columns() - 1) ==> Checkable(m, p, 1)
    ensures ok ==> |p| > 0 && p[0] == (0, 0) && p[|p| - 1] == m.Exit()
    ensures ok <==> |p| > 0 && p[0] == (0, 0) && p[|p| - 1] == m.Exit() &&
                    forall j | 1 <= j < |p| :: BackCheck(m, p[j], p[j - 1])
  {
    |p| > 0 && p[0] == (0, 0) && p[|p| - 1] == (m.Rows() - 1, m.Columns() - 1) && ValidPath(m, p)
  }

  /** The room a tour starts and ends in: (rows / 2, columns / 2), rounded down. */
  function Centre(m: Maze): Point {
    (m.Rows() / 2, m.Columns() / 2)
  }

  /** The four corner rooms a tour must visit. */
  predicate VisitsCorners(m: Maze, p: seq<Point>) {
    (0, 0) in p && (0, m.Columns() - 1) in p && (m.Rows() - 1, 0) in p && (m.Rows() - 1, m.Columns() - 1) in p
  }

  /** `valid_tour`: non-empty, visits the four corners, starts and ends at the centre, and
      `valid_path`. */
  function ValidTour(m: Maze, p: seq<Point>): (ok: bool)
    requires m.WellFormed()
    requires |p| > 0 && VisitsCorners(m, p) && p[0] == Centre(m) && p[|p| - 1] == Centre(m) ==> Checkable(m, p, 1)
    ensures ok ==> |p| > 0 && p[0] == p[|p| - 1] && 0 <= p[0].0 < m.rows && 0 <= p[0].1 < m.cols
    ensures ok ==> forall corner | corner in {(0, 0), (0, m.cols - 1), (m.rows - 1, 0), m.Exit()} :: corner in p
    ensures ok <==> |p| > 0 && VisitsCorners(m, p) && p[0] == Centre(m) && p[|p| - 1] == Centre(m) &&
                    forall j | 1 <= j < |p| :: BackCheck(m, p[j], p[j - 1])
  {
    |p| > 0 && VisitsCorners(m, p) && p[0] == Centre(m) && p[|p| - 1] == Centre(m) && ValidPath(m, p)
  }

  /** Every room of the list is inside the grid. */
  predicate AllInBounds(m: Maze, p: seq<Point>) {
    forall i | 0 <= i < |p| :: m.InBounds(p[i])
  }

  /** A list of rooms inside the grid never makes `valid_path` read outside it. */
  lemma {:induction false} InBoundsCheckable(m: Maze, p: seq<Point>, i: nat)
    requires m.WellFormed() && 1 <= i <= |p| && AllInBounds(m, p)
    ensures Checkable(m, p, i)
    decreases |p| - i
  {
    if i < |p| {
      InBoundsCheckable(m, p, i + 1);
    }
  }

  /** Under the wall invariant a step from the previous room passes the back check. */
  lemma BackCheckOfStep(m: Maze, last: Point, cur: Point)
    requires m.Valid() && Step(m, last, cur)
    ensures BackCheck(m, cur, last)
  {
    StepSymmetric(m, last, cur);
  }

  /** For adjacent rooms the back check is the step from the previous room, under the wall
      invariant. */
  lemma BackCheckAdjacent(m: Maze, last: Point, cur: Point)
    requires m.Valid() && Abs(cur.0 - last.0) + Abs(cur.1 - last.1) == 1 && BackCheck(m, cur, last)
    ensures Step(m, cur, last) && Step(m, last, cur)
  {
    DirectionAdjacent(cur, last);
    StepSymmetric(m, cur, last);
  }

  /** The loop of the corrected path check from the i-th room on: the room before must also
      be the neighbour of `cur` in the direction found. */
  function StrictFrom(m: Maze, p: seq<Point>, i: nat): (ok: bool)
    requires m.WellFormed() && 1 <= i <= |p|
    ensures ok <==> forall j | i <= j < |p| :: Step(m, p[j], p[j - 1])
    decreases |p| - i
  {
    if i == |p| then true
    else
      var dir := Direction(p[i], p[i - 1]);
      if dir == FAIL || Neighbor(p[i], dir) != p[i - 1] || !m.Open(p[i], dir) then false
      else StrictFrom(m, p, i + 1)
  }

  /** The corrected `valid_path`: every room after the first is adjacent to the one before and
      open toward it. */
  function ValidPathStrict(m: Maze, p: seq<Point>): (ok: bool)
    requires m.WellFormed()
    ensures ok <==> |p| > 0 && forall j | 1 <= j < |p| :: Step(m, p[j], p[j - 1])
  {
    |p| > 0 && StrictFrom(m, p, 1)
  }

  /** The corrected `valid_solution`. */
  function ValidSolutionStrict(m: Maze, p: seq<Point>): (ok: bool)
    requires m.WellFormed()
    ensures ok <==> |p| > 0 && p[0] == (0, 0) && p[|p| - 1] == m.Exit() &&
                    forall j | 1 <= j < |p| :: Step(m, p[j], p[j - 1])
  {
    |p| > 0 && p[0] == (0, 0) && p[|p| - 1] == m.Exit() && ValidPathStrict(m, p)
  }

  /** Under the wall invariant a list passes the corrected check exactly when it is a walk. */
  lemma StrictIsWalk(m: Maze, p: seq<Point>)
    requires m.Valid()
    ensures ValidPathStrict(m, p) <==> |p| > 0 && IsWalk(m, p)
  {
    if ValidPathStrict(m, p) {
      forall i | 0 <= i < |p| - 1
        ensures Step(m, p[i], p[i + 1])
      {
        assert Step(m, p[i + 1], p[i]);
        StepSymmetric(m, p[i + 1], p[i]);
      }
    }
    if |p| > 0 && IsWalk(m, p) {
      forall j | 1 <= j < |p|
        ensures Step(m, p[j], p[j - 1])
      {
        assert Step(m, p[j - 1], p[j]);
        StepSymmetric(m, p[j - 1], p[j]);
      }
    }
  }

  /** Everything the corrected check accepts, `valid_path` accepts as well (and reads nothing
      outside the grid doing so). */
  lemma StrictImpliesValidPath(m: Maze, p: seq<Point>)
    requires m.WellFormed() && ValidPathStrict(m, p)
    ensures Checkable(m, p, 1) && ValidPath(m, p)
  {
    StrictCheckable(m, p, 1);
  }

  lemma {:induction false} StrictCheckable(m: Maze, p: seq<Point>, i: nat)
    requires m.WellFormed() && 1 <= i <= |p| && forall j | i <= j < |p| :: Step(m, p[j], p[j - 1])
    ensures Checkable(m, p, i)
    decreases |p| - i
  {
    if i < |p| {
      assert Step(m, p[i], p[i - 1]);
      StrictCheckable(m, p, i + 1);
    }
  }

  /** A corrected solution is a walk from (0, 0) to the exit. */
  lemma StrictSolutionReachesExit(m: Maze, p: seq<Point>)
    requires m.Valid() && ValidSolutionStrict(m, p)
    ensures Reachable(m, (0, 0), m.Exit())
  {
    StrictIsWalk(m, p);
  }

  /** The two-by-two maze whose only open wall joins (0, 1) and (1, 1). */
  function CornerMaze(): (m: Maze)
    ensures m.Valid() && m.rows == 2 && m.cols == 2
    ensures forall q, e :: m.Open(q, e) <==> (q, e) == ((0, 1), DOWN) || (q, e) == ((1, 1), UP)
  {
    Carve(NewGrid(2, 2), (0, 1), DOWN)
  }

  /** `valid_solution` accepts the two-room list [(0, 0), (1, 1)] in that maze: (1, 1) lies
      one row below (0, 0), so the check reads it as a step UP, and (1, 1) is open UP (toward
      (0, 1)). Yet (0, 0) has no open side at all, so the exit cannot be reached from it, and
      the corrected check rejects the list. */
  lemma ValidSolutionAcceptsDiagonal()
    ensures var m := CornerMaze();
      && Checkable(m, [(0, 0), (1, 1)], 1)
      && ValidSolution(m, [(0, 0), (1, 1)])
      && !ValidSolutionStrict(m, [(0, 0), (1, 1)])
      && !Reachable(m, (0, 0), m.Exit())
  {
    var m := CornerMaze();
    var p := [(0, 0), (1, 1)];
    assert Direction(p[1], p[0]) == UP;
    assert m.Open((1, 1), UP);
    assert Checkable(m, p, 2);
    assert Neighbor((1, 1), UP) == (0, 1);
    assert !Step(m, p[1], p[0]);
    assert StepClosed(m, {(0, 0)});
    if Reachable(m, (0, 0), m.Exit()) {
      ReachableInClosed(m, {(0, 0)}, (0, 0), m.Exit());
    }
  }

  /** The total time printed next to a path: the sum of the height differences of
      consecutive rooms. Every room must be inside the grid (its square is read). */
  function PathCost(m: Maze, p: seq<Point>): (t: int)
    requires m.WellFormed() && AllInBounds(m, p)
    ensures t >= 0
    ensures |p| <= 1 ==> t == 0
    decreases |p|
  {
    if |p| <= 1 then 0
    else Abs(m.HeightAt(p[0]) - m.HeightAt(p[1])) + PathCost(m, p[1..])
  }

  /** With heights 0..9 each move costs at most 9. */
  lemma {:induction false} PathCostBound(m: Maze, p: seq<Point>)
    requires m.WellFormed() && AllInBounds(m, p) && forall q | m.InBounds(q) :: 0 <= m.HeightAt(q) <= 9
    ensures PathCost(m, p) <= 9 * (|p| - 1) || |p| == 0
    decreases |p|
  {
    if |p| > 1 {
      assert 0 <= m.HeightAt(p[0]) <= 9 && 0 <= m.HeightAt(p[1]) <= 9;
      PathCostBound(m, p[1..]);
    }
  }

  /** The cost of two lists joined is the two costs plus the move between them. */
  lemma {:induction false} PathCostAppend(m: Maze, p: seq<Point>, q: seq<Point>)
    requires m.WellFormed() && AllInBounds(m, p) && AllInBounds(m, q) && |p| > 0 && |q| > 0
    ensures AllInBounds(m, p + q)
    ensures PathCost(m, p + q) == PathCost(m, p) + Abs(m.HeightAt(p[|p| - 1]) - m.HeightAt(q[0])) + PathCost(m, q)
    decreases |p|
  {
    if |p| > 1 {
      assert (p + q)[1..] == p[1..] + q;
      PathCostAppend(m, p[1..], q);
    } else {
      assert (p + q)[1..] == q;
    }
  }

  function Reverse<T>(p: seq<T>): (r: seq<T>)
    ensures |r| == |p|
    ensures forall i | 0 <= i < |p| :: r[i] == p[|p| - 1 - i]
  {
    if |p| == 0 then [] else Reverse(p[1..]) + [p[0]]
  }

  /** Walking a list backwards costs the same. */
  lemma {:induction false} PathCostReverse(m: Maze, p: seq<Point>)
    requires m.WellFormed() && AllInBounds(m, p)
    ensures AllInBounds(m, Reverse(p)) && PathCost(m, Reverse(p)) == PathCost(m, p)
    decreases |p|
  {
    if |p| > 1 {
      var t := p[1..];
      PathCostReverse(m, t);
      assert Reverse(p) == Reverse(t) + [p[0]];
      PathCostAppend(m, Reverse(t), [p[0]]);
      assert Reverse(t)[|t| - 1] == p[1];
    }
  }

  /** Along a walk the printed total is the sum of `cost` over its moves. */
  function MovesCost(m: Maze, p: seq<Point>): int
    requires m.Valid() && |p| > 0 && m.InBounds(p[0]) && IsWalk(m, p)
    decreases |p|
  {
    if |p| == 1 then 0
    else
      assert Step(m, p[0], p[1]);
      WalkTail(m, p);
      var d := Direction(p[0], p[1]);
      m.Cost(p[0].0, p[0].1, d) + MovesCost(m, p[1..])
  }

  lemma {:induction false} PathCostIsMovesCost(m: Maze, p: seq<Point>)
    requires m.Valid() && |p| > 0 && m.InBounds(p[0]) && IsWalk(m, p)
    ensures AllInBounds(m, p) && PathCost(m, p) == MovesCost(m, p)
    decreases |p|
  {
    WalkInBounds(m, p);
    if |p| > 1 {
      var t := p[1..];
      assert Step(m, p[0], p[1]) && t[0] == p[1];
      WalkTail(m, p);
      PathCostIsMovesCost(m, t);
    }
  }
}
