/** The depth-first solvers of the maze program as the code has them: a backtracking search
    (`dfs_helper`), its copy under the name `dijkstra_helper`, and the tour, which returns
    nothing. The flat `visited` vector indexed `y * cols + x` is a set of rooms. */
module Solvers {
  import opened Directions
  import opened Grid
  import opened Walks
  import opened Validation

  /** The order the depth-first search tries the directions in. */
  const DfsOrder: seq<int> := [RIGHT, DOWN, LEFT, UP]

  /** The bounds test the searches put in front of each move: `x < c`, `y < r`, `x > 0`,
      `y > 0` for RIGHT, DOWN, LEFT, UP. The first two always hold for a room in the grid. */
  predicate Guard(m: Maze, p: Point, d: int) {
    if d == RIGHT then p.1 < m.cols
    else if d == DOWN then p.0 < m.rows
    else if d == LEFT then p.1 > 0
    else p.0 > 0
  }

  /** The searches move from p toward d only when the guard holds and p is open toward d. */
  predicate CanMove(m: Maze, p: Point, d: int)
    requires m.WellFormed()
  {
    Guard(m, p, d) && m.Open(p, d)
  }

  /** No room occurs twice. */
  predicate Distinct(s: seq<Point>) {
    forall i, j | 0 <= i < j < |s| :: s[i] != s[j]
  }

  /** What a call of the depth-first helper leaves: whether it reached the exit, the rooms it
      left appended to the path (nothing when it did not), and the visited set. */
  datatype Outcome = Outcome(found: bool, added: seq<Point>, visited: set<Point>)

  /** A path found from p: it starts at p, is a walk, ends at the exit, and consists of
      distinct rooms that were not visited before the call and are visited after it. */
  ghost predicate FoundPath(m: Maze, p: Point, s: seq<Point>, before: set<Point>, after: set<Point>)
    requires m.WellFormed()
  {
    && |s| > 0 && s[0] == p && s[|s| - 1] == m.Exit()
    && IsWalk(m, s) && Distinct(s)
    && forall i | 0 <= i < |s| :: s[i] !in before && s[i] in after
  }

  /** A failed search: every room it visited is not the exit and has all its open neighbours
      visited. */
  ghost predicate DeadEnd(m: Maze, before: set<Point>, after: set<Point>)
    requires m.WellFormed()
  {
    && (m.Exit() in after ==> m.Exit() in before)
    && forall q, d | q in after && q !in before && m.Open(q, d) :: Neighbor(q, d) in after
  }

  /** `dfs_helper`: append p; if p was visited already, take it back off and fail; otherwise
      mark it, stop at the exit, and else try RIGHT, DOWN, LEFT, UP in turn, taking p back off
      when all of them fail. */
  function DfsHelper(m: Maze, p: Point, visited: set<Point>): (o: Outcome)
    requires m.Valid() && m.InBounds(p)
    ensures visited <= o.visited
    ensures !o.found ==> o.added == []
    ensures p in visited ==> o == Outcome(false, [], visited)
    ensures o.found ==> FoundPath(m, p, o.added, visited, o.visited)
    ensures !o.found ==> DeadEnd(m, visited, o.visited)
    ensures p !in visited ==> p in o.visited
    decreases |Cells(m.rows, m.cols) - visited|, 0
  {
    if p in visited then Outcome(false, [], visited)
    else
      var v := visited + {p};
      if p == m.Exit() then Outcome(true, [p], v)
      else
        UnseenShrinks(m.rows, m.cols, visited, p);
        var o := TryDirections(m, p, v, 0);
        if o.found then
          FoundPrepend(m, p, o.added, visited, o.visited);
          Outcome(true, [p] + o.added, o.visited)
        else
          DeadEndAtRoom(m, p, visited, o.visited);
          Outcome(false, [], o.visited)
  }

  /** The four `if`s of `dfs_helper` at room p (already visited), from the i-th direction of
      `DfsOrder` on. */
  function TryDirections(m: Maze, p: Point, visited: set<Point>, i: nat): (o: Outcome)
    requires m.Valid() && m.InBounds(p) && p in visited && i <= 4
    ensures visited <= o.visited
    ensures !o.found ==> o.added == []
    ensures o.found ==> |o.added| > 0 && Step(m, p, o.added[0]) && FoundPath(m, o.added[0], o.added, visited, o.visited)
    ensures !o.found ==> DeadEnd(m, visited, o.visited)
    ensures !o.found ==> forall j | i <= j < 4 && CanMove(m, p, DfsOrder[j]) :: Neighbor(p, DfsOrder[j]) in o.visited
    decreases |Cells(m.rows, m.cols) - visited|, 5 - i
  {
    if i == 4 then Outcome(false, [], visited)
    else
      var d := DfsOrder[i];
      if CanMove(m, p, d) then
        var o := DfsHelper(m, Neighbor(p, d), visited);
        if o.found then
          StepIntro(m, p, d);
          o
        else
          SubsetCardinality(Cells(m.rows, m.cols) - o.visited, Cells(m.rows, m.cols) - visited);
          var o' := TryDirections(m, p, o.visited, i + 1);
          if o'.found then
            FoundWiden(m, o'.added, visited, o.visited, o'.visited);
            o'
          else
            TryNextFailed(m, p, visited, i, o.visited, o'.visited);
            o'
      else
        var o := TryDirections(m, p, visited, i + 1);
        if o.found then o
        else
          TryNextFailed(m, p, visited, i, visited, o.visited);
          o
  }

  /** A path found with more rooms visited before is also found with fewer. */
  lemma FoundWiden(m: Maze, s: seq<Point>, a: set<Point>, b: set<Point>, after: set<Point>)
    requires m.WellFormed() && |s| > 0 && a <= b && FoundPath(m, s[0], s, b, after)
    ensures FoundPath(m, s[0], s, a, after)
  {
  }

  /** The i-th direction failing (or not taken) and then all later ones failing is all of
      them from the i-th failing. */
  lemma TryNextFailed(m: Maze, p: Point, visited: set<Point>, i: nat, mid: set<Point>, after: set<Point>)
    requires m.WellFormed() && i < 4 && visited <= mid <= after
    requires DeadEnd(m, visited, mid) && DeadEnd(m, mid, after)
    requires CanMove(m, p, DfsOrder[i]) ==> Neighbor(p, DfsOrder[i]) in mid
    requires forall j | i + 1 <= j < 4 && CanMove(m, p, DfsOrder[j]) :: Neighbor(p, DfsOrder[j]) in after
    ensures DeadEnd(m, visited, after)
    ensures forall j | i <= j < 4 && CanMove(m, p, DfsOrder[j]) :: Neighbor(p, DfsOrder[j]) in after
  {
    DeadEndCompose(m, visited, mid, after);
  }

  /** Putting p, visited and open toward the first room, in front of a path found from that
      room keeps it a found path. */
  lemma FoundPrepend(m: Maze, p: Point, s: seq<Point>, before: set<Point>, after: set<Point>)
    requires m.WellFormed() && p !in before && p in after && |s| > 0 && Step(m, p, s[0])
    requires FoundPath(m, s[0], s, before + {p}, after)
    ensures FoundPath(m, p, [p] + s, before, after)
  {
    var t := [p] + s;
    forall i | 0 <= i < |t| - 1
      ensures Step(m, t[i], t[i + 1])
    {
      if i > 0 {
        assert t[i] == s[i - 1] && t[i + 1] == s[i];
      }
    }
    forall i, j | 0 <= i < j < |t|
      ensures t[i] != t[j]
    {
      if i > 0 {
        assert t[i] == s[i - 1] && t[j] == s[j - 1];
      } else {
        assert t[j] == s[j - 1];
      }
    }
  }

  /** Two failed searches one after the other make one failed search. */
  lemma DeadEndCompose(m: Maze, a: set<Point>, b: set<Point>, c: set<Point>)
    requires m.WellFormed() && a <= b <= c && DeadEnd(m, a, b) && DeadEnd(m, b, c)
    ensures DeadEnd(m, a, c)
  {
  }

  /** Under the wall invariant the guards never stop a move through an open side. */
  lemma OpenCanMove(m: Maze, p: Point, d: int)
    requires m.Valid() && m.Open(p, d)
    ensures CanMove(m, p, d)
  {
    assert m.InBounds(Neighbor(p, d));
  }

  /** Every real direction is tried. */
  lemma DfsOrderCovers(d: int)
    requires IsDir(d)
    ensures exists j | 0 <= j < 4 :: DfsOrder[j] == d
  {
    if d == RIGHT { assert DfsOrder[0] == d; }
    else if d == DOWN { assert DfsOrder[1] == d; }
    else if d == LEFT { assert DfsOrder[2] == d; }
    else { assert DfsOrder[3] == d; }
  }

  /** A room that is not the exit and whose every open neighbour was visited by a failed
      search started after it, makes that search together with the room a failed search. */
  lemma DeadEndAtRoom(m: Maze, p: Point, before: set<Point>, after: set<Point>)
    requires m.Valid() && m.InBounds(p) && p !in before && p != m.Exit() && before + {p} <= after
    requires DeadEnd(m, before + {p}, after)
    requires forall j | 0 <= j < 4 && CanMove(m, p, DfsOrder[j]) :: Neighbor(p, DfsOrder[j]) in after
    ensures DeadEnd(m, before, after)
  {
    forall q, d | q in after && q !in before && m.Open(q, d)
      ensures Neighbor(q, d) in after
    {
      if q == p {
        OpenCanMove(m, p, d);
        DfsOrderCovers(d);
        var j :| 0 <= j < 4 && DfsOrder[j] == d;
      }
    }
  }

  /** `solve_dfs`: the depth-first helper from (0, 0) with nothing visited; the path it leaves
      (empty when the exit was not reached). The `visited` vector has rows * cols entries, so
      the arguments must cover the maze's rooms. */
  function SolveDfs(m: Maze, rows: int, cols: int): (path: seq<Point>)
    requires m.Valid() && rows * cols >= m.Rows() * m.Columns()
    ensures path == [] || (FoundPath(m, (0, 0), path, {}, Cells(m.rows, m.cols)) && ValidSolutionStrict(m, path))
    ensures path != [] ==> Checkable(m, path, 1) && ValidSolution(m, path)
    ensures path != [] <==> Reachable(m, (0, 0), m.Exit())
  {
    var o := DfsHelper(m, (0, 0), {});
    DfsSolves(m, o);
    o.added
  }

  /** What the search from (0, 0) with nothing visited leaves is a path to the exit exactly
      when the exit can be reached at all. */
  lemma DfsSolves(m: Maze, o: Outcome)
    requires m.Valid() && o == DfsHelper(m, (0, 0), {})
    ensures o.found <==> Reachable(m, (0, 0), m.Exit())
    ensures o.found ==> FoundPath(m, (0, 0), o.added, {}, Cells(m.rows, m.cols)) && ValidSolutionStrict(m, o.added)
    ensures o.found ==> Checkable(m, o.added, 1) && ValidSolution(m, o.added)
    ensures !o.found ==> o.added == []
  {
    if o.found {
      FoundSolves(m, o.added, o.visited);
    } else {
      assert DeadEnd(m, {}, o.visited) && (0, 0) in o.visited;
      DeadEndUnreached(m, o.visited);
    }
  }

  /** A found path from (0, 0) reaches the exit and passes the strict solution check. */
  lemma FoundSolves(m: Maze, s: seq<Point>, after: set<Point>)
    requires m.Valid() && FoundPath(m, (0, 0), s, {}, after)
    ensures Reachable(m, (0, 0), m.Exit())
    ensures FoundPath(m, (0, 0), s, {}, Cells(m.rows, m.cols)) && ValidSolutionStrict(m, s)
    ensures Checkable(m, s, 1) && ValidSolution(m, s)
  {
    assert Reachable(m, (0, 0), m.Exit()) by {
      assert s[0] == (0, 0) && s[|s| - 1] == m.Exit() && IsWalk(m, s);
    }
    FoundInGrid(m, s, after);
    assert ValidPathStrict(m, s) by {
      StrictIsWalk(m, s);
    }
    StrictImpliesValidPath(m, s);
  }

  /** The rooms of a found path from (0, 0) are rooms of the grid. */
  lemma FoundInGrid(m: Maze, s: seq<Point>, after: set<Point>)
    requires m.Valid() && FoundPath(m, (0, 0), s, {}, after)
    ensures FoundPath(m, (0, 0), s, {}, Cells(m.rows, m.cols))
  {
    WalkInBounds(m, s);
  }

  /** A failed search from (0, 0) with nothing visited shows the exit cannot be reached. */
  lemma DeadEndUnreached(m: Maze, after: set<Point>)
    requires m.Valid() && DeadEnd(m, {}, after) && (0, 0) in after
    ensures !Reachable(m, (0, 0), m.Exit())
  {
    assert StepClosed(m, after);
    if Reachable(m, (0, 0), m.Exit()) {
      ReachableInClosed(m, after, (0, 0), m.Exit());
    }
  }

  /** `dijkstra_helper`: the body of `dfs_helper` again, whose recursive calls go to
      `dfs_helper`. It never looks at a cost. */
  function DijkstraHelper(m: Maze, p: Point, visited: set<Point>): (o: Outcome)
    requires m.Valid() && m.InBounds(p)
    ensures o == DfsHelper(m, p, visited)
  {
    if p in visited then Outcome(false, [], visited)
    else
      var v := visited + {p};
      if p == m.Exit() then Outcome(true, [p], v)
      else
        var o := TryDirections(m, p, v, 0);
        if o.found then Outcome(true, [p] + o.added, o.visited)
        else Outcome(false, [], o.visited)
  }

  /** `solve_dijkstra`: the Dijkstra helper from (0, 0). It returns the depth-first path, not a
      cheapest one. */
  function SolveDijkstra(m: Maze, rows: int, cols: int): (path: seq<Point>)
    requires m.Valid() && rows * cols >= m.Rows() * m.Columns()
    ensures path == SolveDfs(m, rows, cols)
  {
    DijkstraHelper(m, (0, 0), {}).added
  }

  /** `solve_tour`: the empty list. */
  function SolveTour(m: Maze, rows: int, cols: int): (path: seq<Point>)
    ensures |path| == 0
  {
    []
  }

  /** The tour check rejects what `solve_tour` returns, whatever the maze. */
  lemma TourNeverValid(m: Maze, rows: int, cols: int)
    requires m.WellFormed()
    ensures !ValidTour(m, SolveTour(m, rows, cols))
  {
  }

  /** On a one-room maze the depth-first search returns [(0, 0)]. */
  lemma DfsOneRoom(m: Maze)
    requires m.Valid() && m.rows == 1 && m.cols == 1
    ensures SolveDfs(m, 1, 1) == [(0, 0)]
  {
  }

  /** The search tries the directions in the order RIGHT, DOWN, LEFT, UP and keeps the first
      that works: from the i-th direction on, a possible move whose search reaches the exit
      decides the path; otherwise the later directions decide it, starting from the rooms the
      failed search left visited. */
  lemma DfsTriesInOrder(m: Maze, p: Point, visited: set<Point>, i: nat)
    requires m.Valid() && m.InBounds(p) && p in visited && i < 4
    ensures var d := DfsOrder[i];
      var o := TryDirections(m, p, visited, i);
      if CanMove(m, p, d) && DfsHelper(m, Neighbor(p, d), visited).found then
        o.found && o.added == DfsHelper(m, Neighbor(p, d), visited).added
      else if CanMove(m, p, d) then
        o == TryDirections(m, p, DfsHelper(m, Neighbor(p, d), visited).visited, i + 1)
      else
        o == TryDirections(m, p, visited, i + 1)
  {
  }

  /** The search tries RIGHT first: when the room to the right of p is open and the search
      from it succeeds, that search's path follows p. */
  lemma DfsPrefersRight(m: Maze, p: Point, visited: set<Point>)
    requires m.Valid() && m.InBounds(p) && p !in visited && p != m.Exit() && m.Open(p, RIGHT)
    requires DfsHelper(m, Neighbor(p, RIGHT), visited + {p}).found
    ensures DfsHelper(m, p, visited).added == [p] + DfsHelper(m, Neighbor(p, RIGHT), visited + {p}).added
  {
    OpenCanMove(m, p, RIGHT);
  }
}
