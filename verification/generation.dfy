/** Maze generation: randomized depth-first carving, extra wall deletion and height
    assignment. Every random choice is an explicit input: one shuffle of the four
    directions per room for the carve, a sequence of (row, column, direction) draws for the
    deletions, and one roll per room for the heights. */
module Generation {
  import opened Directions
  import opened Grid
  import opened Walks

  /** A shuffled copy of {UP, LEFT, DOWN, RIGHT}. */
  predicate IsShuffle(o: seq<int>) {
    |o| == 4 && UP in o && LEFT in o && DOWN in o && RIGHT in o
  }

  /** One shuffle for every room of a rows x cols grid, indexed [row][column]. */
  predicate ShufflesFit(rows: int, cols: int, shuffles: seq<seq<seq<int>>>) {
    && |shuffles| == rows
    && forall r | 0 <= r < rows :: |shuffles[r]| == cols && forall c | 0 <= c < cols :: IsShuffle(shuffles[r][c])
  }

  /** q was entered by a carve that started at p with `seen` and ended with `seen'`. */
  predicate Fresh(q: Point, seen: set<Point>, seen': set<Point>, p: Point) {
    (q in seen' && q !in seen) || q == p
  }

  /** Every room newly seen lies inside the grid. */
  ghost predicate NewInBounds(m: Maze, seen: set<Point>, seen': set<Point>) {
    forall q | q in seen' && q !in seen :: m.InBounds(q)
  }

  /** Every side opened between m and m' belongs to a room entered by the carve from p.
      Walls open on both sides, so this covers both rooms a new opening joins. */
  ghost predicate NewWallsFresh(m: Maze, m': Maze, seen: set<Point>, seen': set<Point>, p: Point)
    requires SameShape(m, m')
  {
    forall q, d | m'.Open(q, d) && !m.Open(q, d) :: Fresh(q, seen, seen', p)
  }

  /** Every in-bounds neighbour of a room newly seen (other than p) has been seen. */
  ghost predicate NeighboursSeen(m: Maze, seen: set<Point>, seen': set<Point>, p: Point) {
    forall q, d {:trigger Neighbor(q, d)} | q in seen' && q !in seen && q != p && IsDir(d) && m.InBounds(Neighbor(q, d)) ::
      Neighbor(q, d) in seen'
  }

  /** Every room newly seen is reachable from p. */
  ghost predicate NewReachable(m: Maze, p: Point, seen: set<Point>, seen': set<Point>)
    requires m.WellFormed()
  {
    forall q | q in seen' && q !in seen :: Reachable(m, p, q)
  }

  /** Randomized depth-first carve from room p. It marks p seen and tries the four
      directions in p's shuffled order; toward every in-bounds neighbour not yet seen it
      knocks the wall down on both sides and carves on from there. */
  method GenDfs(m: Maze, seen: set<Point>, p: Point, shuffles: seq<seq<seq<int>>>)
    returns (m': Maze, seen': set<Point>)
    requires m.Valid() && m.InBounds(p) && ShufflesFit(m.rows, m.cols, shuffles)
    ensures SameShape(m, m') && SameHeights(m, m') && OpensMore(m, m') && m'.Valid()
    ensures seen + {p} <= seen'
    ensures NewInBounds(m, seen, seen')
    // every side it opens belongs to a room it has just entered (or to p)
    ensures NewWallsFresh(m, m', seen, seen', p)
    // it does not stop before every neighbour of p and of every room it entered has been seen
    ensures forall d | IsDir(d) && m.InBounds(Neighbor(p, d)) :: Neighbor(p, d) in seen'
    ensures NeighboursSeen(m, seen, seen', p)
    // every room it entered hangs off p through open walls
    ensures NewReachable(m', p, seen, seen')
    // when only rooms already seen (and p) had open sides, every room it enters opens
    // exactly one wall, two sides: what it carves is a tree
    ensures OpenOnlyIn(m, seen + {p}) ==>
      OpenOnlyIn(m', seen') && |OpenSides(m')| == |OpenSides(m)| + 2 * |seen' - (seen + {p})|
    decreases |Cells(m.rows, m.cols) - seen| + (if p in seen then 1 else 0), 0
  {
    var order := shuffles[p.0][p.1];
    CarveMeasure(m.rows, m.cols, seen, seen + {p}, p);
    m', seen' := CarveDirections(m, seen + {p}, p, order, 0, shuffles);
    EnterRoom(m, m', seen, seen', p);
    forall d | IsDir(d) && m.InBounds(Neighbor(p, d))
      ensures Neighbor(p, d) in seen'
    {
      assert d == UP || d == LEFT || d == DOWN || d == RIGHT;
      var j :| 0 <= j < |order| && order[j] == d;
    }
  }

  /** What the carve from p promises with p already seen, it promises with p not yet seen. */
  lemma EnterRoom(m: Maze, m': Maze, seen: set<Point>, seen': set<Point>, p: Point)
    requires SameShape(m, m') && m.InBounds(p) && seen + {p} <= seen'
    requires NewInBounds(m, seen + {p}, seen') && NewWallsFresh(m, m', seen + {p}, seen', p)
    requires NeighboursSeen(m, seen + {p}, seen', p) && NewReachable(m', p, seen + {p}, seen')
    ensures NewInBounds(m, seen, seen') && NewWallsFresh(m, m', seen, seen', p)
    ensures NeighboursSeen(m, seen, seen', p) && NewReachable(m', p, seen, seen')
  {
    ReachableRefl(m', p);
  }

  /** The loop of `GenDfs` at room p, from the i-th direction of p's shuffled order on;
      `seen` is what the earlier passes left seen. */
  method CarveDirections(m: Maze, seen: set<Point>, p: Point, order: seq<int>, i: int, shuffles: seq<seq<seq<int>>>)
    returns (m': Maze, seen': set<Point>)
    requires m.Valid() && m.InBounds(p) && p in seen && ShufflesFit(m.rows, m.cols, shuffles)
    requires IsShuffle(order) && 0 <= i <= 4
    ensures SameShape(m, m') && SameHeights(m, m') && OpensMore(m, m') && m'.Valid()
    ensures seen <= seen'
    ensures NewInBounds(m, seen, seen')
    ensures NewWallsFresh(m, m', seen, seen', p)
    ensures forall j | i <= j < 4 && m.InBounds(Neighbor(p, order[j])) :: Neighbor(p, order[j]) in seen'
    ensures NeighboursSeen(m, seen, seen', p)
    ensures NewReachable(m', p, seen, seen')
    ensures OpenOnlyIn(m, seen) ==> OpenOnlyIn(m', seen') && |OpenSides(m')| == |OpenSides(m)| + 2 * |seen' - seen|
    decreases |Cells(m.rows, m.cols) - seen|, 5 - i
  {
    if i == 4 {
      m', seen' := m, seen;
    } else {
      var m1, seen1 := CarveToward(m, seen, p, order[i], shuffles);
      SubsetCardinality(Cells(m.rows, m.cols) - seen1, Cells(m.rows, m.cols) - seen);
      m', seen' := CarveDirections(m1, seen1, p, order, i + 1, shuffles);
      ComposeCarves(m, m1, m', seen, seen1, seen', p);
      ComposeCounts(m, m1, m', seen, seen1, seen');
      forall j | i <= j < 4 && m.InBounds(Neighbor(p, order[j]))
        ensures Neighbor(p, order[j]) in seen'
      {
        if j == i {
          assert Neighbor(p, order[i]) in seen1;
        } else {
          assert m1.InBounds(Neighbor(p, order[j]));
        }
      }
    }
  }

  /** One pass of `GenDfs`'s loop at room p: if the neighbour in d is inside the grid and not
      yet seen, knock the wall down on both sides and carve on from the neighbour. */
  method CarveToward(m: Maze, seen: set<Point>, p: Point, d: int, shuffles: seq<seq<seq<int>>>)
    returns (m': Maze, seen': set<Point>)
    requires m.Valid() && m.InBounds(p) && p in seen && IsDir(d) && ShufflesFit(m.rows, m.cols, shuffles)
    ensures SameShape(m, m') && SameHeights(m, m') && OpensMore(m, m') && m'.Valid()
    ensures seen <= seen'
    ensures NewInBounds(m, seen, seen')
    ensures NewWallsFresh(m, m', seen, seen', p)
    ensures m.InBounds(Neighbor(p, d)) ==> Neighbor(p, d) in seen'
    ensures NeighboursSeen(m, seen, seen', p)
    ensures NewReachable(m', p, seen, seen')
    ensures OpenOnlyIn(m, seen) ==> OpenOnlyIn(m', seen') && |OpenSides(m')| == |OpenSides(m)| + 2 * |seen' - seen|
    decreases |Cells(m.rows, m.cols) - seen|, 1
  {
    var n := Neighbor(p, d);
    if m.InBounds(n) && n !in seen {
      var m1 := Carve(m, p, d);
      NeighborOpposite(p, d);
      m', seen' := GenDfs(m1, seen, n, shuffles);
      ComposeChanges(m, m1, m');
      CarveThenNeighbours(m, m1, seen, seen', p, d);
      CarveThenDfs(m, m1, m', seen, seen', p, d);
      CarveThenCount(m, m1, m', seen, seen', p, d);
    } else {
      m', seen' := m, seen;
    }
  }

  /** What `CarveToward` promises, from what carving p's wall and `GenDfs` from the
      neighbour promise. */
  lemma CarveThenDfs(m: Maze, m1: Maze, m': Maze, seen: set<Point>, seen': set<Point>, p: Point, d: int)
    requires m.Valid() && m.InBounds(p) && p in seen && IsDir(d) && m.InBounds(Neighbor(p, d)) && Neighbor(p, d) !in seen
    requires m1 == Carve(m, p, d)
    requires SameShape(m1, m') && OpensMore(m1, m')
    requires seen + {Neighbor(p, d)} <= seen'
    requires NewWallsFresh(m1, m', seen, seen', Neighbor(p, d))
    requires NewReachable(m', Neighbor(p, d), seen, seen')
    ensures NewWallsFresh(m, m', seen, seen', p)
    ensures NewReachable(m', p, seen, seen')
  {
    var n := Neighbor(p, d);
    NeighborOpposite(p, d);
    forall q, e | m'.Open(q, e) && !m.Open(q, e)
      ensures Fresh(q, seen, seen', p)
    {
      if !m1.Open(q, e) {
        assert Fresh(q, seen, seen', n);
      }
    }
    assert m1.Open(p, d);
    StepIntro(m', p, d);
    forall q | q in seen' && q !in seen
      ensures Reachable(m', p, q)
    {
      ReachablePrepend(m', p, n, q);
    }
  }

  /** The rooms the carve from p's neighbour n saw, seen from p: every in-bounds neighbour
      of n and of each room entered after it has been seen. */
  lemma CarveThenNeighbours(m: Maze, m1: Maze, seen: set<Point>, seen': set<Point>, p: Point, d: int)
    requires SameShape(m, m1) && IsDir(d) && p in seen && m.InBounds(Neighbor(p, d))
    requires NewInBounds(m1, seen, seen') && NeighboursSeen(m1, seen, seen', Neighbor(p, d))
    requires forall e | IsDir(e) && m1.InBounds(Neighbor(Neighbor(p, d), e)) :: Neighbor(Neighbor(p, d), e) in seen'
    ensures NewInBounds(m, seen, seen') && NeighboursSeen(m, seen, seen', p)
  {
  }

  /** The side count of `CarveToward`: the wall toward the unseen neighbour was closed, so
      carving it adds two sides, and `GenDfs` adds two for every room after the neighbour. */
  lemma CarveThenCount(m: Maze, m1: Maze, m': Maze, seen: set<Point>, seen': set<Point>, p: Point, d: int)
    requires m.Valid() && m.InBounds(p) && p in seen && IsDir(d) && m.InBounds(Neighbor(p, d)) && Neighbor(p, d) !in seen
    requires m1 == Carve(m, p, d) && m'.WellFormed() && seen + {Neighbor(p, d)} <= seen'
    requires OpenOnlyIn(m1, seen + {Neighbor(p, d)}) ==>
      OpenOnlyIn(m', seen') && |OpenSides(m')| == |OpenSides(m1)| + 2 * |seen' - (seen + {Neighbor(p, d)})|
    ensures OpenOnlyIn(m, seen) ==> OpenOnlyIn(m', seen') && |OpenSides(m')| == |OpenSides(m)| + 2 * |seen' - seen|
  {
    var n := Neighbor(p, d);
    if OpenOnlyIn(m, seen) {
      CarveAddsTwo(m, p, d);
      assert OpenOnlyIn(m1, seen + {n});
      assert seen' - seen == (seen' - (seen + {n})) + {n};
    }
  }

  /** Two carves whose side counts each match the rooms they entered compose into one. */
  lemma ComposeCounts(m: Maze, m1: Maze, m': Maze, seen: set<Point>, seen1: set<Point>, seen': set<Point>)
    requires m.WellFormed() && m1.WellFormed() && m'.WellFormed() && seen <= seen1 <= seen'
    requires OpenOnlyIn(m, seen) ==> OpenOnlyIn(m1, seen1) && |OpenSides(m1)| == |OpenSides(m)| + 2 * |seen1 - seen|
    requires OpenOnlyIn(m1, seen1) ==> OpenOnlyIn(m', seen') && |OpenSides(m')| == |OpenSides(m1)| + 2 * |seen' - seen1|
    ensures OpenOnlyIn(m, seen) ==> OpenOnlyIn(m', seen') && |OpenSides(m')| == |OpenSides(m)| + 2 * |seen' - seen|
  {
    var a, b := seen1 - seen, seen' - seen1;
    assert seen' - seen == a + b && a * b == {};
    assert |a + b| == |a| + |b|;
  }

  /** The measure of `GenDfs`'s recursion: everything seen after p was marked is at least
      one room more than was seen on entry, or p had been seen already. */
  lemma CarveMeasure(rows: int, cols: int, seen: set<Point>, seen': set<Point>, p: Point)
    requires 0 <= p.0 < rows && 0 <= p.1 < cols && seen + {p} <= seen'
    ensures |Cells(rows, cols) - seen'| < |Cells(rows, cols) - seen| + (if p in seen then 1 else 0)
  {
    SubsetCardinality(Cells(rows, cols) - seen', Cells(rows, cols) - (seen + {p}));
    if p !in seen {
      UnseenShrinks(rows, cols, seen, p);
    } else {
      assert seen + {p} == seen;
    }
  }

  /** The invariant of `GenDfs`'s loop survives one more `CarveToward`. */
  lemma ComposeCarves(m: Maze, m': Maze, m1: Maze, seen: set<Point>, seen': set<Point>, seen1: set<Point>, p: Point)
    requires SameShape(m, m') && SameShape(m', m1)
    requires seen + {p} <= seen' <= seen1
    requires SameHeights(m, m') && SameHeights(m', m1)
    requires OpensMore(m, m') && OpensMore(m', m1)
    requires NewInBounds(m, seen, seen') && NewInBounds(m', seen', seen1)
    requires NewWallsFresh(m, m', seen, seen', p) && NewWallsFresh(m', m1, seen', seen1, p)
    requires NeighboursSeen(m, seen, seen', p) && NeighboursSeen(m', seen', seen1, p)
    requires NewReachable(m', p, seen, seen') && NewReachable(m1, p, seen', seen1)
    ensures SameShape(m, m1) && SameHeights(m, m1) && OpensMore(m, m1)
    ensures NewInBounds(m, seen, seen1)
    ensures NewWallsFresh(m, m1, seen, seen1, p)
    ensures NeighboursSeen(m, seen, seen1, p)
    ensures NewReachable(m1, p, seen, seen1)
  {
    forall q, d | m1.Open(q, d) && !m.Open(q, d)
      ensures Fresh(q, seen, seen1, p)
    {
      if m'.Open(q, d) {
        assert Fresh(q, seen, seen', p);
      } else {
        assert Fresh(q, seen', seen1, p);
      }
    }
    forall q | q in seen1 && q !in seen
      ensures Reachable(m1, p, q)
    {
      if q in seen' {
        ReachableMono(m', m1, p, q);
      }
    }
  }

  /** The carve of a fresh grid from the top-left room: every room ends up seen, every room
      is reachable from (0, 0), and the walls stay symmetric with a closed border. */
  method GenerateTree(rows: int, cols: int, shuffles: seq<seq<seq<int>>>) returns (m: Maze)
    requires rows >= 1 && cols >= 1 && ShufflesFit(rows, cols, shuffles)
    ensures m.Valid() && m.rows == rows && m.cols == cols
    ensures forall p | m.InBounds(p) :: m.HeightAt(p) == 0
    ensures forall p | m.InBounds(p) :: Reachable(m, (0, 0), p)
    // rows * cols - 1 walls are down, each open on both sides: with the reachability above,
    // the open walls form a spanning tree of the grid
    ensures |OpenSides(m)| == 2 * (rows * cols - 1)
  {
    var m0 := NewGrid(rows, cols);
    var seen;
    m, seen := GenDfs(m0, {}, (0, 0), shuffles);
    assert GridClosed(m, seen);
    GridClosedCoversAll(m, seen);
    TreeCount(m0, m, seen);
  }

  /** The side count of the whole carve: it starts from no open side and enters every room
      but the first. */
  lemma TreeCount(m0: Maze, m: Maze, seen: set<Point>)
    requires m0.WellFormed() && m.WellFormed() && m.rows == m0.rows && m.cols == m0.cols
    requires forall p, d :: !m0.Open(p, d)
    requires forall p | m.InBounds(p) :: p in seen
    requires NewInBounds(m0, {}, seen)
    requires OpenOnlyIn(m0, {} + {(0, 0)}) ==> |OpenSides(m)| == |OpenSides(m0)| + 2 * |seen - ({} + {(0, 0)})|
    ensures |OpenSides(m)| == 2 * (m.rows * m.cols - 1)
  {
    assert OpenSides(m0) == {};
    assert seen == Cells(m.rows, m.cols);
    CellsCardinality(m.rows, m.cols);
    assert seen - ({} + {(0, 0)}) == seen - {(0, 0)};
  }

  /** One draw of the wall-deletion distributions: a room strictly inside the grid and a
      direction. */
  datatype Draw = Draw(r: int, c: int, dir: int) {
    function Room(): Point {
      (r, c)
    }
  }

  /** The ranges of the three distributions: rows 1..rows-2, columns 1..cols-2, directions 0..3. */
  predicate DrawFits(rows: int, cols: int, d: Draw) {
    1 <= d.r <= rows - 2 && 1 <= d.c <= cols - 2 && IsDir(d.dir)
  }

  predicate DrawsFit(rows: int, cols: int, draws: seq<Draw>) {
    forall k | 0 <= k < |draws| :: DrawFits(rows, cols, draws[k])
  }

  /** One pass of the inner loop of the wall deletion: open the drawn side on both rooms,
      and report whether that side was closed before. */
  function DeleteOnce(m: Maze, d: Draw): (res: (Maze, bool))
    requires m.Valid() && DrawFits(m.rows, m.cols, d)
    ensures m.InBounds(d.Room()) && m.InBounds(Neighbor(d.Room(), d.dir))
    ensures res.1 <==> !m.Open(d.Room(), d.dir)
    ensures SameShape(m, res.0) && SameHeights(m, res.0) && OpensMore(m, res.0) && res.0.Valid()
    ensures res.0.Open(d.Room(), d.dir) && res.0.Open(Neighbor(d.Room(), d.dir), Opposite(d.dir))
    ensures forall q, e | res.0.Open(q, e) && !m.Open(q, e) ::
      (q, e) == (d.Room(), d.dir) || (q, e) == (Neighbor(d.Room(), d.dir), Opposite(d.dir))
    ensures !res.1 ==> res.0 == m
  {
    var p := d.Room();
    var deleted := !m.At(p).CanGoDir(d.dir);
    if !deleted then
      CarveOpenUnchanged(m, p, d.dir);
      (Carve(m, p, d.dir), deleted)
    else
      (Carve(m, p, d.dir), deleted)
  }

  /** A reported deletion really took one wall down: two more open sides. */
  lemma DeleteOnceCount(m: Maze, d: Draw)
    requires m.Valid() && DrawFits(m.rows, m.cols, d)
    ensures |OpenSides(DeleteOnce(m, d).0)| == |OpenSides(m)| + (if DeleteOnce(m, d).1 then 2 else 0)
  {
    if DeleteOnce(m, d).1 {
      CarveAddsTwo(m, d.Room(), d.dir);
    }
  }

  /** What the wall deletion leaves: the maze, how many walls it removed, and how many draws
      it consumed. */
  datatype Deletion = Deletion(maze: Maze, deleted: nat, used: nat)

  /** Some draw among the first `used` opened side e of room q (on either side of the wall). */
  predicate OpenedByDraws(draws: seq<Draw>, used: nat, q: Point, e: int)
    requires used <= |draws|
  {
    exists k | 0 <= k < used ::
      (q, e) == (draws[k].Room(), draws[k].dir) || (q, e) == (Neighbor(draws[k].Room(), draws[k].dir), Opposite(draws[k].dir))
  }

  /** The wall deletion: `count` passes of the outer loop, each consuming draws until one of
      them opens a side that was closed. Runs out early only when the draws do. */
  function DeleteWalls(m: Maze, count: nat, draws: seq<Draw>): (res: Deletion)
    requires m.Valid() && DrawsFit(m.rows, m.cols, draws)
    ensures SameShape(m, res.maze) && SameHeights(m, res.maze) && OpensMore(m, res.maze) && res.maze.Valid()
    ensures res.deleted <= count && res.used <= |draws|
    // it stops only when it has deleted `count` walls or has no draw left
    ensures res.deleted == count || res.used == |draws|
    // every consumed draw's side is open afterwards
    ensures forall k | 0 <= k < res.used :: res.maze.Open(draws[k].Room(), draws[k].dir)
    // nothing but the consumed draws' walls was opened
    ensures forall q, e | res.maze.Open(q, e) && !m.Open(q, e) :: OpenedByDraws(draws, res.used, q, e)
    decreases |draws|
  {
    if count == 0 || |draws| == 0 then
      Deletion(m, 0, 0)
    else
      var (m1, deleted) := DeleteOnce(m, draws[0]);
      assert DrawsFit(m.rows, m.cols, draws[1..]) by {
        assert forall k | 0 <= k < |draws| - 1 :: draws[1..][k] == draws[k + 1];
      }
      var rest := DeleteWalls(m1, if deleted then count - 1 else count, draws[1..]);
      var res := Deletion(rest.maze, rest.deleted + (if deleted then 1 else 0), rest.used + 1);
      DeleteWallsStep(m, m1, rest.maze, draws, rest.used);
      res
  }

  /** Every wall the deletion reports removed is a wall that was standing: two open sides
      each. */
  lemma {:induction false} DeleteWallsCount(m: Maze, count: nat, draws: seq<Draw>)
    requires m.Valid() && DrawsFit(m.rows, m.cols, draws)
    ensures |OpenSides(DeleteWalls(m, count, draws).maze)| == |OpenSides(m)| + 2 * DeleteWalls(m, count, draws).deleted
    decreases |draws|
  {
    if count != 0 && |draws| != 0 {
      var (m1, deleted) := DeleteOnce(m, draws[0]);
      assert DrawsFit(m.rows, m.cols, draws[1..]) by {
        assert forall k | 0 <= k < |draws| - 1 :: draws[1..][k] == draws[k + 1];
      }
      DeleteOnceCount(m, draws[0]);
      DeleteWallsCount(m1, if deleted then count - 1 else count, draws[1..]);
    }
  }

  /** The open sides of the finished maze: the tree's, two for each of the at most `count`
      walls the deletion took down, and none from the heights. */
  lemma SidesAfterDeletion(tree: Maze, count: nat, draws: seq<Draw>, rolls: seq<seq<nat>>)
    requires tree.Valid() && DrawsFit(tree.rows, tree.cols, draws)
    requires |rolls| == tree.rows && forall r | 0 <= r < tree.rows :: |rolls[r]| == tree.cols
    requires |OpenSides(tree)| == 2 * (tree.rows * tree.cols - 1)
    ensures var m := SetHeights(DeleteWalls(tree, count, draws).maze, rolls);
      2 * (tree.rows * tree.cols - 1) <= |OpenSides(m)| <= 2 * (tree.rows * tree.cols - 1 + count)
  {
    var del := DeleteWalls(tree, count, draws);
    DeleteWallsCount(tree, count, draws);
    assert OpenSides(SetHeights(del.maze, rolls)) == OpenSides(del.maze);
  }

  /** The postconditions of `DeleteWalls`, carried over one more draw. */
  lemma DeleteWallsStep(m: Maze, m1: Maze, m': Maze, draws: seq<Draw>, used: nat)
    requires m.Valid() && |draws| > 0 && DrawFits(m.rows, m.cols, draws[0]) && m1 == DeleteOnce(m, draws[0]).0
    requires SameShape(m1, m') && SameHeights(m1, m') && OpensMore(m1, m') && used <= |draws| - 1
    requires forall k | 0 <= k < used :: m'.Open(draws[1..][k].Room(), draws[1..][k].dir)
    requires forall q, e | m'.Open(q, e) && !m1.Open(q, e) :: OpenedByDraws(draws[1..], used, q, e)
    ensures SameShape(m, m') && SameHeights(m, m') && OpensMore(m, m')
    ensures forall k | 0 <= k < used + 1 :: m'.Open(draws[k].Room(), draws[k].dir)
    ensures forall q, e | m'.Open(q, e) && !m.Open(q, e) :: OpenedByDraws(draws, used + 1, q, e)
  {
    ComposeChanges(m, m1, m');
    ConsumedOpen(m, m1, m', draws, used);
    OpenedByMore(m, m1, m', draws, used);
  }

  /** Two changes that keep the shape and heights and only open walls compose into one. */
  lemma ComposeChanges(m: Maze, m1: Maze, m': Maze)
    requires SameShape(m, m1) && SameHeights(m, m1) && OpensMore(m, m1)
    requires SameShape(m1, m') && SameHeights(m1, m') && OpensMore(m1, m')
    ensures SameShape(m, m') && SameHeights(m, m') && OpensMore(m, m')
  {
  }

  lemma ConsumedOpen(m: Maze, m1: Maze, m': Maze, draws: seq<Draw>, used: nat)
    requires m.Valid() && |draws| > 0 && DrawFits(m.rows, m.cols, draws[0]) && m1 == DeleteOnce(m, draws[0]).0
    requires SameShape(m1, m') && OpensMore(m1, m') && used <= |draws| - 1
    requires forall k | 0 <= k < used :: m'.Open(draws[1..][k].Room(), draws[1..][k].dir)
    ensures forall k | 0 <= k < used + 1 :: m'.Open(draws[k].Room(), draws[k].dir)
  {
    forall k | 0 <= k < used + 1
      ensures m'.Open(draws[k].Room(), draws[k].dir)
    {
      if k > 0 {
        assert draws[1..][k - 1] == draws[k];
      }
    }
  }

  lemma OpenedByMore(m: Maze, m1: Maze, m': Maze, draws: seq<Draw>, used: nat)
    requires m.Valid() && |draws| > 0 && DrawFits(m.rows, m.cols, draws[0]) && m1 == DeleteOnce(m, draws[0]).0
    requires SameShape(m1, m') && used <= |draws| - 1
    requires forall q, e | m'.Open(q, e) && !m1.Open(q, e) :: OpenedByDraws(draws[1..], used, q, e)
    ensures forall q, e | m'.Open(q, e) && !m.Open(q, e) :: OpenedByDraws(draws, used + 1, q, e)
  {
    forall q, e | m'.Open(q, e) && !m.Open(q, e)
      ensures OpenedByDraws(draws, used + 1, q, e)
    {
      if m1.Open(q, e) {
        assert (q, e) == (draws[0].Room(), draws[0].dir) || (q, e) == (Neighbor(draws[0].Room(), draws[0].dir), Opposite(draws[0].dir));
      } else {
        var t := draws[1..];
        var k :| 0 <= k < used &&
          ((q, e) == (t[k].Room(), t[k].dir) || (q, e) == (Neighbor(t[k].Room(), t[k].dir), Opposite(t[k].dir)));
        assert t[k] == draws[k + 1];
      }
    }
  }

  /** Every room gets height roll % 10, one roll per room in row-major order; the walls are
      not touched. */
  function SetHeights(m: Maze, rolls: seq<seq<nat>>): (m': Maze)
    requires m.WellFormed() && |rolls| == m.rows && forall r | 0 <= r < m.rows :: |rolls[r]| == m.cols
    ensures SameShape(m, m') && SameWalls(m, m')
    ensures forall p | m'.InBounds(p) :: 0 <= m'.HeightAt(p) <= 9 && m'.HeightAt(p) == rolls[p.0][p.1] % 10
  {
    Maze(m.rows, m.cols, seq(m.rows, r requires 0 <= r < m.rows =>
      seq(m.cols, c requires 0 <= c < m.cols => m.squares[r][c].SetHeight(rolls[r][c] % 10))))
  }

  /** Heights do not matter to reachability. */
  lemma SetHeightsKeepsReachable(m: Maze, rolls: seq<seq<nat>>, a: Point, b: Point)
    requires m.WellFormed() && |rolls| == m.rows && forall r | 0 <= r < m.rows :: |rolls[r]| == m.cols
    requires Reachable(m, a, b)
    ensures Reachable(SetHeights(m, rolls), a, b)
  {
    ReachableMono(m, SetHeights(m, rolls), a, b);
  }

  /** The constructor: an all-closed grid, the depth-first carve from (0, 0), the deletion of
      `count` extra walls, and the heights. Every random choice is an input. */
  method NewMaze(rows: int, cols: int, shuffles: seq<seq<seq<int>>>, count: nat, draws: seq<Draw>,
                 rolls: seq<seq<nat>>) returns (m: Maze)
    requires rows >= 3 && cols >= 3
    requires ShufflesFit(rows, cols, shuffles) && DrawsFit(rows, cols, draws)
    requires |rolls| == rows && forall r | 0 <= r < rows :: |rolls[r]| == cols
    ensures m.Valid() && m.Rows() == rows && m.Columns() == cols
    ensures forall p | m.InBounds(p) :: 0 <= m.HeightAt(p) <= 9 && m.HeightAt(p) == rolls[p.0][p.1] % 10
    ensures forall p | m.InBounds(p) :: Reachable(m, (0, 0), p)
    ensures Reachable(m, (0, 0), m.Exit())
    // the spanning tree's rows * cols - 1 walls plus at most `count` deleted ones are down
    ensures 2 * (rows * cols - 1) <= |OpenSides(m)| <= 2 * (rows * cols - 1 + count)
  {
    var tree := GenerateTree(rows, cols, shuffles);
    var deletion := DeleteWalls(tree, count, draws);
    m := SetHeights(deletion.maze, rolls);
    SidesAfterDeletion(tree, count, draws, rolls);
    StillConnected(tree, deletion.maze, rolls);
  }

  /** Deleting walls and setting heights keeps every room reachable from (0, 0). */
  lemma StillConnected(tree: Maze, del: Maze, rolls: seq<seq<nat>>)
    requires SameShape(tree, del) && OpensMore(tree, del)
    requires |rolls| == del.rows && forall r | 0 <= r < del.rows :: |rolls[r]| == del.cols
    requires forall p | tree.InBounds(p) :: Reachable(tree, (0, 0), p)
    ensures forall p | del.InBounds(p) :: Reachable(SetHeights(del, rolls), (0, 0), p)
    ensures Reachable(SetHeights(del, rolls), (0, 0), del.Exit())
  {
    forall p | del.InBounds(p)
      ensures Reachable(SetHeights(del, rolls), (0, 0), p)
    {
      ReachableMono(tree, del, (0, 0), p);
      SetHeightsKeepsReachable(del, rolls, (0, 0), p);
    }
    assert del.InBounds(del.Exit());
  }
}
