/** The maze itself: a rows x cols grid of squares, its read accessors, the grid-wide wall
    invariant, and the symmetric carving of one wall that generation is built from. */
module Grid {
  import opened Directions
  import opened Squares

  /** Every point of a rows x cols grid. */
  function Cells(rows: int, cols: int): (s: set<Point>)
    ensures forall p :: p in s <==> 0 <= p.0 < rows && 0 <= p.1 < cols
  {
    set r, c | 0 <= r < rows && 0 <= c < cols :: (r, c)
  }

  datatype Maze = Maze(rows: int, cols: int, squares: seq<seq<Square>>) {

    /** The shape the constructor gives: `rows` rows of `cols` squares, both at least one. */
    predicate WellFormed() {
      && rows >= 1 && cols >= 1
      && |squares| == rows
      && forall r | 0 <= r < rows :: |squares[r]| == cols
    }

    predicate InBounds(p: Point) {
      0 <= p.0 < rows && 0 <= p.1 < cols
    }

    function Rows(): int {
      rows
    }

    function Columns(): int {
      cols
    }

    /** The exit room, bottom right. */
    function Exit(): Point {
      (rows - 1, cols - 1)
    }

    function At(p: Point): Square
      requires WellFormed() && InBounds(p)
    {
      squares[p.0][p.1]
    }

    function HeightAt(p: Point): int
      requires WellFormed() && InBounds(p)
    {
      At(p).Height()
    }

    /** Whether room (r, c) is open toward `dir`; the flag vector has exactly four entries. */
    predicate CanGo(dir: int, r: int, c: int)
      requires WellFormed() && InBounds((r, c)) && IsDir(dir)
    {
      squares[r][c].CanGoDir(dir)
    }

    predicate CanGoUp(r: int, c: int)
      requires WellFormed() && InBounds((r, c))
      ensures CanGoUp(r, c) == CanGo(UP, r, c) == At((r, c)).CanGoDir(UP)
    {
      squares[r][c].CanGoDir(UP)
    }

    predicate CanGoDown(r: int, c: int)
      requires WellFormed() && InBounds((r, c))
      ensures CanGoDown(r, c) == CanGo(DOWN, r, c) == At((r, c)).CanGoDir(DOWN)
    {
      squares[r][c].CanGoDir(DOWN)
    }

    predicate CanGoLeft(r: int, c: int)
      requires WellFormed() && InBounds((r, c))
      ensures CanGoLeft(r, c) == CanGo(LEFT, r, c) == At((r, c)).CanGoDir(LEFT)
    {
      squares[r][c].CanGoDir(LEFT)
    }

    predicate CanGoRight(r: int, c: int)
      requires WellFormed() && InBounds((r, c))
      ensures CanGoRight(r, c) == CanGo(RIGHT, r, c) == At((r, c)).CanGoDir(RIGHT)
    {
      squares[r][c].CanGoDir(RIGHT)
    }

    /** Total form of `CanGo`: an in-bounds room that is open toward a real direction. */
    predicate Open(p: Point, d: int)
      requires WellFormed()
    {
      InBounds(p) && IsDir(d) && At(p).CanGoDir(d)
    }

    /** The cost of moving from (r, c) in `dir`: the height difference of the two rooms.
        The neighbour must be inside the grid. */
    function Cost(r: int, c: int, dir: int): (k: int)
      requires WellFormed() && InBounds((r, c)) && InBounds(Neighbor((r, c), dir))
      ensures k >= 0
      ensures k == 0 <==> HeightAt((r, c)) == HeightAt(Neighbor((r, c), dir))
    {
      var (dr, dc) := MoveIn(dir);
      Abs(squares[r][c].Height() - squares[r + dr][c + dc].Height())
    }

    /** No open side leads out of the grid. */
    ghost predicate ClosedBorder()
      requires WellFormed()
    {
      forall p, d {:trigger Neighbor(p, d)} | Open(p, d) :: InBounds(Neighbor(p, d))
    }

    /** Walls are symmetric: an open side is matched by the neighbour's opposite side. */
    ghost predicate Symmetric()
      requires WellFormed()
    {
      forall p, d {:trigger Neighbor(p, d)} | Open(p, d) && InBounds(Neighbor(p, d)) :: Open(Neighbor(p, d), Opposite(d))
    }

    /** The grid-wide invariant every mutation keeps. */
    ghost predicate Valid() {
      WellFormed() && ClosedBorder() && Symmetric()
    }
  }

  /** Same dimensions, both well formed. */
  predicate SameShape(m: Maze, m': Maze) {
    m.WellFormed() && m'.WellFormed() && m.rows == m'.rows && m.cols == m'.cols
  }

  ghost predicate SameHeights(m: Maze, m': Maze)
    requires SameShape(m, m')
  {
    forall p | m.InBounds(p) :: m'.HeightAt(p) == m.HeightAt(p)
  }

  /** Every side open in `m` is still open in `m'`. */
  ghost predicate OpensMore(m: Maze, m': Maze)
    requires SameShape(m, m')
  {
    forall p, d | m.Open(p, d) :: m'.Open(p, d)
  }

  ghost predicate SameWalls(m: Maze, m': Maze)
    requires SameShape(m, m')
  {
    forall p, d :: m.Open(p, d) <==> m'.Open(p, d)
  }

  /** A freshly constructed grid: every room closed, height 0. */
  function NewGrid(rows: int, cols: int): (m: Maze)
    requires rows >= 1 && cols >= 1
    ensures m.WellFormed() && m.rows == rows && m.cols == cols
    ensures forall p, d :: !m.Open(p, d)
    ensures forall p | m.InBounds(p) :: m.HeightAt(p) == 0
    ensures m.Valid()
  {
    Maze(rows, cols, seq(rows, _ => seq(cols, _ => NewSquare())))
  }

  /** `set_dir(val, d)` on room p. */
  function SetDirAt(m: Maze, p: Point, val: bool, d: int): (m': Maze)
    requires m.WellFormed() && m.InBounds(p) && IsDir(d)
    ensures SameShape(m, m') && SameHeights(m, m')
    ensures m'.At(p).CanGoDir(d) == val
    ensures forall q, e | (q, e) != (p, d) :: m'.Open(q, e) == m.Open(q, e)
  {
    var row := m.squares[p.0];
    Maze(m.rows, m.cols, m.squares[p.0 := row[p.1 := row[p.1].SetDir(val, d)]])
  }

  /** Knocks down the wall between p and its neighbour in d, on both sides
      (the pair of `set_dir(true, ...)` calls of the generator). */
  function Carve(m: Maze, p: Point, d: int): (m': Maze)
    requires m.WellFormed() && m.InBounds(p) && IsDir(d) && m.InBounds(Neighbor(p, d))
    ensures SameShape(m, m') && SameHeights(m, m') && OpensMore(m, m')
    ensures forall q, e :: m'.Open(q, e) <==> m.Open(q, e) || (q, e) == (p, d) || (q, e) == (Neighbor(p, d), Opposite(d))
    ensures m.Valid() ==> m'.Valid()
  {
    var m1 := SetDirAt(m, p, true, d);
    var m' := SetDirAt(m1, Neighbor(p, d), true, Opposite(d));
    CarveKeepsValid(m, m', p, d);
    m'
  }

  /** Opening one wall on both of its sides keeps the grid-wide invariant. */
  lemma CarveKeepsValid(m: Maze, m': Maze, p: Point, d: int)
    requires SameShape(m, m') && m.InBounds(p) && IsDir(d) && m.InBounds(Neighbor(p, d))
    requires forall q, e :: m'.Open(q, e) <==> m.Open(q, e) || (q, e) == (p, d) || (q, e) == (Neighbor(p, d), Opposite(d))
    ensures m.Valid() ==> m'.Valid()
  {
    NeighborOpposite(p, d);
  }

  /** Every open side of the grid, as (room, direction) pairs; each open wall counts twice,
      once from each of its rooms. */
  function OpenSides(m: Maze): (s: set<(Point, int)>)
    requires m.WellFormed()
    ensures forall p, d :: (p, d) in s <==> m.Open(p, d)
  {
    set r, c, d | 0 <= r < m.rows && 0 <= c < m.cols && 0 <= d < 4 && m.Open((r, c), d) :: ((r, c), d)
  }

  /** Every open side belongs to a room of s. */
  ghost predicate OpenOnlyIn(m: Maze, s: set<Point>)
    requires m.WellFormed()
  {
    forall q, e | m.Open(q, e) :: q in s
  }

  /** Knocking down a wall that is closed on both sides adds exactly two open sides. */
  lemma CarveAddsTwo(m: Maze, p: Point, d: int)
    requires m.Valid() && m.InBounds(p) && IsDir(d) && m.InBounds(Neighbor(p, d)) && !m.Open(p, d)
    ensures |OpenSides(Carve(m, p, d))| == |OpenSides(m)| + 2
  {
    var n := Neighbor(p, d);
    NeighborOpposite(p, d);
    assert !m.Open(n, Opposite(d));
    var a := OpenSides(m);
    assert (p, d) !in a && (n, Opposite(d)) !in a + {(p, d)};
    assert OpenSides(Carve(m, p, d)) == a + {(p, d)} + {(n, Opposite(d))};
  }

  /** The rooms of row r, columns 0..cols-1. */
  function RowCells(r: int, cols: int): (s: set<Point>)
    ensures forall p :: p in s <==> p.0 == r && 0 <= p.1 < cols
  {
    set c | 0 <= c < cols :: (r, c)
  }

  lemma {:induction false} RowCardinality(r: int, cols: nat)
    ensures |RowCells(r, cols)| == cols
  {
    if cols > 0 {
      RowCardinality(r, cols - 1);
      assert RowCells(r, cols) == RowCells(r, cols - 1) + {(r, cols - 1)};
    }
  }

  /** A rows x cols grid has rows * cols rooms. */
  lemma {:induction false} CellsCardinality(rows: nat, cols: nat)
    ensures |Cells(rows, cols)| == rows * cols
  {
    if rows > 0 {
      CellsCardinality(rows - 1, cols);
      RowCardinality(rows - 1, cols);
      CellsSplit(rows, cols);
      var top, row := Cells(rows - 1, cols), RowCells(rows - 1, cols);
      assert |top + row| == |top| + |row|;
      assert (rows - 1) * cols + cols == rows * cols by {
        assert (rows - 1) * cols == rows * cols - cols;
      }
    }
  }

  /** The last row of a grid split off from the rows above it. */
  lemma CellsSplit(rows: nat, cols: nat)
    requires rows > 0
    ensures Cells(rows, cols) == Cells(rows - 1, cols) + RowCells(rows - 1, cols)
    ensures Cells(rows - 1, cols) * RowCells(rows - 1, cols) == {}
  {
  }

  /** Cost is the same in both directions across a wall. */
  lemma CostSymmetric(m: Maze, r: int, c: int, d: int)
    requires m.WellFormed() && IsDir(d) && m.InBounds((r, c)) && m.InBounds(Neighbor((r, c), d))
    ensures var n := Neighbor((r, c), d);
      m.InBounds(Neighbor(n, Opposite(d))) && m.Cost(r, c, d) == m.Cost(n.0, n.1, Opposite(d))
  {
    NeighborOpposite((r, c), d);
  }

  /** With heights in 0..9 no move costs more than 9. */
  lemma CostAtMostNine(m: Maze, r: int, c: int, d: int)
    requires m.WellFormed() && m.InBounds((r, c)) && m.InBounds(Neighbor((r, c), d))
    requires forall p | m.InBounds(p) :: 0 <= m.HeightAt(p) <= 9
    ensures m.Cost(r, c, d) <= 9
  {
    assert 0 <= m.HeightAt(Neighbor((r, c), d)) <= 9;
  }

  /** Setting a flag to the value it already has leaves the grid as it was. */
  lemma SetDirAtUnchanged(m: Maze, p: Point, val: bool, d: int)
    requires m.WellFormed() && m.InBounds(p) && IsDir(d) && m.At(p).CanGoDir(d) == val
    ensures SetDirAt(m, p, val, d) == m
  {
    var row := m.squares[p.0];
    SetDirIdempotent(row[p.1], val, d);
    assert row[p.1 := row[p.1].SetDir(val, d)] == row;
    assert m.squares[p.0 := row] == m.squares;
  }

  /** Knocking down a wall that is already open changes nothing. */
  lemma CarveOpenUnchanged(m: Maze, p: Point, d: int)
    requires m.Valid() && m.Open(p, d)
    ensures m.InBounds(Neighbor(p, d)) && Carve(m, p, d) == m
  {
    var n := Neighbor(p, d);
    assert m.Open(n, Opposite(d));
    SetDirAtUnchanged(m, p, true, d);
    SetDirAtUnchanged(m, n, true, Opposite(d));
  }

  /** A subset is no larger than its superset. */
  lemma {:induction false} SubsetCardinality<T>(a: set<T>, b: set<T>)
    requires a <= b
    ensures |a| <= |b|
    decreases |b|
  {
    if a != b {
      assert exists y :: y in b && y !in a;
      var x :| x in b && x !in a;
      SubsetCardinality(a, b - {x});
    }
  }

  /** Marking one more in-bounds room seen leaves one room fewer unseen. */
  lemma UnseenShrinks(rows: int, cols: int, seen: set<Point>, p: Point)
    requires 0 <= p.0 < rows && 0 <= p.1 < cols && p !in seen
    ensures |Cells(rows, cols) - (seen + {p})| == |Cells(rows, cols) - seen| - 1
  {
    assert Cells(rows, cols) - seen == (Cells(rows, cols) - (seen + {p})) + {p};
  }
}
