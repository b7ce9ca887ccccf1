# Maze generation, solving and path checking

This project models the core of a small C++ maze library and proves properties of the model
in Dafny. The core has five parts:

- **Directions and moves.** The four direction constants, `opposite`, `moveIn`, the row-first
  `direction` test and point addition.
- **The maze.** A rows x cols grid of squares. Each square has four passability flags and a
  height. The model includes the read accessors and the `cost` of a move.
- **Generation.** The constructor builds an all-closed grid. It carves it with a randomized
  depth-first walk (`gen_dfs`), deletes a few extra walls (`delete_walls`) and rolls the
  heights (`set_heights`).
- **Solvers.**
  - The backtracking search `dfs_helper` / `solve_dfs`.
  - Its copy `dijkstra_helper` / `solve_dijkstra`. It recurses into `dfs_helper` and never
    looks at a cost.
  - The queue walk `bfs_helper` / `solve_bfs`.
  - `solve_tour`, which returns an empty list.
- **Path checks.** `valid_path`, `valid_solution` and `valid_tour`, plus the total time that
  is printed next to a path.

Modules, one per part of the program:

| module | file | models |
|---|---|---|
| `Directions` | directions.dfy | `maze/path.h` |
| `Squares` | squares.dfy | `maze/square.h` |
| `Grid` | grid.dfy | `maze/maze.h` and the wall invariant |
| `Walks` | walks.dfy | steps, walks and reachability |
| `Generation` | generation.dfy | the constructor and generation in `maze/maze.cpp` |
| `Validation` | validation.dfy | the path checks and the cost sum in `maze/maze.cpp` |
| `Solvers` | solvers.dfy | DFS, Dijkstra and tour in `maze/solve.cpp` |
| `BreadthFirst` | bfs.dfy | BFS in `maze/solve.cpp` |

Every random choice is an explicit input:

- one shuffle of the four directions per room for the carve;
- a sequence of (row, column, direction) draws for the wall deletion;
- one non-negative roll per room for the heights.

The grid-wide invariant `Maze.Valid` has two parts. No open side leads out of the grid, and
every open side is matched by the neighbour's opposite side. Every generation step keeps it,
and every solver assumes it.

Where the library's intended design and its code part ways, the model follows the code:

- `solve_bfs` lists rooms in the order it visits them. It keeps no predecessors, so its
  result need not be a path.
- `solve_dijkstra` runs the depth-first search and ignores heights.
- `solve_tour` returns the empty list, so `valid_tour` rejects it.
- The deletion loop runs while `i < rows*cols*0.1`, which is a ceiling, not a floor. The
  model takes the resulting count as an input.

## Model

| member | source | states |
|---|---|---|
| Directions.Opposite | maze/path.h:20-30 | each of the four directions maps to the one pointing back, (d + 2) mod 4; anything else maps to FAIL |
| Directions.OppositeInvolution | maze/path.h:20-30 | applying `opposite` twice gives back a direction, and FAIL for anything else |
| Directions.MoveIn | maze/path.h:32-42 | a direction moves by exactly one unit on exactly one axis: the column axis for LEFT/RIGHT, the row axis for UP/DOWN; anything else gives (-1, -1) |
| Directions.MoveInOpposite | maze/path.h:20-42 | the offset of the opposite direction is the negated offset |
| Directions.MoveInInjective | maze/path.h:32-42 | distinct directions move to distinct offsets |
| Directions.NeighborOpposite | maze/path.h:32-55 | one step in d followed by one step in `opposite(d)` returns to the start point |
| Directions.Direction | maze/path.h:44-51 | FAIL exactly when neither coordinate differs by one; a row difference of one always yields UP or DOWN, whatever the columns |
| Directions.DirectionOfMove | maze/path.h:44-55 | `direction(p, p + moveIn(d))` is d, so `direction` inverts `moveIn` on adjacent points |
| Directions.DirectionSwap | maze/path.h:20-51 | swapping the two points yields the opposite direction, and FAIL stays FAIL |
| Directions.DirectionAdjacent | maze/path.h:44-55 | for points at distance one, the second is the first moved in the direction found |
| Squares.Square.SetDir | maze/square.h:27 | the chosen flag gets the value; the other three flags and the height do not change |
| Squares.Square.SetHeight | maze/square.h:28 | the height gets the value; all four flags are kept |
| Squares.NewSquare | maze/square.h:21 | the default room is closed on every side and has height 0 |
| Squares.SquareOfHeight | maze/square.h:22 | a room built with a height is closed on every side and has that height |
| Squares.CopySquare | maze/square.h:23 | a copy has the same four flags and the same height |
| Squares.SetDirIdempotent | maze/square.h:27 | setting a flag to the value it already has changes nothing |
| Grid.Maze.CanGoUp | maze/maze.h:61 | `can_go_up` agrees with `can_go(UP, ...)` and with the room's UP flag |
| Grid.Maze.CanGoDown | maze/maze.h:62 | `can_go_down` agrees with `can_go(DOWN, ...)` and with the room's DOWN flag |
| Grid.Maze.CanGoLeft | maze/maze.h:63 | `can_go_left` agrees with `can_go(LEFT, ...)` and with the room's LEFT flag |
| Grid.Maze.CanGoRight | maze/maze.h:64 | `can_go_right` agrees with `can_go(RIGHT, ...)` and with the room's RIGHT flag |
| Grid.Maze.Cost | maze/maze.h:69-73 | a move toward an in-bounds neighbour costs a non-negative amount, which is zero exactly when the two heights are equal |
| Grid.CostSymmetric | maze/maze.h:69-73 | crossing a wall costs the same in both directions |
| Grid.CostAtMostNine | maze/maze.h:69-73 | with heights in 0..9 no move costs more than 9 |
| Grid.NewGrid | maze/maze.cpp:25-26 | the grid starts with the requested dimensions, every side closed and every height 0, and satisfies the wall invariant |
| Grid.SetDirAt | maze/maze.cpp:135 | `set_dir` on one room changes exactly that one side of that room; shape and heights are kept |
| Grid.Carve | maze/maze.cpp:134-136 | the two `set_dir(true, ...)` calls open exactly the chosen side and its mirror on the neighbour, and nothing else; the wall invariant is kept |
| Grid.CarveOpenUnchanged | maze/maze.cpp:92-97 | knocking down a wall that is already open leaves the maze as it was |
| Grid.CarveAddsTwo | maze/maze.cpp:134-136 | knocking down a closed wall adds exactly two open sides |
| Grid.CellsCardinality | maze/maze.cpp:38 | the `seen` grid has rows * cols rooms |
| Generation.GenDfs | maze/maze.cpp:113-142 | the carve from p keeps the wall invariant, heights and shape. It sees p, every neighbour of p and every neighbour of each room it enters. Every side it opens belongs to a room it entered. Each entered room is reachable from p. On a grid whose open sides all lie in seen rooms, it opens exactly one wall per room entered |
| Generation.CarveDirections | maze/maze.cpp:123-141 | the loop over the shuffled order sees every in-bounds neighbour in the order, and opens exactly one wall per newly seen room |
| Generation.CarveToward | maze/maze.cpp:125-140 | one pass carves only toward an in-bounds unseen neighbour; afterwards that neighbour is seen and reachable from p |
| Generation.GenerateTree | maze/maze.cpp:38-45 | the carve of a fresh grid from (0, 0) leaves every room reachable from (0, 0) with exactly 2 * (rows * cols - 1) open sides, which makes it a spanning tree |
| Generation.DeleteOnce | maze/maze.cpp:87-97 | `deleted` holds exactly when the drawn side was closed; afterwards that side and its mirror are open and nothing else has changed; an open side leaves the maze unchanged |
| Generation.DeleteOnceCount | maze/maze.cpp:91-97 | a reported deletion adds exactly two open sides; a failed one adds none |
| Generation.DeleteWalls | maze/maze.cpp:74-100 | at most `count` walls are deleted, and it stops only when `count` are done or the draws run out. Every consumed draw's side is open afterwards and nothing else was opened. The invariant, shape and heights are kept |
| Generation.DeleteWallsCount | maze/maze.cpp:81-99 | the number of deletions reported equals the number of walls actually taken down |
| Generation.SetHeights | maze/maze.cpp:57-66 | each room gets height roll % 10, which lies in 0..9; no wall changes |
| Generation.SetHeightsKeepsReachable | maze/maze.cpp:57-66 | setting heights changes no reachability |
| Generation.SidesAfterDeletion | maze/maze.cpp:48-50 | after deletion and heights the maze has between 2(rows*cols - 1) and 2(rows*cols - 1 + count) open sides |
| Generation.NewMaze | maze/maze.cpp:25-51 | the constructed maze has the requested dimensions, satisfies the wall invariant and has heights roll % 10. Every room, the exit included, is reachable from (0, 0), and the open-side count is bounded by the tree plus `count` walls |
| Validation.ValidFrom | maze/maze.cpp:344-360 | the loop accepts exactly when every later room passes the back check against the room before it |
| Validation.ValidPath | maze/maze.cpp:337-361 | false on the empty list; otherwise true exactly when every room after the first passes the back check |
| Validation.ValidSolution | maze/maze.cpp:298-304 | true exactly when the list is non-empty, starts at (0, 0), ends at the exit and passes `valid_path` |
| Validation.ValidTour | maze/maze.cpp:313-326 | true exactly when the list is non-empty, visits all four corners, starts and ends at the centre and passes `valid_path` |
| Validation.InBoundsCheckable | maze/maze.cpp:350-358 | `valid_path` reads nothing outside the grid on a list of in-grid rooms |
| Validation.BackCheckOfStep | maze/maze.cpp:353-354 | under the wall invariant, every real step from the previous room passes the back check |
| Validation.BackCheckAdjacent | maze/maze.cpp:353-354 | for adjacent rooms, the back check is exactly an open step in both directions |
| Validation.ValidPathStrict | maze/maze.cpp:337-361 | the corrected check accepts exactly the non-empty lists whose every room is one open step from the one before |
| Validation.ValidSolutionStrict | maze/maze.cpp:298-304 | the corrected solution check is the corrected path check plus the (0, 0) start and exit end |
| Validation.StrictIsWalk | maze/maze.cpp:337-361 | under the wall invariant, the corrected check accepts exactly the walks |
| Validation.StrictImpliesValidPath | maze/maze.cpp:337-361 | everything the corrected check accepts, `valid_path` also accepts, without reading outside the grid |
| Validation.StrictSolutionReachesExit | maze/maze.cpp:298-304 | a list that passes the corrected solution check shows the exit is reachable from (0, 0) |
| Validation.ValidSolutionAcceptsDiagonal | maze/maze.cpp:353-354 | in a 2x2 maze whose only open wall is between (0, 1) and (1, 1), `valid_solution` accepts [(0, 0), (1, 1)] although the exit is unreachable; the corrected check rejects it |
| Validation.PathCost | maze/maze.cpp:214-230 | the printed total is non-negative and is 0 for a list of at most one room |
| Validation.PathCostBound | maze/maze.cpp:226-229 | with heights in 0..9 the total is at most 9 per move |
| Validation.PathCostAppend | maze/maze.cpp:226-229 | the total of two joined lists is both totals plus the move between them |
| Validation.PathCostReverse | maze/maze.cpp:226-229 | a list walked backwards has the same total |
| Validation.PathCostIsMovesCost | maze/maze.cpp:226-229 | along a walk, the printed total equals the sum of `cost` over its moves |
| Solvers.DfsHelper | maze/solve.cpp:130-174 | a visited room fails with nothing added and nothing newly visited. Success leaves a walk of distinct, previously unvisited rooms from p to the exit. Failure adds nothing and leaves a dead end: no newly visited room is the exit or has an unvisited open neighbour |
| Solvers.TryDirections | maze/solve.cpp:152-172 | the four `if`s from the i-th direction on: success leaves a walk that starts one open step from p; failure leaves every movable neighbour visited |
| Solvers.DfsTriesInOrder | maze/solve.cpp:152-172 | directions are tried RIGHT, DOWN, LEFT, UP. A movable direction whose search succeeds decides the path; otherwise the later directions decide it, starting from the rooms the failed search visited |
| Solvers.DfsPrefersRight | maze/solve.cpp:147-155 | when the search to the right of an unvisited non-exit room succeeds, the path is that room followed by that search's path |
| Solvers.OpenCanMove | maze/solve.cpp:152-167 | under the wall invariant the bounds guards never block a move through an open side |
| Solvers.SolveDfs | maze/solve.cpp:176-185 | the result is either empty or a distinct walk from (0, 0) to the exit that passes both `valid_solution` and the corrected check; it is non-empty exactly when the exit is reachable |
| Solvers.DfsSolves | maze/solve.cpp:176-185 | the search from (0, 0) succeeds exactly when the exit is reachable |
| Solvers.DfsOneRoom | maze/solve.cpp:130-150 | on a one-room maze the search returns [(0, 0)] |
| Solvers.DijkstraHelper | maze/solve.cpp:388-432 | gives the same outcome as `dfs_helper` on every input |
| Solvers.SolveDijkstra | maze/solve.cpp:434-444 | returns exactly the depth-first path |
| Solvers.SolveTour | maze/solve.cpp:446-449 | returns the empty list |
| Solvers.TourNeverValid | maze/solve.cpp:446-449 | `valid_tour` rejects what `solve_tour` returns, on every maze |
| BreadthFirst.PushIf | maze/solve.cpp:221-224 | a push happens exactly when the guard holds, the side is open and the neighbour is unvisited, and it queues that neighbour |
| BreadthFirst.Pushes | maze/solve.cpp:221-239 | every queued room is one open step from the visited room, unvisited and inside the grid |
| BreadthFirst.PushesComplete | maze/solve.cpp:221-239 | every open, unvisited neighbour is queued |
| BreadthFirst.BfsLoop | maze/solve.cpp:202-246 | the list only grows at the end and its first new room is the start. Marks only grow. Under the loop invariant the list stays distinct, holds the exit only last, and lists only rooms discovered from earlier ones. Without the exit, every open neighbour of a listed room is marked |
| BreadthFirst.BfsHelper | maze/solve.cpp:188-247 | the rooms already listed stay a prefix of the result and p is the first room appended; marks only grow; every loop promise of `BfsLoop` holds for the walk started at p |
| BreadthFirst.SolveBfs | maze/solve.cpp:276-290 | the list starts at (0, 0) and has no repeats. Each later room is one open step from a room listed before it, which is the order the queue discovers rooms in. The exit appears only last, and is last exactly when it is reachable. When it is not, every room reachable from (0, 0) is listed |
| BreadthFirst.BfsSolves | maze/solve.cpp:188-247 | the loop started from (0, 0) lists distinct reachable rooms in discovery order, starting with (0, 0). It ends at the exit exactly when the exit can be reached, and otherwise lists every reachable room |
| BreadthFirst.AllReachableListed | maze/solve.cpp:202-246 | when the loop never meets the exit, every room reachable from (0, 0) ends up listed |
| BreadthFirst.LoopVisit | maze/solve.cpp:213-240 | a pass at an unvisited non-exit room lists it, marks it and queues its pushes |
| BreadthFirst.BfsListsNonAdjacent | maze/solve.cpp:202-240 | when (0, 0) is open right and down and neither neighbour is the exit, the list begins (0, 0), (0, 1), (1, 0), which are not adjacent, so the result is not a walk |

## Left out

- Printing: `print_maze`, the drawing part of `print_maze_with_path`, `printPath`, `main`
  and every `cout`. Only the cost sum of `print_maze_with_path` is modelled.
- Randomness: `random_device`, `default_random_engine`, `shuffle`, the three uniform
  distributions and `rand()` are replaced by inputs.
  - The carve takes one shuffle per room. This equals one shuffle per call, because
    `gen_dfs` enters each room once.
  - The rolls are natural numbers because `rand()` is non-negative.
- Generation.DeleteWalls: takes the number of passes as an integer `count` instead of
  comparing `i` with the floating-point product `_rows*_cols*frac` (maze.cpp:81).
- Generation.DeleteWalls: the inner `while(!deleted)` (maze.cpp:85) consumes a finite
  sequence of draws, so the model stops when the draws run out. The source can loop forever
  there, for example on a 3x3 maze whose only interior room (1, 1) is already open on all
  four sides.
- Generation.NewMaze: requires rows >= 3 and cols >= 3. Below that, the distributions of
  maze.cpp:77-78 have empty ranges, and the deletion loop still runs at least once because
  0 < rows*cols*0.1.
- Generation.GenerateTree: states the spanning tree as connectivity plus exactly
  rows*cols - 1 open walls (two sides each) rather than as the absence of cycles. The
  equivalence is graph theory and is not proved here.
- Solvers.DfsHelper, Solvers.SolveDfs, BreadthFirst.SolveBfs: require the wall invariant
  `m.Valid()`. The guards `x<c` and `y<r` are always true, so the source relies on the
  closed border to stay inside the grid.
- The flat `visited` vector is a `set<Point>`, which is equivalent because `y*c+x` is
  injective on rooms of the grid. The solvers require rows * cols >= the maze's
  rows * columns so that every index fits the vector.
- Validation.ValidPath: requires `Checkable`, the exact condition under which `valid_path`
  reads no square outside the grid. Lists that would read outside the grid are undefined
  behaviour in the source. `InBoundsCheckable` shows that any list of in-grid rooms
  qualifies.
- Validation.PathCost: requires every room inside the grid, because the source indexes
  `board[r][c]` and `_squares[r][c]` for every room.
- `bfs_helper` fills the list `ret` by appending and removes from its front. The model keeps
  it as a sequence with a front index and a cursor. The `int` result that `bfs_helper` never
  returns is not modelled.
- BreadthFirst.SolveBfs: states the discovery order (each room one open step from an
  earlier one) but not that rooms come level by level. The first-in, first-out order is
  kept by `BfsLoop`'s cursor but not summarised as distances from (0, 0). The list is not a
  path, so no shortest-path property applies.
- A predecessor-based breadth-first search and a cost-aware Dijkstra are not modelled,
  because the code has neither.
- Commented-out code (`directPath`, `min` and the earlier search drafts) is not modelled.

## Findings

| source | as written | input that shows it | evidently intended | confidence | as-written member | corrected member |
|---|---|---|---|---|---|---|
| maze/maze.cpp:353-354 | `valid_path` takes `direction(*it, last)`. That function (path.h:46-47) tests the row difference first. Then it only checks that `*it` is open in that direction, never that `last` is the neighbour there. | the 2x2 maze whose only open wall joins (0, 1) and (1, 1), with list [(0, 0), (1, 1)]: the check reads UP and (1, 1) is open UP, so `valid_solution` accepts, yet (0, 0) has no open side | every room is one open step from the room before it | not executed | Validation.ValidSolutionAcceptsDiagonal | Validation.ValidSolutionStrict |
