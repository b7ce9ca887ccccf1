/** The breadth-first walk of `bfs_helper`: a queue of rooms read front to back, each room not
    yet visited listed, marked and its unvisited open neighbours queued, stopping at the exit.
    What it lists is every room it visited in discovery order, not a path. */
module BreadthFirst {
  import opened Directions
  import opened Grid
  import opened Walks
  import opened Validation
  import opened Solvers

  /** The push of `bfs_helper` toward d from room q: the neighbour, when the guard holds, q
      is open toward d and the neighbour is not visited. */
  function PushIf(m: Maze, q: Point, d: int, visited: set<Point>): (r: seq<Point>)
    requires m.Valid()
    ensures |r| <= 1
    ensures |r| == 1 <==> CanMove(m, q, d) && Neighbor(q, d) !in visited
    ensures |r| == 1 ==> r[0] == Neighbor(q, d)
  {
    if CanMove(m, q, d) && Neighbor(q, d) !in visited then [Neighbor(q, d)] else []
  }

  /** The rooms `bfs_helper` queues after visiting q, in the order RIGHT, DOWN, LEFT, UP. */
  function Pushes(m: Maze, q: Point, visited: set<Point>): (r: seq<Point>)
    requires m.Valid() && m.InBounds(q)
    ensures forall j | 0 <= j < |r| :: Step(m, q, r[j]) && r[j] !in visited && m.InBounds(r[j])
  {
    var r := PushIf(m, q, RIGHT, visited) + PushIf(m, q, DOWN, visited) + PushIf(m, q, LEFT, visited) + PushIf(m, q, UP, visited);
    forall j | 0 <= j < |r|
      ensures Step(m, q, r[j]) && r[j] !in visited && m.InBounds(r[j])
    {
      var d :| IsDir(d) && CanMove(m, q, d) && r[j] == Neighbor(q, d) && r[j] !in visited;
      StepIntro(m, q, d);
    }
    r
  }

  /** Every open neighbour of q that is not visited gets queued. */
  lemma PushesComplete(m: Maze, q: Point, visited: set<Point>, d: int)
    requires m.Valid() && m.InBounds(q) && m.Open(q, d) && Neighbor(q, d) !in visited
    ensures Neighbor(q, d) in Pushes(m, q, visited)
  {
    OpenCanMove(m, q, d);
  }

  /** No room listed twice, every listed room visited, and the exit not visited. */
  ghost predicate BfsListed(m: Maze, casa: seq<Point>, visited: set<Point>)
    requires m.WellFormed()
  {
    Distinct(casa) && (forall i | 0 <= i < |casa| :: casa[i] in visited) && m.Exit() !in visited
  }

  /** What the loop leaves, relative to the `casa` and visited set it started from: no room
      listed twice, the exit at most once and then last, only rooms not visited on entry
      listed, and exactly the listed rooms other than the exit marked. */
  ghost predicate BfsResult(m: Maze, casa: seq<Point>, visited: set<Point>, res: (seq<Point>, set<Point>))
    requires m.WellFormed()
  {
    && Distinct(res.0)
    && (forall i | 0 <= i < |res.0| - 1 :: res.0[i] != m.Exit())
    && (forall i | |casa| <= i < |res.0| :: res.0[i] !in visited)
    && (forall i | 0 <= i < |res.0| && res.0[i] != m.Exit() :: res.0[i] in res.1)
    && (forall x | x in res.1 && x !in visited :: x in res.0)
    && m.Exit() !in res.1
  }

  /** x is one step from one of the first n rooms of s. */
  ghost predicate Discovered(m: Maze, s: seq<Point>, n: int, x: Point)
    requires m.WellFormed()
  {
    exists i | 0 <= i < n && i < |s| :: Step(m, s[i], x)
  }

  /** Every room of s after the first is one step from an earlier room of s. */
  ghost predicate ParentsEarlier(m: Maze, s: seq<Point>)
    requires m.WellFormed()
  {
    forall i {:trigger Discovered(m, s, i, s[i])} | 1 <= i < |s| :: Discovered(m, s, i, s[i])
  }

  /** Every room queued after the first was queued from a listed room. */
  ghost predicate QueueDiscovered(m: Maze, casa: seq<Point>, ret: seq<Point>)
    requires m.WellFormed()
  {
    forall j | 1 <= j < |ret| :: Discovered(m, casa, |casa|, ret[j])
  }

  /** Being discovered from the first n rooms survives appending to the list and looking at
      more of its rooms. */
  lemma DiscoveredExtend(m: Maze, s: seq<Point>, t: seq<Point>, n: int, n': int, x: Point)
    requires m.WellFormed() && IsPrefix(s, t) && n <= n' && Discovered(m, s, n, x)
    ensures Discovered(m, t, n', x)
  {
    var i :| 0 <= i < n && i < |s| && Step(m, s[i], x);
    assert t[i] == t[..|s|][i] == s[i];
  }

  /** x is in the queue at or after the iterator. */
  predicate Queued(ret: seq<Point>, k: nat, x: Point) {
    exists j | k <= j < |ret| :: ret[j] == x
  }

  /** Every open neighbour of a listed room is visited or still queued. */
  ghost predicate FrontierCovered(m: Maze, casa: seq<Point>, ret: seq<Point>, k: nat, visited: set<Point>)
    requires m.WellFormed()
  {
    forall i, d | 0 <= i < |casa| && m.Open(casa[i], d) ::
      Neighbor(casa[i], d) in visited || Queued(ret, k, Neighbor(casa[i], d))
  }

  /** Every open neighbour of a listed room is visited. */
  ghost predicate NeighboursVisited(m: Maze, s: seq<Point>, visited: set<Point>)
    requires m.WellFormed()
  {
    forall i, d | 0 <= i < |s| && m.Open(s[i], d) :: Neighbor(s[i], d) in visited
  }

  /** a is an initial part of b. */
  predicate IsPrefix(a: seq<Point>, b: seq<Point>) {
    |a| <= |b| && b[..|a|] == a
  }

  lemma PrefixOfAppend(a: seq<Point>, x: Point, b: seq<Point>)
    requires IsPrefix(a + [x], b)
    ensures IsPrefix(a, b) && b[|a|] == x
  {
    assert b[..|a|] == (a + [x])[..|a|];
  }

  /** Queuing the pushes of an in-bounds room keeps every queued room in bounds. */
  lemma QueueGrows(m: Maze, ret: seq<Point>, k: nat, v: set<Point>)
    requires m.Valid() && k < |ret| && AllInBounds(m, ret)
    ensures m.InBounds(ret[k]) && AllInBounds(m, ret + Pushes(m, ret[k], v))
  {
  }

  /** What the loop promises about its result, each part conditional on the invariant that
      makes it hold: the listing shape, every listed room discovered from an earlier one, and
      (when the exit is never met) every open neighbour of a listed room marked. */
  ghost predicate BfsPost(m: Maze, casa: seq<Point>, ret: seq<Point>, k: nat, visited: set<Point>,
                          res: (seq<Point>, set<Point>))
    requires m.WellFormed()
  {
    && (BfsListed(m, casa, visited) ==> BfsResult(m, casa, visited, res))
    && (ParentsEarlier(m, casa) && (k == 0 ==> casa == []) && QueueDiscovered(m, casa, ret) ==> ParentsEarlier(m, res.0))
    && (FrontierCovered(m, casa, ret, k, visited) && m.Exit() !in res.0 ==> NeighboursVisited(m, res.0, res.1))
  }

  /** The loop of `bfs_helper`. `ret` is the queue list, `k` the position of the iterator in it
      and `front` the number of rooms `pop_front` has removed; removed rooms are never looked at
      again, so they stay in `ret`. At the exit the loop appends it to `casa` and stops; a room
      not yet visited is appended to `casa`, marked, and its pushes are queued; a visited room
      makes the loop pop the front of the queue, which is always a room before the iterator.
      The result is `casa` and the visited set when the loop ends. */
  function BfsLoop(m: Maze, ret: seq<Point>, front: nat, k: nat, casa: seq<Point>, visited: set<Point>)
    : (res: (seq<Point>, set<Point>))
    requires m.Valid() && k <= |ret| && AllInBounds(m, ret)
    requires front < k || (front == 0 && k == 0 && |ret| > 0 && (ret[0] !in visited || ret[0] == m.Exit()))
    ensures IsPrefix(casa, res.0)
    ensures k == 0 ==> |casa| < |res.0| && res.0[|casa|] == ret[0]
    ensures visited <= res.1
    ensures BfsPost(m, casa, ret, k, visited, res)
    decreases |Cells(m.rows, m.cols) - visited|, |ret| - k
  {
    if k == |ret| then
      EndPost(m, casa, ret, visited);
      (casa, visited)
    else
      var q := ret[k];
      if q == m.Exit() then
        ExitPost(m, casa, ret, k, visited);
        PrefixOfAppend(casa, q, casa + [q]);
        (casa + [q], visited)
      else if q !in visited then
        var v := visited + {q};
        QueueGrows(m, ret, k, v);
        UnseenShrinks(m.rows, m.cols, visited, q);
        var res := BfsLoop(m, ret + Pushes(m, q, v), front, k + 1, casa + [q], v);
        PrefixOfAppend(casa, q, res.0);
        VisitPost(m, casa, ret, k, visited, res);
        res
      else
        assert front < k;
        var res := BfsLoop(m, ret, front + 1, k + 1, casa, visited);
        PopPost(m, casa, ret, k, visited, res);
        res
  }

  lemma EndPost(m: Maze, casa: seq<Point>, ret: seq<Point>, visited: set<Point>)
    requires m.WellFormed()
    ensures BfsPost(m, casa, ret, |ret|, visited, (casa, visited))
  {
    EndCovered(m, casa, ret, visited);
  }

  lemma ExitPost(m: Maze, casa: seq<Point>, ret: seq<Point>, k: nat, visited: set<Point>)
    requires m.WellFormed() && k < |ret| && ret[k] == m.Exit()
    ensures BfsPost(m, casa, ret, k, visited, (casa + [ret[k]], visited))
  {
    ExitListed(m, casa, visited, ret[k]);
    ExitParents(m, casa, ret, k);
    var s := casa + [ret[k]];
    assert s[|casa|] == m.Exit();
  }

  lemma VisitPost(m: Maze, casa: seq<Point>, ret: seq<Point>, k: nat, visited: set<Point>,
                  res: (seq<Point>, set<Point>))
    requires m.Valid() && k < |ret| && m.InBounds(ret[k]) && ret[k] !in visited && ret[k] != m.Exit()
    requires IsPrefix(casa + [ret[k]], res.0)
    requires var q := ret[k]; var v := visited + {q};
      BfsPost(m, casa + [q], ret + Pushes(m, q, v), k + 1, v, res)
    ensures BfsPost(m, casa, ret, k, visited, res)
  {
    var q := ret[k];
    var v := visited + {q};
    VisitListed(m, casa, visited, q, res);
    VisitParents(m, casa, ret, k, v);
    VisitCovered(m, casa, ret, k, visited);
  }

  lemma PopPost(m: Maze, casa: seq<Point>, ret: seq<Point>, k: nat, visited: set<Point>,
                res: (seq<Point>, set<Point>))
    requires m.WellFormed() && 0 < k < |ret| && ret[k] in visited
    requires BfsPost(m, casa, ret, k + 1, visited, res)
    ensures BfsPost(m, casa, ret, k, visited, res)
  {
    PopCovered(m, casa, ret, k, visited);
  }

  /** The loop stopping at the exit leaves a result of the promised shape. */
  lemma ExitListed(m: Maze, casa: seq<Point>, visited: set<Point>, q: Point)
    requires m.WellFormed() && q == m.Exit()
    ensures BfsListed(m, casa, visited) ==> BfsResult(m, casa, visited, (casa + [q], visited))
  {
    var s := casa + [q];
    assert forall i | 0 <= i < |casa| :: s[i] == casa[i];
  }

  /** Visiting q keeps the listing invariant, and what the rest of the loop promises from the
      new state it promises from the old one. */
  lemma VisitListed(m: Maze, casa: seq<Point>, visited: set<Point>, q: Point, res: (seq<Point>, set<Point>))
    requires m.WellFormed() && q !in visited && q != m.Exit()
    requires IsPrefix(casa + [q], res.0)
    requires BfsListed(m, casa + [q], visited + {q}) ==> BfsResult(m, casa + [q], visited + {q}, res)
    ensures BfsListed(m, casa, visited) ==> BfsResult(m, casa, visited, res)
  {
    if BfsListed(m, casa, visited) {
      var c := casa + [q];
      assert forall i | 0 <= i < |casa| :: c[i] == casa[i];
      assert BfsListed(m, c, visited + {q});
      assert res.0[|casa|] == c[|casa|] == q;
    }
  }

  /** The exit, appended last, was queued from a listed room (or is the first room). */
  lemma ExitParents(m: Maze, casa: seq<Point>, ret: seq<Point>, k: nat)
    requires m.WellFormed() && k < |ret|
    ensures ParentsEarlier(m, casa) && (k == 0 ==> casa == []) && QueueDiscovered(m, casa, ret) ==>
      ParentsEarlier(m, casa + [ret[k]])
  {
    if ParentsEarlier(m, casa) && (k == 0 ==> casa == []) && QueueDiscovered(m, casa, ret) {
      AppendParents(m, casa, ret, k);
    }
  }

  lemma AppendParents(m: Maze, casa: seq<Point>, ret: seq<Point>, k: nat)
    requires m.WellFormed() && k < |ret|
    requires ParentsEarlier(m, casa) && (k == 0 ==> casa == []) && QueueDiscovered(m, casa, ret)
    ensures ParentsEarlier(m, casa + [ret[k]])
  {
    var c := casa + [ret[k]];
    assert IsPrefix(casa, c) by {
      assert c[..|casa|] == casa;
    }
    forall i | 1 <= i < |c|
      ensures Discovered(m, c, i, c[i])
    {
      if i < |casa| {
        assert Discovered(m, casa, i, casa[i]);
        DiscoveredExtend(m, casa, c, i, i, casa[i]);
      } else {
        assert k > 0 && Discovered(m, casa, |casa|, ret[k]);
        DiscoveredExtend(m, casa, c, i, i, ret[k]);
      }
    }
  }

  /** Visiting ret[k] keeps the parent invariant for the listed rooms and the queue. */
  lemma VisitParents(m: Maze, casa: seq<Point>, ret: seq<Point>, k: nat, v: set<Point>)
    requires m.Valid() && k < |ret| && m.InBounds(ret[k])
    ensures var c := casa + [ret[k]];
      ParentsEarlier(m, casa) && (k == 0 ==> casa == []) && QueueDiscovered(m, casa, ret) ==>
      ParentsEarlier(m, c) && QueueDiscovered(m, c, ret + Pushes(m, ret[k], v))
  {
    if ParentsEarlier(m, casa) && (k == 0 ==> casa == []) && QueueDiscovered(m, casa, ret) {
      var q := ret[k];
      var c := casa + [q];
      AppendParents(m, casa, ret, k);
      var r := ret + Pushes(m, q, v);
      forall j | 1 <= j < |r|
        ensures Discovered(m, c, |c|, r[j])
      {
        if j < |ret| {
          assert Discovered(m, casa, |casa|, ret[j]);
          assert IsPrefix(casa, c) by {
            assert c[..|casa|] == casa;
          }
          DiscoveredExtend(m, casa, c, |casa|, |c|, ret[j]);
        } else {
          assert Step(m, q, r[j]);
          assert c[|casa|] == q;
        }
      }
    }
  }

  /** When the queue is used up every open neighbour of a listed room has been visited. */
  lemma EndCovered(m: Maze, casa: seq<Point>, ret: seq<Point>, visited: set<Point>)
    requires m.WellFormed()
    ensures FrontierCovered(m, casa, ret, |ret|, visited) ==> NeighboursVisited(m, casa, visited)
  {
  }

  /** Visiting ret[k] keeps every open neighbour of a listed room visited or queued. */
  lemma VisitCovered(m: Maze, casa: seq<Point>, ret: seq<Point>, k: nat, visited: set<Point>)
    requires m.Valid() && k < |ret| && m.InBounds(ret[k]) && ret[k] !in visited
    ensures var q := ret[k];
      FrontierCovered(m, casa, ret, k, visited) ==>
      FrontierCovered(m, casa + [q], ret + Pushes(m, q, visited + {q}), k + 1, visited + {q})
  {
    var q := ret[k];
    var v := visited + {q};
    if FrontierCovered(m, casa, ret, k, visited) {
      var c := casa + [q];
      var P := Pushes(m, q, v);
      var r := ret + P;
      forall i, d | 0 <= i < |c| && m.Open(c[i], d)
        ensures Neighbor(c[i], d) in v || Queued(r, k + 1, Neighbor(c[i], d))
      {
        var n := Neighbor(c[i], d);
        if i < |casa| {
          assert c[i] == casa[i];
          if n !in visited {
            var j :| k <= j < |ret| && ret[j] == n;
            if j > k {
              assert r[j] == n;
            }
          }
        } else if n !in v {
          assert c[i] == q;
          PushesComplete(m, q, v, d);
          var j :| 0 <= j < |P| && P[j] == n;
          assert r[|ret| + j] == n;
        }
      }
    }
  }

  /** Passing a visited room keeps every open neighbour of a listed room visited or queued. */
  lemma PopCovered(m: Maze, casa: seq<Point>, ret: seq<Point>, k: nat, visited: set<Point>)
    requires m.WellFormed() && k < |ret| && ret[k] in visited
    ensures FrontierCovered(m, casa, ret, k, visited) ==> FrontierCovered(m, casa, ret, k + 1, visited)
  {
    if FrontierCovered(m, casa, ret, k, visited) {
      forall i, d | 0 <= i < |casa| && m.Open(casa[i], d)
        ensures Neighbor(casa[i], d) in visited || Queued(ret, k + 1, Neighbor(casa[i], d))
      {
        var n := Neighbor(casa[i], d);
        if n !in visited {
          var j :| k <= j < |ret| && ret[j] == n;
        }
      }
    }
  }

  /** `bfs_helper` from room p: the rooms in the order the loop visits them, ending with the
      exit when it is met. `bfs_helper` is declared `int` but returns nothing; only the list it
      fills matters. */
  function BfsHelper(m: Maze, p: Point, casa: seq<Point>, visited: set<Point>): (res: (seq<Point>, set<Point>))
    requires m.Valid() && m.InBounds(p) && (p !in visited || p == m.Exit())
    ensures IsPrefix(casa, res.0)
    ensures |casa| < |res.0| && res.0[|casa|] == p
    ensures visited <= res.1
    ensures BfsPost(m, casa, [p], 0, visited, res)
  {
    BfsLoop(m, [p], 0, 0, casa, visited)
  }

  /** `solve_bfs`: the rooms `bfs_helper` lists from (0, 0) with nothing visited. They start at
      (0, 0), no room is listed twice, each room after the first is one open step from a room
      listed before it (the order in which the queue discovers them), and the exit is listed
      (and then last) exactly when it can be reached; when it is not, every room that can be
      reached is listed. */
  function SolveBfs(m: Maze, rows: int, cols: int): (path: seq<Point>)
    requires m.Valid() && rows * cols >= m.Rows() * m.Columns()
    ensures |path| > 0 && path[0] == (0, 0)
    ensures Distinct(path)
    ensures forall i | 0 <= i < |path| - 1 :: path[i] != m.Exit()
    ensures forall i | 0 <= i < |path| :: Reachable(m, (0, 0), path[i])
    ensures path[|path| - 1] == m.Exit() <==> Reachable(m, (0, 0), m.Exit())
    ensures ParentsEarlier(m, path)
    ensures path[|path| - 1] != m.Exit() ==> forall q | Reachable(m, (0, 0), q) :: q in path
  {
    BfsSolves(m, BfsHelper(m, (0, 0), [], {}));
    BfsHelper(m, (0, 0), [], {}).0
  }

  /** The invariants hold at the start of the walk from (0, 0), so its result has the promised
      shape; when the exit is not listed the marked rooms are closed under open moves and
      hold (0, 0) but not the exit. */
  lemma BfsSolves(m: Maze, res: (seq<Point>, set<Point>))
    requires m.Valid() && res == BfsLoop(m, [(0, 0)], 0, 0, [], {})
    ensures |res.0| > 0 && res.0[0] == (0, 0)
    ensures Distinct(res.0)
    ensures forall i | 0 <= i < |res.0| - 1 :: res.0[i] != m.Exit()
    ensures forall i | 0 <= i < |res.0| :: Reachable(m, (0, 0), res.0[i])
    ensures res.0[|res.0| - 1] == m.Exit() <==> Reachable(m, (0, 0), m.Exit())
    ensures ParentsEarlier(m, res.0)
    ensures res.0[|res.0| - 1] != m.Exit() ==> forall q | Reachable(m, (0, 0), q) :: q in res.0
  {
    var path := res.0;
    BfsStartPost(m, res);
    ParentsReachable(m, path, |path|);
    if path[|path| - 1] == m.Exit() {
      assert Reachable(m, (0, 0), path[|path| - 1]);
    } else {
      assert m.Exit() !in path;
      ExitUnreached(m, path, res.1);
      AllReachableListed(m, path, res.1);
    }
  }

  /** When the exit is not listed, the marked rooms hold (0, 0) and are closed under open
      moves, so every room reachable from (0, 0) is marked and hence listed. */
  lemma AllReachableListed(m: Maze, path: seq<Point>, marked: set<Point>)
    requires m.Valid() && |path| > 0 && path[0] == (0, 0) && m.Exit() !in path
    requires BfsResult(m, [], {}, (path, marked)) && NeighboursVisited(m, path, marked)
    ensures forall q | Reachable(m, (0, 0), q) :: q in path
  {
    MarkedClosed(m, path, marked);
    forall q | Reachable(m, (0, 0), q)
      ensures q in path
    {
      ReachableInClosed(m, marked, (0, 0), q);
    }
  }

  /** Each invariant holds at the start, so the loop's promises apply to the walk from (0, 0). */
  lemma BfsStartPost(m: Maze, res: (seq<Point>, set<Point>))
    requires m.Valid() && res == BfsLoop(m, [(0, 0)], 0, 0, [], {})
    ensures |res.0| > 0 && res.0[0] == (0, 0)
    ensures BfsResult(m, [], {}, res) && ParentsEarlier(m, res.0)
    ensures m.Exit() !in res.0 ==> NeighboursVisited(m, res.0, res.1)
  {
    assert BfsListed(m, [], {});
    assert QueueDiscovered(m, [], [(0, 0)]);
    assert FrontierCovered(m, [], [(0, 0)], 0, {});
    assert BfsPost(m, [], [(0, 0)], 0, {}, res);
  }

  /** A walk from (0, 0) that never listed the exit shows the exit cannot be reached. */
  lemma ExitUnreached(m: Maze, path: seq<Point>, marked: set<Point>)
    requires m.Valid() && |path| > 0 && path[0] == (0, 0) && m.Exit() !in path
    requires BfsResult(m, [], {}, (path, marked)) && NeighboursVisited(m, path, marked)
    ensures !Reachable(m, (0, 0), m.Exit())
  {
    MarkedClosed(m, path, marked);
    if Reachable(m, (0, 0), m.Exit()) {
      ReachableInClosed(m, marked, (0, 0), m.Exit());
    }
  }

  /** When the exit is not listed, the marked rooms are exactly the listed ones, so every open
      move from a marked room stays among them. */
  lemma MarkedClosed(m: Maze, path: seq<Point>, marked: set<Point>)
    requires m.WellFormed() && m.Exit() !in path
    requires forall x | x in marked :: x in path
    requires NeighboursVisited(m, path, marked)
    ensures StepClosed(m, marked)
  {
    forall q, d | q in marked && m.Open(q, d)
      ensures Neighbor(q, d) in marked
    {
      var i :| 0 <= i < |path| && path[i] == q;
    }
  }

  /** Every room of a list whose rooms each follow a step from an earlier one can be reached
      from the first, shown for the first n rooms by strong induction. */
  lemma {:induction false} ParentsReachable(m: Maze, s: seq<Point>, n: nat)
    requires m.WellFormed() && |s| > 0 && n <= |s| && ParentsEarlier(m, s)
    ensures forall i | 0 <= i < n :: Reachable(m, s[0], s[i])
    decreases n
  {
    if n > 0 {
      ParentsReachable(m, s, n - 1);
      var i := n - 1;
      if i == 0 {
        ReachableRefl(m, s[0]);
      } else {
        assert Discovered(m, s, i, s[i]);
        var j :| 0 <= j < i && Step(m, s[j], s[i]);
        ReachableAppend(m, s[0], s[j], s[i]);
      }
    }
  }

  /** One pass of the loop that lists a room: the room at the cursor is not the exit and not
      visited, so it is listed, marked, and its pushes are queued. */
  lemma LoopVisit(m: Maze, ret: seq<Point>, front: nat, k: nat, casa: seq<Point>, visited: set<Point>)
    requires m.Valid() && k < |ret| && AllInBounds(m, ret)
    requires front < k || (front == 0 && k == 0 && (ret[0] !in visited || ret[0] == m.Exit()))
    requires ret[k] != m.Exit() && ret[k] !in visited
    ensures AllInBounds(m, ret + Pushes(m, ret[k], visited + {ret[k]}))
    ensures BfsLoop(m, ret, front, k, casa, visited) ==
      BfsLoop(m, ret + Pushes(m, ret[k], visited + {ret[k]}), front, k + 1, casa + [ret[k]], visited + {ret[k]})
  {
    QueueGrows(m, ret, k, visited + {ret[k]});
  }

  /** `LoopVisit` with the queue, list and marks after the pass given by name. */
  lemma LoopVisitAs(m: Maze, ret: seq<Point>, front: nat, k: nat, casa: seq<Point>, visited: set<Point>,
                    ret': seq<Point>, casa': seq<Point>, visited': set<Point>)
    requires m.Valid() && k < |ret| && AllInBounds(m, ret)
    requires front < k || (front == 0 && k == 0 && (ret[0] !in visited || ret[0] == m.Exit()))
    requires ret[k] != m.Exit() && ret[k] !in visited
    requires visited' == visited + {ret[k]} && ret' == ret + Pushes(m, ret[k], visited') && casa' == casa + [ret[k]]
    ensures AllInBounds(m, ret')
    ensures BfsLoop(m, ret, front, k, casa, visited) == BfsLoop(m, ret', front, k + 1, casa', visited')
  {
    LoopVisit(m, ret, front, k, casa, visited);
  }

  /** From a room open both to the right and downwards, with neither neighbour visited, the
      loop queues the right neighbour and then the one below. */
  lemma CornerPushes(m: Maze)
    requires m.Valid() && m.Open((0, 0), RIGHT) && m.Open((0, 0), DOWN)
    ensures Pushes(m, (0, 0), {(0, 0)}) == [(0, 1), (1, 0)]
  {
    OpenCanMove(m, (0, 0), RIGHT);
    OpenCanMove(m, (0, 0), DOWN);
  }

  /** What `solve_bfs` lists is not a path: when (0, 0) is open to the right and downwards and
      neither neighbour is the exit, it lists (0, 0), (0, 1), (1, 0) first, and the last two
      are not adjacent. */
  lemma BfsListsNonAdjacent(m: Maze)
    requires m.Valid() && m.Open((0, 0), RIGHT) && m.Open((0, 0), DOWN)
    requires m.Exit() != (0, 1) && m.Exit() != (1, 0)
    ensures var path := SolveBfs(m, m.rows, m.cols);
      |path| >= 3 && path[0] == (0, 0) && path[1] == (0, 1) && path[2] == (1, 0)
    ensures var path := SolveBfs(m, m.rows, m.cols);
      !Step(m, path[1], path[2]) && !IsWalk(m, path)
  {
    var res := BfsThreeVisits(m);
    assert SolveBfs(m, m.rows, m.cols) == res.0;
    assert !Step(m, (0, 1), (1, 0));
  }

  /** The first three passes of the loop from (0, 0) on such a maze each list a room. */
  lemma BfsThreeVisits(m: Maze) returns (res: (seq<Point>, set<Point>))
    requires m.Valid() && m.Open((0, 0), RIGHT) && m.Open((0, 0), DOWN)
    requires m.Exit() != (0, 1) && m.Exit() != (1, 0)
    ensures res == BfsLoop(m, [(0, 0)], 0, 0, [], {})
    ensures |res.0| >= 3 && res.0[0] == (0, 0) && res.0[1] == (0, 1) && res.0[2] == (1, 0)
  {
    FirstVisit(m);
    var r2 := SecondVisit(m);
    res := BfsLoop(m, r2, 0, 2, [(0, 0), (0, 1)], {(0, 0), (0, 1)});
    ThirdVisit(m, r2);
  }

  /** The first pass lists (0, 0) and queues its right and lower neighbours. */
  lemma FirstVisit(m: Maze)
    requires m.Valid() && m.Open((0, 0), RIGHT) && m.Open((0, 0), DOWN) && m.Exit() != (0, 1)
    ensures AllInBounds(m, [(0, 0), (0, 1), (1, 0)])
    ensures BfsLoop(m, [(0, 0)], 0, 0, [], {}) == BfsLoop(m, [(0, 0), (0, 1), (1, 0)], 0, 1, [(0, 0)], {(0, 0)})
  {
    assert m.InBounds(Neighbor((0, 0), RIGHT)) && m.InBounds(Neighbor((0, 0), DOWN));
    CornerPushes(m);
    LoopVisitAs(m, [(0, 0)], 0, 0, [], {}, [(0, 0), (0, 1), (1, 0)], [(0, 0)], {(0, 0)});
  }

  /** The second pass lists (0, 1). */
  lemma SecondVisit(m: Maze) returns (r2: seq<Point>)
    requires m.Valid() && m.Exit() != (0, 1) && AllInBounds(m, [(0, 0), (0, 1), (1, 0)])
    ensures |r2| >= 3 && r2[2] == (1, 0) && AllInBounds(m, r2)
    ensures BfsLoop(m, [(0, 0), (0, 1), (1, 0)], 0, 1, [(0, 0)], {(0, 0)}) ==
      BfsLoop(m, r2, 0, 2, [(0, 0), (0, 1)], {(0, 0), (0, 1)})
  {
    var r1 := [(0, 0), (0, 1), (1, 0)];
    assert m.InBounds(r1[1]);
    r2 := r1 + Pushes(m, (0, 1), {(0, 0), (0, 1)});
    LoopVisitAs(m, r1, 0, 1, [(0, 0)], {(0, 0)}, r2, [(0, 0), (0, 1)], {(0, 0), (0, 1)});
  }

  /** The third pass lists (1, 0). */
  lemma ThirdVisit(m: Maze, r2: seq<Point>)
    requires m.Valid() && m.Exit() != (1, 0) && |r2| >= 3 && r2[2] == (1, 0) && AllInBounds(m, r2)
    ensures var s := BfsLoop(m, r2, 0, 2, [(0, 0), (0, 1)], {(0, 0), (0, 1)}).0;
      |s| >= 3 && s[0] == (0, 0) && s[1] == (0, 1) && s[2] == (1, 0)
  {
    var v := {(0, 0), (0, 1)};
    LoopVisit(m, r2, 0, 2, [(0, 0), (0, 1)], v);
    var c := [(0, 0), (0, 1)] + [(1, 0)];
    var res := BfsLoop(m, r2 + Pushes(m, (1, 0), v + {(1, 0)}), 0, 3, c, v + {(1, 0)});
    PrefixElems(c, res.0);
    assert c[0] == (0, 0) && c[1] == (0, 1) && c[2] == (1, 0);
  }

  lemma PrefixElems(a: seq<Point>, s: seq<Point>)
    requires IsPrefix(a, s)
    ensures forall i | 0 <= i < |a| :: s[i] == a[i]
  {
    forall i | 0 <= i < |a|
      ensures s[i] == a[i]
    {
      assert s[..|a|][i] == s[i];
    }
  }
}
