/** `a_star_pathfinding` of the stand-alone A* example. The grid holds `'X'`
    for an obstacle and anything else for a walkable cell; its first row's
    length is the number of columns. Each heap entry carries its whole path
    from `start`, and a `visited` set keeps every cell from being expanded
    twice. The start cell itself is never checked against the grid. */
module AStar {

  import opened Options
  import opened Cells
  import opened Frontier
  import P = Pathfinding

  type Entry = P.Entry

  /** Every row is at least as long as the first, so every cell the search
      bounds-checks can be read. */
  ghost predicate WellShaped(grid: seq<seq<char>>)
  {
    |grid| > 0 && forall r :: 0 <= r < |grid| ==> |grid[r]| >= |grid[0]|
  }

  /** A cell inside the grid that is not an obstacle. */
  predicate Free(grid: seq<seq<char>>, c: Cell)
  {
    0 <= c.row < |grid| && 0 <= c.col < |grid[0]| && c.col < |grid[c.row]| && grid[c.row][c.col] != 'X'
  }

  /** A walk from `start` to `v` whose every cell after the first is free. */
  ghost predicate WalkTo(grid: seq<seq<char>>, q: seq<Cell>, start: Cell, v: Cell)
  {
    && |q| > 0 && q[0] == start && q[|q| - 1] == v
    && IsWalk(q)
    && forall i :: 0 < i < |q| ==> Free(grid, q[i])
  }

  /** No walk from `start` reaches `v` in fewer than `d` moves. */
  ghost predicate NoShorter(grid: seq<seq<char>>, start: Cell, v: Cell, d: int)
  {
    forall q {:trigger WalkTo(grid, q, start, v)} :: WalkTo(grid, q, start, v) ==> d <= |q| - 1
  }

  /** An entry's path leads from `start` to its cell in `cost` moves. */
  ghost predicate Carries(grid: seq<seq<char>>, e: Entry, start: Cell)
  {
    |e.path| == e.cost + 1 && WalkTo(grid, e.path, start, e.cell)
  }

  /** Entry `x` offers `c` in at most `d` moves. */
  ghost predicate Offers(x: Entry, c: Cell, d: int)
  {
    x.cell == c && x.cost <= d
  }

  /** Some entry of the heap offers `c` in at most `d` moves. */
  ghost predicate Offered(open: multiset<Entry>, c: Cell, d: int)
  {
    exists x :: x in open && Offers(x, c, d)
  }

  /** `x` is the entry pushed from `e` for a free, unvisited neighbour. */
  predicate PushedFrom(grid: seq<seq<char>>, e: Entry, goal: Cell, visited: set<Cell>, x: Entry)
  {
    Free(grid, x.cell) && x.cell !in visited && Adjacent(e.cell, x.cell) && x == P.Push(e, x.cell, goal)
  }

  /** The entries pushed for the free, unvisited neighbours among the first
      `k` moves out of `e`'s cell. */
  function Pushes(grid: seq<seq<char>>, e: Entry, goal: Cell, visited: set<Cell>, k: nat): multiset<Entry>
    requires k <= 4
  {
    if k == 0 then multiset{}
    else
      var n := Step(e.cell, k - 1);
      Pushes(grid, e, goal, visited, k - 1) +
      (if Free(grid, n) && n !in visited then multiset{P.Push(e, n, goal)} else multiset{})
  }

  /** Every pushed entry extends `e` by one move to a free, unvisited cell. */
  lemma {:induction false} PushesSound(grid: seq<seq<char>>, e: Entry, goal: Cell, visited: set<Cell>, k: nat)
    requires k <= 4
    ensures forall x :: x in Pushes(grid, e, goal, visited, k) ==> PushedFrom(grid, e, goal, visited, x)
  {
    if k > 0 {
      PushesSound(grid, e, goal, visited, k - 1);
      StepAdjacent(e.cell, k - 1);
    }
  }

  /** Every free, unvisited neighbour among the first `k` moves gets its entry. */
  lemma {:induction false} PushesComplete(grid: seq<seq<char>>, e: Entry, goal: Cell, visited: set<Cell>, k: nat)
    requires k <= 4
    ensures forall j :: 0 <= j < k && Free(grid, Step(e.cell, j)) && Step(e.cell, j) !in visited ==>
              P.Push(e, Step(e.cell, j), goal) in Pushes(grid, e, goal, visited, k)
  {
    if k > 0 {
      PushesComplete(grid, e, goal, visited, k - 1);
    }
  }

  /** In a well-shaped grid the source's two checks, bounds and then
      obstacle, decide whether a cell is free. */
  lemma FreeCheck(grid: seq<seq<char>>, c: Cell)
    requires WellShaped(grid)
    ensures 0 <= c.row < |grid| && 0 <= c.col < |grid[0]| ==> c.col < |grid[c.row]|
    ensures Free(grid, c) <==> 0 <= c.row < |grid| && 0 <= c.col < |grid[0]| && grid[c.row][c.col] != 'X'
  {
  }

  /** The loop over the four directions: bounds, then obstacle, then
      `visited`, then push. */
  method PushNeighbours(grid: seq<seq<char>>, e: Entry, goal: Cell, visited: set<Cell>) returns (pushed: multiset<Entry>)
    requires WellShaped(grid)
    ensures pushed == Pushes(grid, e, goal, visited, 4)
  {
    var rows, cols := |grid|, |grid[0]|;
    pushed := multiset{};
    for k := 0 to 4
      invariant pushed == Pushes(grid, e, goal, visited, k)
    {
      var n := Step(e.cell, k);
      FreeCheck(grid, n);
      if 0 <= n.row < rows && 0 <= n.col < cols && grid[n.row][n.col] != 'X' && n !in visited {
        pushed := pushed + multiset{P.Push(e, n, goal)};
      }
    }
  }

  /** Extending an entry by one move to a free cell gives an entry whose
      priority is its cost plus the heuristic. */
  lemma PushCarries(grid: seq<seq<char>>, e: Entry, n: Cell, start: Cell, goal: Cell)
    requires Carries(grid, e, start) && Adjacent(e.cell, n) && Free(grid, n)
    ensures Carries(grid, P.Push(e, n, goal), start)
    ensures P.Push(e, n, goal).priority == P.Push(e, n, goal).cost + Manhattan(n, goal)
  {
    var p := e.path + [n];
    forall i | 0 < i < |p| ensures Adjacent(p[i - 1], p[i]) && Free(grid, p[i]) {
      if i < |e.path| {
        assert p[i - 1] == e.path[i - 1] && p[i] == e.path[i];
      }
    }
  }

  /** The first entry, `(0, 0, start, [start])`. */
  function First(start: Cell): Entry
  {
    P.Entry(0, 0, start, [start])
  }

  /** An entry carries a walk of its cost, and away from `start` its
      priority adds the heuristic to the cost. */
  ghost predicate Sound(grid: seq<seq<char>>, start: Cell, goal: Cell, e: Entry)
  {
    Carries(grid, e, start) && (e.cell != start ==> e.priority == e.cost + Manhattan(e.cell, goal))
  }

  ghost predicate Entries(grid: seq<seq<char>>, start: Cell, goal: Cell, open: multiset<Entry>)
  {
    forall e :: e in open ==> Sound(grid, start, goal, e)
  }

  /** A visited cell is `start` or free, and cannot be reached in fewer
      than `d` moves. */
  ghost predicate Reached(grid: seq<seq<char>>, start: Cell, v: Cell, d: int)
  {
    (v == start || Free(grid, v)) && NoShorter(grid, start, v, d)
  }

  ghost predicate Settled(grid: seq<seq<char>>, start: Cell, dist: map<Cell, nat>)
  {
    forall v :: v in dist ==> Reached(grid, start, v, dist[v])
  }

  /** Every free, unvisited neighbour of a visited cell is offered one move
      beyond the visited cell's cost. */
  ghost predicate Fringe(grid: seq<seq<char>>, open: multiset<Entry>, dist: map<Cell, nat>)
  {
    forall v, k :: v in dist && 0 <= k < 4 && Free(grid, Step(v, k)) && Step(v, k) !in dist ==>
      Offered(open, Step(v, k), dist[v] + 1)
  }

  /** What holds of the search each time it is about to pop the heap; until
      `start` is visited the heap holds the first entry alone, and `dist`
      is keyed by the visited cells. */
  ghost predicate Search(grid: seq<seq<char>>, start: Cell, goal: Cell,
                         open: multiset<Entry>, visited: set<Cell>, dist: map<Cell, nat>)
  {
    && Entries(grid, start, goal, open)
    && (start !in visited ==> open == multiset{First(start)} && visited == {})
    && dist.Keys == visited
    && goal !in visited
    && Settled(grid, start, dist)
    && Fringe(grid, open, dist)
  }

  /** A walk that starts inside a set and ends outside it leaves the set at
      some move. */
  lemma {:induction false} FirstLeave(q: seq<Cell>, s: set<Cell>) returns (i: int)
    requires |q| > 0 && q[0] in s && q[|q| - 1] !in s
    ensures 0 < i < |q| && q[i - 1] in s && q[i] !in s
    decreases |q|
  {
    if q[|q| - 2] in s {
      i := |q| - 1;
    } else {
      i := FirstLeave(q[..|q| - 1], s);
    }
  }

  /** A cell reached after `i` moves of a walk cannot cost more than `i`
      if no walk reaches it in fewer than `d` moves. */
  lemma PrefixBound(grid: seq<seq<char>>, start: Cell, v: Cell, q: seq<Cell>, i: int, d: int)
    requires WalkTo(grid, q, start, v) && 0 < i <= |q|
    requires NoShorter(grid, start, q[i - 1], d)
    ensures d <= i - 1
  {
    SliceWalk(q, 0, i);
    assert WalkTo(grid, q[..i], start, q[i - 1]);
  }

  /** The heuristic at the `i`-th cell of a walk is at most the moves left
      plus the heuristic at its end. */
  lemma RestBound(q: seq<Cell>, i: int, goal: Cell)
    requires IsWalk(q) && 0 <= i < |q|
    ensures Manhattan(q[i], goal) <= |q| - 1 - i + Manhattan(q[|q| - 1], goal)
  {
    SliceWalk(q, i, |q|);
    WalkLength(q[i..]);
    ManhattanTriangle(q[i], q[|q| - 1], goal);
  }

  /** A walk to the cell of an entry of least priority that is not yet
      visited leaves the visited cells at a cell the heap offers cheaply
      enough, and the heuristic never overestimates the rest of the walk. */
  lemma LeaveBound(grid: seq<seq<char>>, start: Cell, goal: Cell,
                   open: multiset<Entry>, dist: map<Cell, nat>, e: Entry, q: seq<Cell>)
    requires Entries(grid, start, goal, open) && Settled(grid, start, dist) && Fringe(grid, open, dist)
    requires start in dist && e in open && e.cell !in dist
    requires forall e' :: e' in open ==> e.priority <= e'.priority
    requires WalkTo(grid, q, start, e.cell)
    ensures e.cost <= |q| - 1
  {
    var i := FirstLeave(q, dist.Keys);
    var v, n := q[i - 1], q[i];
    PrefixBound(grid, start, e.cell, q, i, dist[v]);
    AdjacentIsStep(v, n);
    var k :| 0 <= k < 4 && n == Step(v, k);
    assert Offered(open, n, dist[v] + 1);
    var x :| x in open && Offers(x, n, dist[v] + 1);
    RestBound(q, i, goal);
    assert e.priority <= x.priority;
  }

  /** The cell of an entry of least priority that is not yet visited cannot
      be reached in fewer moves than the entry's cost. */
  lemma PopOptimal(grid: seq<seq<char>>, start: Cell, goal: Cell,
                   open: multiset<Entry>, visited: set<Cell>, dist: map<Cell, nat>, e: Entry)
    requires Search(grid, start, goal, open, visited, dist)
    requires e in open && e.cell !in visited
    requires forall e' :: e' in open ==> e.priority <= e'.priority
    ensures NoShorter(grid, start, e.cell, e.cost)
  {
    if start !in visited {
      assert e == First(start);
    } else {
      forall q | WalkTo(grid, q, start, e.cell) ensures e.cost <= |q| - 1 {
        LeaveBound(grid, start, goal, open, dist, e, q);
      }
    }
  }

  /** Popping an entry whose cell was visited keeps the invariant. */
  lemma SearchSkip(grid: seq<seq<char>>, start: Cell, goal: Cell,
                   open: multiset<Entry>, visited: set<Cell>, dist: map<Cell, nat>, e: Entry)
    requires Search(grid, start, goal, open, visited, dist)
    requires e in open && e.cell in visited
    ensures Search(grid, start, goal, open - multiset{e}, visited, dist)
  {
    var rest := open - multiset{e};
    forall v, k | v in dist && 0 <= k < 4 && Free(grid, Step(v, k)) && Step(v, k) !in dist
      ensures Offered(rest, Step(v, k), dist[v] + 1)
    {
      var x :| x in open && Offers(x, Step(v, k), dist[v] + 1);
      assert x in rest;
    }
  }

  /** The pushed entries carry walks and add the heuristic. */
  lemma {:induction false} EntriesExpand(grid: seq<seq<char>>, start: Cell, goal: Cell, open: multiset<Entry>,
                      e: Entry, visited': set<Cell>)
    requires Entries(grid, start, goal, open) && e in open && start in visited'
    ensures Entries(grid, start, goal, open - multiset{e} + Pushes(grid, e, goal, visited', 4))
  {
    PushesSound(grid, e, goal, visited', 4);
    forall x | x in Pushes(grid, e, goal, visited', 4)
      ensures Carries(grid, x, start) && x.priority == x.cost + Manhattan(x.cell, goal)
    {
      PushCarries(grid, e, x.cell, start, goal);
    }
  }

  /** After the expansion of `e` its neighbours are offered through it, and
      every other offer stands. */
  lemma {:induction false} FringeExpand(grid: seq<seq<char>>, goal: Cell, open: multiset<Entry>, dist: map<Cell, nat>, e: Entry)
    requires Fringe(grid, open, dist) && e in open && e.cell !in dist
    ensures Fringe(grid, open - multiset{e} + Pushes(grid, e, goal, dist.Keys + {e.cell}, 4), dist[e.cell := e.cost])
  {
    var dist' := dist[e.cell := e.cost];
    var open' := open - multiset{e} + Pushes(grid, e, goal, dist.Keys + {e.cell}, 4);
    PushesComplete(grid, e, goal, dist.Keys + {e.cell}, 4);
    forall v, k | v in dist' && 0 <= k < 4 && Free(grid, Step(v, k)) && Step(v, k) !in dist'
      ensures Offered(open', Step(v, k), dist'[v] + 1)
    {
      var n := Step(v, k);
      if v == e.cell {
        assert P.Push(e, n, goal) in open';
      } else {
        var x :| x in open && Offers(x, n, dist[v] + 1);
        assert x in open';
      }
    }
  }

  /** The cell of an entry is `start` or free. */
  lemma EntryCell(grid: seq<seq<char>>, start: Cell, e: Entry)
    requires Carries(grid, e, start)
    ensures e.cell == start || Free(grid, e.cell)
  {
    if |e.path| > 1 {
      assert Free(grid, e.path[|e.path| - 1]);
    }
  }

  /** Recording a cost below which a new cell cannot be reached keeps the
      visited cells settled. */
  lemma SettledExpand(grid: seq<seq<char>>, start: Cell, dist: map<Cell, nat>, c: Cell, d: nat)
    requires Settled(grid, start, dist)
    requires (c == start || Free(grid, c)) && NoShorter(grid, start, c, d)
    ensures Settled(grid, start, dist[c := d])
  {
  }

  /** Visiting the cell of an entry of least priority, recording its cost,
      and pushing its free unvisited neighbours keeps the invariant. */
  lemma {:induction false} SearchExpand(grid: seq<seq<char>>, start: Cell, goal: Cell,
                     open: multiset<Entry>, visited: set<Cell>, dist: map<Cell, nat>, e: Entry)
    requires Search(grid, start, goal, open, visited, dist)
    requires e in open && e.cell !in visited && e.cell != goal
    requires forall e' :: e' in open ==> e.priority <= e'.priority
    ensures e.cell == start || Free(grid, e.cell)
    ensures Search(grid, start, goal, open - multiset{e} + Pushes(grid, e, goal, visited + {e.cell}, 4),
                   visited + {e.cell}, dist[e.cell := e.cost])
  {
    PopOptimal(grid, start, goal, open, visited, dist, e);
    EntryCell(grid, start, e);
    assert start in visited + {e.cell} by {
      if start !in visited {
        assert e == First(start);
      }
    }
    EntriesExpand(grid, start, goal, open, e, visited + {e.cell});
    FringeExpand(grid, goal, open, dist, e);
    SettledExpand(grid, start, dist, e.cell, e.cost);
  }

  /** With the heap empty no walk reaches the goal: it would leave the
      visited cells at a cell some entry offers. */
  lemma Exhausted(grid: seq<seq<char>>, start: Cell, goal: Cell, visited: set<Cell>, dist: map<Cell, nat>)
    requires Search(grid, start, goal, multiset{}, visited, dist)
    ensures !exists q :: WalkTo(grid, q, start, goal)
  {
    if q :| WalkTo(grid, q, start, goal) {
      var i := FirstLeave(q, visited);
      AdjacentIsStep(q[i - 1], q[i]);
    }
  }

  /** `a_star_pathfinding(grid, start, goal)`: `Some(path)` with `path` from
      `start` to `goal`, or `None` when the heap runs dry. */
  method AStarPathfinding(grid: seq<seq<char>>, start: Cell, goal: Cell) returns (path: Option<seq<Cell>>)
    requires WellShaped(grid)
    ensures path.Some? ==> WalkTo(grid, path.value, start, goal)
    ensures path.Some? ==> forall q {:trigger WalkTo(grid, q, start, goal)} :: WalkTo(grid, q, start, goal) ==> |path.value| <= |q|
    ensures path.None? <==> !exists q :: WalkTo(grid, q, start, goal)
    ensures start == goal ==> path == Some([start])
  {
    ghost var universe := AllCells(|grid|, |grid[0]|) + {start};
    var open := multiset{First(start)};
    var visited: set<Cell> := {};
    ghost var dist: map<Cell, nat> := map[];
    while |open| > 0
      invariant Search(grid, start, goal, open, visited, dist)
      invariant visited <= universe
      decreases universe - visited, |open|
    {
      var e, rest := PopMin(open, (x: Entry) => x.priority);
      if e.cell in visited {
        SearchSkip(grid, start, goal, open, visited, dist, e);
        open := rest;
        continue;
      }
      if e.cell == goal {
        PopOptimal(grid, start, goal, open, visited, dist, e);
        return Some(e.path);
      }
      SearchExpand(grid, start, goal, open, visited, dist, e);
      visited := visited + {e.cell};
      dist := dist[e.cell := e.cost];
      var pushed := PushNeighbours(grid, e, goal, visited);
      open := rest + pushed;
    }
    Exhausted(grid, start, goal, visited, dist);
    return None;
  }

  /** Example 1: an empty 5 x 5 grid from the top-left to the bottom-right
      corner takes nine cells, eight moves. */
  method EmptyGridExample() returns (path: Option<seq<Cell>>)
    ensures path.Some? && |path.value| == 9
  {
    var grid := [".....", ".....", ".....", ".....", "....."];
    var start, goal := Cell(0, 0), Cell(4, 4);
    EdgeWalk(grid);
    path := AStarPathfinding(grid, start, goal);
    WalkLength(path.value);
  }

  /** Down the left edge and along the bottom edge of an empty 5 x 5 grid:
      a walk of eight moves from corner to corner. */
  lemma EdgeWalk(grid: seq<seq<char>>)
    requires grid == [".....", ".....", ".....", ".....", "....."]
    ensures WalkTo(grid, [Cell(0, 0), Cell(1, 0), Cell(2, 0), Cell(3, 0), Cell(4, 0),
                          Cell(4, 1), Cell(4, 2), Cell(4, 3), Cell(4, 4)], Cell(0, 0), Cell(4, 4))
  {
    var q := [Cell(0, 0), Cell(1, 0), Cell(2, 0), Cell(3, 0), Cell(4, 0),
              Cell(4, 1), Cell(4, 2), Cell(4, 3), Cell(4, 4)];
    assert forall i :: 0 <= i < |q| ==> 0 <= q[i].row < 5 && 0 <= q[i].col < 5;
    assert forall r :: 0 <= r < 5 ==> grid[r] == ".....";
  }

  /** Example 4: a start walled in by obstacles on all four sides has no
      path out. */
  method WalledInExample() returns (path: Option<seq<Cell>>)
    ensures path == None
  {
    var grid := [".....", ".XXX.", ".X.X.", ".XXX.", "....."];
    var start, goal := Cell(2, 2), Cell(0, 0);
    path := AStarPathfinding(grid, start, goal);
    forall q | WalkTo(grid, q, start, goal) ensures false {
      AdjacentIsStep(q[0], q[1]);
    }
  }
}
