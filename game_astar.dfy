/** `a_star_pathfinding` of the prototype game: A* with parent pointers
    (`came_from`) and best-known costs (`g_score`). Neighbours are checked
    against the grid's bounds only; the grid's contents are never read. The
    heap may hold stale entries for a cell, and a cell is expanded again
    whenever one of its entries is popped. The returned path leaves out
    `start` and ends at `goal`. */
module GamePathfinding {

  import opened Cells
  import opened Occupancy
  import opened Frontier

  /** A heap entry, the tuple `(f_score, cell)`. */
  datatype Node = Node(f: int, cell: Cell)

  function QueuedCells(open: multiset<Node>): set<Cell>
  {
    set e | e in open :: e.cell
  }

  /** Every in-bounds neighbour of `v` has a cost. */
  ghost predicate Expanded(v: Cell, gScore: map<Cell, nat>, rows: nat, cols: nat)
  {
    forall k :: 0 <= k < 4 && InBounds(Step(v, k), rows, cols) ==> Step(v, k) in gScore
  }

  /** The search tree: `start` costs nothing; every other cell with a cost
      is in the grid and has a parent one move away that costs less;
      `f_score` adds the heuristic to `g_score`. */
  ghost predicate Tree(rows: nat, cols: nat, start: Cell, goal: Cell,
                       cameFrom: map<Cell, Cell>, gScore: map<Cell, nat>, fScore: map<Cell, int>)
  {
    && start in gScore && gScore[start] == 0
    && (forall c {:trigger c in gScore} :: c in gScore ==> c == start || InBounds(c, rows, cols))
    && cameFrom.Keys == gScore.Keys - {start}
    && (forall n {:trigger cameFrom[n]} :: n in cameFrom ==> cameFrom[n] in gScore && Adjacent(n, cameFrom[n]) && gScore[cameFrom[n]] < gScore[n])
    && fScore.Keys == gScore.Keys
    && (forall c {:trigger fScore[c]} :: c in fScore ==> fScore[c] == gScore[c] + Manhattan(c, goal))
  }

  /** The heap: its entries are for cells with a cost, the goal is queued
      once it has a cost, and every cell with a cost except `current` is
      queued or has all its in-bounds neighbours costed. */
  ghost predicate Queue(rows: nat, cols: nat, goal: Cell, current: Cell, open: multiset<Node>, gScore: map<Cell, nat>)
  {
    && (forall e {:trigger open[e]} :: e in open ==> e.cell in gScore)
    && (goal in gScore ==> goal in QueuedCells(open))
    && (forall v {:trigger Expanded(v, gScore, rows, cols)} ::
          v in gScore && v != current ==> v in QueuedCells(open) || Expanded(v, gScore, rows, cols))
  }

  /** Pairs `(c, k)` with `k` below the cost of `c`; lowering a cost
      shrinks it. */
  ghost function Potential(gScore: map<Cell, nat>): set<(Cell, int)>
  {
    set c, k | c in gScore && 0 <= k < gScore[c] :: (c, k)
  }

  lemma PotentialShrinks(g: map<Cell, nat>, g0: map<Cell, nat>)
    requires g.Keys == g0.Keys && g != g0 && Lowered(g0, g)
    ensures Potential(g) < Potential(g0)
  {
    var c :| c in g && g[c] != g0[c];
    assert (c, g[c] as int) in Potential(g0) - Potential(g);
  }

  /** Lowering or setting the cost of an in-bounds neighbour `n` of
      `current` through `current` keeps the tree. */
  lemma RelaxKeeps(rows: nat, cols: nat, start: Cell, goal: Cell, current: Cell, n: Cell,
                   cameFrom: map<Cell, Cell>, gScore: map<Cell, nat>, fScore: map<Cell, int>)
    requires Tree(rows, cols, start, goal, cameFrom, gScore, fScore)
    requires current in gScore && InBounds(n, rows, cols) && Adjacent(current, n)
    requires n !in gScore || gScore[current] + 1 < gScore[n]
    ensures n != start && n != current
    ensures Tree(rows, cols, start, goal, cameFrom[n := current], gScore[n := gScore[current] + 1],
                 fScore[n := gScore[current] + 1 + Manhattan(n, goal)])
  {
    var g' := gScore[n := gScore[current] + 1];
    var cf' := cameFrom[n := current];
    forall m | m in cf' ensures cf'[m] in g' && Adjacent(m, cf'[m]) && g'[cf'[m]] < g'[m] {
      if m == n {
        ManhattanSymmetric(current, n);
      }
    }
  }

  /** With the heap empty every costed cell is expanded, so from an
      in-bounds start every in-bounds cell has a cost, the goal included,
      which cannot be. */
  lemma Exhausted(rows: nat, cols: nat, start: Cell, goal: Cell, current: Cell, gScore: map<Cell, nat>)
    requires start in gScore && goal !in gScore
    requires forall v :: v in gScore ==> Expanded(v, gScore, rows, cols)
    ensures !(InBounds(start, rows, cols) && InBounds(goal, rows, cols))
  {
    if InBounds(start, rows, cols) && InBounds(goal, rows, cols) {
      ReachesAll(gScore.Keys, {}, start, rows, cols, Manhattan(goal, start), goal);
    }
  }

  /** `a_star_pathfinding(grid, start, goal)`; the grid must have a first
      row, whose length gives the number of columns. */
  method AStarPathfinding(grid: Grid, start: Cell, goal: Cell) returns (path: seq<Cell>)
    requires |grid| > 0
    ensures start == goal ==> path == []
    ensures path != [] ==> start != goal && IsWalk([start] + path) && path[|path| - 1] == goal
    ensures forall i :: 0 <= i < |path| ==> InBounds(path[i], |grid|, |grid[0]|)
    ensures InBounds(start, |grid|, |grid[0]|) && InBounds(goal, |grid|, |grid[0]|) && start != goal ==> path != []
    ensures !InBounds(goal, |grid|, |grid[0]|) && start != goal ==> path == []
  {
    var rows, cols := |grid|, |grid[0]|;
    ghost var universe := AllCells(rows, cols) + {start};
    var open := multiset{Node(0, start)};
    var cameFrom: map<Cell, Cell> := map[];
    var gScore: map<Cell, nat> := map[start := 0];
    var fScore: map<Cell, int> := map[start := Manhattan(start, goal)];
    assert start in QueuedCells(open);
    while |open| > 0
      invariant Tree(rows, cols, start, goal, cameFrom, gScore, fScore)
      invariant Queue(rows, cols, goal, goal, open, gScore)
      decreases universe - gScore.Keys, Potential(gScore), |open|
    {
      var top, rest := PopMin(open, (x: Node) => x.f);
      var current := top.cell;
      if current == goal {
        path := Reconstruct(rows, cols, start, goal, cameFrom, gScore, fScore);
        return;
      }
      ghost var g0, open0 := gScore, open;
      PopQueue(rows, cols, goal, open, top, gScore);
      open, cameFrom, gScore, fScore := ExpandNeighbours(rows, cols, start, goal, current, rest, cameFrom, gScore, fScore);
      Decreasing(rows, cols, start, universe, g0, gScore, open0, rest, open);
    }
    Exhausted(rows, cols, start, goal, goal, gScore);
    return [];
  }

  /** One round of the main loop either costs a new cell, lowers a cost,
      or only pops an entry. */
  lemma Decreasing(rows: nat, cols: nat, start: Cell, universe: set<Cell>, g0: map<Cell, nat>, g: map<Cell, nat>,
                   open0: multiset<Node>, rest: multiset<Node>, open: multiset<Node>)
    requires universe == AllCells(rows, cols) + {start}
    requires forall c :: c in g ==> c == start || InBounds(c, rows, cols)
    requires Lowered(g0, g) && (g == g0 ==> open == rest) && |rest| < |open0|
    ensures || universe - g.Keys < universe - g0.Keys
            || (universe - g.Keys == universe - g0.Keys && Potential(g) < Potential(g0))
            || (g == g0 && |open| < |open0|)
  {
    if g.Keys == g0.Keys {
      if g != g0 {
        PotentialShrinks(g, g0);
      }
    } else {
      var c :| c in g && c !in g0;
      assert c in universe;
    }
  }

  /** The loop over the four neighbours of `current`: each in-bounds one
      whose cost improves through `current` gets `current` as parent, the
      new costs, and a fresh heap entry. Costs only go down, and `current`
      ends up expanded. */
  method ExpandNeighbours(rows: nat, cols: nat, start: Cell, goal: Cell, current: Cell, open: multiset<Node>,
                          cameFrom: map<Cell, Cell>, gScore: map<Cell, nat>, fScore: map<Cell, int>)
    returns (open': multiset<Node>, cameFrom': map<Cell, Cell>, gScore': map<Cell, nat>, fScore': map<Cell, int>)
    requires Tree(rows, cols, start, goal, cameFrom, gScore, fScore)
    requires Queue(rows, cols, goal, current, open, gScore)
    requires current in gScore && current != goal
    ensures Tree(rows, cols, start, goal, cameFrom', gScore', fScore')
    ensures Queue(rows, cols, goal, goal, open', gScore')
    ensures Lowered(gScore, gScore')
    ensures gScore' == gScore ==> open' == open
  {
    open', cameFrom', gScore', fScore' := open, cameFrom, gScore, fScore;
    for k := 0 to 4
      invariant Scan(rows, cols, start, goal, current, k, open, gScore, open', cameFrom', gScore', fScore')
    {
      var n := Step(current, k);
      if 0 <= n.row < rows && 0 <= n.col < cols {
        var tentative := gScore'[current] + 1;
        if n !in gScore' || tentative < gScore'[n] {
          RelaxStep(rows, cols, start, goal, current, k, open, gScore, open', cameFrom', gScore', fScore');
          var f := tentative + Manhattan(n, goal);
          cameFrom' := cameFrom'[n := current];
          gScore' := gScore'[n := tentative];
          fScore' := fScore'[n := f];
          open' := open' + multiset{Node(f, n)};
        } else {
          SkipStep(rows, cols, start, goal, current, k, open, gScore, open', cameFrom', gScore', fScore');
        }
      } else {
        SkipStep(rows, cols, start, goal, current, k, open, gScore, open', cameFrom', gScore', fScore');
      }
    }
    ScanDone(rows, cols, start, goal, current, open, gScore, open', cameFrom', gScore', fScore');
  }

  /** Costs only go down, and no cost is dropped. */
  ghost predicate Lowered(g0: map<Cell, nat>, g: map<Cell, nat>)
  {
    g0.Keys <= g.Keys && forall c {:trigger c in g0} :: c in g0 ==> g[c] <= g0[c]
  }

  /** The state of the neighbour loop once the first `k` neighbours of
      `current` have been looked at, starting from `open0` and `gScore0`. */
  ghost predicate Scan(rows: nat, cols: nat, start: Cell, goal: Cell, current: Cell, k: int,
                       open0: multiset<Node>, gScore0: map<Cell, nat>,
                       open: multiset<Node>, cameFrom: map<Cell, Cell>, gScore: map<Cell, nat>, fScore: map<Cell, int>)
  {
    && Tree(rows, cols, start, goal, cameFrom, gScore, fScore)
    && Queue(rows, cols, goal, current, open, gScore)
    && current in gScore && current != goal
    && (forall j :: 0 <= j < k && j < 4 && InBounds(Step(current, j), rows, cols) ==> Step(current, j) in gScore)
    && Lowered(gScore0, gScore)
    && (gScore == gScore0 ==> open == open0)
  }

  /** A neighbour that is out of bounds, or whose cost does not improve,
      changes nothing. */
  lemma SkipStep(rows: nat, cols: nat, start: Cell, goal: Cell, current: Cell, k: int,
                 open0: multiset<Node>, gScore0: map<Cell, nat>,
                 open: multiset<Node>, cameFrom: map<Cell, Cell>, gScore: map<Cell, nat>, fScore: map<Cell, int>)
    requires Scan(rows, cols, start, goal, current, k, open0, gScore0, open, cameFrom, gScore, fScore)
    requires 0 <= k < 4
    requires InBounds(Step(current, k), rows, cols) ==>
               Step(current, k) in gScore && gScore[current] + 1 >= gScore[Step(current, k)]
    ensures Scan(rows, cols, start, goal, current, k + 1, open0, gScore0, open, cameFrom, gScore, fScore)
  {
  }

  /** A neighbour whose cost improves through `current` gets its new cost,
      its parent and a heap entry. */
  lemma RelaxStep(rows: nat, cols: nat, start: Cell, goal: Cell, current: Cell, k: int,
                  open0: multiset<Node>, gScore0: map<Cell, nat>,
                  open: multiset<Node>, cameFrom: map<Cell, Cell>, gScore: map<Cell, nat>, fScore: map<Cell, int>)
    requires Scan(rows, cols, start, goal, current, k, open0, gScore0, open, cameFrom, gScore, fScore)
    requires 0 <= k < 4 && InBounds(Step(current, k), rows, cols)
    requires Step(current, k) !in gScore || gScore[current] + 1 < gScore[Step(current, k)]
    ensures var n, t := Step(current, k), gScore[current] + 1;
            var f := t + Manhattan(n, goal);
            Scan(rows, cols, start, goal, current, k + 1, open0, gScore0,
                 open + multiset{Node(f, n)}, cameFrom[n := current], gScore[n := t], fScore[n := f])
  {
    var n, t := Step(current, k), gScore[current] + 1;
    StepAdjacent(current, k);
    RelaxKeeps(rows, cols, start, goal, current, n, cameFrom, gScore, fScore);
    RelaxQueue(rows, cols, goal, current, n, open, gScore, t, t + Manhattan(n, goal));
    RelaxLowers(rows, cols, current, k, gScore0, gScore, gScore[n := t]);
  }

  /** Setting the cost of the `k`-th neighbour lowers the costs, changes
      them, and leaves the first `k + 1` neighbours costed. */
  lemma RelaxLowers(rows: nat, cols: nat, current: Cell, k: int,
                    gScore0: map<Cell, nat>, gScore: map<Cell, nat>, gScore': map<Cell, nat>)
    requires Lowered(gScore0, gScore) && current in gScore
    requires forall j :: 0 <= j < k && j < 4 && InBounds(Step(current, j), rows, cols) ==> Step(current, j) in gScore
    requires 0 <= k < 4
    requires Step(current, k) !in gScore || gScore[current] + 1 < gScore[Step(current, k)]
    requires gScore' == gScore[Step(current, k) := gScore[current] + 1]
    ensures Lowered(gScore0, gScore') && gScore' != gScore0
    ensures forall j :: 0 <= j < k + 1 && j < 4 && InBounds(Step(current, j), rows, cols) ==> Step(current, j) in gScore'
  {
    var n, t := Step(current, k), gScore[current] + 1;
    assert gScore' != gScore0 by {
      if n in gScore0 {
        assert t < gScore[n] <= gScore0[n];
      }
    }
  }

  /** After the four neighbours `current` is expanded, so the heap invariant
      no longer needs to except it. */
  lemma ScanDone(rows: nat, cols: nat, start: Cell, goal: Cell, current: Cell,
                 open0: multiset<Node>, gScore0: map<Cell, nat>,
                 open: multiset<Node>, cameFrom: map<Cell, Cell>, gScore: map<Cell, nat>, fScore: map<Cell, int>)
    requires Scan(rows, cols, start, goal, current, 4, open0, gScore0, open, cameFrom, gScore, fScore)
    ensures Queue(rows, cols, goal, goal, open, gScore)
  {
    assert Expanded(current, gScore, rows, cols);
  }

  /** Popping an entry for a cell other than the goal keeps the heap
      invariant, with that cell as the one being expanded. */
  lemma PopQueue(rows: nat, cols: nat, goal: Cell, open: multiset<Node>, top: Node, gScore: map<Cell, nat>)
    requires Queue(rows, cols, goal, goal, open, gScore) && top in open && top.cell != goal
    ensures Queue(rows, cols, goal, top.cell, open - multiset{top}, gScore)
  {
    var rest := open - multiset{top};
    forall v | v in QueuedCells(open) && v != top.cell ensures v in QueuedCells(rest) {
      var e :| e in open && e.cell == v;
      assert e in rest;
    }
  }

  /** Giving `n` a cost and pushing an entry for it keeps the heap invariant. */
  lemma RelaxQueue(rows: nat, cols: nat, goal: Cell, current: Cell, n: Cell, open: multiset<Node>,
                   gScore: map<Cell, nat>, g: nat, f: int)
    requires Queue(rows, cols, goal, current, open, gScore)
    ensures Queue(rows, cols, goal, current, open + multiset{Node(f, n)}, gScore[n := g])
  {
    var open', gScore' := open + multiset{Node(f, n)}, gScore[n := g];
    assert n in QueuedCells(open');
    forall v | v in QueuedCells(open) ensures v in QueuedCells(open') {
      var e :| e in open && e.cell == v;
      assert e in open';
    }
    forall v | v in gScore' && v != current
      ensures v in QueuedCells(open') || Expanded(v, gScore', rows, cols)
    {
      if v != n && !Expanded(v, gScore, rows, cols) {
        assert v in QueuedCells(open);
      }
    }
  }

  /** The reconstruction: follow `came_from` back from the goal to the
      start, reverse, and drop the start. */
  method Reconstruct(rows: nat, cols: nat, start: Cell, goal: Cell,
                     cameFrom: map<Cell, Cell>, gScore: map<Cell, nat>, fScore: map<Cell, int>) returns (path: seq<Cell>)
    requires Tree(rows, cols, start, goal, cameFrom, gScore, fScore) && goal in gScore
    ensures start == goal ==> path == []
    ensures path != [] ==> start != goal && IsWalk([start] + path) && path[|path| - 1] == goal
    ensures forall i :: 0 <= i < |path| ==> InBounds(path[i], rows, cols)
    ensures start != goal ==> path != []
  {
    var current := goal;
    var back := [current];
    while current in cameFrom
      invariant current in gScore
      invariant |back| > 0 && back[0] == goal && back[|back| - 1] == current && IsWalk(back)
      invariant forall i :: 0 <= i < |back| - 1 ==> back[i] in cameFrom
      decreases gScore[current]
    {
      current := cameFrom[current];
      back := back + [current];
    }
    assert current == start;
    ReversedWalk(back);
    var forward := Reversed(back);
    path := forward[1..];
    assert [start] + path == forward;
    forall i | 0 <= i < |path| ensures InBounds(path[i], rows, cols) {
      assert path[i] == back[|back| - 2 - i];
    }
  }
}
