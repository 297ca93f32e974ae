/** `a_star_path` of the warehouse application: A* over the rack's grid from
    the trolley's position to a target cell. Neighbours are checked against
    the rack's bounds only, never against its occupancy, so the rack is read
    and not changed. Each queue entry carries its whole path from `start`. */
module Pathfinding {

  import opened Options
  import opened Cells
  import opened Frontier
  import AsrsRack

  /** A queue entry, the tuple `(priority, cost, cell, path)`. */
  datatype Entry = Entry(priority: int, cost: nat, cell: Cell, path: seq<Cell>)

  /** The `(path, cost)` pair a successful search returns. */
  datatype Route = Route(path: seq<Cell>, cost: nat)

  /** A walk out of `start` whose every later cell lies inside the grid. */
  ghost predicate PathFrom(p: seq<Cell>, start: Cell, rows: nat, cols: nat)
  {
    |p| > 0 && p[0] == start && IsWalk(p) && forall i :: 0 < i < |p| ==> InBounds(p[i], rows, cols)
  }

  /** What every queue entry satisfies: its path leads from `start` to its
      cell in `cost` moves, and its priority adds the Manhattan heuristic. */
  ghost predicate ValidEntry(e: Entry, start: Cell, end: Cell, rows: nat, cols: nat)
  {
    && e.priority == e.cost + Manhattan(e.cell, end)
    && |e.path| == e.cost + 1
    && PathFrom(e.path, start, rows, cols)
    && e.path[|e.path| - 1] == e.cell
  }

  /** The entry pushed for neighbour `n` of a popped entry. */
  function Push(e: Entry, n: Cell, end: Cell): Entry
  {
    Entry(e.cost + 1 + Manhattan(n, end), e.cost + 1, n, e.path + [n])
  }

  /** `x` is the entry pushed from `e` for an in-bounds neighbour. */
  predicate PushedFrom(e: Entry, end: Cell, rows: nat, cols: nat, x: Entry)
  {
    InBounds(x.cell, rows, cols) && Adjacent(e.cell, x.cell) && x == Push(e, x.cell, end)
  }

  /** The entries pushed for the in-bounds neighbours among the first `k` moves. */
  function Pushes(e: Entry, end: Cell, rows: nat, cols: nat, k: nat): multiset<Entry>
    requires k <= 4
  {
    if k == 0 then multiset{}
    else
      var n := Step(e.cell, k - 1);
      Pushes(e, end, rows, cols, k - 1) +
      (if InBounds(n, rows, cols) then multiset{Push(e, n, end)} else multiset{})
  }

  /** Every pushed entry extends `e` by one move to an in-bounds cell. */
  lemma {:induction false} PushesSound(e: Entry, end: Cell, rows: nat, cols: nat, k: nat)
    requires k <= 4
    ensures forall x :: x in Pushes(e, end, rows, cols, k) ==> PushedFrom(e, end, rows, cols, x)
  {
    if k > 0 {
      PushesSound(e, end, rows, cols, k - 1);
      StepAdjacent(e.cell, k - 1);
    }
  }

  /** Every in-bounds move among the first `k` gets its entry. */
  lemma {:induction false} PushesComplete(e: Entry, end: Cell, rows: nat, cols: nat, k: nat)
    requires k <= 4
    ensures forall j :: 0 <= j < k && InBounds(Step(e.cell, j), rows, cols) ==> Push(e, Step(e.cell, j), end) in Pushes(e, end, rows, cols, k)
  {
    if k > 0 {
      PushesComplete(e, end, rows, cols, k - 1);
    }
  }

  /** Extending a valid entry by one in-bounds move gives a valid entry. */
  lemma PushValid(e: Entry, n: Cell, start: Cell, end: Cell, rows: nat, cols: nat)
    requires ValidEntry(e, start, end, rows, cols) && Adjacent(e.cell, n) && InBounds(n, rows, cols)
    ensures ValidEntry(Push(e, n, end), start, end, rows, cols)
  {
    var p := e.path + [n];
    forall i | 0 < i < |p| ensures Adjacent(p[i - 1], p[i]) && InBounds(p[i], rows, cols) {
      if i < |e.path| {
        assert p[i - 1] == e.path[i - 1] && p[i] == e.path[i];
      }
    }
  }

  /** No valid entry promises less than the distance between the endpoints:
      the heuristic never overestimates. */
  lemma EntryLowerBound(e: Entry, start: Cell, end: Cell, rows: nat, cols: nat)
    requires ValidEntry(e, start, end, rows, cols)
    ensures e.priority >= Manhattan(start, end)
  {
    WalkLength(e.path);
    ManhattanTriangle(start, e.cell, end);
  }

  function NextToward(v: Cell, end: Cell): Cell
    requires v != end
  {
    Step(v, Toward(v, end))
  }

  /** Cells of the entries whose priority is the distance between the endpoints. */
  function TightCells(open: multiset<Entry>, m0: int): set<Cell>
  {
    set e | e in open && e.priority == m0 :: e.cell
  }

  /** The start and, for every visited cell, its move toward `end` are
      visited or carried by an entry of least possible priority. */
  ghost predicate Progress(open: multiset<Entry>, visited: set<Cell>, start: Cell, end: Cell)
  {
    var m0 := Manhattan(start, end);
    && (start in visited || start in TightCells(open, m0))
    && forall v :: v in visited && v != end ==>
         NextToward(v, end) in visited || NextToward(v, end) in TightCells(open, m0)
  }

  lemma {:induction false} TightReachable(open: multiset<Entry>, visited: set<Cell>, start: Cell, end: Cell, v: Cell)
    requires Progress(open, visited, start, end) && end !in visited && v in visited
    ensures TightCells(open, Manhattan(start, end)) != {}
    decreases Manhattan(v, end)
  {
    var n := NextToward(v, end);
    if n in visited {
      TightReachable(open, visited, start, end, n);
    }
  }

  /** While both endpoints are in the grid the queue always holds an entry of
      least possible priority, so the search never runs dry. */
  lemma TightExists(open: multiset<Entry>, visited: set<Cell>, start: Cell, end: Cell, rows: nat, cols: nat)
    requires end !in visited
    requires InBounds(start, rows, cols) && InBounds(end, rows, cols) ==> Progress(open, visited, start, end)
    ensures InBounds(start, rows, cols) && InBounds(end, rows, cols) ==> TightCells(open, Manhattan(start, end)) != {}
  {
    if InBounds(start, rows, cols) && InBounds(end, rows, cols) && start in visited {
      TightReachable(open, visited, start, end, start);
    }
  }

  /** Dropping an entry whose cell was visited keeps `Progress`. */
  lemma SkipProgress(open: multiset<Entry>, visited: set<Cell>, start: Cell, end: Cell, e: Entry)
    requires Progress(open, visited, start, end) && e in open && e.cell in visited
    ensures Progress(open - multiset{e}, visited, start, end)
  {
    var m0 := Manhattan(start, end);
    var open' := open - multiset{e};
    forall c | c in TightCells(open, m0) && c !in visited ensures c in TightCells(open', m0) {
      var x :| x in open && x.priority == m0 && x.cell == c;
      assert x in open';
    }
  }

  /** Visiting the cell of a popped entry of least possible priority and
      pushing its neighbours keeps `Progress`. */
  lemma {:induction false} ExpandProgress(open: multiset<Entry>, visited: set<Cell>, start: Cell, end: Cell, rows: nat, cols: nat, e: Entry)
    requires InBounds(start, rows, cols) && InBounds(end, rows, cols)
    requires Progress(open, visited, start, end) && e in open && e.cell !in visited && e.cell != end
    requires ValidEntry(e, start, end, rows, cols) && e.priority == Manhattan(start, end)
    ensures Progress(open - multiset{e} + Pushes(e, end, rows, cols, 4), visited + {e.cell}, start, end)
  {
    var m0 := Manhattan(start, end);
    var open' := open - multiset{e} + Pushes(e, end, rows, cols, 4);
    var visited' := visited + {e.cell};
    assert InBounds(e.cell, rows, cols) by {
      if |e.path| > 1 {
        assert InBounds(e.path[|e.path| - 1], rows, cols);
      }
    }
    var n := NextToward(e.cell, end);
    PushesComplete(e, end, rows, cols, 4);
    assert Push(e, n, end) in open';
    assert n in TightCells(open', m0);
    forall c | c in TightCells(open, m0) && c !in visited' ensures c in TightCells(open', m0) {
      var x :| x in open && x.priority == m0 && x.cell == c;
      assert x in open';
    }
  }

  /** Replacing a popped valid entry by its pushes keeps every entry valid. */
  lemma {:induction false} ExpandValid(open: multiset<Entry>, e: Entry, start: Cell, end: Cell, rows: nat, cols: nat)
    requires forall x :: x in open ==> ValidEntry(x, start, end, rows, cols)
    requires e in open
    ensures forall x :: x in open - multiset{e} + Pushes(e, end, rows, cols, 4) ==> ValidEntry(x, start, end, rows, cols)
  {
    PushesSound(e, end, rows, cols, 4);
    forall x | x in Pushes(e, end, rows, cols, 4) ensures ValidEntry(x, start, end, rows, cols) {
      PushValid(e, x.cell, start, end, rows, cols);
    }
  }

  lemma PushesNext(e: Entry, end: Cell, rows: nat, cols: nat, k: nat)
    requires k < 4
    ensures Pushes(e, end, rows, cols, k + 1) == Pushes(e, end, rows, cols, k) +
              if InBounds(Step(e.cell, k), rows, cols) then multiset{Push(e, Step(e.cell, k), end)} else multiset{}
  {
  }

  /** The loop over the four moves that pushes the in-bounds neighbours. */
  method PushNeighbours(e: Entry, end: Cell, rows: nat, cols: nat) returns (pushed: multiset<Entry>)
    ensures pushed == Pushes(e, end, rows, cols, 4)
  {
    pushed := multiset{};
    for k := 0 to 4
      invariant pushed == Pushes(e, end, rows, cols, k)
    {
      var n := Step(e.cell, k);
      PushesNext(e, end, rows, cols, k);
      if 0 <= n.row < rows && 0 <= n.col < cols {
        pushed := pushed + multiset{Push(e, n, end)};
      }
    }
  }

  /** What holds of the search each time it is about to pop the queue. */
  ghost predicate SearchInvariant(open: multiset<Entry>, visited: set<Cell>, start: Cell, end: Cell, rows: nat, cols: nat)
  {
    && (forall e :: e in open ==> ValidEntry(e, start, end, rows, cols))
    && (forall v :: v in visited ==> v == start || InBounds(v, rows, cols))
    && end !in visited
    && (InBounds(start, rows, cols) && InBounds(end, rows, cols) ==> Progress(open, visited, start, end))
  }

  /** An entry of least priority is valid, and while both endpoints are in
      the grid its priority is exactly the distance between them. */
  lemma PopTight(open: multiset<Entry>, visited: set<Cell>, start: Cell, end: Cell, rows: nat, cols: nat, e: Entry)
    requires SearchInvariant(open, visited, start, end, rows, cols)
    requires e in open && forall e' :: e' in open ==> e.priority <= e'.priority
    ensures ValidEntry(e, start, end, rows, cols)
    ensures e.cell == start || InBounds(e.cell, rows, cols)
    ensures InBounds(start, rows, cols) && InBounds(end, rows, cols) ==> e.priority == Manhattan(start, end)
  {
    TightExists(open, visited, start, end, rows, cols);
    if InBounds(start, rows, cols) && InBounds(end, rows, cols) {
      var t :| t in open && t.priority == Manhattan(start, end);
      EntryLowerBound(e, start, end, rows, cols);
    }
    if |e.path| > 1 {
      assert InBounds(e.path[|e.path| - 1], rows, cols);
    }
  }

  lemma SearchSkip(open: multiset<Entry>, visited: set<Cell>, start: Cell, end: Cell, rows: nat, cols: nat, e: Entry)
    requires SearchInvariant(open, visited, start, end, rows, cols)
    requires e in open && e.cell in visited
    ensures SearchInvariant(open - multiset{e}, visited, start, end, rows, cols)
  {
    if InBounds(start, rows, cols) && InBounds(end, rows, cols) {
      SkipProgress(open, visited, start, end, e);
    }
  }

  lemma {:induction false} SearchExpand(open: multiset<Entry>, visited: set<Cell>, start: Cell, end: Cell, rows: nat, cols: nat, e: Entry)
    requires SearchInvariant(open, visited, start, end, rows, cols)
    requires e in open && e.cell !in visited && e.cell != end
    requires e.cell == start || InBounds(e.cell, rows, cols)
    requires InBounds(start, rows, cols) && InBounds(end, rows, cols) ==> e.priority == Manhattan(start, end)
    ensures SearchInvariant(open - multiset{e} + Pushes(e, end, rows, cols, 4), visited + {e.cell}, start, end, rows, cols)
  {
    ExpandValid(open, e, start, end, rows, cols);
    if InBounds(start, rows, cols) && InBounds(end, rows, cols) {
      ExpandProgress(open, visited, start, end, rows, cols, e);
    }
  }

  /** `a_star_path(start, end, rack)`: `Some(Route(path, cost))` for the
      `(path, cost)` answer, `None` for the `([], inf)` one. */
  method AStarPath(start: Cell, end: Cell, rack: AsrsRack.Rack) returns (result: Option<Route>)
    ensures result.Some? ==> PathFrom(result.value.path, start, rack.rows, rack.cols)
    ensures result.Some? ==> result.value.path[|result.value.path| - 1] == end
    ensures result.Some? ==> result.value.cost == |result.value.path| - 1
    ensures start == end ==> result == Some(Route([start], 0))
    ensures InBounds(start, rack.rows, rack.cols) && InBounds(end, rack.rows, rack.cols) ==>
              result.Some? && result.value.cost == Manhattan(start, end)
    ensures !InBounds(end, rack.rows, rack.cols) && start != end ==> result.None?
  {
    var rows, cols := rack.rows, rack.cols;
    ghost var universe := AllCells(rows, cols) + {start};
    var first := Entry(0 + Manhattan(start, end), 0, start, [start]);
    var open := multiset{first};
    var visited: set<Cell> := {};
    while |open| > 0
      invariant SearchInvariant(open, visited, start, end, rows, cols)
      invariant start == end ==> open == multiset{first}
      decreases universe - visited, |open|
    {
      var e, rest := PopMin(open, (x: Entry) => x.priority);
      PopTight(open, visited, start, end, rows, cols, e);
      if e.cell == end {
        return Some(Route(e.path, e.cost));
      }
      if e.cell in visited {
        SearchSkip(open, visited, start, end, rows, cols, e);
        open := rest;
        continue;
      }
      SearchExpand(open, visited, start, end, rows, cols, e);
      visited := visited + {e.cell};
      var pushed := PushNeighbours(e, end, rows, cols);
      open := rest + pushed;
    }
    TightExists(open, visited, start, end, rows, cols);
    return None;
  }
}
