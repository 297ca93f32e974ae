/** The square-footprint rack of the warehouse application: a grid of
    optional box ids, the reverse map `box_locations` from a box id to its
    anchor and side, and the breadth-first search for the nearest cell where a
    footprint fits. The full application carries a verbatim copy of this
    class, and its store operation is modelled here as `StoreItem`. */
module AsrsRack {

  import opened Options
  import opened Cells
  import opened Occupancy
  import Config

  /** What `box_locations` records for a box: the anchor and side of its
      square footprint. */
  datatype Location = Location(row: nat, col: nat, size: nat)

  function Square(loc: Location): Rect
  {
    Rect(loc.row, loc.col, loc.size, loc.size)
  }

  function Footprints(locs: map<int, Location>): (fp: map<int, Rect>)
    ensures fp.Keys == locs.Keys
    ensures forall id :: id in locs ==> fp[id] == Square(locs[id])
  {
    map id | id in locs :: Square(locs[id])
  }

  /** `_can_fit(row, col, size)` at an in-bounds cell. */
  ghost predicate Fits(g: Grid, rows: nat, cols: nat, c: Cell, size: nat)
    requires WellFormed(g, rows, cols)
  {
    InBounds(c, rows, cols) && FootprintFree(g, rows, cols, Rect(c.row, c.col, size, size))
  }

  /** An entry of the search queue: a cell and its distance field. */
  datatype Pending = Pending(cell: Cell, dist: nat)

  function Waiting(queue: seq<Pending>): set<Cell>
  {
    set e | e in queue :: e.cell
  }

  /** `e` is appended for an in-bounds neighbour of `c`, one farther than `d`. */
  predicate Appended(e: Pending, c: Cell, d: nat, rows: nat, cols: nat)
  {
    e.dist == d + 1 && InBounds(e.cell, rows, cols) && Adjacent(c, e.cell)
  }

  /** The entries appended when the search expands `c` at distance `d`:
      its in-bounds neighbours among the first `k` moves, in move order. */
  function Expansion(c: Cell, d: nat, rows: nat, cols: nat, k: nat): (es: seq<Pending>)
    requires k <= 4
    ensures forall e :: e in es ==> Appended(e, c, d, rows, cols)
    ensures forall j :: 0 <= j < k && InBounds(Step(c, j), rows, cols) ==> Pending(Step(c, j), d + 1) in es
  {
    if k == 0 then []
    else
      Expansion(c, d, rows, cols, k - 1) +
      (if InBounds(Step(c, k - 1), rows, cols) then [Pending(Step(c, k - 1), d + 1)] else [])
  }

  /** A visited cell lies in the grid and the footprint does not fit there. */
  ghost predicate Missed(g: Grid, rows: nat, cols: nat, size: nat, v: Cell)
    requires WellFormed(g, rows, cols)
  {
    InBounds(v, rows, cols) && !Fits(g, rows, cols, v, size)
  }

  /** An entry lies in the grid and, until its cell is visited, carries the
      cell's Manhattan distance from the origin. */
  ghost predicate Measured(e: Pending, visited: set<Cell>, origin: Cell, rows: nat, cols: nat)
  {
    InBounds(e.cell, rows, cols) && (e.cell !in visited ==> e.dist == Manhattan(e.cell, origin))
  }

  /** The queue is ordered by distance and spans at most two distances. */
  ghost predicate Layered(queue: seq<Pending>)
  {
    && (forall i, j :: 0 <= i <= j < |queue| ==> queue[i].dist <= queue[j].dist)
    && (forall i :: 0 <= i < |queue| ==> queue[i].dist <= queue[0].dist + 1)
  }

  /** An in-bounds cell closer to the origin than `d`. */
  ghost predicate Near(c: Cell, origin: Cell, rows: nat, cols: nat, d: int)
  {
    InBounds(c, rows, cols) && Manhattan(c, origin) < d
  }

  /** Every in-bounds cell closer to the origin than `d` has been visited. */
  ghost predicate Covered(visited: set<Cell>, origin: Cell, rows: nat, cols: nat, d: int)
  {
    forall c :: Near(c, origin, rows, cols, d) ==> c in visited
  }

  /** What holds of the search each time it is about to pop the queue:
      visited cells did not fit; entries carry their cells' distances; the
      queue is layered; every in-bounds neighbour of a visited cell is
      visited or waiting; every cell closer than the queue's front has been
      visited; and the origin is visited or at the front. */
  ghost predicate SearchInvariant(g: Grid, rows: nat, cols: nat, size: nat, origin: Cell, visited: set<Cell>, queue: seq<Pending>)
    requires WellFormed(g, rows, cols)
  {
    && (forall v :: v in visited ==> Missed(g, rows, cols, size, v))
    && (forall e :: e in queue ==> Measured(e, visited, origin, rows, cols))
    && Layered(queue)
    && Closed(visited, Waiting(queue), rows, cols)
    && (queue != [] ==> Covered(visited, origin, rows, cols, queue[0].dist))
    && (origin in visited || (queue != [] && queue[0].cell == origin))
  }

  lemma SearchStart(g: Grid, rows: nat, cols: nat, size: nat, origin: Cell)
    requires WellFormed(g, rows, cols) && InBounds(origin, rows, cols)
    ensures SearchInvariant(g, rows, cols, size, origin, {}, [Pending(origin, 0)])
  {
  }

  /** Once every waiting cell that is not visited lies farther than `d`,
      every cell within `d` of the origin has been visited. */
  lemma LayerDone(visited: set<Cell>, waiting: set<Cell>, origin: Cell, rows: nat, cols: nat, d: nat)
    requires origin in visited && InBounds(origin, rows, cols)
    requires Closed(visited, waiting, rows, cols)
    requires forall w :: w in waiting && w !in visited ==> Manhattan(w, origin) > d
    ensures Covered(visited, origin, rows, cols, d + 1)
  {
    forall c | Near(c, origin, rows, cols, d + 1) ensures c in visited {
      ReachesAll(visited, waiting, origin, rows, cols, d, c);
    }
  }

  /** When every entry of a queue is farther than `d`, so is every waiting
      cell that is not visited. */
  lemma {:induction false} BeyondLayer(queue: seq<Pending>, visited: set<Cell>, origin: Cell, rows: nat, cols: nat, d: nat)
    requires forall e :: e in queue ==> Measured(e, visited, origin, rows, cols)
    requires forall i :: 0 <= i < |queue| ==> queue[i].dist > d
    ensures forall w :: w in Waiting(queue) && w !in visited ==> Manhattan(w, origin) > d
  {
    forall w | w in Waiting(queue) && w !in visited ensures Manhattan(w, origin) > d {
      var e :| e in queue && e.cell == w;
      var i :| 0 <= i < |queue| && queue[i] == e;
    }
  }

  /** Dropping the front of a layered queue leaves it layered. */
  lemma LayeredTail(queue: seq<Pending>)
    requires Layered(queue) && queue != []
    ensures Layered(queue[1..])
  {
    var rest := queue[1..];
    forall i | 0 <= i < |rest| ensures rest[i].dist <= rest[0].dist + 1 {
      assert rest[i] == queue[i + 1] && rest[0] == queue[1];
    }
    forall i, j | 0 <= i <= j < |rest| ensures rest[i].dist <= rest[j].dist {
      assert rest[i] == queue[i + 1] && rest[j] == queue[j + 1];
    }
  }

  /** Appending entries one farther than the popped front keeps the queue
      layered. */
  lemma {:induction false} LayeredAppend(queue: seq<Pending>, es: seq<Pending>, d: nat)
    requires Layered(queue) && queue != [] && queue[0].dist == d
    requires forall e :: e in es ==> e.dist == d + 1
    ensures Layered(queue[1..] + es)
  {
    var rest := queue[1..];
    var q := rest + es;
    forall i | 0 <= i < |rest| ensures d <= rest[i].dist <= d + 1 {
      assert rest[i] == queue[i + 1];
    }
    forall i | 0 <= i < |q| ensures d <= q[i].dist <= d + 1 && (i >= |rest| ==> q[i].dist == d + 1) {
      if i < |rest| {
        assert q[i] == rest[i];
      } else {
        assert q[i] == es[i - |rest|];
      }
    }
    forall i, j | 0 <= i <= j < |q| ensures q[i].dist <= q[j].dist {
      if j < |rest| {
        assert q[i] == queue[i + 1] && q[j] == queue[j + 1];
      }
    }
  }

  /** Popping an entry whose cell was already visited keeps the invariant. */
  lemma SearchSkip(g: Grid, rows: nat, cols: nat, size: nat, origin: Cell, visited: set<Cell>, queue: seq<Pending>)
    requires WellFormed(g, rows, cols) && InBounds(origin, rows, cols)
    requires SearchInvariant(g, rows, cols, size, origin, visited, queue)
    requires queue != [] && queue[0].cell in visited
    ensures SearchInvariant(g, rows, cols, size, origin, visited, queue[1..])
  {
    var p, rest := queue[0], queue[1..];
    assert origin in visited;
    LayeredTail(queue);
    assert Closed(visited, Waiting(rest), rows, cols) by {
      forall v, k | v in visited && 0 <= k < 4 && InBounds(Step(v, k), rows, cols)
        ensures Step(v, k) in visited || Step(v, k) in Waiting(rest)
      {
        if Step(v, k) !in visited {
          var e :| e in queue && e.cell == Step(v, k);
          assert e in rest;
        }
      }
    }
    if rest != [] && rest[0].dist > p.dist {
      BeyondLayer(rest, visited, origin, rows, cols, p.dist);
      LayerDone(visited, Waiting(rest), origin, rows, cols, p.dist);
    }
  }

  /** After expanding `c` the appended neighbours are waiting, so every
      visited cell still has its neighbours visited or waiting. */
  lemma {:induction false} ExpandClosed(visited: set<Cell>, queue: seq<Pending>, rows: nat, cols: nat)
    requires Closed(visited, Waiting(queue), rows, cols) && queue != []
    ensures Closed(visited + {queue[0].cell},
                   Waiting(queue[1..] + Expansion(queue[0].cell, queue[0].dist, rows, cols, 4)), rows, cols)
  {
    var c, d := queue[0].cell, queue[0].dist;
    var es := Expansion(c, d, rows, cols, 4);
    var visited', queue' := visited + {c}, queue[1..] + es;
    forall v, k | v in visited' && 0 <= k < 4 && InBounds(Step(v, k), rows, cols)
      ensures Step(v, k) in visited' || Step(v, k) in Waiting(queue')
    {
      if v == c {
        assert Pending(Step(c, k), d + 1) in queue';
      } else if Step(v, k) !in visited' {
        var e :| e in queue && e.cell == Step(v, k);
        assert e in queue';
      }
    }
  }

  /** The appended neighbours that are not visited lie one farther from the
      origin than `c`: the nearer ones are covered. */
  lemma {:induction false} ExpandMeasured(visited: set<Cell>, queue: seq<Pending>, origin: Cell, rows: nat, cols: nat)
    requires queue != [] && queue[0].dist == Manhattan(queue[0].cell, origin)
    requires forall e :: e in queue ==> Measured(e, visited, origin, rows, cols)
    requires Covered(visited, origin, rows, cols, queue[0].dist)
    ensures forall e :: e in queue[1..] + Expansion(queue[0].cell, queue[0].dist, rows, cols, 4) ==>
              Measured(e, visited + {queue[0].cell}, origin, rows, cols)
  {
    var c, d := queue[0].cell, queue[0].dist;
    var es := Expansion(c, d, rows, cols, 4);
    var visited' := visited + {c};
    forall e | e in es ensures Measured(e, visited', origin, rows, cols) {
      ManhattanConsistent(c, e.cell, origin);
      if Manhattan(e.cell, origin) < d {
        assert Near(e.cell, origin, rows, cols, d);
      }
    }
    forall e | e in queue[1..] ensures Measured(e, visited', origin, rows, cols) {
      assert e in queue;
    }
  }

  /** After the expansion, every cell nearer than the new front is visited. */
  lemma {:induction false} ExpandCovered(visited: set<Cell>, queue: seq<Pending>, origin: Cell, rows: nat, cols: nat, d: nat)
    requires origin in visited && InBounds(origin, rows, cols)
    requires Closed(visited, Waiting(queue), rows, cols) && Layered(queue)
    requires forall e :: e in queue ==> Measured(e, visited, origin, rows, cols)
    requires Covered(visited, origin, rows, cols, d)
    requires queue != [] ==> d <= queue[0].dist <= d + 1
    ensures queue != [] ==> Covered(visited, origin, rows, cols, queue[0].dist)
  {
    if queue != [] && queue[0].dist > d {
      BeyondLayer(queue, visited, origin, rows, cols, d);
      LayerDone(visited, Waiting(queue), origin, rows, cols, d);
    }
  }

  /** Visiting a cell that does not fit and appending its neighbours keeps
      the invariant. */
  lemma {:induction false} SearchExpand(g: Grid, rows: nat, cols: nat, size: nat, origin: Cell, visited: set<Cell>, queue: seq<Pending>)
    requires WellFormed(g, rows, cols) && InBounds(origin, rows, cols)
    requires SearchInvariant(g, rows, cols, size, origin, visited, queue)
    requires queue != [] && queue[0].cell !in visited && !Fits(g, rows, cols, queue[0].cell, size)
    ensures SearchInvariant(g, rows, cols, size, origin, visited + {queue[0].cell},
                            queue[1..] + Expansion(queue[0].cell, queue[0].dist, rows, cols, 4))
  {
    var c, d := queue[0].cell, queue[0].dist;
    var es := Expansion(c, d, rows, cols, 4);
    var visited', queue' := visited + {c}, queue[1..] + es;
    assert Measured(queue[0], visited, origin, rows, cols);
    ExpandMeasured(visited, queue, origin, rows, cols);
    LayeredAppend(queue, es, d);
    ExpandClosed(visited, queue, rows, cols);
    ExpandFront(queue, es, d);
    ExpandCovered(visited', queue', origin, rows, cols, d);
  }

  /** After the front at distance `d` is taken and entries at `d + 1` are
      appended, the new front lies at `d` or `d + 1`. */
  lemma ExpandFront(queue: seq<Pending>, es: seq<Pending>, d: nat)
    requires Layered(queue) && queue != [] && queue[0].dist == d
    requires forall e :: e in es ==> e.dist == d + 1
    ensures queue[1..] + es != [] ==> d <= (queue[1..] + es)[0].dist <= d + 1
  {
    if |queue| > 1 {
      assert (queue[1..] + es)[0] == queue[1];
    } else if es != [] {
      assert (queue[1..] + es)[0] == es[0] && es[0] in es;
    }
  }

  /** A cell at the front of the queue that is not visited is at least as
      close to the origin as every cell that fits. */
  lemma SearchFound(g: Grid, rows: nat, cols: nat, size: nat, origin: Cell, visited: set<Cell>, queue: seq<Pending>)
    requires WellFormed(g, rows, cols)
    requires SearchInvariant(g, rows, cols, size, origin, visited, queue)
    requires queue != [] && queue[0].cell !in visited
    ensures forall c :: Fits(g, rows, cols, c, size) ==> Manhattan(queue[0].cell, origin) <= Manhattan(c, origin)
  {
    assert Measured(queue[0], visited, origin, rows, cols);
    forall c | Near(c, origin, rows, cols, queue[0].dist) ensures !Fits(g, rows, cols, c, size) {
      assert Missed(g, rows, cols, size, c);
    }
  }

  /** When the queue runs dry every in-bounds cell has been visited, so no
      cell fits. */
  lemma SearchExhausted(g: Grid, rows: nat, cols: nat, size: nat, origin: Cell, visited: set<Cell>)
    requires WellFormed(g, rows, cols) && InBounds(origin, rows, cols)
    requires SearchInvariant(g, rows, cols, size, origin, visited, [])
    ensures forall c :: !Fits(g, rows, cols, c, size)
  {
    forall c | InBounds(c, rows, cols) ensures !Fits(g, rows, cols, c, size) {
      ReachesAll(visited, {}, origin, rows, cols, Manhattan(c, origin), c);
      assert Missed(g, rows, cols, size, c);
    }
  }

  class Rack {
    const rows: nat
    const cols: nat
    var grid: Grid
    var boxLocations: map<int, Location>

    /** The grid has the rack's shape and every recorded footprint lies in it. */
    ghost predicate Valid()
      reads this
    {
      WellFormed(grid, rows, cols) &&
      forall id :: id in boxLocations ==> Inside(Square(boxLocations[id]), rows, cols)
    }

    /** The ownership invariant between the grid and `box_locations`. */
    ghost predicate Consistent()
      reads this
      requires Valid()
    {
      Owned(grid, rows, cols, Footprints(boxLocations))
    }

    constructor (rows: nat, cols: nat)
      ensures this.rows == rows && this.cols == cols
      ensures Valid() && Consistent()
      ensures grid == EmptyGrid(rows, cols) && boxLocations == map[]
    {
      this.rows := rows;
      this.cols := cols;
      grid := EmptyGrid(rows, cols);
      boxLocations := map[];
      new;
      EmptyOwned(rows, cols);
      assert Footprints(map[]) == map[];
    }

    /** `find_nearest_empty_slot`: breadth-first search from the origin for a
        cell where a `modelSize` square fits. */
    method FindNearestEmptySlot(modelSize: nat, originRow: int, originCol: int) returns (slot: Option<Cell>)
      requires Valid() && InBounds(Cell(originRow, originCol), rows, cols)
      ensures slot.Some? ==> Fits(grid, rows, cols, slot.value, modelSize)
      ensures slot.None? <==> forall c :: !Fits(grid, rows, cols, c, modelSize)
      ensures slot.Some? ==> forall c :: Fits(grid, rows, cols, c, modelSize) ==>
                Manhattan(slot.value, Cell(originRow, originCol)) <= Manhattan(c, Cell(originRow, originCol))
      ensures Fits(grid, rows, cols, Cell(originRow, originCol), modelSize) ==> slot == Some(Cell(originRow, originCol))
    {
      var origin := Cell(originRow, originCol);
      ghost var all := AllCells(rows, cols);
      var visited: set<Cell> := {};
      var queue: seq<Pending> := [Pending(origin, 0)];
      SearchStart(grid, rows, cols, modelSize, origin);
      while queue != []
        invariant SearchInvariant(grid, rows, cols, modelSize, origin, visited, queue)
        decreases all - visited, |queue|
      {
        var p := queue[0];
        assert Measured(p, visited, origin, rows, cols);
        if p.cell in visited {
          SearchSkip(grid, rows, cols, modelSize, origin, visited, queue);
          queue := queue[1..];
          continue;
        }
        var fits := CanFit(p.cell.row, p.cell.col, modelSize);
        if fits {
          SearchFound(grid, rows, cols, modelSize, origin, visited, queue);
          assert origin in visited ==> Missed(grid, rows, cols, modelSize, origin);
          assert Fits(grid, rows, cols, p.cell, modelSize);
          return Some(p.cell);
        }
        SearchExpand(grid, rows, cols, modelSize, origin, visited, queue);
        visited := visited + {p.cell};
        var next := Neighbours(p);
        queue := queue[1..] + next;
      }
      SearchExhausted(grid, rows, cols, modelSize, origin, visited);
      return None;
    }

    /** The entries the search appends for the in-bounds neighbours of `p`. */
    method Neighbours(p: Pending) returns (next: seq<Pending>)
      ensures next == Expansion(p.cell, p.dist, rows, cols, 4)
    {
      next := [];
      for k := 0 to 4
        invariant next == Expansion(p.cell, p.dist, rows, cols, k)
      {
        var n := Step(p.cell, k);
        if 0 <= n.row < rows && 0 <= n.col < cols {
          next := next + [Pending(n, p.dist + 1)];
        }
      }
    }

    /** `_can_fit`: the square lies inside the grid and all its cells are empty. */
    method CanFit(row: nat, col: nat, size: nat) returns (fits: bool)
      requires Valid()
      ensures fits == FootprintFree(grid, rows, cols, Rect(row, col, size, size))
    {
      if row + size > rows || col + size > cols {
        return false;
      }
      for r := row to row + size
        invariant forall r', c :: row <= r' < r && col <= c < col + size ==> grid[r'][c] == None
      {
        for c := col to col + size
          invariant forall c' :: col <= c' < c ==> grid[r][c'] == None
        {
          if grid[r][c] != None {
            assert Covers(Rect(row, col, size, size), r, c);
            return false;
          }
        }
      }
      return true;
    }

    /** `place_box`: writes the id into every cell of the square and records
        its location; the caller has found the square free. */
    method PlaceBox(boxId: int, row: nat, col: nat, size: nat)
      requires Valid() && FootprintFree(grid, rows, cols, Rect(row, col, size, size))
      modifies this
      ensures Valid()
      ensures grid == Fill(old(grid), Rect(row, col, size, size), Some(boxId))
      ensures boxLocations == old(boxLocations)[boxId := Location(row, col, size)]
      ensures GridCount(grid) == old(GridCount(grid)) + size * size
      ensures old(Consistent()) && boxId !in old(boxLocations) ==> Consistent()
    {
      ghost var rect := Rect(row, col, size, size);
      for r := row to row + size
        invariant WellFormed(grid, rows, cols) && boxLocations == old(boxLocations)
        invariant forall r', c :: 0 <= r' < rows && 0 <= c < cols ==>
                    grid[r'][c] == if row <= r' < r && col <= c < col + size then Some(boxId) else old(grid)[r'][c]
      {
        for c := col to col + size
          invariant WellFormed(grid, rows, cols) && boxLocations == old(boxLocations)
          invariant forall r', c' :: 0 <= r' < rows && 0 <= c' < cols ==>
                      grid[r'][c'] == if (row <= r' < r && col <= c' < col + size) || (r' == r && col <= c' < c)
                                      then Some(boxId) else old(grid)[r'][c']
        {
          grid := grid[r := grid[r][c := Some(boxId)]];
        }
      }
      ghost var filled := Fill(old(grid), rect, Some(boxId));
      forall r | 0 <= r < rows ensures grid[r] == filled[r] {
        assert forall c :: 0 <= c < cols ==> grid[r][c] == filled[r][c];
      }
      assert grid == filled;
      boxLocations := boxLocations[boxId := Location(row, col, size)];
      FillCount(old(grid), rows, cols, rect, boxId);
      if old(Consistent()) && boxId !in old(boxLocations) {
        PlaceKeepsOwned(old(grid), rows, cols, Footprints(old(boxLocations)), boxId, rect);
        assert Footprints(boxLocations) == Footprints(old(boxLocations))[boxId := rect];
      }
    }

    /** `remove_box`: an unknown id changes nothing and answers false; a
        known id has its square cleared and its entry deleted. */
    method RemoveBox(boxId: int) returns (removed: bool)
      requires Valid()
      modifies this
      ensures Valid()
      ensures removed == (boxId in old(boxLocations))
      ensures !removed ==> grid == old(grid) && boxLocations == old(boxLocations)
      ensures removed ==> grid == Fill(old(grid), Square(old(boxLocations)[boxId]), None)
      ensures removed ==> boxLocations == old(boxLocations) - {boxId}
      ensures old(Consistent()) ==> Consistent()
      ensures removed && old(Consistent()) ==>
                GridCount(grid) + old(boxLocations)[boxId].size * old(boxLocations)[boxId].size == old(GridCount(grid))
    {
      if boxId !in boxLocations {
        return false;
      }
      var loc := boxLocations[boxId];
      ghost var rect := Square(loc);
      for r := loc.row to loc.row + loc.size
        invariant WellFormed(grid, rows, cols) && boxLocations == old(boxLocations)
        invariant forall r', c :: 0 <= r' < rows && 0 <= c < cols ==>
                    grid[r'][c] == if loc.row <= r' < r && loc.col <= c < loc.col + loc.size then None else old(grid)[r'][c]
      {
        for c := loc.col to loc.col + loc.size
          invariant WellFormed(grid, rows, cols) && boxLocations == old(boxLocations)
          invariant forall r', c' :: 0 <= r' < rows && 0 <= c' < cols ==>
                      grid[r'][c'] == if (loc.row <= r' < r && loc.col <= c' < loc.col + loc.size) || (r' == r && loc.col <= c' < c)
                                      then None else old(grid)[r'][c']
        {
          grid := grid[r := grid[r][c := None]];
        }
      }
      ghost var cleared := Fill(old(grid), rect, None);
      forall r | 0 <= r < rows ensures grid[r] == cleared[r] {
        assert forall c :: 0 <= c < cols ==> grid[r][c] == cleared[r][c];
      }
      assert grid == cleared;
      boxLocations := boxLocations - {boxId};
      if old(Consistent()) {
        ghost var fp := Footprints(old(boxLocations));
        ClearKeepsOwned(old(grid), rows, cols, fp, boxId);
        assert Footprints(boxLocations) == fp - {boxId};
        ClearCount(old(grid), rows, cols, rect, boxId);
      }
      return true;
    }

    /** `get_occupied_cells`: counts the cells that hold a box. */
    method OccupiedCells() returns (count: nat)
      requires Valid()
      ensures count == GridCount(grid)
    {
      count := 0;
      for r := 0 to rows
        invariant count == GridCount(grid[..r])
      {
        for c := 0 to cols
          invariant count == GridCount(grid[..r]) + RowCount(grid[r][..c])
        {
          assert grid[r][..c + 1][..c] == grid[r][..c];
          if grid[r][c] != None {
            count := count + 1;
          }
        }
        assert grid[r][..cols] == grid[r];
        assert grid[..r + 1][..r] == grid[..r];
      }
      assert grid[..rows] == grid;
    }
  }

  /** Storing an item in the full application: search from the trolley's
      origin for a slot for a square of side `size`, and place the new box
      there if one is found. The id is the fresh row id the database hands
      out. */
  method StoreItem(rack: Rack, boxId: int, size: nat) returns (slot: Option<Cell>)
    requires rack.Valid() && rack.Consistent() && boxId !in rack.boxLocations
    requires rack.rows == Config.GridRows && rack.cols == Config.GridCols
    modifies rack
    ensures rack.Valid() && rack.Consistent()
    ensures slot.None? ==> rack.grid == old(rack.grid) && rack.boxLocations == old(rack.boxLocations)
    ensures slot.None? ==> forall c :: !Fits(old(rack.grid), rack.rows, rack.cols, c, size)
    ensures slot.Some? ==> Fits(old(rack.grid), rack.rows, rack.cols, slot.value, size)
    ensures slot.Some? ==> forall c :: Fits(old(rack.grid), rack.rows, rack.cols, c, size) ==>
              Manhattan(slot.value, Config.Origin()) <= Manhattan(c, Config.Origin())
    ensures Fits(old(rack.grid), rack.rows, rack.cols, Config.Origin(), size) ==> slot == Some(Config.Origin())
    ensures slot.Some? ==> rack.boxLocations == old(rack.boxLocations)[boxId := Location(slot.value.row, slot.value.col, size)]
    ensures slot.Some? ==> rack.grid == Fill(old(rack.grid), Rect(slot.value.row, slot.value.col, size, size), Some(boxId))
  {
    Config.OriginInGrid();
    slot := rack.FindNearestEmptySlot(size, Config.OriginRow, Config.OriginCol);
    if slot.Some? {
      rack.PlaceBox(boxId, slot.value.row, slot.value.col, size);
    }
  }

  /** Recording a fresh key and deleting it gives back the map. */
  lemma UpdateThenRemove(m: map<int, Location>, k: int, v: Location)
    requires k !in m
    ensures m[k := v] - {k} == m
  {
  }

  /** Placing a fresh id where its square fits and removing it again leaves
      the rack exactly as it was. */
  method PlaceThenRemove(rack: Rack, boxId: int, row: nat, col: nat, size: nat) returns (removed: bool)
    requires rack.Valid() && boxId !in rack.boxLocations
    requires FootprintFree(rack.grid, rack.rows, rack.cols, Rect(row, col, size, size))
    modifies rack
    ensures removed
    ensures rack.grid == old(rack.grid) && rack.boxLocations == old(rack.boxLocations)
  {
    ghost var g0, m0 := rack.grid, rack.boxLocations;
    rack.PlaceBox(boxId, row, col, size);
    removed := rack.RemoveBox(boxId);
    FillRoundTrip(g0, rack.rows, rack.cols, Rect(row, col, size, size), boxId);
    UpdateThenRemove(m0, boxId, Location(row, col, size));
  }
}
