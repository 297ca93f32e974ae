/** The rectangular-footprint rack of the prototype game: boxes are `width`
    rows by `length` columns, ids come from a counter, and `box_order`
    remembers the order in which the stored boxes arrived, so that the last
    (LIFO) and first (FIFO) arrivals can be picked. */
module GameRack {

  import opened Options
  import opened Cells
  import opened Occupancy

  /** A box to be stored. Its id is set when the rack places it. */
  class Box {
    const length: nat
    const width: nat
    var boxId: Option<int>

    constructor (length: nat, width: nat)
      ensures this.length == length && this.width == width && boxId == None
    {
      this.length := length;
      this.width := width;
      boxId := None;
    }
  }

  /** The footprint of a box anchored at `pos`: `width` rows by `length` columns. */
  function Footprint(box: Box, pos: Cell): Rect
  {
    Rect(pos.row, pos.col, box.width, box.length)
  }

  function Footprints(boxes: map<int, Box>, positions: map<int, Cell>): (fp: map<int, Rect>)
    ensures fp.Keys == boxes.Keys * positions.Keys
    ensures forall id :: id in fp ==> fp[id] == Footprint(boxes[id], positions[id])
  {
    map id | id in boxes && id in positions :: Footprint(boxes[id], positions[id])
  }

  predicate Increasing(s: seq<int>)
  {
    forall i, j :: 0 <= i < j < |s| ==> s[i] < s[j]
  }

  /** The ends of an increasing sequence are its least and greatest elements. */
  lemma IncreasingEnds(s: seq<int>)
    requires Increasing(s) && s != []
    ensures forall x :: x in s ==> s[0] <= x <= s[|s| - 1]
  {
    forall x | x in s ensures s[0] <= x <= s[|s| - 1] {
      var i :| 0 <= i < |s| && s[i] == x;
    }
  }

  /** Python's `list.remove(x)`: drops the first occurrence of `x`, if any. */
  function RemoveFirst(s: seq<int>, x: int): seq<int>
  {
    if s == [] then []
    else if s[0] == x then s[1..]
    else [s[0]] + RemoveFirst(s[1..], x)
  }

  /** `remove` takes away exactly one occurrence of `x` when there is one. */
  lemma {:induction false} RemoveFirstMultiset(s: seq<int>, x: int)
    ensures multiset(RemoveFirst(s, x)) == multiset(s) - multiset{x}
  {
    if s != [] {
      assert s == [s[0]] + s[1..];
      if s[0] != x {
        RemoveFirstMultiset(s[1..], x);
      }
    }
  }

  lemma {:induction false} RemoveFirstIncreasing(s: seq<int>, x: int)
    requires Increasing(s)
    ensures Increasing(RemoveFirst(s, x))
    ensures x !in RemoveFirst(s, x)
    ensures forall y :: y in RemoveFirst(s, x) <==> y in s && y != x
  {
    if s != [] && s[0] != x {
      var t := s[1..];
      assert Increasing(t) by {
        forall i, j | 0 <= i < j < |t| ensures t[i] < t[j] {
          assert t[i] == s[i + 1] && t[j] == s[j + 1];
        }
      }
      RemoveFirstIncreasing(t, x);
      RemoveFirstMultiset(t, x);
      var r := RemoveFirst(t, x);
      forall y | y in r ensures s[0] < y {
        var j :| 0 <= j < |t| && t[j] == y;
        assert s[j + 1] == y;
      }
      assert [s[0]] + r == RemoveFirst(s, x);
    } else if s != [] {
      forall y | y in s[1..] ensures y != x {
        var j :| 0 <= j < |s[1..]| && s[1..][j] == y;
        assert s[j + 1] == y;
      }
    }
  }

  /** The footprint area of one recorded box. */
  function BoxArea(fp: map<int, Rect>, id: int): nat
  {
    if id in fp then fp[id].height * fp[id].width else 0
  }

  /** The total footprint area of the boxes in `order`. */
  function Area(order: seq<int>, fp: map<int, Rect>): nat
  {
    if order == [] then 0
    else BoxArea(fp, order[0]) + Area(order[1..], fp)
  }

  /** The total area of the boxes in `order` only depends on their own
      footprints. */
  lemma {:induction false} AreaFrame(order: seq<int>, fp: map<int, Rect>, fp': map<int, Rect>)
    requires forall id :: id in order ==> BoxArea(fp, id) == BoxArea(fp', id)
    ensures Area(order, fp) == Area(order, fp')
  {
    if order != [] {
      assert order[0] in order;
      assert forall id :: id in order[1..] ==> id in order;
      AreaFrame(order[1..], fp, fp');
    }
  }

  lemma {:induction false} AreaAppend(order: seq<int>, fp: map<int, Rect>, id: int)
    ensures Area(order + [id], fp) == Area(order, fp) + BoxArea(fp, id)
  {
    if order == [] {
      assert [] + [id] == [id];
    } else {
      assert (order + [id])[1..] == order[1..] + [id];
      AreaAppend(order[1..], fp, id);
    }
  }

  lemma {:induction false} AreaRemove(order: seq<int>, fp: map<int, Rect>, id: int)
    requires id in order
    ensures Area(RemoveFirst(order, id), fp) + BoxArea(fp, id) == Area(order, fp)
  {
    if order[0] != id {
      AreaRemove(order[1..], fp, id);
      assert RemoveFirst(order, id)[1..] == RemoveFirst(order[1..], id);
    }
  }

  /** Where a box of `width` rows and `length` columns can go. */
  ghost predicate Placeable(g: Grid, rows: nat, cols: nat, width: nat, length: nat, p: Cell)
    requires WellFormed(g, rows, cols)
  {
    FootprintFree(g, rows, cols, Rect(p.row, p.col, width, length))
  }

  /** `p` comes before `q` in the row-major scan. */
  predicate Before(p: Cell, q: Cell)
  {
    p.row < q.row || (p.row == q.row && p.col < q.col)
  }

  /** The squared Euclidean distance; its order is that of the distance. */
  function SqDist(p: Cell, origin: Cell): nat
  {
    (p.row - origin.row) * (p.row - origin.row) + (p.col - origin.col) * (p.col - origin.col)
  }

  /** The bookkeeping invariant of the rack, on its field values: `boxes`,
      `box_positions` and `box_order` list the same ids, `box_order` lists
      them in increasing (arrival) order without repeats, every id lies
      below the counter, the grid holds exactly the recorded footprints, and
      the occupied cells number the total footprint area. */
  ghost predicate Bookkeeping(g: Grid, rows: nat, cols: nat, boxes: map<int, Box>, positions: map<int, Cell>,
                              order: seq<int>, next: int)
  {
    && WellFormed(g, rows, cols)
    && boxes.Keys == positions.Keys
    && (forall id :: id in boxes <==> id in order)
    && Increasing(order)
    && 1 <= next
    && (forall id :: id in boxes ==> 1 <= id < next)
    && Owned(g, rows, cols, Footprints(boxes, positions))
    && GridCount(g) == Area(order, Footprints(boxes, positions))
  }

  class Rack {
    const rows: nat
    const cols: nat
    var grid: Grid
    var boxes: map<int, Box>
    var boxPositions: map<int, Cell>
    var nextBoxId: int
    var boxOrder: seq<int>

    ghost predicate Valid()
      reads this
    {
      Bookkeeping(grid, rows, cols, boxes, boxPositions, boxOrder, nextBoxId)
    }

    constructor (rows: nat, cols: nat)
      ensures this.rows == rows && this.cols == cols && Valid()
      ensures grid == EmptyGrid(rows, cols) && boxes == map[] && boxPositions == map[]
      ensures nextBoxId == 1 && boxOrder == []
    {
      this.rows := rows;
      this.cols := cols;
      grid := EmptyGrid(rows, cols);
      boxes := map[];
      boxPositions := map[];
      nextBoxId := 1;
      boxOrder := [];
      new;
      EmptyOwned(rows, cols);
      assert Footprints(map[], map[]) == map[];
      EmptyCount(rows, cols);
    }

    /** `can_place_box`: the footprint lies inside the grid and is empty. */
    method CanPlaceBox(box: Box, startRow: nat, startCol: nat) returns (ok: bool)
      requires Valid()
      ensures ok == Placeable(grid, rows, cols, box.width, box.length, Cell(startRow, startCol))
    {
      var endRow, endCol := startRow + box.width, startCol + box.length;
      if endRow > rows || endCol > cols {
        return false;
      }
      for r := startRow to endRow
        invariant forall r', c :: startRow <= r' < r && startCol <= c < endCol ==> grid[r'][c] == None
      {
        for c := startCol to endCol
          invariant forall c' :: startCol <= c' < c ==> grid[r][c'] == None
        {
          if grid[r][c] != None {
            assert Covers(Rect(startRow, startCol, box.width, box.length), r, c);
            return false;
          }
        }
      }
      return true;
    }

    /** `place_box`: refuses a footprint that does not fit; otherwise gives
        the box the next id, fills its footprint, records it and appends its
        id to the arrival order. */
    method PlaceBox(box: Box, startRow: nat, startCol: nat) returns (placed: bool)
      requires Valid()
      modifies this, box
      ensures Valid()
      ensures placed == old(Placeable(grid, rows, cols, box.width, box.length, Cell(startRow, startCol)))
      ensures !placed ==> unchanged(this) && unchanged(box)
      ensures placed ==> box.boxId == Some(old(nextBoxId)) && nextBoxId == old(nextBoxId) + 1
      ensures placed ==> grid == Fill(old(grid), Rect(startRow, startCol, box.width, box.length), Some(old(nextBoxId)))
      ensures placed ==> boxes == old(boxes)[old(nextBoxId) := box]
      ensures placed ==> boxPositions == old(boxPositions)[old(nextBoxId) := Cell(startRow, startCol)]
      ensures placed ==> boxOrder == old(boxOrder) + [old(nextBoxId)]
    {
      placed := CanPlaceBox(box, startRow, startCol);
      if !placed {
        return;
      }
      var id := nextBoxId;
      box.boxId := Some(id);
      nextBoxId := nextBoxId + 1;
      FillFootprint(Rect(startRow, startCol, box.width, box.length), Some(id));
      boxes := boxes[id := box];
      boxPositions := boxPositions[id := Cell(startRow, startCol)];
      boxOrder := boxOrder + [id];
      PlaceKeeps(old(grid), rows, cols, old(boxes), old(boxPositions), old(boxOrder), id, box, Cell(startRow, startCol));
    }

    /** `remove_box`: an unknown id answers false and changes nothing; a
        known id has its footprint cleared and is deleted from `boxes`,
        `box_positions` and `box_order`. */
    method RemoveBox(boxId: int) returns (removed: bool)
      requires Valid()
      modifies this
      ensures Valid()
      ensures removed == (boxId in old(boxes))
      ensures !removed ==> unchanged(this)
      ensures removed ==> grid == Fill(old(grid), Footprint(old(boxes)[boxId], old(boxPositions)[boxId]), None)
      ensures removed ==> boxes == old(boxes) - {boxId} && boxPositions == old(boxPositions) - {boxId}
      ensures removed ==> boxOrder == RemoveFirst(old(boxOrder), boxId) && nextBoxId == old(nextBoxId)
    {
      if boxId !in boxes {
        return false;
      }
      var pos := boxPositions[boxId];
      var box := boxes[boxId];
      var rect := Footprint(box, pos);
      RemoveKeeps(grid, rows, cols, boxes, boxPositions, boxOrder, nextBoxId, boxId);
      FillFootprint(rect, None);
      boxes, boxPositions, boxOrder := boxes - {boxId}, boxPositions - {boxId}, RemoveFirst(boxOrder, boxId);
      return true;
    }

    /** The nested loops of `place_box` and `remove_box` that write `v`
        into every cell of a footprint inside the grid. */
    method FillFootprint(rect: Rect, v: Option<int>)
      requires WellFormed(grid, rows, cols) && Inside(rect, rows, cols)
      modifies this
      ensures grid == Fill(old(grid), rect, v)
      ensures boxes == old(boxes) && boxPositions == old(boxPositions)
      ensures nextBoxId == old(nextBoxId) && boxOrder == old(boxOrder)
    {
      var startRow, startCol := rect.row, rect.col;
      var endRow, endCol := startRow + rect.height, startCol + rect.width;
      for r := startRow to endRow
        invariant WellFormed(grid, rows, cols)
        invariant boxes == old(boxes) && boxPositions == old(boxPositions)
        invariant nextBoxId == old(nextBoxId) && boxOrder == old(boxOrder)
        invariant forall r', c :: 0 <= r' < rows && 0 <= c < cols ==>
                    grid[r'][c] == if startRow <= r' < r && startCol <= c < endCol then v else old(grid)[r'][c]
      {
        for c := startCol to endCol
          invariant WellFormed(grid, rows, cols)
          invariant boxes == old(boxes) && boxPositions == old(boxPositions)
          invariant nextBoxId == old(nextBoxId) && boxOrder == old(boxOrder)
          invariant forall r', c' :: 0 <= r' < rows && 0 <= c' < cols ==>
                      grid[r'][c'] == if (startRow <= r' < r && startCol <= c' < endCol) || (r' == r && startCol <= c' < c)
                                      then v else old(grid)[r'][c']
        {
          grid := grid[r := grid[r][c := v]];
        }
      }
      ghost var filled := Fill(old(grid), rect, v);
      forall r | 0 <= r < rows ensures grid[r] == filled[r] {
        assert forall c :: 0 <= c < cols ==> grid[r][c] == filled[r][c];
      }
    }

    /** `get_lifo_box`: the most recently placed box still stored. */
    function LifoBox(): (top: Option<int>)
      reads this
      requires Valid()
      ensures top.None? <==> boxes.Keys == {}
      ensures top.Some? ==> top.value in boxes && forall id :: id in boxes ==> id <= top.value
    {
      if boxOrder == [] then
        assert forall id :: id !in boxes.Keys;
        None
      else
        IncreasingEnds(boxOrder);
        assert boxOrder[0] in boxOrder;
        Some(boxOrder[|boxOrder| - 1])
    }

    /** `get_fifo_box`: the earliest placed box still stored. */
    function FifoBox(): (bottom: Option<int>)
      reads this
      requires Valid()
      ensures bottom.None? <==> boxes.Keys == {}
      ensures bottom.Some? ==> bottom.value in boxes && forall id :: id in boxes ==> bottom.value <= id
    {
      if boxOrder == [] then
        assert forall id :: id !in boxes.Keys;
        None
      else
        IncreasingEnds(boxOrder);
        assert boxOrder[0] in boxOrder;
        Some(boxOrder[0])
    }

    /** `get_occupied_cells`: the number of non-empty cells, which is the
        total footprint area of the stored boxes. */
    function OccupiedCells(): (n: nat)
      reads this
      requires Valid()
      ensures n == Area(boxOrder, Footprints(boxes, boxPositions))
    {
      GridCount(grid)
    }

    /** `find_closest_available_location`: scans anchors in row-major order
        and keeps a fitting one strictly closer to the origin than any seen
        before. */
    method FindClosestAvailableLocation(box: Box, originRow: int, originCol: int) returns (loc: Option<Cell>)
      requires Valid()
      ensures loc.Some? ==> 0 <= loc.value.row && 0 <= loc.value.col
      ensures loc.Some? ==> Placeable(grid, rows, cols, box.width, box.length, loc.value)
      ensures loc.None? <==> forall p :: !Placeable(grid, rows, cols, box.width, box.length, p)
      ensures loc.Some? ==> forall p :: Placeable(grid, rows, cols, box.width, box.length, p) ==>
                SqDist(loc.value, Cell(originRow, originCol)) <= SqDist(p, Cell(originRow, originCol))
      ensures loc.Some? ==> forall p :: Placeable(grid, rows, cols, box.width, box.length, p) && Before(p, loc.value) ==>
                SqDist(loc.value, Cell(originRow, originCol)) < SqDist(p, Cell(originRow, originCol))
    {
      var origin := Cell(originRow, originCol);
      loc := None;
      var minDistance := 0;
      var row := 0;
      while row < rows - box.width + 1
        invariant 0 <= row
        invariant Scanned(grid, rows, cols, box.width, box.length, origin, loc, minDistance, Cell(row, 0))
      {
        var col := 0;
        while col < cols - box.length + 1
          invariant 0 <= col
          invariant Scanned(grid, rows, cols, box.width, box.length, origin, loc, minDistance, Cell(row, col))
        {
          var fits := CanPlaceBox(box, row, col);
          ghost var loc0, min0 := loc, minDistance;
          if fits {
            var distance := SqDist(Cell(row, col), origin);
            if loc.None? || distance < minDistance {
              minDistance := distance;
              loc := Some(Cell(row, col));
            }
          }
          ScanNext(grid, rows, cols, box.width, box.length, origin, loc0, min0, Cell(row, col), loc, minDistance);
          col := col + 1;
        }
        ScanRow(grid, rows, cols, box.width, box.length, origin, loc, minDistance, row, col);
        row := row + 1;
      }
      ScanEnd(grid, rows, cols, box.width, box.length, origin, loc, minDistance, row);
    }
  }

  /** The scan so far: `loc` is the first anchor of least distance among the
      fitting anchors before `cursor`, and `None` if there is none. */
  ghost predicate Scanned(g: Grid, rows: nat, cols: nat, width: nat, length: nat, origin: Cell,
                          loc: Option<Cell>, minDistance: int, cursor: Cell)
    requires WellFormed(g, rows, cols)
  {
    && (loc.None? <==> forall p :: Before(p, cursor) ==> !Placeable(g, rows, cols, width, length, p))
    && (loc.Some? ==>
          && Before(loc.value, cursor)
          && Placeable(g, rows, cols, width, length, loc.value)
          && minDistance == SqDist(loc.value, origin)
          && (forall p :: Before(p, cursor) && Placeable(g, rows, cols, width, length, p) ==>
                minDistance <= SqDist(p, origin))
          && (forall p :: Before(p, loc.value) && Placeable(g, rows, cols, width, length, p) ==>
                minDistance < SqDist(p, origin)))
  }

  /** Examining the anchor at `cursor` and keeping it only when it fits and
      is strictly closer extends the scan by one anchor. */
  lemma ScanNext(g: Grid, rows: nat, cols: nat, width: nat, length: nat, origin: Cell,
                 loc: Option<Cell>, minDistance: int, cursor: Cell, loc': Option<Cell>, minDistance': int)
    requires WellFormed(g, rows, cols) && Scanned(g, rows, cols, width, length, origin, loc, minDistance, cursor)
    requires if Placeable(g, rows, cols, width, length, cursor) && (loc.None? || SqDist(cursor, origin) < minDistance)
             then loc' == Some(cursor) && minDistance' == SqDist(cursor, origin)
             else loc' == loc && minDistance' == minDistance
    ensures Scanned(g, rows, cols, width, length, origin, loc', minDistance', Cell(cursor.row, cursor.col + 1))
  {
    var next := Cell(cursor.row, cursor.col + 1);
    assert forall p: Cell :: Before(p, next) <==> Before(p, cursor) || p == cursor;
  }

  /** Past the last anchor of a row no anchor of that row fits, so the scan
      moves on to the next row. */
  lemma ScanRow(g: Grid, rows: nat, cols: nat, width: nat, length: nat, origin: Cell,
                loc: Option<Cell>, minDistance: int, row: int, col: int)
    requires WellFormed(g, rows, cols) && Scanned(g, rows, cols, width, length, origin, loc, minDistance, Cell(row, col))
    requires 0 <= col && cols < col + length
    ensures Scanned(g, rows, cols, width, length, origin, loc, minDistance, Cell(row + 1, 0))
  {
    forall p: Cell | Before(p, Cell(row + 1, 0)) && !Before(p, Cell(row, col))
      ensures !Placeable(g, rows, cols, width, length, p)
    {
      assert !Inside(Rect(p.row, p.col, width, length), rows, cols);
    }
  }

  /** Past the last row of anchors nothing fits, so the scan has seen every
      anchor that does. */
  lemma ScanEnd(g: Grid, rows: nat, cols: nat, width: nat, length: nat, origin: Cell,
                loc: Option<Cell>, minDistance: int, row: int)
    requires WellFormed(g, rows, cols) && Scanned(g, rows, cols, width, length, origin, loc, minDistance, Cell(row, 0))
    requires 0 <= row && rows < row + width
    ensures forall p :: Placeable(g, rows, cols, width, length, p) ==> Before(p, Cell(row, 0))
  {
  }

  lemma EmptyCount(rows: nat, cols: nat)
    ensures GridCount(EmptyGrid(rows, cols)) == 0
  {
    var g := EmptyGrid(rows, cols);
    ClearCountZero(g, rows, cols);
  }

  lemma {:induction false} ClearCountZero(g: Grid, rows: nat, cols: nat)
    requires forall r, c :: 0 <= r < |g| && 0 <= c < |g[r]| ==> g[r][c] == None
    ensures GridCount(g) == 0
    decreases |g|
  {
    if g != [] {
      ClearCountZero(g[..|g| - 1], rows, cols);
      RowCountZero(g[|g| - 1]);
    }
  }

  lemma {:induction false} RowCountZero(s: seq<Option<int>>)
    requires forall c :: 0 <= c < |s| ==> s[c] == None
    ensures RowCount(s) == 0
    decreases |s|
  {
    if s != [] {
      RowCountZero(s[..|s| - 1]);
    }
  }

  /** The bookkeeping facts `place_box` re-establishes, on the values
      before and after. */
  lemma PlaceKeeps(g: Grid, rows: nat, cols: nat, boxes: map<int, Box>, positions: map<int, Cell>, order: seq<int>,
                   id: int, box: Box, pos: Cell)
    requires Bookkeeping(g, rows, cols, boxes, positions, order, id)
    requires FootprintFree(g, rows, cols, Footprint(box, pos))
    ensures Bookkeeping(Fill(g, Footprint(box, pos), Some(id)), rows, cols, boxes[id := box], positions[id := pos],
                        order + [id], id + 1)
  {
    var rect := Footprint(box, pos);
    var fp := Footprints(boxes, positions);
    var fp' := Footprints(boxes[id := box], positions[id := pos]);
    assert fp' == fp[id := rect];
    PlaceKeepsOwned(g, rows, cols, fp, id, rect);
    FillCount(g, rows, cols, rect, id);
    AreaFrame(order, fp, fp');
    AreaAppend(order, fp', id);
    IncreasingAppend(order, id);
  }

  /** Appending an id above every listed one keeps the order increasing. */
  lemma IncreasingAppend(order: seq<int>, id: int)
    requires Increasing(order) && forall x :: x in order ==> x < id
    ensures Increasing(order + [id])
  {
    var o := order + [id];
    forall i, j | 0 <= i < j < |o| ensures o[i] < o[j] {
      if j < |order| {
        assert o[i] == order[i] && o[j] == order[j];
      } else {
        assert o[i] == order[i] && order[i] in order;
      }
    }
  }

  /** The bookkeeping facts `remove_box` re-establishes, on the values
      before and after. */
  lemma {:induction false} RemoveKeeps(g: Grid, rows: nat, cols: nat, boxes: map<int, Box>, positions: map<int, Cell>, order: seq<int>,
                    next: int, id: int)
    requires Bookkeeping(g, rows, cols, boxes, positions, order, next)
    requires id in boxes
    ensures Inside(Footprint(boxes[id], positions[id]), rows, cols)
    ensures Bookkeeping(Fill(g, Footprint(boxes[id], positions[id]), None), rows, cols, boxes - {id}, positions - {id},
                        RemoveFirst(order, id), next)
  {
    var fp := Footprints(boxes, positions);
    assert fp[id] == Footprint(boxes[id], positions[id]);
    var fp' := Footprints(boxes - {id}, positions - {id});
    assert fp' == fp - {id};
    ClearKeepsOwned(g, rows, cols, fp, id);
    ClearCount(g, rows, cols, fp[id], id);
    RemoveFirstIncreasing(order, id);
    var rest := RemoveFirst(order, id);
    AreaFrame(rest, fp, fp');
    AreaRemove(order, fp, id);
  }
}
