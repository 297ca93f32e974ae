/** The rack's occupancy grid as a value: `rows` lists of `cols` cells, each
    empty (`None`) or holding a box id, and the rectangular footprints boxes
    occupy in it. Both rack classes keep their grid in this form. */
module Occupancy {

  import opened Options
  import opened Cells

  type Grid = seq<seq<Option<int>>>

  /** A footprint: `height` rows by `width` columns, anchored at its top-left cell. */
  datatype Rect = Rect(row: int, col: int, height: nat, width: nat)

  predicate WellFormed(g: Grid, rows: nat, cols: nat)
  {
    |g| == rows && forall r :: 0 <= r < rows ==> |g[r]| == cols
  }

  /** The grid the constructors build: every cell empty. */
  function EmptyGrid(rows: nat, cols: nat): (g: Grid)
    ensures WellFormed(g, rows, cols)
    ensures forall r, c :: 0 <= r < rows && 0 <= c < cols ==> g[r][c] == None
  {
    seq(rows, _ => seq(cols, _ => None))
  }

  predicate Covers(rect: Rect, r: int, c: int)
  {
    rect.row <= r < rect.row + rect.height && rect.col <= c < rect.col + rect.width
  }

  predicate Inside(rect: Rect, rows: nat, cols: nat)
  {
    0 <= rect.row && 0 <= rect.col && rect.row + rect.height <= rows && rect.col + rect.width <= cols
  }

  /** The footprint lies inside the grid and every cell of it is empty. */
  ghost predicate FootprintFree(g: Grid, rows: nat, cols: nat, rect: Rect)
    requires WellFormed(g, rows, cols)
  {
    Inside(rect, rows, cols) && forall r, c :: Covers(rect, r, c) ==> g[r][c] == None
  }

  /** The grid with every cell of `rect` set to `v` and every other cell as it was. */
  function Fill(g: Grid, rect: Rect, v: Option<int>): (g': Grid)
    ensures |g'| == |g|
    ensures forall r :: 0 <= r < |g| ==> |g'[r]| == |g[r]|
    ensures forall r, c {:trigger g'[r][c]} :: 0 <= r < |g| && 0 <= c < |g[r]| ==>
              g'[r][c] == if Covers(rect, r, c) then v else g[r][c]
  {
    seq(|g|, r requires 0 <= r < |g| =>
      seq(|g[r]|, c requires 0 <= c < |g[r]| => if Covers(rect, r, c) then v else g[r][c]))
  }

  /** Number of occupied cells of a row, counted from its end. */
  function RowCount(s: seq<Option<int>>): (n: nat)
    ensures n <= |s|
  {
    if s == [] then 0 else RowCount(s[..|s| - 1]) + (if s[|s| - 1].Some? then 1 else 0)
  }

  /** Number of occupied cells of the grid (`get_occupied_cells`). */
  function GridCount(g: Grid): nat
  {
    if g == [] then 0 else GridCount(g[..|g| - 1]) + RowCount(g[|g| - 1])
  }

  /** Turning `hi - lo` empty cells of a row into occupied ones, and nothing
      else, raises its count by `hi - lo`. */
  lemma {:induction false} RowCountReplace(a: seq<Option<int>>, b: seq<Option<int>>, lo: nat, hi: nat)
    requires |a| == |b| && lo <= hi <= |a|
    requires forall i :: 0 <= i < |a| && !(lo <= i < hi) ==> a[i] == b[i]
    requires forall i :: lo <= i < hi ==> a[i] == None && b[i] != None
    ensures RowCount(b) == RowCount(a) + (hi - lo)
    decreases |a|
  {
    if |a| > 0 {
      var n := |a| - 1;
      var lo', hi' := if lo < n then lo else n, if hi < n then hi else n;
      RowCountReplace(a[..n], b[..n], lo', hi');
    }
  }

  lemma MulSucc(k: nat, w: nat)
    ensures (k + 1) * w == k * w + w
  {
  }

  /** Raising the count of the `n` rows from `lo` by `w` each, and changing
      no other row, raises the grid's count by `n * w`. */
  lemma {:induction false} GridCountReplace(g: Grid, g': Grid, lo: nat, n: nat, w: nat)
    requires |g| == |g'| && lo + n <= |g|
    requires forall r :: 0 <= r < |g| && !(lo <= r < lo + n) ==> g[r] == g'[r]
    requires forall r :: lo <= r < lo + n ==> RowCount(g'[r]) == RowCount(g[r]) + w
    ensures GridCount(g') == GridCount(g) + n * w
    decreases |g|
  {
    if |g| > 0 {
      var m := |g| - 1;
      var a, b := g[..m], g'[..m];
      assert GridCount(g) == GridCount(a) + RowCount(g[m]);
      assert GridCount(g') == GridCount(b) + RowCount(g'[m]);
      if m < lo {
        GridCountReplace(a, b, m, 0, w);
      } else if m < lo + n {
        GridCountReplace(a, b, lo, n - 1, w);
        MulSucc(n - 1, w);
      } else {
        GridCountReplace(a, b, lo, n, w);
      }
    }
  }

  /** Rows a footprint does not reach are left as they were. */
  lemma FillOtherRow(g: Grid, rect: Rect, v: Option<int>, r: int)
    requires 0 <= r < |g| && !(rect.row <= r < rect.row + rect.height)
    ensures Fill(g, rect, v)[r] == g[r]
  {
    var g' := Fill(g, rect, v);
    assert forall c :: 0 <= c < |g[r]| ==> g'[r][c] == g[r][c];
  }

  /** Filling a free footprint raises the count of each row it crosses by
      its width. */
  lemma FillRow(g: Grid, rows: nat, cols: nat, rect: Rect, id: int, r: int)
    requires WellFormed(g, rows, cols) && FootprintFree(g, rows, cols, rect)
    requires rect.row <= r < rect.row + rect.height
    ensures RowCount(Fill(g, rect, Some(id))[r]) == RowCount(g[r]) + rect.width
  {
    var a, b := g[r], Fill(g, rect, Some(id))[r];
    assert forall c :: rect.col <= c < rect.col + rect.width ==> a[c] == None && b[c] == Some(id) by {
      forall c | rect.col <= c < rect.col + rect.width ensures a[c] == None && b[c] == Some(id) {
        assert Covers(rect, r, c);
      }
    }
    RowCountReplace(a, b, rect.col, rect.col + rect.width);
  }

  /** Filling a free footprint raises the occupied count by its area. */
  lemma {:induction false} FillCount(g: Grid, rows: nat, cols: nat, rect: Rect, id: int)
    requires WellFormed(g, rows, cols) && FootprintFree(g, rows, cols, rect)
    ensures GridCount(Fill(g, rect, Some(id))) == GridCount(g) + rect.height * rect.width
  {
    var g' := Fill(g, rect, Some(id));
    var lo, hi := rect.row, rect.row + rect.height;
    assert forall r :: 0 <= r < |g| && !(lo <= r < hi) ==> g[r] == g'[r] by {
      forall r | 0 <= r < |g| && !(lo <= r < hi) ensures g[r] == g'[r] {
        FillOtherRow(g, rect, Some(id), r);
      }
    }
    assert forall r :: lo <= r < hi ==> RowCount(g'[r]) == RowCount(g[r]) + rect.width by {
      forall r | lo <= r < hi ensures RowCount(g'[r]) == RowCount(g[r]) + rect.width {
        FillRow(g, rows, cols, rect, id, r);
      }
    }
    GridCountReplace(g, g', rect.row, rect.height, rect.width);
  }

  /** Clearing a footprint whose cells all hold `id` lowers the occupied
      count by its area. */
  lemma {:induction false} ClearCount(g: Grid, rows: nat, cols: nat, rect: Rect, id: int)
    requires WellFormed(g, rows, cols) && Inside(rect, rows, cols)
    requires forall r, c :: Covers(rect, r, c) ==> g[r][c] == Some(id)
    ensures GridCount(Fill(g, rect, None)) + rect.height * rect.width == GridCount(g)
  {
    var g' := Fill(g, rect, None);
    assert FootprintFree(g', rows, cols, rect);
    var g'' := Fill(g', rect, Some(id));
    forall r | 0 <= r < |g| ensures g''[r] == g[r] {
      assert forall c :: 0 <= c < |g[r]| ==> g''[r][c] == g[r][c];
    }
    assert g'' == g;
    FillCount(g', rows, cols, rect, id);
  }

  /** Filling a free footprint and then clearing it gives back the grid. */
  lemma FillRoundTrip(g: Grid, rows: nat, cols: nat, rect: Rect, id: int)
    requires WellFormed(g, rows, cols) && FootprintFree(g, rows, cols, rect)
    ensures Fill(Fill(g, rect, Some(id)), rect, None) == g
  {
    var g' := Fill(Fill(g, rect, Some(id)), rect, None);
    forall r | 0 <= r < |g| ensures g'[r] == g[r] {
      assert forall c :: 0 <= c < |g[r]| ==> g'[r][c] == g[r][c];
    }
  }

  /** The ownership invariant of a rack: every recorded footprint lies in the
      grid and all its cells hold its id, and every occupied cell belongs to
      the footprint recorded for the id it holds. So no cell is claimed by
      two boxes. */
  ghost predicate Owned(g: Grid, rows: nat, cols: nat, fp: map<int, Rect>)
    requires WellFormed(g, rows, cols)
  {
    (forall id :: id in fp ==> Inside(fp[id], rows, cols)) &&
    (forall id, r, c :: id in fp && Covers(fp[id], r, c) ==> g[r][c] == Some(id)) &&
    (forall r, c :: 0 <= r < rows && 0 <= c < cols && g[r][c].Some? ==>
       g[r][c].value in fp && Covers(fp[g[r][c].value], r, c))
  }

  lemma EmptyOwned(rows: nat, cols: nat)
    ensures Owned(EmptyGrid(rows, cols), rows, cols, map[])
  {
  }

  /** Placing a fresh id on a free footprint keeps the ownership invariant. */
  lemma PlaceKeepsOwned(g: Grid, rows: nat, cols: nat, fp: map<int, Rect>, id: int, rect: Rect)
    requires WellFormed(g, rows, cols) && Owned(g, rows, cols, fp)
    requires id !in fp && FootprintFree(g, rows, cols, rect)
    ensures WellFormed(Fill(g, rect, Some(id)), rows, cols)
    ensures Owned(Fill(g, rect, Some(id)), rows, cols, fp[id := rect])
  {
    var g' := Fill(g, rect, Some(id));
    var fp' := fp[id := rect];
    forall other, r, c | other in fp' && Covers(fp'[other], r, c) ensures g'[r][c] == Some(other) {
      if other != id {
        assert g[r][c] == Some(other);
      }
    }
  }

  /** Clearing a recorded footprint and forgetting its id keeps the
      ownership invariant. */
  lemma ClearKeepsOwned(g: Grid, rows: nat, cols: nat, fp: map<int, Rect>, id: int)
    requires WellFormed(g, rows, cols) && Owned(g, rows, cols, fp) && id in fp
    ensures WellFormed(Fill(g, fp[id], None), rows, cols)
    ensures Owned(Fill(g, fp[id], None), rows, cols, fp - {id})
  {
    var g' := Fill(g, fp[id], None);
    var fp' := fp - {id};
    forall other, r, c | other in fp' && Covers(fp'[other], r, c) ensures g'[r][c] == Some(other) {
      assert g[r][c] == Some(other);
    }
  }

  /** After a box is placed, no footprint that shares a cell with it is free:
      a second box cannot be placed over the first. */
  lemma PlacedBlocksOverlap(g: Grid, rows: nat, cols: nat, rect: Rect, id: int, other: Rect, r: int, c: int)
    requires WellFormed(g, rows, cols) && Inside(rect, rows, cols)
    requires Covers(rect, r, c) && Covers(other, r, c)
    ensures WellFormed(Fill(g, rect, Some(id)), rows, cols)
    ensures !FootprintFree(Fill(g, rect, Some(id)), rows, cols, other)
  {
  }
}
