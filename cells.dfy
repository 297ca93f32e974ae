/** Grid cells, the four moves every search in the warehouse tries, the
    Manhattan distance (`calculate_distance` / `heuristic`) and walks. */
module Cells {

  /** A (row, column) position; the source writes it as a tuple. */
  datatype Cell = Cell(row: int, col: int)

  predicate InBounds(c: Cell, rows: int, cols: int)
  {
    0 <= c.row < rows && 0 <= c.col < cols
  }

  /** Every cell of a `rows` x `cols` grid. */
  function AllCells(rows: nat, cols: nat): (s: set<Cell>)
    ensures forall c :: c in s <==> InBounds(c, rows, cols)
  {
    set r, c | 0 <= r < rows && 0 <= c < cols :: Cell(r, c)
  }

  /** Move `k` of the direction list every search uses, in the source's
      order: up, down, left, right. */
  function Step(c: Cell, k: nat): Cell
    requires k < 4
  {
    if k == 0 then Cell(c.row - 1, c.col)
    else if k == 1 then Cell(c.row + 1, c.col)
    else if k == 2 then Cell(c.row, c.col - 1)
    else Cell(c.row, c.col + 1)
  }

  /** The move that undoes move `k`. */
  function Opposite(k: nat): (j: nat)
    requires k < 4
    ensures j < 4
    ensures forall c :: Step(Step(c, k), j) == c
  {
    if k == 0 then 1 else if k == 1 then 0 else if k == 2 then 3 else 2
  }

  function Abs(x: int): nat
  {
    if x < 0 then -x else x
  }

  /** `calculate_distance(start, end)` and `heuristic(a, b)`: the sum of the
      absolute row and column differences. */
  function Manhattan(a: Cell, b: Cell): (d: nat)
    ensures d == 0 <==> a == b
  {
    Abs(a.row - b.row) + Abs(a.col - b.col)
  }

  /** Two cells one move apart: they differ by one in exactly one axis. */
  predicate Adjacent(a: Cell, b: Cell)
  {
    Manhattan(a, b) == 1
  }

  lemma ManhattanSymmetric(a: Cell, b: Cell)
    ensures Manhattan(a, b) == Manhattan(b, a)
  {
  }

  lemma ManhattanTriangle(a: Cell, b: Cell, c: Cell)
    ensures Manhattan(a, c) <= Manhattan(a, b) + Manhattan(b, c)
  {
  }

  /** A move changes the distance to any fixed goal by exactly one: the
      heuristic is consistent, and it never overestimates a walk's length. */
  lemma ManhattanConsistent(a: Cell, b: Cell, goal: Cell)
    requires Adjacent(a, b)
    ensures Manhattan(a, goal) == Manhattan(b, goal) + 1 || Manhattan(b, goal) == Manhattan(a, goal) + 1
  {
  }

  /** The cells one move away from `c` are exactly the four steps. */
  lemma AdjacentIsStep(a: Cell, b: Cell)
    ensures Adjacent(a, b) <==> exists k :: 0 <= k < 4 && b == Step(a, k)
  {
    if Adjacent(a, b) {
      if b.row < a.row {
        assert b == Step(a, 0);
      } else if b.row > a.row {
        assert b == Step(a, 1);
      } else if b.col < a.col {
        assert b == Step(a, 2);
      } else {
        assert b == Step(a, 3);
      }
    }
  }

  /** Each move goes to a cell one move away. */
  lemma StepAdjacent(c: Cell, k: nat)
    requires k < 4
    ensures Adjacent(c, Step(c, k))
  {
  }

  /** A move from `c` that brings it one closer to `t`; it stays inside any
      grid holding both. */
  function Toward(c: Cell, t: Cell): (k: nat)
    requires c != t
    ensures k < 4
    ensures Manhattan(Step(c, k), t) + 1 == Manhattan(c, t)
    ensures forall rows: int, cols: int :: InBounds(c, rows, cols) && InBounds(t, rows, cols) ==> InBounds(Step(c, k), rows, cols)
  {
    if c.row > t.row then 0
    else if c.row < t.row then 1
    else if c.col > t.col then 2
    else 3
  }

  /** Every consecutive pair of cells is one move apart. */
  predicate IsWalk(p: seq<Cell>)
  {
    forall i :: 0 < i < |p| ==> Adjacent(p[i - 1], p[i])
  }

  /** A walk has at least as many moves as the distance between its ends. */
  lemma {:induction false} WalkLength(p: seq<Cell>)
    requires |p| > 0 && IsWalk(p)
    ensures Manhattan(p[0], p[|p| - 1]) <= |p| - 1
    decreases |p|
  {
    if |p| > 1 {
      var q := p[..|p| - 1];
      assert IsWalk(q) by {
        forall i | 0 < i < |q| ensures Adjacent(q[i - 1], q[i]) {
          assert q[i - 1] == p[i - 1] && q[i] == p[i];
        }
      }
      WalkLength(q);
      ManhattanTriangle(p[0], p[|p| - 2], p[|p| - 1]);
    }
  }

  /** Any stretch of a walk is a walk. */
  lemma SliceWalk(p: seq<Cell>, a: int, b: int)
    requires IsWalk(p) && 0 <= a <= b <= |p|
    ensures IsWalk(p[a..b])
  {
    var s := p[a..b];
    forall i | 0 < i < |s| ensures Adjacent(s[i - 1], s[i]) {
      assert s[i - 1] == p[a + i - 1] && s[i] == p[a + i];
    }
  }

  /** Reversing a walk gives a walk. */
  function Reversed(s: seq<Cell>): (r: seq<Cell>)
    ensures |r| == |s|
    ensures forall i :: 0 <= i < |s| ==> r[i] == s[|s| - 1 - i]
  {
    if s == [] then [] else Reversed(s[1..]) + [s[0]]
  }

  lemma {:induction false} ReversedWalk(s: seq<Cell>)
    requires IsWalk(s)
    ensures IsWalk(Reversed(s))
  {
    var r := Reversed(s);
    forall i | 0 < i < |r| ensures Adjacent(r[i - 1], r[i]) {
      assert r[i - 1] == s[|s| - i] && r[i] == s[|s| - 1 - i];
      ManhattanSymmetric(s[|s| - i], s[|s| - 1 - i]);
    }
  }

  /** Every in-bounds move out of a cell of `s` lands in `s` or in `waiting`. */
  ghost predicate Closed(s: set<Cell>, waiting: set<Cell>, rows: int, cols: int)
  {
    forall v, k :: v in s && 0 <= k < 4 && InBounds(Step(v, k), rows, cols) ==>
      Step(v, k) in s || Step(v, k) in waiting
  }

  /** A set that holds the origin and is closed under in-bounds moves, apart
      from cells still waiting farther than `d` from the origin, holds every
      in-bounds cell within distance `d` of the origin. With nothing waiting
      it holds the whole grid: every search that only checks bounds reaches
      every cell. */
  lemma {:induction false} ReachesAll(s: set<Cell>, waiting: set<Cell>, o: Cell, rows: int, cols: int, d: nat, c: Cell)
    requires o in s && InBounds(o, rows, cols)
    requires Closed(s, waiting, rows, cols)
    requires forall w :: w in waiting && w !in s ==> Manhattan(w, o) > d
    requires InBounds(c, rows, cols) && Manhattan(c, o) <= d
    ensures c in s
    decreases Manhattan(c, o)
  {
    if c != o {
      var k := Toward(c, o);
      var n := Step(c, k);
      ReachesAll(s, waiting, o, rows, cols, d, n);
      var j := Opposite(k);
      assert Step(n, j) == c;
      assert InBounds(Step(n, j), rows, cols);
    }
  }
}
