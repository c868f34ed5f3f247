/**
 * The grid the pathfinder searches: bounds, open cells, the eight moves,
 * the heuristic, and what it means for one cell to be reachable from another.
 */
module Grid {
  import opened Nodes

  /** A grid of cell values; 0 is open, anything else is blocked. */
  type Grid = seq<seq<int>>

  /**
   * The moves, in the order they are tried: right, down, left, up, then
   * the four diagonals. Every move costs 1.
   */
  const DIRECTIONS: seq<(int, int)> :=
    [(0, 1), (1, 0), (0, -1), (-1, 0), (1, 1), (-1, -1), (1, -1), (-1, 1)]

  /**
   * The bounds test compares columns with the length of row 0, so every
   * row must be at least that long for the cell read after it to exist.
   * An empty grid qualifies.
   */
  predicate ValidGrid(grid: Grid)
  {
    forall i :: 0 <= i < |grid| ==> |grid[0]| <= |grid[i]|
  }

  function Rows(grid: Grid): nat
  {
    |grid|
  }

  function Cols(grid: Grid): nat
  {
    if |grid| == 0 then 0 else |grid[0]|
  }

  /**
   * The bounds test; on an empty grid it fails before row 0 is looked at.
   * It accepts exactly the cells of the grid.
   */
  predicate InBounds(grid: Grid, row: int, col: int)
    ensures InBounds(grid, row, col) <==> Cell(row, col) in GridCells(Rows(grid), Cols(grid))
  {
    GridCellsMembers(Rows(grid), Cols(grid), Cell(row, col));
    row >= 0 && col >= 0 && row < |grid| && col < |grid[0]|
  }

  /**
   * A cell the search may step onto: inside the grid and holding 0. Only
   * cells of the grid are open.
   */
  predicate IsOpen(grid: Grid, c: Cell)
    requires ValidGrid(grid)
    ensures IsOpen(grid, c) ==> c in GridCells(Rows(grid), Cols(grid))
  {
    InBounds(grid, c.row, c.col) && grid[c.row][c.col] == 0
  }

  /** The cell one offset away; stepping back by the offset returns to `c`. */
  function Move(c: Cell, d: (int, int)): (m: Cell)
    ensures Cell(m.row - d.0, m.col - d.1) == c
    ensures m == c <==> d == (0, 0)
  {
    Cell(c.row + d.0, c.col + d.1)
  }

  /** `b` is one of the eight moves away from `a`. */
  ghost predicate Adjacent(a: Cell, b: Cell)
  {
    exists k :: 0 <= k < |DIRECTIONS| && Move(a, DIRECTIONS[k]) == b
  }

  /** The table holds exactly the eight king moves. */
  lemma AdjacentIsKingMove(a: Cell, b: Cell)
    ensures Adjacent(a, b) <==>
      a != b && -1 <= b.row - a.row <= 1 && -1 <= b.col - a.col <= 1
  {
    var dr, dc := b.row - a.row, b.col - a.col;
    if a != b && -1 <= dr <= 1 && -1 <= dc <= 1 {
      var k :=
        if (dr, dc) == (0, 1) then 0
        else if (dr, dc) == (1, 0) then 1
        else if (dr, dc) == (0, -1) then 2
        else if (dr, dc) == (-1, 0) then 3
        else if (dr, dc) == (1, 1) then 4
        else if (dr, dc) == (-1, -1) then 5
        else if (dr, dc) == (1, -1) then 6
        else 7;
      assert Move(a, DIRECTIONS[k]) == b;
    }
  }

  function Abs(x: int): nat
  {
    if x < 0 then -x else x
  }

  /**
   * The heuristic: the distance between the coordinate sums of the two
   * cells. It is not the Manhattan distance.
   */
  function Heuristic(a: Cell, b: Cell): (h: nat)
    ensures h == 0 <==> a.row + a.col == b.row + b.col
    ensures a == b ==> h == 0
  {
    Abs(a.row + a.col - b.row - b.col)
  }

  lemma HeuristicSymmetric(a: Cell, b: Cell)
    ensures Heuristic(a, b) == Heuristic(b, a)
  {
  }

  /** The heuristic never exceeds the Manhattan distance. */
  lemma HeuristicBelowManhattan(a: Cell, b: Cell)
    ensures Heuristic(a, b) <= Abs(a.row - b.row) + Abs(a.col - b.col)
  {
  }

  /**
   * It can exceed the number of moves left: one diagonal step separates
   * (0, 0) from (1, 1), yet the heuristic says 2. So nothing here promises
   * shortest paths.
   */
  lemma HeuristicCanOverestimate()
    ensures Adjacent(Cell(0, 0), Cell(1, 1))
    ensures Heuristic(Cell(0, 0), Cell(1, 1)) == 2
  {
    assert Move(Cell(0, 0), DIRECTIONS[4]) == Cell(1, 1);
  }

  /** All cells of a rows-by-cols grid, row by row. */
  ghost function GridCells(rows: nat, cols: nat): set<Cell>
  {
    if rows == 0 then {} else GridCells(rows - 1, cols) + RowCells(rows - 1, cols)
  }

  ghost function RowCells(r: int, cols: nat): set<Cell>
  {
    set c | 0 <= c < cols :: Cell(r, c)
  }

  lemma {:induction false} GridCellsMembers(rows: nat, cols: nat, x: Cell)
    ensures x in GridCells(rows, cols) <==> 0 <= x.row < rows && 0 <= x.col < cols
  {
    if rows > 0 {
      GridCellsMembers(rows - 1, cols, x);
      assert x in RowCells(rows - 1, cols) <==> x.row == rows - 1 && 0 <= x.col < cols;
    }
  }

  lemma {:induction false} RowCellsCount(r: int, cols: nat)
    ensures |RowCells(r, cols)| == cols
  {
    if cols > 0 {
      RowCellsCount(r, cols - 1);
      assert RowCells(r, cols) == RowCells(r, cols - 1) + {Cell(r, cols - 1)};
    }
  }

  /** A rows-by-cols grid has rows * cols cells. */
  lemma {:induction false} GridCellsCount(rows: nat, cols: nat)
    ensures |GridCells(rows, cols)| == rows * cols
  {
    if rows > 0 {
      var earlier, last := GridCells(rows - 1, cols), RowCells(rows - 1, cols);
      GridCellsCount(rows - 1, cols);
      RowCellsCount(rows - 1, cols);
      if x :| x in earlier * last {
        GridCellsMembers(rows - 1, cols, x);
      }
      DisjointUnionCard(earlier, last);
      assert rows * cols == (rows - 1) * cols + cols;
    }
  }

  lemma DisjointUnionCard<T>(a: set<T>, b: set<T>)
    requires a * b == {}
    ensures |a + b| == |a| + |b|
  {
  }

  /**
   * A sequence of cells where each step is one of the eight moves onto an
   * open cell. The first cell is not required to be open.
   */
  ghost predicate IsWalk(grid: Grid, w: seq<Cell>)
    requires ValidGrid(grid)
  {
    |w| > 0 && forall i :: 0 <= i < |w| - 1 ==> WalkStep(grid, w, i)
  }

  /** Step `i` of `w` is a move onto an open cell. */
  ghost predicate WalkStep(grid: Grid, w: seq<Cell>, i: nat)
    requires ValidGrid(grid) && i < |w| - 1
  {
    Adjacent(w[i], w[i + 1]) && IsOpen(grid, w[i + 1])
  }

  ghost predicate Reachable(grid: Grid, from: Cell, to: Cell)
    requires ValidGrid(grid)
  {
    exists w :: IsWalk(grid, w) && w[0] == from && w[|w| - 1] == to
  }

  /** The first `upto` moves from `c` that land on an open cell land in `region`. */
  ghost predicate NeighboursCovered(grid: Grid, c: Cell, upto: nat, region: set<Cell>)
    requires ValidGrid(grid) && upto <= |DIRECTIONS|
  {
    forall k :: 0 <= k < upto && IsOpen(grid, Move(c, DIRECTIONS[k])) ==>
      Move(c, DIRECTIONS[k]) in region
  }

  /** Every move from `c` that lands on an open cell lands in `region`. */
  ghost predicate AllNeighboursCovered(grid: Grid, c: Cell, region: set<Cell>)
    requires ValidGrid(grid)
  {
    NeighboursCovered(grid, c, |DIRECTIONS|, region)
  }

  /**
   * Every open neighbour of a cell of `inner` lies in `outer`. (The trigger
   * keeps membership in `outer` from feeding new cells back into the
   * quantifier.)
   */
  ghost predicate ClosedUnderMoves(grid: Grid, inner: set<Cell>, outer: set<Cell>)
    requires ValidGrid(grid)
  {
    forall c {:trigger AllNeighboursCovered(grid, c, outer)} ::
      c in inner ==> AllNeighboursCovered(grid, c, outer)
  }

  lemma {:induction false} WalkStaysInRegion(grid: Grid, region: set<Cell>, w: seq<Cell>, i: nat)
    requires ValidGrid(grid) && ClosedUnderMoves(grid, region, region)
    requires IsWalk(grid, w) && w[0] in region
    requires i < |w|
    ensures w[i] in region
  {
    if i > 0 {
      WalkStaysInRegion(grid, region, w, i - 1);
      assert WalkStep(grid, w, i - 1);
      StepStaysInRegion(grid, region, w[i - 1], w[i]);
    }
  }

  lemma StepStaysInRegion(grid: Grid, region: set<Cell>, a: Cell, b: Cell)
    requires ValidGrid(grid) && ClosedUnderMoves(grid, region, region)
    requires a in region && Adjacent(a, b) && IsOpen(grid, b)
    ensures b in region
  {
    var k :| 0 <= k < |DIRECTIONS| && Move(a, DIRECTIONS[k]) == b;
    assert AllNeighboursCovered(grid, a, region);
  }

  lemma CoveredGrows(grid: Grid, inner: set<Cell>, outer: set<Cell>, outer': set<Cell>)
    requires ValidGrid(grid) && ClosedUnderMoves(grid, inner, outer) && outer <= outer'
    ensures ClosedUnderMoves(grid, inner, outer')
  {
    forall c | c in inner
      ensures AllNeighboursCovered(grid, c, outer')
    {
      assert AllNeighboursCovered(grid, c, outer);
    }
  }

  /**
   * One more move from `c` handled: growing the outer region keeps what was
   * covered, and the move's target, when open, is now covered too.
   */
  lemma CoverStep(grid: Grid, c: Cell, k: nat, inner: set<Cell>, outer: set<Cell>, outer': set<Cell>)
    requires ValidGrid(grid) && k < |DIRECTIONS|
    requires ClosedUnderMoves(grid, inner, outer) && NeighboursCovered(grid, c, k, outer)
    requires outer <= outer'
    requires IsOpen(grid, Move(c, DIRECTIONS[k])) ==> Move(c, DIRECTIONS[k]) in outer'
    ensures ClosedUnderMoves(grid, inner, outer') && NeighboursCovered(grid, c, k + 1, outer')
  {
    CoveredGrows(grid, inner, outer, outer');
  }

  /** No walk leaves a region that is closed under moves. */
  lemma RegionBlocksWalks(grid: Grid, region: set<Cell>, from: Cell, to: Cell)
    requires ValidGrid(grid) && ClosedUnderMoves(grid, region, region)
    requires from in region && to !in region
    ensures !Reachable(grid, from, to)
  {
    if w :| IsWalk(grid, w) && w[0] == from && w[|w| - 1] == to {
      WalkStaysInRegion(grid, region, w, |w| - 1);
    }
  }
}
