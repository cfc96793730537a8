/** The 8x8 Othello grid as a value: cell contents, disc counts, score and corners. */
module Layout {

  const EMPTY := 0
  const BLACK := 1
  const WHITE := -1

  /** A cell coordinate (row, column). */
  datatype Move = Move(r: int, c: int)

  /** Row-major snapshot of the board: g[row][column]. */
  type Grid = seq<seq<int>>

  /** The two sides; each is the negation of the other. */
  predicate IsSide(p: int) { p == BLACK || p == WHITE }

  /** The bounds test of the board. */
  predicate In(r: int, c: int) { 0 <= r < 8 && 0 <= c < 8 }

  /** Every listed cell is on the board. */
  predicate AllIn(cells: seq<Move>)
  {
    forall mv | mv in cells :: In(mv.r, mv.c)
  }

  /** No cell is listed twice. */
  predicate Distinct(cells: seq<Move>)
  {
    forall i, j | 0 <= i < j < |cells| :: cells[i] != cells[j]
  }

  predicate WellFormed(g: Grid)
  {
    |g| == 8 && forall i | 0 <= i < 8 :: |g[i]| == 8
  }

  /** Every cell is EMPTY, BLACK or WHITE. */
  predicate Discs(g: Grid)
  {
    WellFormed(g) && forall i, j | 0 <= i < 8 && 0 <= j < 8 :: -1 <= g[i][j] <= 1
  }

  /** The grid with cell (x, y) overwritten by v. */
  function Set(g: Grid, x: int, y: int, v: int): (h: Grid)
    requires WellFormed(g) && In(x, y)
    ensures WellFormed(h)
    ensures forall i, j | 0 <= i < 8 && 0 <= j < 8 ::
      h[i][j] == if i == x && j == y then v else g[i][j]
  {
    g[x := g[x][y := v]]
  }

  // ----- disc counts -----

  /** Number of the first n cells of a row that hold p. */
  function RowCount(row: seq<int>, p: int, n: nat): (k: nat)
    requires n <= |row|
    ensures k <= n
  {
    if n == 0 then 0 else RowCount(row, p, n - 1) + (if row[n - 1] == p then 1 else 0)
  }

  /** Number of cells in the first n rows that hold p. */
  function CountUpTo(g: Grid, p: int, n: nat): (k: nat)
    requires WellFormed(g) && n <= 8
    ensures k <= 8 * n
  {
    if n == 0 then 0 else CountUpTo(g, p, n - 1) + RowCount(g[n - 1], p, 8)
  }

  /** countPieces: the number of cells holding p. */
  function CountPieces(g: Grid, p: int): nat
    requires WellFormed(g)
  {
    CountUpTo(g, p, 8)
  }

  // ----- score -----

  function RowSum(row: seq<int>, n: nat): (s: int)
    requires n <= |row|
    ensures (forall k | 0 <= k < n :: -1 <= row[k] <= 1) ==> -(n as int) <= s <= n
  {
    if n == 0 then 0 else RowSum(row, n - 1) + row[n - 1]
  }

  function SumUpTo(g: Grid, n: nat): (s: int)
    requires WellFormed(g) && n <= 8
    ensures Discs(g) ==> -8 * n <= s <= 8 * n
  {
    if n == 0 then 0 else SumUpTo(g, n - 1) + RowSum(g[n - 1], 8)
  }

  /** getScore: the sum of all cells (positive means Black is ahead). */
  function Score(g: Grid): (s: int)
    requires WellFormed(g)
    ensures Discs(g) ==> -64 <= s <= 64
  {
    SumUpTo(g, 8)
  }

  // ----- corners -----

  /** The corner cells, in the order cornerControl visits them. */
  const Corners: seq<Move> := [Move(0, 0), Move(0, 7), Move(7, 0), Move(7, 7)]

  /** Number of the first n corners that hold p. */
  function CornersHeld(g: Grid, p: int, n: nat): (k: nat)
    requires WellFormed(g) && n <= 4
    ensures k <= n
  {
    if n == 0 then 0
    else CornersHeld(g, p, n - 1) + (if g[Corners[n - 1].r][Corners[n - 1].c] == p then 1 else 0)
  }

  /** cornerControl: how many of the four corners hold p. */
  function CornerControl(g: Grid, p: int): (k: nat)
    requires WellFormed(g)
    ensures k <= 4
    ensures k == 4 <==> g[0][0] == p && g[0][7] == p && g[7][0] == p && g[7][7] == p
    ensures k == 0 <==> g[0][0] != p && g[0][7] != p && g[7][0] != p && g[7][7] != p
  {
    assert CornersHeld(g, p, 2) == CornersHeld(g, p, 1) + (if g[0][7] == p then 1 else 0);
    assert CornersHeld(g, p, 3) == CornersHeld(g, p, 2) + (if g[7][0] == p then 1 else 0);
    CornersHeld(g, p, 4)
  }

  /** cornerControl looks at the four corners only: grids that agree on them get the same count. */
  lemma CornerControlLocal(g: Grid, h: Grid, p: int)
    requires WellFormed(g) && WellFormed(h)
    requires forall k | 0 <= k < 4 :: g[Corners[k].r][Corners[k].c] == h[Corners[k].r][Corners[k].c]
    ensures CornerControl(g, p) == CornerControl(h, p)
  {
    assert CornersHeld(g, p, 4) == CornersHeld(h, p, 4) by {
      forall n | 0 <= n <= 4 ensures CornersHeld(g, p, n) == CornersHeld(h, p, n) {
        CornersHeldLocal(g, h, p, n);
      }
    }
  }

  lemma {:induction false} CornersHeldLocal(g: Grid, h: Grid, p: int, n: nat)
    requires WellFormed(g) && WellFormed(h) && n <= 4
    requires forall k | 0 <= k < 4 :: g[Corners[k].r][Corners[k].c] == h[Corners[k].r][Corners[k].c]
    ensures CornersHeld(g, p, n) == CornersHeld(h, p, n)
  {
    if n > 0 {
      CornersHeldLocal(g, h, p, n - 1);
    }
  }

  // ----- start position -----

  function StartCell(i: int, j: int): int
  {
    if (i == 3 && j == 3) || (i == 4 && j == 4) then WHITE
    else if (i == 3 && j == 4) || (i == 4 && j == 3) then BLACK
    else EMPTY
  }

  /** The layout initStart produces. */
  function StartGrid(): (g: Grid)
    ensures Discs(g)
  {
    seq(8, i => seq(8, j => StartCell(i, j)))
  }

  // ----- lemmas -----

  lemma {:induction false} RowSumIsDifference(row: seq<int>, n: nat)
    requires n <= |row|
    requires forall j | 0 <= j < n :: -1 <= row[j] <= 1
    ensures RowSum(row, n) == RowCount(row, BLACK, n) - RowCount(row, WHITE, n)
  {
    if n > 0 { RowSumIsDifference(row, n - 1); }
  }

  lemma {:induction false} SumUpToIsDifference(g: Grid, n: nat)
    requires Discs(g) && n <= 8
    ensures SumUpTo(g, n) == CountUpTo(g, BLACK, n) - CountUpTo(g, WHITE, n)
  {
    if n > 0 {
      SumUpToIsDifference(g, n - 1);
      RowSumIsDifference(g[n - 1], 8);
    }
  }

  /** On a board of discs, the score is Black's count minus White's count. */
  lemma ScoreIsDiscDifference(g: Grid)
    requires Discs(g)
    ensures Score(g) == CountPieces(g, BLACK) - CountPieces(g, WHITE)
    ensures -64 <= Score(g) <= 64
  {
    SumUpToIsDifference(g, 8);
  }

  lemma {:induction false} RowCountUpdate(row: seq<int>, y: int, v: int, p: int, n: nat)
    requires 0 <= y < |row| && n <= |row|
    ensures RowCount(row[y := v], p, n) ==
      RowCount(row, p, n) + (if y < n then (if v == p then 1 else 0) - (if row[y] == p then 1 else 0) else 0)
  {
    if n > 0 { RowCountUpdate(row, y, v, p, n - 1); }
  }

  lemma {:induction false} CountUpToUpdate(g: Grid, x: int, y: int, v: int, p: int, n: nat)
    requires WellFormed(g) && In(x, y) && n <= 8
    ensures CountUpTo(Set(g, x, y, v), p, n) ==
      CountUpTo(g, p, n) + (if x < n then (if v == p then 1 else 0) - (if g[x][y] == p then 1 else 0) else 0)
  {
    if n > 0 {
      CountUpToUpdate(g, x, y, v, p, n - 1);
      if n - 1 == x { RowCountUpdate(g[x], y, v, p, 8); }
    }
  }

  /** Overwriting one cell changes the count of p by at most one, as expected. */
  lemma SetCount(g: Grid, x: int, y: int, v: int, p: int)
    requires WellFormed(g) && In(x, y)
    ensures CountPieces(Set(g, x, y, v), p) ==
      CountPieces(g, p) + (if v == p then 1 else 0) - (if g[x][y] == p then 1 else 0)
  {
    CountUpToUpdate(g, x, y, v, p, 8);
  }
}
