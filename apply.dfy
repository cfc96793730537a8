/** applyMove as a function of the grid: which cells change, and how the disc counts move. */
module Apply {
  import opened Layout
  import opened Flips

  // ----- the eight directions, in the order applyMove visits them -----

  /** Row component of the t-th direction (t in 0..7). */
  function DirR(t: int): int { if t < 3 then -1 else if t < 5 then 0 else 1 }

  /** Column component of the t-th direction (t in 0..7). */
  function DirC(t: int): int
  {
    if t == 0 || t == 3 || t == 5 then -1 else if t == 1 || t == 6 then 0 else 1
  }

  /** Position of direction (dr, dc) in the visiting order (dr outer, dc inner, centre skipped). */
  function DirIndex(dr: int, dc: int): int
  {
    var t := 3 * (dr + 1) + (dc + 1);
    if t > 4 then t - 1 else t
  }

  lemma DirIndexInverse(dr: int, dc: int)
    requires IsDir(dr, dc)
    ensures 0 <= DirIndex(dr, dc) < 8
    ensures DirR(DirIndex(dr, dc)) == dr && DirC(DirIndex(dr, dc)) == dc
  {
  }

  // ----- geometry of runs -----

  function Sign(x: int): int { if x > 0 then 1 else if x < 0 then -1 else 0 }

  function Abs(x: int): int { if x < 0 then -x else x }

  /** Chebyshev distance between (r, c) and (x, y): the step count along a compass line. */
  function Dist(r: int, c: int, x: int, y: int): int
  {
    if Abs(x - r) < Abs(y - c) then Abs(y - c) else Abs(x - r)
  }

  /** (x, y) is one of the first k cells stepping from (r, c) along (dr, dc). */
  predicate OnRun(r: int, c: int, dr: int, dc: int, k: int, x: int, y: int)
  {
    var s := Dist(r, c, x, y);
    1 <= s <= k && x == At(r, dr, s) && y == At(c, dc, s)
  }

  lemma OnRunAt(r: int, c: int, dr: int, dc: int, s: int)
    requires IsDir(dr, dc) && s >= 1
    ensures Dist(r, c, At(r, dr, s), At(c, dc, s)) == s
    ensures Sign(At(r, dr, s) - r) == dr && Sign(At(c, dc, s) - c) == dc
  {
  }

  /** A cell on a run lies in the direction given by the signs of its offsets. */
  lemma OnRunDirection(r: int, c: int, dr: int, dc: int, k: int, x: int, y: int)
    requires IsDir(dr, dc) && OnRun(r, c, dr, dc, k, x, y)
    ensures dr == Sign(x - r) && dc == Sign(y - c)
  {
    OnRunAt(r, c, dr, dc, Dist(r, c, x, y));
  }

  // ----- the new grid, cell by cell -----

  /**
   * (x, y) is not the played cell (r, c) and lies on the closed run, as counted
   * on the grid before the move, in its own direction from (r, c).
   */
  predicate FlippedBy(g: Grid, p: int, r: int, c: int, x: int, y: int)
    requires WellFormed(g) && In(r, c)
  {
    !(x == r && y == c) &&
    var dr, dc := Sign(x - r), Sign(y - c);
    OnRun(r, c, dr, dc, CountFlips(g, p, r, c, dr, dc), x, y)
  }

  function NewCell(g: Grid, p: int, r: int, c: int, x: int, y: int): int
    requires WellFormed(g) && In(r, c) && In(x, y)
  {
    if x == r && y == c then p
    else if FlippedBy(g, p, r, c, x, y) then p
    else g[x][y]
  }

  /** The grid after p plays (r, c): the played cell and every closed run become p; a board of discs stays one. */
  function Applied(g: Grid, p: int, r: int, c: int): (h: Grid)
    requires WellFormed(g) && In(r, c)
    ensures WellFormed(h)
    ensures Discs(g) && IsSide(p) ==> Discs(h)
  {
    seq(8, x requires 0 <= x < 8 => seq(8, y requires 0 <= y < 8 => NewCell(g, p, r, c, x, y)))
  }

  /** Some direction's closed run, counted before the move, covers (x, y). */
  ghost predicate Flipped(g: Grid, p: int, r: int, c: int, x: int, y: int)
    requires WellFormed(g) && In(r, c)
  {
    exists dr, dc :: IsDir(dr, dc) && OnRun(r, c, dr, dc, CountFlips(g, p, r, c, dr, dc), x, y)
  }

  // ----- the flips as a list of single-cell updates -----

  /** The first k cells stepping from (r, c) along (dr, dc), nearest first. */
  function RunCells(r: int, c: int, dr: int, dc: int, k: nat): (cells: seq<Move>)
    ensures |cells| == k
  {
    if k == 0 then [] else RunCells(r, c, dr, dc, k - 1) + [Move(At(r, dr, k), At(c, dc, k))]
  }

  /** Total of countFlips over the first n directions. */
  function FlipsUpTo(g: Grid, p: int, r: int, c: int, n: nat): nat
    requires WellFormed(g) && In(r, c) && n <= 8
  {
    if n == 0 then 0
    else FlipsUpTo(g, p, r, c, n - 1) + CountFlips(g, p, r, c, DirR(n - 1), DirC(n - 1))
  }

  /** Total number of discs a move at (r, c) flips, over all eight directions. */
  function TotalFlips(g: Grid, p: int, r: int, c: int): nat
    requires WellFormed(g) && In(r, c)
  {
    FlipsUpTo(g, p, r, c, 8)
  }

  /** The cells flipped in the first n directions, in the order applyMove writes them. */
  function RunsUpTo(g: Grid, p: int, r: int, c: int, n: nat): (cells: seq<Move>)
    requires WellFormed(g) && In(r, c) && n <= 8
    ensures |cells| == FlipsUpTo(g, p, r, c, n)
  {
    if n == 0 then []
    else
      RunsUpTo(g, p, r, c, n - 1) +
      RunCells(r, c, DirR(n - 1), DirC(n - 1), CountFlips(g, p, r, c, DirR(n - 1), DirC(n - 1)))
  }

  /** The grid after writing p into each listed cell, first to last. */
  function Fold(g: Grid, p: int, cells: seq<Move>): (h: Grid)
    requires WellFormed(g) && AllIn(cells)
    ensures WellFormed(h)
    ensures forall x, y | 0 <= x < 8 && 0 <= y < 8 :: h[x][y] == if Move(x, y) in cells then p else g[x][y]
  {
    if cells == [] then g
    else
      var last := cells[|cells| - 1];
      Set(Fold(g, p, cells[..|cells| - 1]), last.r, last.c, p)
  }

  // ----- lemmas -----

  lemma GridExt(g: Grid, h: Grid)
    requires WellFormed(g) && WellFormed(h)
    requires forall x, y | 0 <= x < 8 && 0 <= y < 8 :: g[x][y] == h[x][y]
    ensures g == h
  {
    forall x | 0 <= x < 8 ensures g[x] == h[x] {
      assert forall y | 0 <= y < 8 :: g[x][y] == h[x][y];
    }
  }

  lemma {:induction false} RunCellsMembers(r: int, c: int, dr: int, dc: int, k: nat)
    requires IsDir(dr, dc)
    ensures forall mv :: mv in RunCells(r, c, dr, dc, k) <==> OnRun(r, c, dr, dc, k, mv.r, mv.c)
    ensures Distinct(RunCells(r, c, dr, dc, k))
  {
    if k > 0 {
      RunCellsMembers(r, c, dr, dc, k - 1);
      OnRunAt(r, c, dr, dc, k);
      var cells := RunCells(r, c, dr, dc, k);
      var last := Move(At(r, dr, k), At(c, dc, k));
      assert cells == RunCells(r, c, dr, dc, k - 1) + [last];
      forall mv ensures mv in cells <==> OnRun(r, c, dr, dc, k, mv.r, mv.c) {
        if OnRun(r, c, dr, dc, k, mv.r, mv.c) && Dist(r, c, mv.r, mv.c) == k {
          assert mv == last;
        }
      }
      forall i | 0 <= i < k - 1 ensures cells[i] != last {
        assert cells[i] in RunCells(r, c, dr, dc, k - 1);
      }
    }
  }

  /**
   * The cells written for direction (dr, dc) are exactly the cells flipped in
   * that direction; they are distinct, on the board, and held by -p before the move.
   */
  lemma RunMembers(g: Grid, p: int, r: int, c: int, dr: int, dc: int)
    requires WellFormed(g) && IsSide(p) && In(r, c) && IsDir(dr, dc)
    ensures var run := RunCells(r, c, dr, dc, CountFlips(g, p, r, c, dr, dc));
      (forall mv :: mv in run <==> FlippedBy(g, p, r, c, mv.r, mv.c) && Sign(mv.r - r) == dr && Sign(mv.c - c) == dc) &&
      Distinct(run) &&
      (forall mv | mv in run :: In(mv.r, mv.c) && g[mv.r][mv.c] == -p)
  {
    var k := CountFlips(g, p, r, c, dr, dc);
    var run := RunCells(r, c, dr, dc, k);
    RunCellsMembers(r, c, dr, dc, k);
    CountFlipsMeaning(g, p, r, c, dr, dc);
    forall mv | mv in run
      ensures FlippedBy(g, p, r, c, mv.r, mv.c) && Sign(mv.r - r) == dr && Sign(mv.c - c) == dc
      ensures In(mv.r, mv.c) && g[mv.r][mv.c] == -p
    {
      OnRunDirection(r, c, dr, dc, k, mv.r, mv.c);
      var s := Dist(r, c, mv.r, mv.c);
      assert ClosedRun(g, p, r, c, dr, dc, k);
      assert In(At(r, dr, s), At(c, dc, s));
    }
  }

  /**
   * The cells written in the first n directions are exactly the cells flipped in
   * those directions; they are on the board and held by -p before the move.
   */
  lemma {:induction false} RunsUpToMembers(g: Grid, p: int, r: int, c: int, n: nat)
    requires WellFormed(g) && IsSide(p) && In(r, c) && n <= 8
    ensures forall mv :: mv in RunsUpTo(g, p, r, c, n) <==>
      FlippedBy(g, p, r, c, mv.r, mv.c) && DirIndex(Sign(mv.r - r), Sign(mv.c - c)) < n
    ensures forall mv | mv in RunsUpTo(g, p, r, c, n) :: In(mv.r, mv.c) && g[mv.r][mv.c] == -p
  {
    if n > 0 {
      RunsUpToMembers(g, p, r, c, n - 1);
      var dr, dc := DirR(n - 1), DirC(n - 1);
      assert IsDir(dr, dc) && DirIndex(dr, dc) == n - 1;
      RunMembers(g, p, r, c, dr, dc);
      forall mv: Move | FlippedBy(g, p, r, c, mv.r, mv.c)
        ensures DirIndex(Sign(mv.r - r), Sign(mv.c - c)) == n - 1 <==> Sign(mv.r - r) == dr && Sign(mv.c - c) == dc
      {
        DirIndexInverse(Sign(mv.r - r), Sign(mv.c - c));
      }
    }
  }

  /** No cell is written twice: the runs of different directions are disjoint. */
  lemma {:induction false} RunsUpToDistinct(g: Grid, p: int, r: int, c: int, n: nat)
    requires WellFormed(g) && IsSide(p) && In(r, c) && n <= 8
    ensures Distinct(RunsUpTo(g, p, r, c, n))
  {
    if n > 0 {
      RunsUpToDistinct(g, p, r, c, n - 1);
      RunsUpToMembers(g, p, r, c, n - 1);
      var dr, dc := DirR(n - 1), DirC(n - 1);
      assert IsDir(dr, dc) && DirIndex(dr, dc) == n - 1;
      RunMembers(g, p, r, c, dr, dc);
      var prev := RunsUpTo(g, p, r, c, n - 1);
      var run := RunCells(r, c, dr, dc, CountFlips(g, p, r, c, dr, dc));
      assert RunsUpTo(g, p, r, c, n) == prev + run;
      forall i, j | 0 <= i < |prev| && 0 <= j < |run| ensures prev[i] != run[j] {
        assert prev[i] in prev && run[j] in run;
      }
    }
  }

  /**
   * The effect of a move on each cell: the played cell and the cells of every
   * closed run (counted before the move) become p; all other cells keep their value.
   */
  lemma ApplyEffects(g: Grid, p: int, r: int, c: int)
    requires WellFormed(g) && IsSide(p) && In(r, c)
    ensures forall x, y | In(x, y) ::
      Applied(g, p, r, c)[x][y] == if (x == r && y == c) || Flipped(g, p, r, c, x, y) then p else g[x][y]
    ensures forall dr, dc, s | IsDir(dr, dc) && 1 <= s <= CountFlips(g, p, r, c, dr, dc) ::
      In(At(r, dr, s), At(c, dc, s)) && Applied(g, p, r, c)[At(r, dr, s)][At(c, dc, s)] == p
  {
    var h := Applied(g, p, r, c);
    forall x, y | In(x, y)
      ensures h[x][y] == if (x == r && y == c) || Flipped(g, p, r, c, x, y) then p else g[x][y]
    {
      if !(x == r && y == c) {
        var dr, dc := Sign(x - r), Sign(y - c);
        assert IsDir(dr, dc);
        if Flipped(g, p, r, c, x, y) {
          var dr', dc' :| IsDir(dr', dc') && OnRun(r, c, dr', dc', CountFlips(g, p, r, c, dr', dc'), x, y);
          OnRunDirection(r, c, dr', dc', CountFlips(g, p, r, c, dr', dc'), x, y);
        }
      }
    }
    forall dr, dc, s | IsDir(dr, dc) && 1 <= s <= CountFlips(g, p, r, c, dr, dc)
      ensures In(At(r, dr, s), At(c, dc, s)) && h[At(r, dr, s)][At(c, dc, s)] == p
    {
      CountFlipsMeaning(g, p, r, c, dr, dc);
      assert ClosedRun(g, p, r, c, dr, dc, CountFlips(g, p, r, c, dr, dc));
      OnRunAt(r, c, dr, dc, s);
      var x, y := At(r, dr, s), At(c, dc, s);
      assert FlippedBy(g, p, r, c, x, y);
    }
  }

  /** A cell is written by the direction loops exactly when it is flipped. */
  lemma WrittenIffFlipped(g: Grid, p: int, r: int, c: int, x: int, y: int)
    requires WellFormed(g) && IsSide(p) && In(r, c)
    ensures Move(x, y) in RunsUpTo(g, p, r, c, 8) <==> FlippedBy(g, p, r, c, x, y)
  {
    RunsUpToMembers(g, p, r, c, 8);
    if !(x == r && y == c) {
      DirIndexInverse(Sign(x - r), Sign(y - c));
    }
  }

  /** applyMove's grid is the start grid with (r, c) set, then each flipped cell written in turn. */
  lemma ApplyAsFold(g: Grid, p: int, r: int, c: int)
    requires WellFormed(g) && IsSide(p) && In(r, c)
    ensures AllIn(RunsUpTo(g, p, r, c, 8))
    ensures Applied(g, p, r, c) == Fold(Set(g, r, c, p), p, RunsUpTo(g, p, r, c, 8))
  {
    assert AllIn(RunsUpTo(g, p, r, c, 8)) by {
      RunsUpToMembers(g, p, r, c, 8);
    }
    var h := Fold(Set(g, r, c, p), p, RunsUpTo(g, p, r, c, 8));
    forall x, y | 0 <= x < 8 && 0 <= y < 8 ensures Applied(g, p, r, c)[x][y] == h[x][y] {
      WrittenIffFlipped(g, p, r, c, x, y);
    }
    GridExt(Applied(g, p, r, c), h);
  }

  /** Writing p over distinct cells that all hold q moves one disc each from q to p. */
  lemma {:induction false} FoldCount(g: Grid, p: int, q: int, cells: seq<Move>)
    requires WellFormed(g) && AllIn(cells) && Distinct(cells) && p != q
    requires forall mv | mv in cells :: g[mv.r][mv.c] == q
    ensures CountPieces(Fold(g, p, cells), p) == CountPieces(g, p) + |cells|
    ensures CountPieces(Fold(g, p, cells), q) == CountPieces(g, q) - |cells|
  {
    if cells != [] {
      var init, last := cells[..|cells| - 1], cells[|cells| - 1];
      assert forall mv | mv in init :: mv in cells;
      FoldCount(g, p, q, init);
      assert last !in init by {
        forall i | 0 <= i < |init| ensures init[i] != last {
          assert cells[i] != cells[|cells| - 1];
        }
      }
      SetCount(Fold(g, p, init), last.r, last.c, p, p);
      SetCount(Fold(g, p, init), last.r, last.c, p, q);
    }
  }

  /**
   * Playing p on an EMPTY cell raises p's disc count by one plus the total number
   * of flips and lowers the opponent's by the total number of flips.
   */
  lemma ApplyCounts(g: Grid, p: int, r: int, c: int)
    requires WellFormed(g) && IsSide(p) && In(r, c) && g[r][c] == EMPTY
    ensures CountPieces(Applied(g, p, r, c), p) == CountPieces(g, p) + 1 + TotalFlips(g, p, r, c)
    ensures CountPieces(Applied(g, p, r, c), -p) == CountPieces(g, -p) - TotalFlips(g, p, r, c)
  {
    ApplyAsFold(g, p, r, c);
    var g1 := Set(g, r, c, p);
    var runs := RunsUpTo(g, p, r, c, 8);
    SetCount(g, r, c, p, p);
    SetCount(g, r, c, p, -p);
    assert forall mv | mv in runs :: g1[mv.r][mv.c] == -p by {
      RunsUpToMembers(g, p, r, c, 8);
    }
    assert Distinct(runs) by {
      RunsUpToDistinct(g, p, r, c, 8);
    }
    FoldCount(g1, p, -p, runs);
  }

  /**
   * While applyMove works through the directions in order, the rays of the
   * directions not yet visited still hold their values from before the move,
   * so countFlips computed on the board in progress equals countFlips before the move.
   */
  lemma LaterRaysUntouched(g: Grid, p: int, r: int, c: int, n: nat, dr: int, dc: int)
    requires WellFormed(g) && IsSide(p) && In(r, c) && n <= 8
    requires IsDir(dr, dc) && DirIndex(dr, dc) >= n
    ensures AllIn(RunsUpTo(g, p, r, c, n))
    ensures CountFlips(Fold(Set(g, r, c, p), p, RunsUpTo(g, p, r, c, n)), p, r, c, dr, dc) ==
      CountFlips(g, p, r, c, dr, dc)
  {
    RunsUpToMembers(g, p, r, c, n);
    var h := Fold(Set(g, r, c, p), p, RunsUpTo(g, p, r, c, n));
    forall s | s >= 1 && In(At(r, dr, s), At(c, dc, s))
      ensures h[At(r, dr, s)][At(c, dc, s)] == g[At(r, dr, s)][At(c, dc, s)]
    {
      OnRunAt(r, c, dr, dc, s);
    }
    CountFlipsRay(h, g, p, r, c, dr, dc);
  }

  /** The k-th cell of a flipped run is on the board. */
  lemma RunCellIn(g: Grid, p: int, r: int, c: int, dr: int, dc: int, k: int)
    requires WellFormed(g) && IsSide(p) && In(r, c) && IsDir(dr, dc)
    requires 1 <= k <= CountFlips(g, p, r, c, dr, dc)
    ensures In(At(r, dr, k), At(c, dc, k))
    ensures AllIn(RunCells(r, c, dr, dc, k))
  {
    CountFlipsMeaning(g, p, r, c, dr, dc);
    assert ClosedRun(g, p, r, c, dr, dc, CountFlips(g, p, r, c, dr, dc));
    RunCellsMembers(r, c, dr, dc, k);
    forall mv | mv in RunCells(r, c, dr, dc, k) ensures In(mv.r, mv.c) {
      assert At(r, dr, Dist(r, c, mv.r, mv.c)) == mv.r;
    }
  }
}
