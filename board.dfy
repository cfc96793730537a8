/** The mutable Board: an 8x8 int array updated in place, each operation proved against the grid functions. */
module Boards {
  import opened Layout
  import opened Flips
  import opened Apply

  class Board {
    const b: array2<int>

    ghost predicate Valid()
    {
      b.Length0 == 8 && b.Length1 == 8
    }

    /** The board's contents as a grid value. */
    ghost function Cells(): (g: Grid)
      reads b
      requires Valid()
      ensures WellFormed(g)
      ensures forall i, j | 0 <= i < 8 && 0 <= j < 8 :: g[i][j] == b[i, j]
    {
      seq(8, i requires 0 <= i < 8 reads b => seq(8, j requires 0 <= j < 8 reads b => b[i, j]))
    }

    /** A new board: every cell EMPTY, as a fresh int[8][8] is. */
    constructor ()
      ensures Valid() && fresh(b)
      ensures forall i, j | 0 <= i < 8 && 0 <= j < 8 :: b[i, j] == EMPTY
    {
      b := new int[8, 8]((i, j) => EMPTY);
    }

    /** initStart: clear the board and place the four centre discs. */
    method InitStart()
      requires Valid()
      modifies b
      ensures Cells() == StartGrid()
    {
      for i := 0 to 8
        invariant forall x, y | 0 <= x < i && 0 <= y < 8 :: b[x, y] == EMPTY
      {
        for j := 0 to 8
          invariant forall x, y | 0 <= x < i && 0 <= y < 8 :: b[x, y] == EMPTY
          invariant forall y | 0 <= y < j :: b[i, y] == EMPTY
        {
          b[i, j] := EMPTY;
        }
      }
      b[3, 3] := WHITE; b[3, 4] := BLACK;
      b[4, 3] := BLACK; b[4, 4] := WHITE;
      GridExt(Cells(), StartGrid());
    }

    /** copy: a new board with its own array holding the same contents. */
    method Copy() returns (nb: Board)
      requires Valid()
      ensures fresh(nb) && fresh(nb.b) && nb.Valid()
      ensures nb.Cells() == Cells()
    {
      nb := new Board();
      for i := 0 to 8
        invariant forall x, y | 0 <= x < i && 0 <= y < 8 :: nb.b[x, y] == b[x, y]
      {
        for j := 0 to 8
          invariant forall x, y | 0 <= x < i && 0 <= y < 8 :: nb.b[x, y] == b[x, y]
          invariant forall y | 0 <= y < j :: nb.b[i, y] == b[i, y]
        {
          nb.b[i, j] := b[i, j];
        }
      }
      GridExt(nb.Cells(), Cells());
    }

    /** countFlips: the length of the closed run of -p discs from (r, c) along (dr, dc), or 0. */
    method CountFlips(p: int, r: int, c: int, dr: int, dc: int) returns (n: int)
      requires Valid() && In(r, c) && IsDir(dr, dc)
      ensures n == Flips.CountFlips(Cells(), p, r, c, dr, dc)
    {
      ghost var g := Cells();
      var i, j, cnt := r + dr, c + dc, 0;
      while In(i, j) && b[i, j] == -p
        invariant 0 <= cnt <= 7
        invariant i == At(r, dr, cnt + 1) && j == At(c, dc, cnt + 1)
        invariant FlipsFrom(g, p, r, c, dr, dc, cnt) == Flips.CountFlips(g, p, r, c, dr, dc)
        decreases 8 - cnt
      {
        cnt := cnt + 1;
        i, j := i + dr, j + dc;
      }
      if cnt > 0 && In(i, j) && b[i, j] == p {
        n := cnt;
      } else {
        n := 0;
      }
    }

    /** wouldFlip: some direction has a closed run from (r, c). */
    method WouldFlip(p: int, r: int, c: int) returns (f: bool)
      requires Valid() && In(r, c)
      ensures f == Flips.WouldFlip(Cells(), p, r, c)
    {
      ghost var g := Cells();
      ghost var n := 0;
      for dr := -1 to 2
        invariant n == DirIndex(dr, -1)
        invariant forall k | 0 <= k < n :: Flips.CountFlips(g, p, r, c, DirR(k), DirC(k)) == 0
      {
        for dc := -1 to 2
          invariant n == DirIndex(dr, dc)
          invariant forall k | 0 <= k < n :: Flips.CountFlips(g, p, r, c, DirR(k), DirC(k)) == 0
        {
          if dr == 0 && dc == 0 {
            continue;
          }
          DirIndexInverse(dr, dc);
          var flips := CountFlips(p, r, c, dr, dc);
          if flips > 0 {
            return true;
          }
          n := n + 1;
        }
      }
      forall dr, dc | IsDir(dr, dc) ensures Flips.CountFlips(g, p, r, c, dr, dc) == 0 {
        DirIndexInverse(dr, dc);
      }
      return false;
    }

    /** getValidMoves: scan the board row by row, keeping the EMPTY cells where p would flip. */
    method GetValidMoves(p: int) returns (moves: seq<Move>)
      requires Valid()
      ensures moves == ValidMoves(Cells(), p)
    {
      ghost var g := Cells();
      moves := [];
      for r := 0 to 8
        invariant moves == MovesUpTo(g, p, r)
      {
        for c := 0 to 8
          invariant moves == MovesUpTo(g, p, r) + RowMoves(g, p, r, c)
        {
          if b[r, c] == EMPTY {
            var f := WouldFlip(p, r, c);
            if f {
              moves := moves + [Move(r, c)];
            }
          }
        }
      }
    }

    /**
     * applyMove (the move is assumed valid, as in the source): place p at m and
     * flip every closed run, direction by direction.
     */
    method ApplyMove(p: int, m: Move)
      requires Valid() && IsSide(p) && In(m.r, m.c)
      modifies b
      ensures Cells() == Applied(old(Cells()), p, m.r, m.c)
      ensures old(b[m.r, m.c]) == EMPTY ==>
        Layout.CountPieces(Cells(), p) == old(Layout.CountPieces(Cells(), p)) + 1 + TotalFlips(old(Cells()), p, m.r, m.c) &&
        Layout.CountPieces(Cells(), -p) == old(Layout.CountPieces(Cells(), -p)) - TotalFlips(old(Cells()), p, m.r, m.c)
    {
      ghost var g0 := Cells();
      b[m.r, m.c] := p;
      FlipAll(p, m, g0);
      assert Cells() == Applied(g0, p, m.r, m.c) by {
        ApplyAsFold(g0, p, m.r, m.c);
        GridExt(Cells(), Applied(g0, p, m.r, m.c));
      }
      if g0[m.r][m.c] == EMPTY {
        ApplyCounts(g0, p, m.r, m.c);
      }
    }

    /** The direction loops of applyMove, once p stands at m: every closed run of g0 from m is written over with p. */
    method FlipAll(p: int, m: Move, ghost g0: Grid)
      requires Valid() && IsSide(p) && In(m.r, m.c) && WellFormed(g0)
      requires Writes(Set(g0, m.r, m.c, p), p, [])
      modifies b
      ensures Writes(Set(g0, m.r, m.c, p), p, RunsUpTo(g0, p, m.r, m.c, 8))
    {
      ghost var n := 0;
      for dr := -1 to 2
        invariant n == DirIndex(dr, -1)
        invariant Writes(Set(g0, m.r, m.c, p), p, RunsUpTo(g0, p, m.r, m.c, n))
      {
        for dc := -1 to 2
          invariant n == DirIndex(dr, dc)
          invariant Writes(Set(g0, m.r, m.c, p), p, RunsUpTo(g0, p, m.r, m.c, n))
        {
          if dr == 0 && dc == 0 {
            continue;
          }
          FlipDirection(p, m, dr, dc, g0, n);
          n := n + 1;
        }
      }
    }

    /**
     * The body of applyMove for one direction (dr, dc), the n-th visited: count
     * the run on the board as it now stands and write p over it, nearest cell first.
     */
    method FlipDirection(p: int, m: Move, dr: int, dc: int, ghost g0: Grid, ghost n: nat)
      requires Valid() && IsSide(p) && In(m.r, m.c) && IsDir(dr, dc) && WellFormed(g0)
      requires n == DirIndex(dr, dc)
      requires Writes(Set(g0, m.r, m.c, p), p, RunsUpTo(g0, p, m.r, m.c, n))
      modifies b
      ensures Writes(Set(g0, m.r, m.c, p), p, RunsUpTo(g0, p, m.r, m.c, n + 1))
    {
      DirIndexInverse(dr, dc);
      ghost var g1 := Set(g0, m.r, m.c, p);
      ghost var done := RunsUpTo(g0, p, m.r, m.c, n);
      assert Flips.CountFlips(Cells(), p, m.r, m.c, dr, dc) == Flips.CountFlips(g0, p, m.r, m.c, dr, dc) by {
        LaterRaysUntouched(g0, p, m.r, m.c, n, dr, dc);
        GridExt(Cells(), Fold(g1, p, done));
      }
      var flips := CountFlips(p, m.r, m.c, dr, dc);
      if flips > 0 {
        RunCellIn(g0, p, m.r, m.c, dr, dc, flips);
        forall s | 1 <= s <= flips ensures In(At(m.r, dr, s), At(m.c, dc, s)) {
          RunCellIn(g0, p, m.r, m.c, dr, dc, s);
        }
        FlipRun(p, m.r, m.c, dr, dc, flips);
      }
      assert RunsUpTo(g0, p, m.r, m.c, n + 1) == done + RunCells(m.r, m.c, dr, dc, flips);
    }

    /**
     * The inner loop of applyMove: write p into the flips cells that follow
     * (r, c) along (dr, dc), nearest first.
     */
    method FlipRun(p: int, r: int, c: int, dr: int, dc: int, flips: int)
      requires Valid() && IsDir(dr, dc) && flips > 0
      requires forall s | 1 <= s <= flips :: In(At(r, dr, s), At(c, dc, s))
      modifies b
      ensures forall x, y | 0 <= x < 8 && 0 <= y < 8 ::
        b[x, y] == if Move(x, y) in RunCells(r, c, dr, dc, flips) then p else old(b[x, y])
    {
      var i, j := r + dr, c + dc;
      for k := 0 to flips
        invariant i == At(r, dr, k + 1) && j == At(c, dc, k + 1)
        invariant forall x, y | 0 <= x < 8 && 0 <= y < 8 ::
          b[x, y] == if Move(x, y) in RunCells(r, c, dr, dc, k) then p else old(b[x, y])
      {
        b[i, j] := p;
        i, j := i + dr, j + dc;
      }
    }

    /** The board holds g with p written into each listed cell. */
    ghost predicate Writes(g: Grid, p: int, cells: seq<Move>)
      reads b
      requires Valid() && WellFormed(g)
    {
      forall x, y | 0 <= x < 8 && 0 <= y < 8 :: b[x, y] == if Move(x, y) in cells then p else g[x][y]
    }

    /** getScore: the sum of all cells. */
    method GetScore() returns (sum: int)
      requires Valid()
      ensures sum == Score(Cells())
    {
      ghost var g := Cells();
      sum := 0;
      for i := 0 to 8
        invariant sum == SumUpTo(g, i)
      {
        for j := 0 to 8
          invariant sum == SumUpTo(g, i) + RowSum(g[i], j)
        {
          sum := sum + b[i, j];
        }
      }
    }

    /** countPieces: the number of cells holding p. */
    method CountPieces(p: int) returns (cnt: int)
      requires Valid()
      ensures cnt == Layout.CountPieces(Cells(), p)
    {
      ghost var g := Cells();
      cnt := 0;
      for i := 0 to 8
        invariant cnt == CountUpTo(g, p, i)
      {
        for j := 0 to 8
          invariant cnt == CountUpTo(g, p, i) + RowCount(g[i], p, j)
        {
          if b[i, j] == p {
            cnt := cnt + 1;
          }
        }
      }
    }

    /** cornerControl: how many of the four corners hold p. */
    method CornerControl(p: int) returns (score: int)
      requires Valid()
      ensures score == Layout.CornerControl(Cells(), p)
    {
      ghost var g := Cells();
      score := 0;
      for k := 0 to 4
        invariant score == CornersHeld(g, p, k)
      {
        var corner := Corners[k];
        if b[corner.r, corner.c] == p {
          score := score + 1;
        }
      }
    }

    /** mobility: the number of valid moves of p. */
    method Mobility(p: int) returns (n: int)
      requires Valid()
      ensures n == Flips.Mobility(Cells(), p)
    {
      var moves := GetValidMoves(p);
      n := |moves|;
    }
  }
}
