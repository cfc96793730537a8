/** The flip rule and legal-move generation, as functions of a grid snapshot. */
module Flips {
  import opened Layout

  /** One of the eight compass directions (dr, dc). */
  predicate IsDir(dr: int, dc: int)
  {
    -1 <= dr <= 1 && -1 <= dc <= 1 && !(dr == 0 && dc == 0)
  }

  /** The coordinate s steps from x along a direction component d in {-1, 0, 1}: x + s * d. */
  function At(x: int, d: int, s: int): int
  {
    if d == 0 then x else if d > 0 then x + s else x - s
  }

  /**
   * The walk of countFlips: cnt opponent discs have been passed, the walk now
   * looks at the cell cnt + 1 steps from (r, c).
   */
  function FlipsFrom(g: Grid, p: int, r: int, c: int, dr: int, dc: int, cnt: nat): nat
    requires WellFormed(g) && In(r, c) && IsDir(dr, dc)
    decreases 8 - cnt
  {
    var i, j := At(r, dr, cnt + 1), At(c, dc, cnt + 1);
    if In(i, j) && g[i][j] == -p then FlipsFrom(g, p, r, c, dr, dc, cnt + 1)
    else if cnt > 0 && In(i, j) && g[i][j] == p then cnt
    else 0
  }

  /** countFlips: how many discs p would flip in direction (dr, dc) by playing (r, c). */
  function CountFlips(g: Grid, p: int, r: int, c: int, dr: int, dc: int): nat
    requires WellFormed(g) && In(r, c) && IsDir(dr, dc)
  {
    FlipsFrom(g, p, r, c, dr, dc, 0)
  }

  /** The first k cells from (r, c) along (dr, dc) hold -p and the next one holds p. */
  predicate ClosedRun(g: Grid, p: int, r: int, c: int, dr: int, dc: int, k: int)
    requires WellFormed(g)
  {
    k >= 1 &&
    (forall s | 1 <= s <= k :: In(At(r, dr, s), At(c, dc, s)) && g[At(r, dr, s)][At(c, dc, s)] == -p) &&
    In(At(r, dr, k + 1), At(c, dc, k + 1)) && g[At(r, dr, k + 1)][At(c, dc, k + 1)] == p
  }

  /** The cells 1..cnt from (r, c) along (dr, dc) hold -p. */
  predicate OpponentPrefix(g: Grid, p: int, r: int, c: int, dr: int, dc: int, cnt: int)
    requires WellFormed(g)
  {
    forall s | 1 <= s <= cnt :: In(At(r, dr, s), At(c, dc, s)) && g[At(r, dr, s)][At(c, dc, s)] == -p
  }

  /** placing p at (r, c) would flip something in some direction. */
  ghost predicate WouldFlip(g: Grid, p: int, r: int, c: int)
    requires WellFormed(g) && In(r, c)
  {
    exists dr, dc :: IsDir(dr, dc) && CountFlips(g, p, r, c, dr, dc) > 0
  }

  /** m is a legal move for p: on the board, EMPTY, and flipping something. */
  ghost predicate Legal(g: Grid, p: int, m: Move)
    requires WellFormed(g)
  {
    In(m.r, m.c) && g[m.r][m.c] == EMPTY && WouldFlip(g, p, m.r, m.c)
  }

  /** Row-major position of a cell. */
  function Index(m: Move): int { 8 * m.r + m.c }

  /** The cells are listed in strictly increasing row-major position. */
  predicate Increasing(ms: seq<Move>)
  {
    forall i, j | 0 <= i < j < |ms| :: Index(ms[i]) < Index(ms[j])
  }

  /** The legal moves in row r with column below c, left to right. */
  ghost function RowMoves(g: Grid, p: int, r: int, c: nat): seq<Move>
    requires WellFormed(g)
  {
    if c == 0 then []
    else RowMoves(g, p, r, c - 1) + (if Legal(g, p, Move(r, c - 1)) then [Move(r, c - 1)] else [])
  }

  /** The legal moves in the rows above r, in row-major order, as getValidMoves lists them. */
  ghost function MovesUpTo(g: Grid, p: int, r: nat): seq<Move>
    requires WellFormed(g)
  {
    if r == 0 then [] else MovesUpTo(g, p, r - 1) + RowMoves(g, p, r - 1, 8)
  }

  /** Within one row the scan lists exactly the legal moves left of c, left to right. */
  lemma {:induction false} RowMovesMembers(g: Grid, p: int, r: int, c: nat)
    requires WellFormed(g)
    ensures forall m :: m in RowMoves(g, p, r, c) <==> m.r == r && m.c < c && Legal(g, p, m)
    ensures forall i, j | 0 <= i < j < |RowMoves(g, p, r, c)| ::
      RowMoves(g, p, r, c)[i].r == r && RowMoves(g, p, r, c)[i].c < RowMoves(g, p, r, c)[j].c
  {
    if c > 0 {
      RowMovesMembers(g, p, r, c - 1);
      var prev := RowMoves(g, p, r, c - 1);
      var ms := RowMoves(g, p, r, c);
      forall i, j | 0 <= i < j < |ms| ensures ms[i].r == r && ms[i].c < ms[j].c {
        assert ms[i] == prev[i] && prev[i] in prev;
        if j < |prev| {
          assert ms[j] == prev[j];
        } else {
          assert ms[j] == Move(r, c - 1);
        }
      }
    } else {
      assert RowMoves(g, p, r, c) == [];
    }
  }

  /** The scan of the rows above r lists exactly their legal moves, in increasing row-major position. */
  lemma {:induction false} MovesUpToMembers(g: Grid, p: int, r: nat)
    requires WellFormed(g)
    ensures forall m :: m in MovesUpTo(g, p, r) <==> m.r < r && Legal(g, p, m)
    ensures Increasing(MovesUpTo(g, p, r))
  {
    if r > 0 {
      MovesUpToMembers(g, p, r - 1);
      RowMovesMembers(g, p, r - 1, 8);
      var prev, row := MovesUpTo(g, p, r - 1), RowMoves(g, p, r - 1, 8);
      forall i, j | 0 <= i < j < |prev + row|
        ensures Index((prev + row)[i]) < Index((prev + row)[j])
      {
        if j >= |prev| {
          assert (prev + row)[j] in row;
          if i < |prev| {
            assert (prev + row)[i] in prev;
          }
        }
      }
    }
  }

  /** getValidMoves: the row-major scan of the whole board. */
  ghost function ValidMoves(g: Grid, p: int): (ms: seq<Move>)
    requires WellFormed(g)
    ensures AllIn(ms)
  {
    MovesUpToMembers(g, p, 8);
    MovesUpTo(g, p, 8)
  }

  /** getValidMoves lists exactly the legal moves, in row-major order, without repetition. */
  lemma ValidMovesSpec(g: Grid, p: int)
    requires WellFormed(g)
    ensures forall m :: m in ValidMoves(g, p) <==> Legal(g, p, m)
    ensures Increasing(ValidMoves(g, p)) && Distinct(ValidMoves(g, p))
  {
    MovesUpToMembers(g, p, 8);
  }

  /** mobility: the number of legal moves. */
  ghost function Mobility(g: Grid, p: int): nat
    requires WellFormed(g)
  {
    |ValidMoves(g, p)|
  }

  // ----- lemmas -----

  lemma {:induction false} FlipsFromMeaning(g: Grid, p: int, r: int, c: int, dr: int, dc: int, cnt: nat)
    requires WellFormed(g) && IsSide(p) && In(r, c) && IsDir(dr, dc)
    requires OpponentPrefix(g, p, r, c, dr, dc, cnt)
    ensures var k := FlipsFrom(g, p, r, c, dr, dc, cnt);
      (k > 0 ==> ClosedRun(g, p, r, c, dr, dc, k)) &&
      (k == 0 ==> forall n :: !ClosedRun(g, p, r, c, dr, dc, n))
    decreases 8 - cnt
  {
    var i, j := At(r, dr, cnt + 1), At(c, dc, cnt + 1);
    if In(i, j) && g[i][j] == -p {
      FlipsFromMeaning(g, p, r, c, dr, dc, cnt + 1);
    } else if cnt > 0 && In(i, j) && g[i][j] == p {
    } else {
      forall n ensures !ClosedRun(g, p, r, c, dr, dc, n) {
        if 1 <= n < cnt {
          assert In(At(r, dr, n + 1), At(c, dc, n + 1)) && g[At(r, dr, n + 1)][At(c, dc, n + 1)] == -p;
        } else if n > cnt {
          assert !(In(At(r, dr, cnt + 1), At(c, dc, cnt + 1)) && g[At(r, dr, cnt + 1)][At(c, dc, cnt + 1)] == -p);
        }
      }
    }
  }

  /** A closed run in a given direction has only one possible length. */
  lemma ClosedRunUnique(g: Grid, p: int, r: int, c: int, dr: int, dc: int, k: int)
    requires WellFormed(g) && IsSide(p)
    requires ClosedRun(g, p, r, c, dr, dc, k)
    ensures forall n :: ClosedRun(g, p, r, c, dr, dc, n) ==> n == k
  {
    forall n | n != k ensures !ClosedRun(g, p, r, c, dr, dc, n) {
      if n > k {
        assert g[At(r, dr, k + 1)][At(c, dc, k + 1)] != -p;
      } else if n >= 1 {
        assert g[At(r, dr, n + 1)][At(c, dc, n + 1)] != p;
      }
    }
  }

  /**
   * countFlips returns 0 or the length k > 0 of the run of -p discs that
   * starts next to (r, c) and is closed by a disc of p; it is 0 exactly when
   * no such closed run exists.
   */
  lemma CountFlipsMeaning(g: Grid, p: int, r: int, c: int, dr: int, dc: int)
    requires WellFormed(g) && IsSide(p) && In(r, c) && IsDir(dr, dc)
    ensures forall n :: ClosedRun(g, p, r, c, dr, dc, n) <==> n == CountFlips(g, p, r, c, dr, dc) > 0
  {
    var k := CountFlips(g, p, r, c, dr, dc);
    FlipsFromMeaning(g, p, r, c, dr, dc, 0);
    if k > 0 {
      ClosedRunUnique(g, p, r, c, dr, dc, k);
    }
  }

  /** The cells s >= 1 steps from (r, c) along (dr, dc) hold the same values in g and h. */
  ghost predicate SameRay(g: Grid, h: Grid, r: int, c: int, dr: int, dc: int)
    requires WellFormed(g) && WellFormed(h)
  {
    forall s | s >= 1 && In(At(r, dr, s), At(c, dc, s)) ::
      g[At(r, dr, s)][At(c, dc, s)] == h[At(r, dr, s)][At(c, dc, s)]
  }

  lemma {:induction false} FlipsFromRay(g: Grid, h: Grid, p: int, r: int, c: int, dr: int, dc: int, cnt: nat)
    requires WellFormed(g) && WellFormed(h) && In(r, c) && IsDir(dr, dc)
    requires SameRay(g, h, r, c, dr, dc)
    ensures FlipsFrom(g, p, r, c, dr, dc, cnt) == FlipsFrom(h, p, r, c, dr, dc, cnt)
    decreases 8 - cnt
  {
    var i, j := At(r, dr, cnt + 1), At(c, dc, cnt + 1);
    if In(i, j) && g[i][j] == -p {
      FlipsFromRay(g, h, p, r, c, dr, dc, cnt + 1);
    }
  }

  /** countFlips reads only the cells of its own ray. */
  lemma CountFlipsRay(g: Grid, h: Grid, p: int, r: int, c: int, dr: int, dc: int)
    requires WellFormed(g) && WellFormed(h) && In(r, c) && IsDir(dr, dc)
    requires SameRay(g, h, r, c, dr, dc)
    ensures CountFlips(g, p, r, c, dr, dc) == CountFlips(h, p, r, c, dr, dc)
  {
    FlipsFromRay(g, h, p, r, c, dr, dc, 0);
  }
}
