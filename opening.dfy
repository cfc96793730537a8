/** The start position: the layout initStart produces and Black's opening moves. */
module Opening {
  import opened Layout
  import opened Flips

  /** A non-empty list holds its first element. */
  lemma HeadMember(s: seq<Move>)
    requires s != []
    ensures s[0] in s
  {
  }

  /** Two increasing lists with the same members are equal. */
  lemma {:induction false} IncreasingUnique(a: seq<Move>, b: seq<Move>)
    requires Increasing(a) && Increasing(b)
    requires forall m :: m in a <==> m in b
    ensures a == b
    decreases |a|
  {
    if a == [] {
      if b != [] {
        HeadMember(b);
        assert false;
      }
    } else {
      assert a[0] in b && b != [] && b[0] in a;
      assert a[0] == b[0];
      forall m ensures m in a[1..] <==> m in b[1..] {
        if m in a[1..] {
          assert m in a && m != a[0];
        }
        if m in b[1..] {
          assert m in b && m != b[0];
        }
      }
      IncreasingUnique(a[1..], b[1..]);
      assert a == [a[0]] + a[1..] && b == [b[0]] + b[1..];
    }
  }

  /** The four moves Black has in the start position, in the order getValidMoves lists them. */
  const OpeningMoves: seq<Move> := [Move(2, 3), Move(3, 2), Move(4, 5), Move(5, 4)]

  /** A run can only start next to an opponent disc. */
  lemma FlipsNeedNeighbour(g: Grid, p: int, r: int, c: int, dr: int, dc: int)
    requires WellFormed(g) && In(r, c) && IsDir(dr, dc)
    ensures CountFlips(g, p, r, c, dr, dc) > 0 ==>
      In(r + dr, c + dc) && g[r + dr][c + dc] == -p
  {
    assert At(r, dr, 1) == r + dr && At(c, dc, 1) == c + dc;
  }

  /** In the start position Black may play exactly the four opening moves. */
  lemma StartLegal(m: Move)
    ensures Legal(StartGrid(), BLACK, m) <==> m in OpeningMoves
  {
    var g := StartGrid();
    if m in OpeningMoves {
      var dr, dc := if m.r == 2 then 1 else if m.r == 5 then -1 else 0, if m.c == 2 then 1 else if m.c == 5 then -1 else 0;
      assert FlipsFrom(g, BLACK, m.r, m.c, dr, dc, 1) == 1;
      assert CountFlips(g, BLACK, m.r, m.c, dr, dc) == 1;
    } else if In(m.r, m.c) && g[m.r][m.c] == EMPTY {
      forall dr, dc | IsDir(dr, dc) ensures CountFlips(g, BLACK, m.r, m.c, dr, dc) == 0 {
        FlipsNeedNeighbour(g, BLACK, m.r, m.c, dr, dc);
      }
    }
  }

  /** A list in row-major order whose members are exactly the legal moves is what getValidMoves returns. */
  lemma ValidMovesByMembers(g: Grid, p: int, target: seq<Move>)
    requires WellFormed(g) && Increasing(target)
    requires forall m :: Legal(g, p, m) <==> m in target
    ensures ValidMoves(g, p) == target
  {
    ValidMovesSpec(g, p);
    IncreasingUnique(ValidMoves(g, p), target);
  }

  lemma OpeningIncreasing()
    ensures Increasing(OpeningMoves)
  {
    assert Index(OpeningMoves[0]) == 19 && Index(OpeningMoves[1]) == 26;
    assert Index(OpeningMoves[2]) == 37 && Index(OpeningMoves[3]) == 44;
  }

  /** getValidMoves(BLACK) on the start position lists exactly (2,3), (3,2), (4,5), (5,4), in that order. */
  lemma StartMoves()
    ensures ValidMoves(StartGrid(), BLACK) == OpeningMoves
  {
    forall m ensures Legal(StartGrid(), BLACK, m) <==> m in OpeningMoves {
      StartLegal(m);
    }
    OpeningIncreasing();
    ValidMovesByMembers(StartGrid(), BLACK, OpeningMoves);
  }

  /** 1 when x holds p, else 0. */
  function Hit(x: int, p: int): nat { if x == p then 1 else 0 }

  /** The count of p in a row of eight, written out cell by cell. */
  lemma RowCountEight(row: seq<int>, p: int)
    requires |row| == 8
    ensures RowCount(row, p, 8) == Hit(row[0], p) + Hit(row[1], p) + Hit(row[2], p) + Hit(row[3], p) +
      Hit(row[4], p) + Hit(row[5], p) + Hit(row[6], p) + Hit(row[7], p)
  {
    assert RowCount(row, p, 2) == Hit(row[0], p) + Hit(row[1], p);
    assert RowCount(row, p, 4) == RowCount(row, p, 2) + Hit(row[2], p) + Hit(row[3], p);
    assert RowCount(row, p, 6) == RowCount(row, p, 4) + Hit(row[4], p) + Hit(row[5], p);
  }

  /** The count of p on a grid, written out row by row. */
  lemma CountEight(g: Grid, p: int)
    requires WellFormed(g)
    ensures CountPieces(g, p) == RowCount(g[0], p, 8) + RowCount(g[1], p, 8) + RowCount(g[2], p, 8) +
      RowCount(g[3], p, 8) + RowCount(g[4], p, 8) + RowCount(g[5], p, 8) + RowCount(g[6], p, 8) + RowCount(g[7], p, 8)
  {
    assert CountUpTo(g, p, 2) == RowCount(g[0], p, 8) + RowCount(g[1], p, 8);
    assert CountUpTo(g, p, 4) == CountUpTo(g, p, 2) + RowCount(g[2], p, 8) + RowCount(g[3], p, 8);
    assert CountUpTo(g, p, 6) == CountUpTo(g, p, 4) + RowCount(g[4], p, 8) + RowCount(g[5], p, 8);
    assert CountUpTo(g, p, 8) == CountUpTo(g, p, 6) + RowCount(g[6], p, 8) + RowCount(g[7], p, 8);
  }

  /** Row i of the start position: one disc of each side and six EMPTY cells in rows 3 and 4, eight EMPTY cells elsewhere. */
  lemma StartRow(i: int)
    requires 0 <= i < 8
    ensures RowCount(StartGrid()[i], BLACK, 8) == RowCount(StartGrid()[i], WHITE, 8) == if i == 3 || i == 4 then 1 else 0
    ensures RowCount(StartGrid()[i], EMPTY, 8) == if i == 3 || i == 4 then 6 else 8
  {
    RowCountEight(StartGrid()[i], BLACK);
    RowCountEight(StartGrid()[i], WHITE);
    RowCountEight(StartGrid()[i], EMPTY);
  }

  /** The start position holds two discs of each side and sixty EMPTY cells. */
  lemma StartCounts()
    ensures CountPieces(StartGrid(), BLACK) == 2 && CountPieces(StartGrid(), WHITE) == 2
    ensures CountPieces(StartGrid(), EMPTY) == 60
  {
    StartRow(0); StartRow(1); StartRow(2); StartRow(3);
    StartRow(4); StartRow(5); StartRow(6); StartRow(7);
    CountEight(StartGrid(), BLACK);
    CountEight(StartGrid(), WHITE);
    CountEight(StartGrid(), EMPTY);
  }
}
