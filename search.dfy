/**
 * The search of MinimaxPlayer as functions of a grid. GameTree lays out the
 * positions minimax visits (leaves, forced passes, move nodes in the order
 * getValidMoves lists the moves); Minimax is the plain minimax value of such a
 * tree, AlphaBeta the value the player's alpha-beta loop computes on it, and
 * ChooseMove the root choice.
 */
module Search {
  import opened Layout
  import opened Flips
  import opened Apply

  /** Integer.MIN_VALUE and Integer.MAX_VALUE, the sentinels of the search. */
  const INT_MIN := -0x8000_0000
  const INT_MAX := 0x7fff_ffff

  datatype Option<T> = None | Some(value: T)

  function Max(a: int, b: int): int { if a >= b then a else b }
  function Min(a: int, b: int): int { if a <= b then a else b }

  // ----- leaves -----

  /** Legal moves are distinct cells in increasing row-major order, so there are at most 64. */
  lemma MobilityBound(g: Grid, p: int)
    requires WellFormed(g)
    ensures Mobility(g, p) <= 64
  {
    var ms := ValidMoves(g, p);
    ValidMovesSpec(g, p);
    if ms != [] {
      IndexAtLeast(ms, |ms| - 1);
      assert ms[|ms| - 1] in ms;
    }
  }

  lemma {:induction false} IndexAtLeast(ms: seq<Move>, i: nat)
    requires i < |ms| && AllIn(ms)
    requires Increasing(ms)
    ensures Index(ms[i]) >= i
  {
    if i > 0 {
      IndexAtLeast(ms, i - 1);
    } else {
      assert ms[0] in ms;
    }
  }

  /**
   * evaluate: piece difference + 5 * mobility difference + 25 * corner
   * difference, from the side of me; it never leaves [-484, 484].
   */
  ghost function Evaluate(g: Grid, me: int): (e: int)
    requires WellFormed(g)
    ensures -484 <= e <= 484
  {
    MobilityBound(g, me);
    MobilityBound(g, -me);
    var pieceDiff := CountPieces(g, me) - CountPieces(g, -me);
    var mobility := Mobility(g, me) - Mobility(g, -me);
    var corner := CornerControl(g, me) - CornerControl(g, -me);
    1 * pieceDiff + 5 * mobility + 25 * corner
  }

  /** The value of a finished game: the final score, negated when me is WHITE. */
  function TerminalValue(g: Grid, me: int): (v: int)
    requires WellFormed(g)
    ensures Discs(g) ==> -64 <= v <= 64
  {
    var finalScore := Score(g);
    if me == BLACK then finalScore else -finalScore
  }

  /** A finished game is worth me's final disc margin, which lies in [-64, 64]. */
  lemma TerminalIsMargin(g: Grid, me: int)
    requires Discs(g) && IsSide(me)
    ensures TerminalValue(g, me) == CountPieces(g, me) - CountPieces(g, -me)
    ensures -64 <= TerminalValue(g, me) <= 64
  {
    ScoreIsDiscDifference(g);
  }

  // ----- the positions the search visits -----

  /**
   * A search tree: a leaf holds a value; a pass or move node records whether
   * the side to move is the maximising one (the searching player).
   */
  datatype Tree = Leaf(value: int) | Pass(maximising: bool, next: Tree) | Node(maximising: bool, kids: seq<Tree>)

  /**
   * The tree minimax explores for me from g with cur to move and depth plies
   * left: a leaf with the final score when neither side can move (whatever the
   * depth), a leaf with evaluate at depth 0, a pass to the other side on the
   * same board when cur has no move, and otherwise one child per legal move of
   * cur, in getValidMoves order.
   */
  ghost function GameTree(g: Grid, me: int, depth: nat, cur: int): (t: Tree)
    requires WellFormed(g) && IsSide(cur)
    decreases depth, 2
  {
    var moves := ValidMoves(g, cur);
    if moves == [] && ValidMoves(g, -cur) == [] then Leaf(TerminalValue(g, me))
    else if depth == 0 then Leaf(Evaluate(g, me))
    else if moves == [] then Pass(cur == me, GameTree(g, me, depth - 1, -cur))
    else Node(cur == me, Kids(g, me, depth, cur, moves))
  }

  /** The subtrees after cur plays each of ms, in order. */
  ghost function Kids(g: Grid, me: int, depth: nat, cur: int, ms: seq<Move>): seq<Tree>
    requires WellFormed(g) && IsSide(cur) && AllIn(ms) && depth >= 1
    decreases depth, 1
  {
    seq(|ms|, i requires 0 <= i < |ms| => assert ms[i] in ms; Kid(g, me, depth, cur, ms[i]))
  }

  /** The subtree after cur plays m: the opponent to move on the resulting board, one ply fewer. */
  ghost function Kid(g: Grid, me: int, depth: nat, cur: int, m: Move): (t: Tree)
    requires WellFormed(g) && IsSide(cur) && In(m.r, m.c) && depth >= 1
    decreases depth, 0
  {
    GameTree(Applied(g, cur, m.r, m.c), me, depth - 1, -cur)
  }

  /** Every move node has at least one child. */
  predicate Branching(t: Tree)
  {
    match t
    case Leaf(_) => true
    case Pass(_, n) => Branching(n)
    case Node(_, kids) => kids != [] && forall i | 0 <= i < |kids| :: Branching(kids[i])
  }

  /** Every leaf value lies in [-484, 484]. */
  predicate LeavesBounded(t: Tree)
  {
    match t
    case Leaf(v) => -484 <= v <= 484
    case Pass(_, n) => LeavesBounded(n)
    case Node(_, kids) => forall i | 0 <= i < |kids| :: LeavesBounded(kids[i])
  }

  // ----- plain minimax, the reference -----

  /** The minimax value of a tree: a pass has its successor's value, a move node the best or worst child. */
  function Minimax(t: Tree): int
    requires Branching(t)
    decreases t
  {
    match t
    case Leaf(v) => v
    case Pass(_, n) => Minimax(n)
    case Node(maximising, kids) => if maximising then MaxOf(kids) else MinOf(kids)
  }

  function MaxOf(kids: seq<Tree>): int
    requires kids != [] && forall i | 0 <= i < |kids| :: Branching(kids[i])
    decreases kids
  {
    var v := Minimax(kids[0]);
    if |kids| == 1 then v else Max(v, MaxOf(kids[1..]))
  }

  function MinOf(kids: seq<Tree>): int
    requires kids != [] && forall i | 0 <= i < |kids| :: Branching(kids[i])
    decreases kids
  {
    var v := Minimax(kids[0]);
    if |kids| == 1 then v else Min(v, MinOf(kids[1..]))
  }

  // ----- minimax with alpha-beta, as the player computes it -----

  /**
   * minimax(board, depth, cur, alpha, beta) on the tree of the board: a leaf
   * returns its value; a pass keeps the window; a maximising node starts its
   * running value at INT_MIN and a minimising one at INT_MAX.
   */
  function AlphaBeta(t: Tree, alpha: int, beta: int): int
    decreases t
  {
    match t
    case Leaf(v) => v
    case Pass(maximising, n) =>
      if maximising then Max(INT_MIN, AlphaBeta(n, alpha, beta)) else Min(INT_MAX, AlphaBeta(n, alpha, beta))
    case Node(maximising, kids) =>
      if maximising then ABMax(kids, alpha, beta, INT_MIN) else ABMin(kids, alpha, beta, INT_MAX)
  }

  /** The maximising loop over the children still to visit, with running alpha and value; it stops once alpha >= beta. */
  function ABMax(kids: seq<Tree>, alpha: int, beta: int, value: int): int
    decreases kids
  {
    if kids == [] then value
    else
      var v := Max(value, AlphaBeta(kids[0], alpha, beta));
      var a := Max(alpha, v);
      if a >= beta then v else ABMax(kids[1..], a, beta, v)
  }

  /** The minimising loop over the children still to visit, with running beta and value; it stops once alpha >= beta. */
  function ABMin(kids: seq<Tree>, alpha: int, beta: int, value: int): int
    decreases kids
  {
    if kids == [] then value
    else
      var v := Min(value, AlphaBeta(kids[0], alpha, beta));
      var b := Min(beta, v);
      if alpha >= b then v else ABMin(kids[1..], alpha, b, v)
  }

  // ----- the root choice -----

  /** The running best move and its value in chooseMove. */
  datatype Choice = Choice(best: Option<Move>, bestVal: int)

  /** The chooseMove loop over the moves still to visit and their values: a move replaces the best only when strictly better. */
  function Pick(ms: seq<Move>, vals: seq<int>, c: Choice): Choice
    requires |vals| == |ms|
    decreases |ms|
  {
    if ms == [] then c
    else Pick(ms[1..], vals[1..], if vals[0] > c.bestVal then Choice(Some(ms[0]), vals[0]) else c)
  }

  /** The tree chooseMove searches after me plays m, with d plies left. */
  ghost function ReplyTree(g: Grid, me: int, d: nat, m: Move): Tree
    requires WellFormed(g) && IsSide(me) && In(m.r, m.c)
  {
    Kid(g, me, d + 1, me, m)
  }

  /** The value chooseMove gives each move: a full-window alpha-beta search of the reply. */
  ghost function RootScores(g: Grid, me: int, d: nat, ms: seq<Move>): (vals: seq<int>)
    requires WellFormed(g) && IsSide(me) && AllIn(ms)
    ensures |vals| == |ms|
  {
    seq(|ms|, i requires 0 <= i < |ms| => assert ms[i] in ms; AlphaBeta(ReplyTree(g, me, d, ms[i]), INT_MIN, INT_MAX))
  }

  /** The choice chooseMove makes among the moves ms: none when ms is empty, else the loop's final best. */
  ghost function ChooseAmong(g: Grid, me: int, d: nat, ms: seq<Move>): Option<Move>
    requires WellFormed(g) && IsSide(me) && AllIn(ms)
  {
    if ms == [] then None
    else Pick(ms, RootScores(g, me, d, ms), Choice(None, INT_MIN)).best
  }

  /** chooseMove: the choice among the legal moves of me, each searched maxDepth - 1 plies deep. */
  ghost function ChooseMove(g: Grid, me: int, maxDepth: int): Option<Move>
    requires WellFormed(g) && IsSide(me) && maxDepth >= 1
  {
    ChooseAmong(g, me, maxDepth - 1, ValidMoves(g, me))
  }

  // ----- lemmas: the tree of a board -----

  /** In the tree of any board every move node has a child; on a board of discs every leaf lies in [-484, 484]. */
  lemma {:induction false} GameTreeShape(g: Grid, me: int, depth: nat, cur: int)
    requires WellFormed(g) && IsSide(cur)
    ensures Branching(GameTree(g, me, depth, cur))
    ensures Discs(g) ==> LeavesBounded(GameTree(g, me, depth, cur))
    decreases depth, 2
  {
    var moves := ValidMoves(g, cur);
    if !(moves == [] && ValidMoves(g, -cur) == []) && depth > 0 {
      if moves == [] {
        GameTreeShape(g, me, depth - 1, -cur);
      } else {
        KidsShape(g, me, depth, cur, moves);
      }
    }
  }

  lemma {:induction false} KidsShape(g: Grid, me: int, depth: nat, cur: int, ms: seq<Move>)
    requires WellFormed(g) && IsSide(cur) && AllIn(ms) && depth >= 1
    ensures forall i | 0 <= i < |ms| :: Branching(Kids(g, me, depth, cur, ms)[i])
    ensures Discs(g) ==> forall i | 0 <= i < |ms| :: LeavesBounded(Kids(g, me, depth, cur, ms)[i])
    decreases depth, 1
  {
    forall i | 0 <= i < |ms|
      ensures Branching(Kids(g, me, depth, cur, ms)[i])
      ensures Discs(g) ==> LeavesBounded(Kids(g, me, depth, cur, ms)[i])
    {
      assert ms[i] in ms;
      KidShape(g, me, depth, cur, ms[i]);
    }
  }

  lemma {:induction false} KidShape(g: Grid, me: int, depth: nat, cur: int, m: Move)
    requires WellFormed(g) && IsSide(cur) && In(m.r, m.c) && depth >= 1
    ensures Branching(Kid(g, me, depth, cur, m))
    ensures Discs(g) ==> LeavesBounded(Kid(g, me, depth, cur, m))
    decreases depth, 0
  {
    GameTreeShape(Applied(g, cur, m.r, m.c), me, depth - 1, -cur);
  }

  /**
   * One level of the tree when the game is not over and depth >= 1: a pass
   * node over the same board when cur has no move, otherwise a move node with
   * one child per legal move, in order.
   */
  lemma GameTreeStep(g: Grid, me: int, depth: nat, cur: int)
    requires WellFormed(g) && IsSide(cur) && depth >= 1
    requires !(ValidMoves(g, cur) == [] && ValidMoves(g, -cur) == [])
    ensures var t, moves := GameTree(g, me, depth, cur), ValidMoves(g, cur);
      moves == [] ==> t == Pass(cur == me, GameTree(g, me, depth - 1, -cur))
    ensures var t, moves := GameTree(g, me, depth, cur), ValidMoves(g, cur);
      moves != [] ==> t == Node(cur == me, Kids(g, me, depth, cur, moves))
  {
  }

  /** The i-th subtree is the one after cur plays the i-th move. */
  lemma KidsAt(g: Grid, me: int, depth: nat, cur: int, ms: seq<Move>, i: int)
    requires WellFormed(g) && IsSide(cur) && AllIn(ms) && depth >= 1 && 0 <= i < |ms|
    ensures |Kids(g, me, depth, cur, ms)| == |ms|
    ensures In(ms[i].r, ms[i].c) && Kids(g, me, depth, cur, ms)[i] == Kid(g, me, depth, cur, ms[i])
  {
    assert ms[i] in ms;
  }

  // ----- lemmas: minimax and alpha-beta on trees -----

  /** The minimax value of a tree with bounded leaves is bounded too. */
  lemma {:induction false} MinimaxBound(t: Tree)
    requires Branching(t) && LeavesBounded(t)
    ensures -484 <= Minimax(t) <= 484
    decreases t
  {
    match t
    case Leaf(_) =>
    case Pass(_, n) => MinimaxBound(n);
    case Node(maximising, kids) => KidsBound(kids);
  }

  lemma {:induction false} KidsBound(kids: seq<Tree>)
    requires kids != [] && forall i | 0 <= i < |kids| :: Branching(kids[i]) && LeavesBounded(kids[i])
    ensures -484 <= MaxOf(kids) <= 484 && -484 <= MinOf(kids) <= 484
    decreases kids
  {
    MinimaxBound(kids[0]);
    if |kids| > 1 {
      assert forall i | 0 <= i < |kids[1..]| :: kids[1..][i] == kids[i + 1];
      KidsBound(kids[1..]);
    }
  }

  /** MaxOf is the value of one of the children and at least the value of each. */
  lemma {:induction false} MaxOfIsMaximum(kids: seq<Tree>)
    requires kids != [] && forall i | 0 <= i < |kids| :: Branching(kids[i])
    ensures forall i | 0 <= i < |kids| :: Minimax(kids[i]) <= MaxOf(kids)
    ensures exists i | 0 <= i < |kids| :: Minimax(kids[i]) == MaxOf(kids)
    decreases |kids|
  {
    if |kids| > 1 {
      var rest := kids[1..];
      assert forall i | 0 <= i < |rest| :: rest[i] == kids[i + 1];
      MaxOfIsMaximum(rest);
      var i :| 0 <= i < |rest| && Minimax(rest[i]) == MaxOf(rest);
      if Minimax(kids[0]) < MaxOf(rest) {
        assert Minimax(kids[i + 1]) == MaxOf(kids);
      } else {
        assert Minimax(kids[0]) == MaxOf(kids);
      }
    } else {
      assert Minimax(kids[0]) == MaxOf(kids);
    }
  }

  /** MinOf is the value of one of the children and at most the value of each. */
  lemma {:induction false} MinOfIsMinimum(kids: seq<Tree>)
    requires kids != [] && forall i | 0 <= i < |kids| :: Branching(kids[i])
    ensures forall i | 0 <= i < |kids| :: MinOf(kids) <= Minimax(kids[i])
    ensures exists i | 0 <= i < |kids| :: Minimax(kids[i]) == MinOf(kids)
    decreases |kids|
  {
    if |kids| > 1 {
      var rest := kids[1..];
      assert forall i | 0 <= i < |rest| :: rest[i] == kids[i + 1];
      MinOfIsMinimum(rest);
      var i :| 0 <= i < |rest| && Minimax(rest[i]) == MinOf(rest);
      if Minimax(kids[0]) > MinOf(rest) {
        assert Minimax(kids[i + 1]) == MinOf(kids);
      } else {
        assert Minimax(kids[0]) == MinOf(kids);
      }
    } else {
      assert Minimax(kids[0]) == MinOf(kids);
    }
  }

  /**
   * Alpha-beta with the window (alpha, beta) agrees with minimax inside the
   * window, and outside it errs only on the same side of the window.
   */
  lemma {:induction false} AlphaBetaWindow(t: Tree, alpha: int, beta: int)
    requires Branching(t) && LeavesBounded(t)
    requires INT_MIN <= alpha < beta <= INT_MAX
    ensures Minimax(t) <= alpha ==> AlphaBeta(t, alpha, beta) <= alpha
    ensures beta <= Minimax(t) ==> beta <= AlphaBeta(t, alpha, beta)
    ensures alpha < Minimax(t) < beta ==> AlphaBeta(t, alpha, beta) == Minimax(t)
    decreases t
  {
    match t
    case Leaf(_) =>
    case Pass(_, n) =>
      MinimaxBound(n);
      AlphaBetaWindow(n, alpha, beta);
    case Node(maximising, kids) =>
      KidsBound(kids);
      if maximising {
        ABMaxWindow(kids, alpha, beta, INT_MIN);
      } else {
        ABMinWindow(kids, alpha, beta, INT_MAX);
      }
  }

  /**
   * The maximising loop, entered with running value <= alpha: it never returns
   * less than value, and against the window it agrees with the best of value
   * and the minimax values of the children left.
   */
  lemma {:induction false} ABMaxWindow(kids: seq<Tree>, alpha: int, beta: int, value: int)
    requires kids != [] && forall i | 0 <= i < |kids| :: Branching(kids[i]) && LeavesBounded(kids[i])
    requires INT_MIN <= value <= alpha < beta <= INT_MAX
    ensures var w, r := Max(value, MaxOf(kids)), ABMax(kids, alpha, beta, value);
      value <= r && (w <= alpha ==> r <= alpha) && (beta <= w ==> beta <= r) && (alpha < w < beta ==> r == w)
    decreases kids
  {
    AlphaBetaWindow(kids[0], alpha, beta);
    var v := Max(value, AlphaBeta(kids[0], alpha, beta));
    var a := Max(alpha, v);
    if a < beta && |kids| > 1 {
      assert forall i | 0 <= i < |kids[1..]| :: kids[1..][i] == kids[i + 1];
      ABMaxWindow(kids[1..], a, beta, v);
    }
  }

  /** The minimising loop, the mirror image of ABMaxWindow. */
  lemma {:induction false} ABMinWindow(kids: seq<Tree>, alpha: int, beta: int, value: int)
    requires kids != [] && forall i | 0 <= i < |kids| :: Branching(kids[i]) && LeavesBounded(kids[i])
    requires INT_MIN <= alpha < beta <= value <= INT_MAX
    ensures var w, r := Min(value, MinOf(kids)), ABMin(kids, alpha, beta, value);
      r <= value && (w <= alpha ==> r <= alpha) && (beta <= w ==> beta <= r) && (alpha < w < beta ==> r == w)
    decreases kids
  {
    AlphaBetaWindow(kids[0], alpha, beta);
    var v := Min(value, AlphaBeta(kids[0], alpha, beta));
    var b := Min(beta, v);
    if alpha < b && |kids| > 1 {
      assert forall i | 0 <= i < |kids[1..]| :: kids[1..][i] == kids[i + 1];
      ABMinWindow(kids[1..], alpha, b, v);
    }
  }

  /** Called with the full window on the tree of a board of discs, alpha-beta returns exactly the minimax value. */
  lemma AlphaBetaExact(g: Grid, me: int, depth: nat, cur: int)
    requires Discs(g) && IsSide(cur)
    ensures Branching(GameTree(g, me, depth, cur))
    ensures AlphaBeta(GameTree(g, me, depth, cur), INT_MIN, INT_MAX) == Minimax(GameTree(g, me, depth, cur))
  {
    var t := GameTree(g, me, depth, cur);
    GameTreeShape(g, me, depth, cur);
    MinimaxBound(t);
    AlphaBetaWindow(t, INT_MIN, INT_MAX);
  }

  // ----- lemmas: the root choice -----

  /**
   * The chooseMove loop from the running choice c: it keeps c when no value
   * left beats c.bestVal, and otherwise ends on the earliest move whose value
   * beats c.bestVal and is greatest.
   */
  lemma {:induction false} PickResult(ms: seq<Move>, vals: seq<int>, c: Choice)
    requires |vals| == |ms|
    ensures (forall j | 0 <= j < |vals| :: vals[j] <= c.bestVal) ==> Pick(ms, vals, c) == c
    ensures forall i | 0 <= i < |vals| && c.bestVal < vals[i] &&
        (forall j | 0 <= j < i :: vals[j] < vals[i]) && (forall j | i < j < |vals| :: vals[j] <= vals[i]) ::
      Pick(ms, vals, c) == Choice(Some(ms[i]), vals[i])
    decreases |ms|
  {
    if ms != [] {
      var c' := if vals[0] > c.bestVal then Choice(Some(ms[0]), vals[0]) else c;
      PickResult(ms[1..], vals[1..], c');
      forall i | 0 <= i < |vals| && c.bestVal < vals[i] &&
          (forall j | 0 <= j < i :: vals[j] < vals[i]) && (forall j | i < j < |vals| :: vals[j] <= vals[i])
        ensures Pick(ms, vals, c) == Choice(Some(ms[i]), vals[i])
      {
        if i > 0 {
          assert vals[1..][i - 1] == vals[i] && ms[1..][i - 1] == ms[i];
          assert forall j | 0 <= j < i - 1 :: vals[1..][j] == vals[j + 1];
        }
      }
    }
  }

  /** One turn of the chooseMove loop, at the k-th move. */
  lemma PickStep(ms: seq<Move>, vals: seq<int>, k: nat, c: Choice)
    requires |vals| == |ms| && k < |ms|
    ensures Pick(ms[k..], vals[k..], c) ==
      Pick(ms[k + 1..], vals[k + 1..], if vals[k] > c.bestVal then Choice(Some(ms[k]), vals[k]) else c)
  {
    assert ms[k..][1..] == ms[k + 1..] && vals[k..][1..] == vals[k + 1..];
  }

  /** Index i holds the earliest greatest value: strictly above every earlier one, at least every later one. */
  predicate EarliestBest(vals: seq<int>, i: int)
    requires 0 <= i < |vals|
  {
    (forall j | 0 <= j < i :: vals[j] < vals[i]) && (forall j | i < j < |vals| :: vals[j] <= vals[i])
  }

  /** A non-empty list of values has an earliest greatest element. */
  lemma {:induction false} FirstBest(vals: seq<int>) returns (i: nat)
    requires vals != []
    ensures i < |vals| && EarliestBest(vals, i)
    decreases |vals|
  {
    if |vals| == 1 {
      i := 0;
    } else {
      var init := vals[..|vals| - 1];
      var k := FirstBest(init);
      assert forall j | 0 <= j < |init| :: init[j] == vals[j];
      if vals[|vals| - 1] > vals[k] {
        i := |vals| - 1;
      } else {
        i := k;
      }
    }
  }

  /**
   * Started from no move and INT_MIN, the chooseMove loop over distinct moves
   * whose values all exceed INT_MIN ends on exactly the move at the earliest
   * greatest value.
   */
  lemma PickBest(ms: seq<Move>, vals: seq<int>)
    requires |vals| == |ms| && ms != [] && Distinct(ms)
    requires forall i | 0 <= i < |vals| :: INT_MIN < vals[i]
    ensures Pick(ms, vals, Choice(None, INT_MIN)).best != None
    ensures forall i | 0 <= i < |ms| :: Pick(ms, vals, Choice(None, INT_MIN)).best == Some(ms[i]) <==> EarliestBest(vals, i)
  {
    var k := FirstBest(vals);
    PickResult(ms, vals, Choice(None, INT_MIN));
    assert Pick(ms, vals, Choice(None, INT_MIN)).best == Some(ms[k]);
    forall i | 0 <= i < |ms|
      ensures Pick(ms, vals, Choice(None, INT_MIN)).best == Some(ms[i]) <==> EarliestBest(vals, i)
    {
      if i < k {
        assert ms[i] != ms[k];
        assert !(vals[k] <= vals[i]);
      } else if i > k {
        assert ms[i] != ms[k];
        assert !(vals[k] < vals[i]);
      }
    }
  }

  /** The plain minimax value chooseMove should rank m by. */
  ghost function MoveValue(g: Grid, me: int, d: nat, m: Move): (v: int)
    requires Discs(g) && IsSide(me) && In(m.r, m.c)
    ensures -484 <= v <= 484
  {
    GameTreeShape(Applied(g, me, m.r, m.c), me, d, -me);
    MinimaxBound(ReplyTree(g, me, d, m));
    Minimax(ReplyTree(g, me, d, m))
  }

  /** The plain minimax value of each move of ms. */
  ghost function MinimaxScores(g: Grid, me: int, d: nat, ms: seq<Move>): (vals: seq<int>)
    requires Discs(g) && IsSide(me) && AllIn(ms)
    ensures |vals| == |ms|
    ensures forall i | 0 <= i < |ms| :: -484 <= vals[i] <= 484
  {
    seq(|ms|, i requires 0 <= i < |ms| => assert ms[i] in ms; MoveValue(g, me, d, ms[i]))
  }

  /** On a board of discs the scores chooseMove computes with alpha-beta are the plain minimax values. */
  lemma RootScoresExact(g: Grid, me: int, d: nat, ms: seq<Move>)
    requires Discs(g) && IsSide(me) && AllIn(ms)
    ensures RootScores(g, me, d, ms) == MinimaxScores(g, me, d, ms)
  {
    var vals := RootScores(g, me, d, ms);
    forall i | 0 <= i < |ms| ensures vals[i] == MinimaxScores(g, me, d, ms)[i] {
      assert ms[i] in ms;
      AlphaBetaExact(Applied(g, me, ms[i].r, ms[i].c), me, d, -me);
    }
  }

  /**
   * On a board of discs, the choice among distinct moves is none exactly when
   * there are none, and otherwise the move at the earliest greatest plain
   * minimax value.
   */
  lemma ChooseAmongSpec(g: Grid, me: int, d: nat, ms: seq<Move>)
    requires Discs(g) && IsSide(me) && AllIn(ms) && Distinct(ms)
    ensures ChooseAmong(g, me, d, ms) == None <==> ms == []
    ensures forall i | 0 <= i < |ms| ::
      ChooseAmong(g, me, d, ms) == Some(ms[i]) <==> EarliestBest(MinimaxScores(g, me, d, ms), i)
  {
    if ms != [] {
      RootScoresExact(g, me, d, ms);
      PickBest(ms, MinimaxScores(g, me, d, ms));
    }
  }

  /**
   * chooseMove returns no move exactly when me has no legal move; otherwise it
   * returns the legal move at the earliest greatest plain minimax value.
   */
  lemma ChooseMoveSpec(g: Grid, me: int, maxDepth: int)
    requires Discs(g) && IsSide(me) && maxDepth >= 1
    ensures ChooseMove(g, me, maxDepth) == None <==> ValidMoves(g, me) == []
    ensures var ms := ValidMoves(g, me);
      forall i | 0 <= i < |ms| ::
        ChooseMove(g, me, maxDepth) == Some(ms[i]) <==> EarliestBest(MinimaxScores(g, me, maxDepth - 1, ms), i)
  {
    var ms := ValidMoves(g, me);
    assert Distinct(ms) by {
      ValidMovesSpec(g, me);
    }
    assert ChooseMove(g, me, maxDepth) == ChooseAmong(g, me, maxDepth - 1, ms);
    ChooseAmongSpec(g, me, maxDepth - 1, ms);
  }
}
