/**
 * MinimaxPlayer: depth-limited minimax with alpha-beta pruning over copies of
 * the board. Each method is proved equal to the matching function of Search,
 * where the properties of the search are proved.
 */
module Players {
  import opened Layout
  import opened Flips
  import opened Apply
  import opened Boards
  import opened Search

  class MinimaxPlayer {
    /** The side this player searches for. */
    const player: int
    /** How many plies chooseMove looks ahead, its own move included. */
    const maxDepth: int

    constructor (player: int, depth: int)
      ensures this.player == player && this.maxDepth == depth
    {
      this.player := player;
      this.maxDepth := depth;
    }

    /** evaluate: the heuristic score of the board from the side of player. */
    method Evaluate(board: Board) returns (score: int)
      requires board.Valid()
      ensures score == Search.Evaluate(board.Cells(), player)
      ensures -484 <= score <= 484
    {
      var myPieces := board.CountPieces(player);
      var oppPieces := board.CountPieces(-player);
      var pieceDiff := myPieces - oppPieces;
      var myMob := board.Mobility(player);
      var oppMob := board.Mobility(-player);
      var mobility := myMob - oppMob;
      var cornerMy := board.CornerControl(player);
      var cornerOpp := board.CornerControl(-player);
      var corner := cornerMy - cornerOpp;
      score := 1 * pieceDiff + 5 * mobility + 25 * corner;
    }

    /**
     * minimax(board, depth, cur, alpha, beta): the value alpha-beta gives the
     * tree of the board; the board itself is left as it was.
     */
    method Minimax(board: Board, ghost g: Grid, depth: nat, cur: int, alpha: int, beta: int) returns (v: int)
      requires board.Valid() && board.Cells() == g && IsSide(cur)
      ensures v == AlphaBeta(GameTree(g, player, depth, cur), alpha, beta)
      decreases depth, 3
    {
      var moves := board.GetValidMoves(cur);
      var oppMoves := board.GetValidMoves(-cur);
      if moves == [] && oppMoves == [] {
        var finalScore := board.GetScore();
        return if player == BLACK then finalScore else -finalScore;
      }
      if depth == 0 {
        v := Evaluate(board);
        return;
      }
      if cur == player {
        v := MaxNode(board, g, depth, cur, moves, alpha, beta);
      } else {
        v := MinNode(board, g, depth, cur, moves, alpha, beta);
      }
    }

    /**
     * The maximising block of minimax, depth >= 1 and the game not over: a pass
     * when cur has no move, otherwise the loop over the moves of cur.
     */
    method MaxNode(board: Board, ghost g: Grid, depth: nat, cur: int, moves: seq<Move>, alpha: int, beta: int) returns (value: int)
      requires board.Valid() && board.Cells() == g && IsSide(cur) && cur == player && depth >= 1
      requires moves == ValidMoves(g, cur) && !(moves == [] && ValidMoves(g, -cur) == [])
      ensures value == AlphaBeta(GameTree(g, player, depth, cur), alpha, beta)
      decreases depth, 2
    {
      GameTreeStep(g, player, depth, cur);
      if moves == [] {
        value := INT_MIN;
        var a := alpha;
        var child := Minimax(board, g, depth - 1, -cur, a, beta);
        value := Max(value, child);
        a := Max(a, value);
        if a >= beta {
          return value;
        }
        return value;
      }
      value := MaxLoop(board, g, depth, cur, moves, alpha, beta);
    }

    /** The minimising block of minimax, the mirror image of MaxNode. */
    method MinNode(board: Board, ghost g: Grid, depth: nat, cur: int, moves: seq<Move>, alpha: int, beta: int) returns (value: int)
      requires board.Valid() && board.Cells() == g && IsSide(cur) && cur != player && depth >= 1
      requires moves == ValidMoves(g, cur) && !(moves == [] && ValidMoves(g, -cur) == [])
      ensures value == AlphaBeta(GameTree(g, player, depth, cur), alpha, beta)
      decreases depth, 2
    {
      GameTreeStep(g, player, depth, cur);
      if moves == [] {
        value := INT_MAX;
        var b := beta;
        var child := Minimax(board, g, depth - 1, -cur, alpha, b);
        value := Min(value, child);
        b := Min(b, value);
        if alpha >= b {
          return value;
        }
        return value;
      }
      value := MinLoop(board, g, depth, cur, moves, alpha, beta);
    }

    /**
     * The maximising loop over the moves: search each reply on a copy, raise
     * value and alpha, and stop once alpha >= beta.
     */
    method MaxLoop(board: Board, ghost g: Grid, depth: nat, cur: int, moves: seq<Move>, alpha: int, beta: int) returns (value: int)
      requires board.Valid() && board.Cells() == g && IsSide(cur) && depth >= 1 && AllIn(moves)
      ensures value == ABMax(Kids(g, player, depth, cur, moves), alpha, beta, INT_MIN)
      decreases depth, 1
    {
      ghost var kids := Kids(g, player, depth, cur, moves);
      value := INT_MIN;
      var a := alpha;
      var k := 0;
      while k < |moves|
        invariant 0 <= k <= |moves| == |kids|
        invariant ABMax(kids[k..], a, beta, value) == ABMax(kids, alpha, beta, INT_MIN)
      {
        KidsAt(g, player, depth, cur, moves, k);
        var child := Reply(board, g, depth, cur, moves[k], a, beta);
        assert kids[k..][0] == kids[k] && kids[k..][1..] == kids[k + 1..];
        value := Max(value, child);
        a := Max(a, value);
        if a >= beta {
          break;
        }
        k := k + 1;
      }
    }

    /** The minimising loop, the mirror image of MaxLoop: it lowers value and beta. */
    method MinLoop(board: Board, ghost g: Grid, depth: nat, cur: int, moves: seq<Move>, alpha: int, beta: int) returns (value: int)
      requires board.Valid() && board.Cells() == g && IsSide(cur) && depth >= 1 && AllIn(moves)
      ensures value == ABMin(Kids(g, player, depth, cur, moves), alpha, beta, INT_MAX)
      decreases depth, 1
    {
      ghost var kids := Kids(g, player, depth, cur, moves);
      value := INT_MAX;
      var b := beta;
      var k := 0;
      while k < |moves|
        invariant 0 <= k <= |moves| == |kids|
        invariant ABMin(kids[k..], alpha, b, value) == ABMin(kids, alpha, beta, INT_MAX)
      {
        KidsAt(g, player, depth, cur, moves, k);
        var child := Reply(board, g, depth, cur, moves[k], alpha, b);
        assert kids[k..][0] == kids[k] && kids[k..][1..] == kids[k + 1..];
        value := Min(value, child);
        b := Min(b, value);
        if alpha >= b {
          break;
        }
        k := k + 1;
      }
    }

    /** One turn of the minimax and chooseMove loops: search a copy of the board after cur plays m, one ply shallower. */
    method Reply(board: Board, ghost g: Grid, depth: nat, cur: int, m: Move, alpha: int, beta: int) returns (v: int)
      requires board.Valid() && board.Cells() == g && IsSide(cur) && depth >= 1 && In(m.r, m.c)
      ensures v == AlphaBeta(Kid(g, player, depth, cur, m), alpha, beta)
      decreases depth, 0
    {
      var nb := Successor(board, g, cur, m);
      v := Minimax(nb, Applied(g, cur, m.r, m.c), depth - 1, -cur, alpha, beta);
    }

    /** board.copy() followed by applyMove: a fresh board holding the position after p plays m. */
    method Successor(board: Board, ghost g: Grid, p: int, m: Move) returns (nb: Board)
      requires board.Valid() && board.Cells() == g && IsSide(p) && In(m.r, m.c)
      ensures nb.Valid() && nb.Cells() == Applied(g, p, m.r, m.c)
    {
      nb := board.Copy();
      nb.ApplyMove(p, m);
    }

    /**
     * chooseMove: no move when player has none; otherwise each move is searched
     * on a copy with the full window and the first strictly best is kept.
     */
    method ChooseMove(board: Board) returns (best: Option<Move>)
      requires board.Valid() && IsSide(player) && maxDepth >= 1
      ensures best == Search.ChooseMove(board.Cells(), player, maxDepth)
    {
      var moves := board.GetValidMoves(player);
      if moves == [] {
        return None;
      }
      best := PickBestMove(board, moves);
    }

    /** The loop of chooseMove: keep the first move whose score is strictly above the best so far. */
    method PickBestMove(board: Board, moves: seq<Move>) returns (best: Option<Move>)
      requires board.Valid() && IsSide(player) && maxDepth >= 1 && AllIn(moves)
      ensures best == Pick(moves, RootScores(board.Cells(), player, maxDepth - 1, moves), Choice(None, INT_MIN)).best
    {
      ghost var vals := RootScores(board.Cells(), player, maxDepth - 1, moves);
      best := None;
      var bestVal := INT_MIN;
      for k := 0 to |moves|
        invariant Pick(moves[k..], vals[k..], Choice(best, bestVal)) == Pick(moves, vals, Choice(None, INT_MIN))
      {
        assert moves[k] in moves;
        var val := Reply(board, board.Cells(), maxDepth, player, moves[k], INT_MIN, INT_MAX);
        PickStep(moves, vals, k, Choice(best, bestVal));
        if val > bestVal {
          bestVal := val;
          best := Some(moves[k]);
        }
      }
      assert moves[|moves|..] == [];
    }
  }
}
