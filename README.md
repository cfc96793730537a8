# Othello rules engine and minimax player, in Dafny

This project models the two working parts of `othello.java`, a console Othello
(Reversi) game:

- **The board** (`Board`). An 8x8 grid of `int` cells holding `EMPTY = 0`,
  `BLACK = 1` or `WHITE = -1`, with these operations:
  - `initStart` sets up the start position;
  - `copy` duplicates the board;
  - `countFlips` measures the run of opponent discs in one compass direction;
  - `wouldFlip` and `getValidMoves` generate the legal moves in row-major order;
  - `applyMove` places a disc and flips every closed run in place;
  - `getScore`, `countPieces`, `cornerControl` and `mobility` count things on the board.
- **The computer player** (`MinimaxPlayer`). Its `evaluate` heuristic is
  1 x disc difference + 5 x mobility difference + 25 x corner difference.
  `minimax` is depth-limited minimax with alpha-beta pruning, and handles
  finished games and forced passes. `chooseMove` keeps the first move with the
  strictly greatest value.

The project has seven modules, one per file.

| file | module | what it holds |
|---|---|---|
| `grid.dfy` | `Layout` | the grid as a value, disc counts, the score, the corners, the start layout |
| `flips.dfy` | `Flips` | the `countFlips` walk, closed runs, legal moves and the row-major move list |
| `apply.dfy` | `Apply` | the board after a move, as a function of the board before it, and its disc counts |
| `board.dfy` | `Boards` | `class Board` over an `array2<int>`; each method is proved against the functions above |
| `search.dfy` | `Search` | the search as functions (see below) |
| `player.dfy` | `Players` | `class MinimaxPlayer`; its methods are proved equal to the functions of `Search` |
| `opening.dfy` | `Opening` | the start position: its disc counts and Black's four opening moves |

`search.dfy` defines:
- the tree of positions a search visits (`GameTree`);
- plain minimax on that tree (`Minimax`);
- the alpha-beta computation the player performs (`AlphaBeta`);
- the root choice (`ChooseMove`).

The main results are:

- `countFlips` returns either 0 or the length k > 0 of a closed run. A closed
  run means the k cells stepping away from the played cell all hold the
  opponent, and the next cell holds the mover.
- `getValidMoves` lists exactly the legal cells, in increasing row-major order
  and without repetition.
- `applyMove` changes only two kinds of cell, both to the mover:
  - the played cell;
  - the cells of each closed run, as counted on the board before the move.
  
  On an empty cell it raises the mover's count by one plus the total flips, and
  lowers the opponent's count by the total flips.
- On a board whose cells are all EMPTY, BLACK or WHITE, alpha-beta started with
  the full window returns exactly the plain minimax value.
- On such a board, `chooseMove` returns no move exactly when the player has
  none. Otherwise it returns the earliest listed move with the greatest plain
  minimax value.

## Model

| member | source | states |
|---|---|---|
| Layout.Score | othello.java:165-169 | on a board whose cells are all discs or EMPTY, the score lies in [-64, 64] |
| Layout.ScoreIsDiscDifference | othello.java:165-175 | on a board whose cells are all EMPTY, BLACK or WHITE, getScore equals countPieces(BLACK) - countPieces(WHITE) |
| Layout.SetCount | othello.java:171-175 | writing v into one cell changes countPieces(p) by +1 when v is p, by -1 when the old value was p, and otherwise not at all |
| Layout.CornerControl | othello.java:178-183 | cornerControl lies in [0, 4]; it is 4 exactly when all four corners hold p, and 0 exactly when none does |
| Layout.CornerControlLocal | othello.java:178-183 | cornerControl reads only the four corners: two boards that agree on them get the same count |
| Layout.StartGrid | othello.java:88-92 | the start layout holds only EMPTY, BLACK and WHITE |
| Flips.FlipsFromMeaning | othello.java:138-141 | from a prefix of opponent discs, the countFlips walk returns a closed-run length when positive, and 0 only when no closed run of any length exists |
| Flips.CountFlipsMeaning | othello.java:137-142 | for every n, a closed run of length n exists exactly when n equals countFlips and countFlips is positive |
| Flips.CountFlipsRay | othello.java:137-142 | countFlips depends only on the cells of its own ray: boards that agree there give the same count |
| Flips.RowMovesMembers | othello.java:118-120 | the scan of one row lists exactly that row's legal cells to the left of c, left to right |
| Flips.MovesUpToMembers | othello.java:117-121 | the scan of the rows above r lists exactly their legal cells, in strictly increasing row-major position |
| Flips.ValidMoves | othello.java:115-123 | every listed move is on the board |
| Flips.ValidMovesSpec | othello.java:115-134 | a cell is listed exactly when it is EMPTY and wouldFlip holds there; the list is in strictly increasing row-major order, so it has no duplicates |
| Apply.DirIndexInverse | othello.java:149-151 | the nested dr/dc loops visit each of the eight directions once, at its own position 0..7 |
| Apply.Applied | othello.java:147-162 | the board after a move is 8x8, and when every cell was EMPTY or a disc it still is |
| Apply.RunMembers | othello.java:152-159 | the cells written for one direction are exactly the cells flipped in that direction; they are distinct, on the board, and held by the opponent before the move |
| Apply.RunsUpToMembers | othello.java:149-161 | the cells written over the first n directions are exactly the cells flipped in those directions, and were the opponent's before the move |
| Apply.RunsUpToDistinct | othello.java:149-161 | no cell is written twice: runs in different directions are disjoint |
| Apply.WrittenIffFlipped | othello.java:149-161 | a cell is written by the direction loops exactly when it lies on a closed run from the played cell |
| Apply.ApplyEffects | othello.java:147-162 | after the move the played cell and every cell of every closed run (counted before the move) hold p; every other cell is unchanged |
| Apply.ApplyAsFold | othello.java:148-161 | the board after the move equals the board with p at the played cell and then p written into each flipped cell in turn |
| Apply.FoldCount | othello.java:155-158 | writing p over distinct cells that all held q moves exactly one disc per cell from q's count to p's |
| Apply.ApplyCounts | othello.java:147-162 | playing on an EMPTY cell raises p's disc count by 1 + total flips and lowers -p's count by the total flips |
| Apply.LaterRaysUntouched | othello.java:149-152 | while applyMove is partway through the directions, countFlips in a direction not yet visited equals its value on the board before the move |
| Apply.RunCellIn | othello.java:153-158 | every cell of a counted run is on the board, so the inner flip loop never leaves the array |
| Boards.Board.constructor | othello.java:86 | a new board is a fresh 8x8 array with every cell EMPTY |
| Boards.Board.InitStart | othello.java:88-92 | after initStart the board is the start layout: WHITE on (3,3) and (4,4), BLACK on (3,4) and (4,3), EMPTY elsewhere |
| Boards.Board.Copy | othello.java:94-98 | copy returns a new board with its own fresh array, holding the same contents |
| Boards.Board.CountFlips | othello.java:137-142 | the while loop returns the countFlips value of the board, whose meaning CountFlipsMeaning gives |
| Boards.Board.WouldFlip | othello.java:126-134 | the result is true exactly when some direction has a positive countFlips |
| Boards.Board.GetValidMoves | othello.java:115-123 | the row-by-row scan returns ValidMoves of the board |
| Boards.Board.ApplyMove | othello.java:147-162 | the new contents are Applied(old contents); on an EMPTY cell the disc counts move as ApplyCounts states |
| Boards.Board.FlipAll | othello.java:149-161 | after the direction loops every closed run of the original board has been overwritten with p, and every other cell is as it was with p at m |
| Boards.Board.FlipDirection | othello.java:150-160 | one direction: the cells written so far grow by exactly this direction's run, as counted on the board before the move; every other cell keeps its value |
| Boards.Board.FlipRun | othello.java:154-158 | the inner loop writes p into exactly the first flips cells along (dr, dc) and leaves every other cell alone |
| Boards.Board.GetScore | othello.java:165-169 | the double loop returns the sum of all cells |
| Boards.Board.CountPieces | othello.java:171-175 | the double loop returns the number of cells holding p |
| Boards.Board.CornerControl | othello.java:178-183 | the loop over the corners returns the number of corners holding p |
| Boards.Board.Mobility | othello.java:186-188 | mobility is the length of getValidMoves |
| Search.MobilityBound | othello.java:186-188 | a side never has more than 64 legal moves |
| Search.Evaluate | othello.java:287-305 | the heuristic value always lies in [-484, 484] |
| Search.TerminalValue | othello.java:239-243 | a finished game's value lies in [-64, 64] |
| Search.TerminalIsMargin | othello.java:239-243 | a finished game is worth the searching side's disc count minus the opponent's |
| Search.GameTreeStep | othello.java:248-283 | when the game is not over and depth >= 1, the node is a pass over the same board with depth - 1 when cur has no move, and otherwise has one child per legal move, in getValidMoves order, each the board after that move with the other side to play (`Search.Kids`) |
| Search.KidsAt | othello.java:257-260 | the i-th child is the subtree after cur plays the i-th move, and there is one child per move |
| Search.GameTreeShape | othello.java:235-284 | every move node of the search tree has a child, and on a board of discs every leaf lies in [-484, 484] |
| Search.KidsShape | othello.java:257-263 | the same two facts for every child of a move node |
| Search.KidShape | othello.java:257-260 | the same two facts for the subtree after one move |
| Search.MinimaxBound | othello.java:235-284 | the plain minimax value of a tree with bounded leaves lies in [-484, 484] |
| Search.KidsBound | othello.java:257-263 | the best and worst child values of such a node lie in [-484, 484] |
| Search.MaxOfIsMaximum | othello.java:257-263 | the maximising value is one of the children's values and at least each of them |
| Search.MinOfIsMinimum | othello.java:274-280 | the minimising value is one of the children's values and at most each of them |
| Search.AlphaBetaWindow | othello.java:235-284 | inside the window (alpha, beta) alpha-beta equals plain minimax; at or below alpha it returns at most alpha, and at or above beta at least beta |
| Search.ABMaxWindow | othello.java:250-265 | the maximising loop never returns less than its running value and agrees with the best remaining child value as AlphaBetaWindow does |
| Search.ABMinWindow | othello.java:268-282 | the minimising loop is the mirror image of the maximising one |
| Search.AlphaBetaExact | othello.java:227 | started with the full window INT_MIN, INT_MAX on a board of discs, alpha-beta returns exactly the plain minimax value |
| Search.PickResult | othello.java:222-229 | the chooseMove loop keeps the running choice when no value beats it; otherwise it ends on the earliest move with the greatest value above it |
| Search.PickStep | othello.java:224-228 | one turn of the chooseMove loop replaces the best move only when the value is strictly greater |
| Search.FirstBest | othello.java:224-228 | a non-empty list of values has an earliest greatest element |
| Search.PickBest | othello.java:222-229 | on distinct moves whose values exceed INT_MIN, the loop started from no move ends on a move exactly when that move holds the earliest greatest value |
| Search.MoveValue | othello.java:227 | the plain minimax value of a reply lies in [-484, 484] |
| Search.MinimaxScores | othello.java:224-228 | the plain minimax value of every move lies in [-484, 484] |
| Search.RootScoresExact | othello.java:224-228 | on a board of discs, the scores chooseMove computes with alpha-beta are the plain minimax values |
| Search.ChooseAmongSpec | othello.java:219-232 | the choice among distinct moves is none exactly when there are no moves; otherwise it is the move with the earliest greatest plain minimax value |
| Search.ChooseMoveSpec | othello.java:219-232 | chooseMove returns no move exactly when the player has no legal move; otherwise it returns the earliest listed legal move whose plain minimax value is greatest, in both directions |
| Players.MinimaxPlayer.constructor | othello.java:218 | the player records its side and its search depth |
| Players.MinimaxPlayer.Evaluate | othello.java:287-305 | the method computes the heuristic of the board and its value lies in [-484, 484] |
| Players.MinimaxPlayer.Minimax | othello.java:235-284 | the recursive method returns alpha-beta of the game tree of the board; the finished-game, depth-0 and pass cases come in the source's order |
| Players.MinimaxPlayer.MaxNode | othello.java:248-265 | the maximising block, with its pass case and its pruned loop, returns alpha-beta of the node |
| Players.MinimaxPlayer.MaxLoop | othello.java:257-263 | the loop over copies, raising value and alpha and stopping once alpha >= beta, returns the maximising alpha-beta fold over the children |
| Players.MinimaxPlayer.MinNode | othello.java:266-283 | the minimising block returns alpha-beta of the node |
| Players.MinimaxPlayer.MinLoop | othello.java:274-280 | the loop over copies, lowering value and beta and stopping once alpha >= beta, returns the minimising alpha-beta fold over the children |
| Players.MinimaxPlayer.Reply | othello.java:258-260 | searching a copy after one move returns alpha-beta of that child subtree |
| Players.MinimaxPlayer.Successor | othello.java:258-259 | copy followed by applyMove holds the board after the move |
| Players.MinimaxPlayer.ChooseMove | othello.java:219-232 | the method returns the root choice, which ChooseMoveSpec characterises |
| Players.MinimaxPlayer.PickBestMove | othello.java:222-229 | the loop with its strict comparison returns the best of the chooseMove fold over the moves' scores |
| Opening.IncreasingUnique | othello.java:117-121 | two lists in strictly increasing row-major order with the same members are equal, so getValidMoves is fixed by its set of moves |
| Opening.FlipsNeedNeighbour | othello.java:138-140 | a positive countFlips needs an opponent disc right next to the played cell |
| Opening.StartLegal | othello.java:126-142 | on the start layout Black's legal cells are exactly (2,3), (3,2), (4,5) and (5,4) |
| Opening.ValidMovesByMembers | othello.java:115-123 | a list in row-major order whose members are exactly the legal cells is what getValidMoves returns |
| Opening.StartMoves | othello.java:115-123 | on the start layout getValidMoves(BLACK) is exactly [(2,3), (3,2), (4,5), (5,4)], in that order |
| Opening.StartRow | othello.java:88-92 | rows 3 and 4 of the start layout hold one disc of each side and six EMPTY cells; the other rows hold eight EMPTY cells |
| Opening.StartCounts | othello.java:88-92 | the start layout has two BLACK discs, two WHITE discs and 60 EMPTY cells |

## Left out

- `main` (othello.java:21-75) is left out. It is the console game loop, the mode prompt and the win/draw messages. Its rule for passing and ending the game appears again in `minimax`, which is modelled.
- `printBoard`, and the `System.out.println` in `chooseMove`, are console output and are left out.
- `HumanPlayer` reads moves from a `Scanner` in an unbounded retry loop, so it is left out. The `Player` interface is left out too: the model calls `MinimaxPlayer` directly.
- `in` is the predicate `Layout.In`. It has no contract of its own.
- Java `int` overflow is not modelled. The model uses unbounded integers, which is sound here:
  - scores lie in [-64, 64];
  - heuristic values lie in [-484, 484];
  - the only extreme values are the `Integer.MIN_VALUE` and `Integer.MAX_VALUE` sentinels, which are the constants `INT_MIN` and `INT_MAX`.
- Boards.Board.ApplyMove: it requires only an on-board cell and a side, because the source assumes the move is valid and checks nothing. Its disc-count clause is stated only when the cell was EMPTY.
- Players.MinimaxPlayer.ChooseMove: it requires `maxDepth >= 1` and a player that is BLACK or WHITE.
  - With `maxDepth = 0` the source calls `minimax` with depth -1. That search never reaches the depth-0 case and runs until the game is over.
  - The model's depth is a natural number, so it does not cover this case.
- Players.MinimaxPlayer.Minimax: the depth parameter is a `nat`, for the same reason.
- Search.ChooseMoveSpec: it requires every cell to be EMPTY, BLACK or WHITE. `Boards.Board.Valid` states only the array's shape, so the model does not carry that fact as a class invariant. Instead, it holds for the start layout (`Layout.StartGrid`) and is kept by every move (`Apply.Applied`).
- Players.MinimaxPlayer.Successor: it does not restate that its board is new. `Boards.Board.Copy` states that the copy's array is fresh.
  - The player's methods have no `modifies` clause, so Dafny proves they leave the board they are given unchanged. This is how the model shows that searching on copies never alters the original board.
- The search tree `Search.GameTree` is a ghost function with no contract of its own. Its shape is given by `Search.GameTreeStep`.
  - The Java search builds children only as it visits them. The methods in `Players` do the same.
  - Subtrees that pruning skips are never computed by those methods. They exist only in the specification.
- The Java `player` and `maxDepth` fields are never reassigned after construction, so they are `const` fields in the model.
