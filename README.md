# Tic-tac-toe search core in Dafny

This project models the game engine in `tic_tac_toe.rb`. The game is N x N
tic-tac-toe between a human (mark 1) and the computer (mark 2); a line wins
only when it is complete. The model covers:

- the terminal-state test `check`, with its helper `check_cell`;
- the move enumerators;
- `copy_matrix`;
- plain minimax and minimax with alpha-beta pruning;
- the computer's move choice in `make_move`;
- the startup loop that sets the search depth.

Every operation that loops or writes cells is modelled as a method over an
`array2<int>` board. These methods include:

- the in-place place/search/reset loops of `minimax` and `alphabeta`;
- the copy-and-score loop of `make_move` and its `apply_move` write;
- the scans of `check`;
- `copy_matrix`, `get_all_possible_moves` and `next_possible_move`;
- the depth-limit loop.

Each such method is proved against a function or predicate on values (boards
as `seq<seq<int>>`, read through `BoardModel.Cells`). The properties are then
proved about those functions.

Modules:

- `BoardModel` (`board.dfy`): the board, cell writes, copying, turn alternation.
- `Evaluator` (`evaluator.dfy`): `check`. The lines are scanned in the
  program's order: down-right diagonal, up-right diagonal, columns, rows.
  The result is the owner of the first complete line, else unfinished when
  a cell is 0, else a draw.
- `MoveEnumerator` (`moves.dfy`): the empty cells, listed row-major.
- `Search` (`search.dfy`): `minimax` and `alphabeta`, the leaf rules, the
  max/min of children, and agreement of alpha-beta with minimax.
- `Selection` (`selection.dfy`): `make_move` after the first move.
- `DepthBudget` (`depth_budget.dfy`): the `@MINIMAX_DEPTH` loop.

A search depth is `Option<int>`. `None` stands for Ruby's `nil`, meaning no
limit. `Some(0)` stops the search with score 0. Any other integer is
decreased by one per level, as `depth ? depth - 1 : depth` does. A negative
depth therefore never stops the search early.

Notes on the source:
- `make_move` scores candidate moves with `minimax`; the `alphabeta` call at
  line 392 is commented out (`tic_tac_toe.rb:392-393`). The model does the
  same. `Search.AlphaBetaAgrees` shows that alpha-beta with the window
  (-100, 100) would give the same scores.
- The leaf score compares the line's owner with the player to move in that
  frame and negates it in a minimising frame (`tic_tac_toe.rb:290-291`). The
  player and the side alternate together, so +1 always means a win for the
  root's player.

## Model

| member | source | states |
|---|---|---|
| BoardModel.NextTurn | tic_tac_toe.rb:72-74 | the next player is always one of the two marks and never the player who just moved |
| BoardModel.NextTurnAlternates | tic_tac_toe.rb:72-74 | for the two marks, handing over twice gives back the same player |
| BoardModel.SetCell | tic_tac_toe.rb:366 | writing a mark changes exactly that cell of the array board and no other |
| BoardModel.PlaceThenClear | tic_tac_toe.rb:301-303 | marking an empty cell and resetting it to 0 gives back the board unchanged |
| BoardModel.CopyMatrix | tic_tac_toe.rb:269-277 | copy_matrix gives a newly allocated board with exactly the same cells as the original |
| Evaluator.CheckCellExtends | tic_tac_toe.rb:103-112 | each check_cell step turns the owner of a line prefix into the owner of that prefix extended by one cell |
| Evaluator.LineWinnerPrefix | tic_tac_toe.rb:116-118 | once a prefix has no owner, the whole line has none, so stopping the scan early loses nothing |
| Evaluator.LineWinnerIsCompleteLine | tic_tac_toe.rb:114-144 | a line is owned by v exactly when it is non-empty, v is not 0, and every cell holds v |
| Evaluator.ScanLine | tic_tac_toe.rb:115-126 | one scan of a diagonal, column or row returns that line's owner, or nil when the line is not complete |
| Evaluator.CheckColumns | tic_tac_toe.rb:129-135 | returns the owner of the leftmost complete column, or nil |
| Evaluator.CheckRows | tic_tac_toe.rb:138-144 | returns the owner of the topmost complete row, or nil |
| Evaluator.CheckLines | tic_tac_toe.rb:114-144 | returns the owner of the first complete line in the order diagonals, columns, rows |
| Evaluator.FirstWinnerOfIsFirst | tic_tac_toe.rb:114-144 | nil exactly when no line is complete; otherwise the owner of a complete line with no complete line before it |
| Evaluator.HasEmptyCell | tic_tac_toe.rb:147-149 | true exactly when some cell of the board is 0 |
| Evaluator.Check | tic_tac_toe.rb:101-152 | check computes the verdict of the board and cannot change it (it has no modifies frame) |
| Evaluator.EvaluateClassification | tic_tac_toe.rb:99-152 | a win exactly when some line is complete, by the owner of the first one; unfinished exactly when none is complete and a cell is 0; a draw exactly when none is complete and no cell is 0 |
| MoveEnumerator.MovesExact | tic_tac_toe.rb:251-257 | a coordinate is listed exactly when it is an empty cell of the board |
| MoveEnumerator.MovesRowMajor | tic_tac_toe.rb:251-257 | the listing is strictly increasing in row-major order |
| MoveEnumerator.MovesDistinct | tic_tac_toe.rb:251-257 | no coordinate is listed twice |
| MoveEnumerator.MovesNonEmpty | tic_tac_toe.rb:260-266 | there is a move exactly when the board has an empty cell |
| MoveEnumerator.PlaceRemovesMove | tic_tac_toe.rb:301-302 | marking an empty cell removes exactly one move: the game tree is finite |
| MoveEnumerator.GetAllPossibleMoves | tic_tac_toe.rb:251-257 | the nested loops return the row-major listing of the empty cells |
| MoveEnumerator.AppendRowMoves | tic_tac_toe.rb:254 | the inner loop appends the empty cells of one row, left to right, to the list so far |
| MoveEnumerator.NextPossibleMove | tic_tac_toe.rb:243-248 | returns the first empty cell in row-major order, or nil when there is none |
| Search.LeafScore | tic_tac_toe.rb:289-292 | a won board scores +1 or -1, and +1 exactly when the owner is the player to move in a maximising frame or the opponent in a minimising one |
| Search.Minimax | tic_tac_toe.rb:282-317 | every minimax score lies in {-1, 0, 1} |
| Search.MinimaxFold | tic_tac_toe.rb:298-315 | the running value only rises in a maximising frame and only falls in a minimising one; with moves left it ends in {-1, 0, 1} |
| Search.AlphaBeta | tic_tac_toe.rb:323-362 | every alpha-beta score lies in {-1, 0, 1} |
| Search.AlphaBetaFold | tic_tac_toe.rb:339-360 | with the cut-off as well, the running value moves only one way and ends in {-1, 0, 1} when a move was tried |
| Search.LeafRules | tic_tac_toe.rb:286-294 | a draw scores 0; a win scores by the leaf rule at any depth; an unfinished board at depth 0 scores 0; alpha-beta has the same leaves |
| Search.MinimaxFoldExtremum | tic_tac_toe.rb:300-305 | the fold's result is at least (at most) every child score it saw, and it is the start value or one of those scores |
| Search.MinimaxIsExtremumOfChildren | tic_tac_toe.rb:294-316 | on an unfinished board with depth left, the score is the maximum (minimum) of the children's scores over all empty cells, and is reached by some empty cell |
| Search.PlaceWinnerIsMover | tic_tac_toe.rb:114-144 | if a move on an unfinished board ends the game with a win, the winner is the mover |
| Search.WinningMoveScoresOne | tic_tac_toe.rb:289-292 | a move that completes a line scores +1 for the mover seen from the root |
| Search.AlphaBetaWindow | tic_tac_toe.rb:323-362 | for any window -100 <= alpha < beta <= 100, the alpha-beta score and the minimax score are equal once clamped to the window |
| Search.MaxFoldWindow | tic_tac_toe.rb:339-349 | the maximising loop with its break agrees with the unpruned loop up to the window |
| Search.MinFoldWindow | tic_tac_toe.rb:350-360 | the minimising loop with its break agrees with the unpruned loop up to the window |
| Search.AlphaBetaBounds | tic_tac_toe.rb:323-362 | equal to minimax inside the open window; at most alpha when minimax is at most alpha; at least beta when minimax is at least beta |
| Search.AlphaBetaAgrees | tic_tac_toe.rb:323-362 | with the window (-100, 100) alpha-beta returns exactly the minimax score |
| Search.MinimaxSearch | tic_tac_toe.rb:282-317 | the in-place search leaves the board as it found it and returns the minimax score of that board |
| Search.MinimaxMoves | tic_tac_toe.rb:297-316 | a frame's loop over all moves restores the board and returns the frame's max (min) from the sentinel -100 (100) |
| Search.MinimaxRow | tic_tac_toe.rb:300-305 | one row of the frame's loop restores the board and advances the fold by that row's moves |
| Search.MinimaxCell | tic_tac_toe.rb:301-304 | marking, searching and resetting one cell restores the board and folds exactly that child's score in |
| Search.AlphaBetaSearch | tic_tac_toe.rb:323-362 | the in-place pruned search leaves the board as it found it and returns the alpha-beta score of that board |
| Search.AlphaBetaMoves | tic_tac_toe.rb:338-361 | the pruned loop restores the board, also when it breaks, and returns the frame's alpha-beta value |
| Search.AlphaBetaRow | tic_tac_toe.rb:341-348 | one row of the pruned loop restores the board; after a break its score is the frame's result, otherwise it has advanced the fold by that row |
| Search.AlphaBetaCell | tic_tac_toe.rb:342-347 | one cell of the pruned loop restores the board, updates value and alpha (beta), and reports the break exactly as the fold does |
| Selection.MoveScore | tic_tac_toe.rb:391-393 | every candidate score lies in {-1, 0, 1} |
| Selection.SelectFromSpec | tic_tac_toe.rb:390-399 | the kept move is the first one whose score beats the starting best score and every score before it |
| Selection.BestMoveIsFirstMaximum | tic_tac_toe.rb:384-400 | with an empty cell, the choice is an empty cell of maximal score, every empty cell before it row-major scores strictly less, and best_score is its score |
| Selection.BestScoreIsRootValue | tic_tac_toe.rb:384-400 | the chosen score is the minimax value of the board for the mover, one level above the depth passed to the children |
| Selection.ImmediateWinScoresOne | tic_tac_toe.rb:384-400 | if some empty cell wins at once for the mover, the chosen move scores 1 |
| Selection.MakeMove | tic_tac_toe.rb:384-400 | the computer marks the first empty cell of maximal score at depth @MINIMAX_DEPTH - 2; only that cell changes, to the mover's mark |
| Selection.ChooseMove | tic_tac_toe.rb:386-399 | the scoring loop over the copy leaves the copy unchanged and returns make_move's best_move and best_score |
| Selection.SelectRow | tic_tac_toe.rb:390-399 | one row of the scoring loop restores the copy and advances the choice by that row's cells |
| Selection.SelectCell | tic_tac_toe.rb:391-398 | marking, scoring and resetting one cell restores the copy and keeps the cell only on a strictly better score |
| DepthBudget.ComputeMinimaxDepth | tic_tac_toe.rb:59-66 | depth <= SIZE^2; SIZE^2 * (SIZE^2 - 1) * ... over depth factors is at most 500_000_000; unless all factors fit, one more factor exceeds it |
| DepthBudget.FallingProductMonotone | tic_tac_toe.rb:62-63 | taking more factors never makes the product smaller |
| DepthBudget.DepthBudgetUnique | tic_tac_toe.rb:59-66 | the depth is fixed by the board size: only one depth meets the budget rule |
| DepthBudget.DepthForSize3 | tic_tac_toe.rb:59-66 | on the 3x3 board the depth is 9, the whole game |
| DepthBudget.DepthForSize4 | tic_tac_toe.rb:59-66 | on the 4x4 board the depth is 7 (16 * ... * 10 = 57657600; one more factor gives 518918400) |
| DepthBudget.DepthAtLeastThree | tic_tac_toe.rb:49-66 | for every accepted size from 2 to 25 the depth is at least 3, so make_move searches to a depth of at least 1 |

## Left out

- Rendering is not modelled: `print_result`, `move_cursor`, `print_mark`, the board drawing, and the cursor and mark output of `apply_move`. Only its board write (line 366) is modelled, as `BoardModel.SetCell`. These parts are terminal output only.
- Keyboard input (`read_move`, the key table): console I/O.
- Argument parsing and validation (lines 27-57): command-line I/O. The depth budget takes the size as a parameter, and `DepthBudget.DepthAtLeastThree` assumes the accepted range 2..25. The first player is chosen there from `@PLAYER_ID` (line 42), which is never assigned; this is not modelled.
- The profiling file and `@step_count`: they only record counts and do not affect any result.
- The random first move of `make_move` (`@move_count < 1`): randomness. `Selection.MakeMove` requires `moveCount >= 1`, so only the search branch is modelled.
- The game loop: console I/O. Its turn alternation is `BoardModel.NextTurn`.
- `make_move_simple`: it is not part of the engine. Its choice of cell is `MoveEnumerator.NextPossibleMove`.
- `all_possible_moves` yields to a block. Its nested loops appear directly inside `Search.MinimaxRow`/`MinimaxCell`, `Search.AlphaBetaRow`/`AlphaBetaCell` and `Selection.SelectRow`/`SelectCell`, and the order they visit is `MoveEnumerator.Moves`.
- Search.LeafRules: states the leaf rules and needs no proof of its own, because they follow from the definition of the score functions.
- Selection.MakeMove: requires an empty cell on the board. The program has no case for a full board and would fail there on a nil `best_move`.
- The search members accept any non-zero mark as the player, not only 1 and 2. This is a weaker precondition, not a weaker promise.
- The integers are unbounded. Ruby's integers are arbitrary-precision as well, so no overflow is lost, including in the depth loop's product.
