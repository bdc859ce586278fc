# Connect Four game logic in Dafny

This project models the game logic of a Python Connect Four program and proves properties of it.

The board has 6 rows and 7 columns, with row 0 at the top. A cell holds 0 when it is empty, or 1 or 2 for a player's piece. The model covers:

- **The board.** `create_board`, `valid_move`, `drop_piece`, `make_move`, `board_is_full` and `switch_turn`.
  - `utils.py` repeats `create_board`, `drop_piece`, `valid_move`, `check_win` and `block_player_move` of `game_utils.py` token for token, so they are modelled once. `make_move`, `board_is_full` and `switch_turn` exist only in `game_utils.py`.
  - The top of `agents.py` repeats `make_move` and `check_win` identically; its `valid_move` drops the range test.
- **The line detector.** `check_win` looks for four in a row in four directions.
- **The minimax agent** of `agents/minimax_agent.py`:
  - the window-table heuristic `evaluate_window`, summed by `evaluate_board` over all 69 windows;
  - the fail-soft alpha-beta search `minimax`;
  - the root selector `minimax_agent`.
- **The all-in-one module `agents.py`.** It has its own unpruned `minimax`, a win/loss `evaluate_board`, and copies of the agents.
- **The rule-based agents.** `find_win_move`, `block_player_move` and `find_setup_move` try a move on the caller's board, test it and undo it. `smart_agent` and `random_agent` then choose by a fixed priority.

Modules, one per source file or shared concept:

| module | file | what it holds |
|---|---|---|
| `Scores` | `scores.dfy` | The extended integers `NegInf \| Fin(n) \| PosInf`. They stand for the search's `±float('inf')` and ordinary scores. |
| `Board` | `board.dfy` | The board as a value (`Grid`): gravity, landing row, drop, full board, turn switch. |
| `Lines` | `lines.dfy` | Lines of cells, the two patterns searched for (four of a piece; two of a piece and one empty), and the index order of the source's scan loops. |
| `BoardArray` | `board_array.dfy` | The mutable board (`array2<int>`), its value `Cells`, the row-by-row copy, and the shared nested scan loop. |
| `GameUtils`, `GameHelp` | `game_utils.dfy`, `game_help.dfy` | The imperative board operations of `game_utils.py` and `utils.py`, and the value-level `block_player_move` of `game_help.py`. |
| `Moves`, `Probe` | `moves.dfy`, `probe.dfy` | The specification "lowest valid column whose trial drop reaches a goal", and the apply/test/undo loop every rule-based helper runs. |
| `SetupChecks`, `SmartAgent`, `RandomAgent` | `setup_checks.dfy`, `smart_agent.dfy`, `random_agent.dfy` | The rule-based agents of `agents/`. |
| `Evaluation` | `evaluation.dfy` | `evaluate_window` and `evaluate_board` of `agents/minimax_agent.py`. |
| `Search` | `search.dfy` | The game tree on board values. It holds the unpruned minimax, the pruned search, the fail-soft theorem linking them, the root-choice specifications, and the counterexample of the finding below. |
| `MinimaxAgent` | `minimax_agent.dfy` | The alpha-beta search and the root selector on the mutable board. |
| `Agents` | `agents.dfy` | What `agents.py` does differently from the other files. |

The search functions are generic in the leaf evaluator, a `Grid -> int`. `Search.Static(Windows, p)` is the heuristic of `agents/minimax_agent.py`, and `Search.Static(WinLoss, p)` the ±100 evaluator of `agents.py`. The search proofs therefore hold for both.

## Model

| member | source | states |
|---|---|---|
| Scores.Max | agents/minimax_agent.py:32-33 | Python's `max` on scores: an upper bound of both arguments, and one of them. |
| Scores.Min | agents/minimax_agent.py:44-45 | Python's `min` on scores: a lower bound of both arguments, and one of them. |
| Scores.LeTotalOrder | agents/minimax_agent.py:16 | The order used by the comparisons `>`, `<=` and `max`/`min` on ±inf and integers is a total order. |
| Board.EmptyGrid | game_utils.py:9-11 | The new board is 6 x 7, every cell is 0, and it trivially obeys gravity and holds only 0..2. |
| Board.LowestEmptyFrom | game_utils.py:19-23 | The bottom-up scan from row r stops at an empty cell with every cell below it (up to r) occupied, or gives -1 when there is none. |
| Board.LandingRow | game_utils.py:19-23 | The landing row is the empty cell of the column with every cell below it occupied; it is -1 exactly when the column has no empty cell. |
| Board.Drop | game_utils.py:13-23 | Definition of `drop_piece` on a board value: the landing cell of an in-range, non-full column takes the piece; otherwise the board is unchanged. Its contract states the result is again a 6 x 7 board. The copy at utils.py:10-20 is the same code. |
| Board.ValidMove | game_utils.py:26-29 | Definition of `valid_move`: the column is in 0..6 and its top cell is empty. The range test comes first, so an out-of-range column never reads the board. The copy at utils.py:22-25 is the same code. |
| Board.DropChangesOnlyLandingCell | game_utils.py:13-23 | `drop_piece` changes exactly the landing cell (to the player's number) when the column is on the board and not full, and nothing otherwise. |
| Board.ValidMoveIffLands | game_utils.py:26-29 | On a board obeying gravity, `valid_move` holds exactly when the column is in 0..6 and a drop there lands. |
| Board.DropKeepsGravity | utils.py:16-19 | A drop keeps every column's pieces contiguous from the bottom. |
| Board.DropKeepsPieces | utils.py:16-19 | Dropping piece 1 or 2 keeps every cell in 0..2. |
| Board.IsFull | game_utils.py:72-73 | Definition of `board_is_full`: every top cell is occupied. |
| Board.FullIffNoMove | game_utils.py:72-73 | `board_is_full` holds exactly when `valid_move` fails for every column; under gravity, exactly when no cell is empty. |
| Board.SwitchTurn | game_utils.py:66-67 | The next turn is 1 or 2 and differs from the current one; for turns 1 and 2 it is the other player. |
| Board.Opponent | agents.py:97 | The other player `3 - p`: 2 exactly for player 1 and 1 exactly for player 2. |
| Board.DropsStackUp | utils.py:16-20 | Successive drops into a column with k empty cells land in rows k-1, k-2, ... and then return -1. |
| Board.SixDropsFillColumn | utils.py:10-20 | Seven drops into an empty column return rows 5, 4, 3, 2, 1, 0 and then -1. |
| Lines.HasFour | game_utils.py:38-64 | Definition of what `check_win` looks for: the piece fills all four cells of some horizontal, vertical or diagonal line on the board. |
| Lines.HasSetup | agents/smart_agent.py:86-142 | Definition of what `can_create_setup` looks for: some 3-cell line in one of the four directions holds two of the player's pieces and one empty cell. |
| Lines.Count | agents/minimax_agent.py:82-91 | Python's `list.count`: the number of cells equal to x, which never exceeds the window's length. |
| Lines.ScanIsExact | game_utils.py:41-62 | The loop bounds of each direction's nested scan visit exactly the on-board lines, each once. |
| Lines.CountFull | agents/minimax_agent.py:82 | `window.count(p) == len(window)` exactly when every cell is p. |
| Lines.CountsDisjoint | agents/minimax_agent.py:79-92 | The counts of three distinct values add up to at most the window length, and to exactly that length when no other value occurs. |
| BoardArray.Copy | agents/minimax_agent.py:13 | `[row[:] for row in board]` yields a fresh board with the same cells. |
| BoardArray.ArrayWindow | agents/minimax_agent.py:56 | The list comprehension over the board is the line's cells in order. |
| BoardArray.NoMatchStep | game_utils.py:41-44 | One non-matching line extends the scanned prefix that has no match. |
| BoardArray.NoMatchNextOuter | game_utils.py:41-44 | Finishing an inner loop finishes a whole row (or column) of the scan. |
| BoardArray.NoMatchAtEnd | game_utils.py:41-64 | When the outer loop completes without a hit, no line of that direction matches. |
| BoardArray.FindLine | game_utils.py:41-44 | One direction's nested scan with early return is true exactly when some on-board line of that direction matches the pattern. |
| GameUtils.CreateBoard | game_utils.py:9-11 | `create_board` returns a fresh board of zeros. The copy at utils.py:6-8 is the same code. |
| GameUtils.DropPiece | game_utils.py:13-23 | It returns -1 and changes nothing for a column off the board or a full column. Otherwise it returns the landing row and the board becomes the board with that cell set to the player. The copy at utils.py:10-20 is the same code. |
| GameUtils.MakeMove | game_utils.py:31-36 | On a column in 0..6 it places like `drop_piece` and returns the landing row; on a full column it returns None and changes nothing. The copy at agents.py:22-27 is the same code. |
| GameUtils.CheckWin | game_utils.py:38-64 | `check_win` is true exactly when some horizontal, vertical, down-right or up-right 4-cell line is entirely the piece. The copies at utils.py:27-53 and agents.py:29-51 are the same code. |
| GameUtils.BlockPlayerMove | game_utils.py:117-129 | It returns the lowest valid column whose drop (on a copy) wins for the player, or -1 when there is none. The caller's board is not modified. The copy at utils.py:57-69 is the same code. |
| GameHelp.BlockPlayerMove | game_help.py:5-12 | A result other than -1 is a valid column whose drop wins for the player, and no lower valid column wins. -1 holds exactly when no valid column wins. |
| Moves.FirstMove | agents/smart_agent.py:47-54 | The lowest valid column from a start column on whose trial drop reaches the goal, and None exactly when no valid column does. |
| Probe.Reached | agents/smart_agent.py:80 | The test after a trial move is `check_win` or `can_create_setup`, exactly as specified. |
| Probe.TryMoves | agents/smart_agent.py:47-54 | The apply/test/undo loop returns `FirstMove` of the board as it was on entry and leaves the caller's board exactly as it was. |
| SetupChecks.CheckHorizontal | agents/smart_agent.py:111-117 | True exactly when some horizontal 3-cell line holds two of the player's pieces and one empty cell. |
| SetupChecks.CheckVertical | agents/smart_agent.py:119-125 | The same for vertical lines. |
| SetupChecks.CheckDiagonal | agents/smart_agent.py:127-142 | The same for down-right and up-right lines together. |
| SetupChecks.CheckTwoInARow | agents/smart_agent.py:98-109 | It dispatches on the three direction names, and any other name gives false. |
| SetupChecks.CanCreateSetup | agents/smart_agent.py:86-96 | True exactly when some 3-cell line in any of the four directions holds two of the player's pieces and one empty cell. The copies at agents.py:236-292 are the same code (setup checks included). |
| SmartAgent.FindWinMove | agents/smart_agent.py:40-54 | The lowest valid column where the player's drop wins, else None. The board is restored. The copy at agents.py:192-204 is the same code. |
| SmartAgent.BlockPlayerMove | agents/smart_agent.py:56-69 | The lowest valid column where the opponent's (3 - player) drop wins, else None. The board is restored. The copy at agents.py:206-219 is the same code. |
| SmartAgent.FindSetupMove | agents/smart_agent.py:71-84 | The lowest valid column after whose drop the player has a setup, else None. The board is restored. The copy at agents.py:221-234 is the same code. |
| SmartAgent.SmartAgent | agents/smart_agent.py:14-38 | It chooses by the priority win > block > setup > `random_agent`; the last resort is the centre-first column. The result is None exactly on a full board, any other result is a valid column, and the board is restored. |
| RandomAgent.CentreOrderIsPermutation | agents/random_agent.py:27 | `[3, 2, 4, 1, 5, 0, 6]` lists every column exactly once. |
| RandomAgent.CentreFirstFrom | agents/random_agent.py:28-30 | The first entry from position i of the centre order that is a valid move, with every earlier entry invalid; None when none is valid. |
| RandomAgent.CentreFirst | agents/random_agent.py:26-30 | The centre-first choice is a valid column, and it is missing exactly when the board is full. |
| RandomAgent.ValidColumns | agents/random_agent.py:33 | The list given to `random.choice` holds exactly the valid columns. |
| RandomAgent.ValidColumnsFrom | agents/random_agent.py:33 | The valid columns from c on, and nothing else. |
| RandomAgent.FindWinMove | agents/random_agent.py:35-47 | The lowest valid column where the player's drop wins, else None. The board is restored. |
| RandomAgent.BlockPlayerMove | agents/random_agent.py:49-63 | It drops the player's own piece, so its result equals `find_win_move`'s. The board is restored. |
| RandomAgent.RandomAgent | agents/random_agent.py:8-33 | The winning column if any, else the first valid column in centre order. None (the empty `random.choice`) happens exactly on a full board. Any result is valid, and the board is restored. |
| Evaluation.EvaluateWindow | agents/minimax_agent.py:79-92 | The score lies in -4..100, and it is 100 exactly when the window counts four of the player's pieces. |
| Evaluation.EvaluateWindowFull | agents/minimax_agent.py:82-83 | A 4-cell window scores 100 exactly when all four cells are the player's. |
| Evaluation.EvaluateWindowTable | agents/minimax_agent.py:79-92 | On a window of 0/1/2 cells the first-match chain equals the table by counts: 100, 5, 2, -4, -2, else 0. A window of four opponent pieces scores 0, and so does a window holding both players' pieces. A positive score means no opponent piece, and a negative score means no own piece. |
| Evaluation.RowSum | agents/minimax_agent.py:55-57 | One inner loop's sum over j windows lies in -4j..100j. |
| Evaluation.LinesSum | agents/minimax_agent.py:54-57 | The sum over the outer passes so far lies within -4 and 100 times the number of windows visited. |
| Evaluation.BoardScore | agents/minimax_agent.py:50-77 | Definition of `evaluate_board`'s value: the sum of `evaluate_window` over the windows of the four directions. Its bounds are stated by Evaluation.BoardScoreBounds. |
| Evaluation.BoardScoreBounds | agents/minimax_agent.py:50-77 | The board has 24 + 21 + 12 + 12 = 69 windows, so `evaluate_board` lies in -276..6900. |
| Evaluation.ScoreWindowAt | agents/minimax_agent.py:56-57 | The window read from the board at loop indices (i, j) scores as the specification's window. |
| Evaluation.AddPass | agents/minimax_agent.py:55-57 | One inner loop adds the scores of every window in its row (or column). |
| Evaluation.AddDirection | agents/minimax_agent.py:54-57 | One loop nest adds the scores of every window of its direction. |
| Evaluation.EvaluateBoard | agents/minimax_agent.py:50-77 | `evaluate_board` is the sum of `evaluate_window` over all 69 windows, and lies in -276..6900. |
| Search.WinLossScore | agents.py:93-99 | Definition of `agents.py`'s `evaluate_board`: 100 when the player has four in a row, otherwise -100 when the opponent has, otherwise 0. |
| Search.Minimax | agents.py:70-91 | Definition of `agents.py`'s `minimax` on board values: the leaf score at depth 0 or once either player has four, otherwise the column loop started from -inf (maximizer) or +inf (minimizer). Its meaning is stated by Search.MinimaxIsBestChild. |
| Search.MinimaxFrom | agents.py:74-91 | Definition of the unpruned column loop from column col: each valid column's child value is folded into the running max (or min). Its meaning is stated by Search.MinimaxFromIsExtreme. |
| Search.AlphaBeta | agents/minimax_agent.py:21-48 | Definition of the pruned search on board values: the same leaves as Search.Minimax, with the column loop of Search.AlphaBetaFrom. Its relation to the unpruned value is stated by Search.AlphaBetaFailSoft. |
| Search.AlphaBetaFrom | agents/minimax_agent.py:26-47 | Definition of the pruned column loop: after each valid child, alpha is raised (or beta lowered), and the loop stops once beta <= alpha. |
| Search.MinimaxFromIsExtreme | agents.py:74-91 | The unpruned column loop returns at least (at most) its start value and every valid child's value, and it returns one of them. |
| Search.MinimaxIsBestChild | agents.py:70-91 | A non-terminal node takes the greatest (maximizer) or least (minimizer) value of its valid children, and -inf (+inf) when it has no valid column. |
| Search.AlphaBetaFailSoft | agents/minimax_agent.py:21-48 | For alpha < beta the pruned result equals the unpruned value when that value lies strictly inside (alpha, beta). Otherwise it is a bound on the same side of the window, between the value and the window edge. |
| Search.FullWindowIsExact | agents/minimax_agent.py:15 | With the window (-inf, +inf), pruning gives exactly the unpruned minimax value. |
| Search.MaxStep | agents/minimax_agent.py:32-35 | The maximizer's loop is cut exactly when the child's unpruned value reaches beta, and otherwise keeps its invariant acc <= best <= alpha' = max(alpha, acc) < beta. |
| Search.MaxCut | agents/minimax_agent.py:34-35 | After a beta cut-off the result is a fail-high bound. |
| Search.MaxEnd | agents/minimax_agent.py:36 | When the maximizer's loop runs to the end, its result is fail-soft. |
| Search.MinStep | agents/minimax_agent.py:44-47 | The minimizer's loop is cut exactly when the child's unpruned value falls to alpha, and otherwise keeps its invariant. |
| Search.MinCut | agents/minimax_agent.py:46-47 | After an alpha cut-off the result is a fail-low bound. |
| Search.MinEnd | agents/minimax_agent.py:48 | When the minimizer's loop runs to the end, its result is fail-soft. |
| Search.AlphaBetaMaxColumn | agents/minimax_agent.py:28-35 | One round of the maximizer's loop: the child searched in the current window, max_eval and alpha raised, and the break. |
| Search.AlphaBetaMinColumn | agents/minimax_agent.py:40-47 | One round of the minimizer's loop, with the opponent's drop. |
| Search.AlphaBetaSkipColumn | agents/minimax_agent.py:27-28 | A column that is not a valid move leaves the pruned loop's window and running value unchanged. |
| Search.MinimaxColumn | agents.py:77-81 | One round of the unpruned loop at a valid column. |
| Search.MaxLoopFailSoft | agents/minimax_agent.py:25-36 | The maximizer's loop from any column on is fail-soft, given its invariant on entry. |
| Search.MaxColumnCut | agents/minimax_agent.py:31-35 | A child value of at least beta ends the maximizer's loop with a fail-soft result. |
| Search.MaxColumnOn | agents/minimax_agent.py:31-33 | A child value below beta continues the loop, and fail-softness carries back. |
| Search.MinLoopFailSoft | agents/minimax_agent.py:37-48 | The minimizer's loop from any column on is fail-soft, given its invariant on entry. |
| Search.MinColumnCut | agents/minimax_agent.py:43-47 | A child value of at most alpha ends the minimizer's loop with a fail-soft result. |
| Search.MinColumnOn | agents/minimax_agent.py:43-45 | A child value above alpha continues the loop, and fail-softness carries back. |
| Search.LeftmostBestStep | agents/minimax_agent.py:12-18 | One root round of `if score > best_score` keeps "the leftmost strictly-best column so far, or None while every score was -inf". |
| Search.LeftmostMaxStep | agents/minimax_agent.py:12-18 | The same with the corrected test (first valid column always taken): it keeps "the leftmost column with the greatest score so far". |
| Search.DrawnBoardHasNoFour | game_utils.py:38-64 | Neither player has four in a row on the counterexample boards. |
| Search.DrawnBoardMoves | agents/minimax_agent.py:11-14 | On the counterexample board only column 0 is open: player 1's drop there and the opponent's reply fill the board. |
| Search.DrawnBoardScoresNegInf | agents/minimax_agent.py:21-48 | Below player 1's only move the search reaches a full, undecided board where the maximizer has no move, so the root score is -inf whatever the evaluator. |
| Search.LeftmostBestPassesOnDrawnBoard | agents/minimax_agent.py:9-19 | On a non-full board with a valid column, the as-written selector's only possible choice is None (see Findings). |
| MinimaxAgent.Minimax | agents/minimax_agent.py:21-48 | The search on the mutable board equals the pruned search on the board's value, and the caller's board is not modified. |
| MinimaxAgent.IsTerminal | agents/minimax_agent.py:22 | `depth == 0 or check_win(board, 1) or check_win(board, 2)`, that is, depth 0 or a four for either player. |
| MinimaxAgent.MaximizerLoop | agents/minimax_agent.py:25-36 | The maximizer's loop, with its break, computes the pruned loop over all columns. |
| MinimaxAgent.MaximizerColumn | agents/minimax_agent.py:28-35 | One round at a column: a valid column's child is searched in the current window, max_eval and alpha are raised, and the round reports the cut when beta <= alpha. An invalid column is passed over. Together this is exactly one unfolding of the pruned maximizer loop. |
| MinimaxAgent.MinimizerLoop | agents/minimax_agent.py:37-48 | The minimizer's loop, with its break, computes the pruned loop over all columns. |
| MinimaxAgent.MinimizerColumn | agents/minimax_agent.py:40-47 | One round of the minimizer with the opponent's drop, min_eval and beta lowered, and the cut reported. This is exactly one unfolding of the pruned minimizer loop. |
| MinimaxAgent.SearchChild | agents/minimax_agent.py:29-31 | Copy, `make_move` of the mover's piece, and the recursive search give the child's pruned value. |
| MinimaxAgent.ScoreColumn | agents/minimax_agent.py:13-15 | The root's score of a valid column, searched with the full window (-inf, +inf), is the unpruned depth-3 value of that child. |
| MinimaxAgent.MinimaxAgent | agents/minimax_agent.py:7-19 | None when every valid column scores -inf, which covers every full board. Otherwise the leftmost valid column with the greatest unpruned depth-3 score. |
| MinimaxAgent.MinimaxAgentCorrected | agents/minimax_agent.py:7-19 | The intended selector returns the leftmost valid column with the greatest score, and None exactly on a full board. |
| Agents.ValidMove | agents.py:19-20 | Reading only the top cell agrees with `valid_move` on columns 0..6. |
| Agents.EvaluateBoard | agents.py:93-99 | 100 exactly when the player has four in a row, -100 exactly when only the opponent has, else 0. |
| Agents.Minimax | agents.py:70-91 | The unpruned search on the mutable board equals the reference minimax with the win/loss evaluator. |
| Agents.MaximizerLoop | agents.py:74-82 | The maximizer's loop is the running maximum over the player's drops into every valid column. |
| Agents.MinimizerLoop | agents.py:83-91 | The minimizer's loop is the running minimum over the opponent's drops into every valid column. |
| Agents.SearchChild | agents.py:77-80 | Copy, `make_move`, and the recursive call give the child's minimax value. |
| Agents.MinimaxAgent | agents.py:56-68 | As in `MinimaxAgent.MinimaxAgent`, with the unpruned search and the win/loss evaluator. |
| Agents.RandomAgent | agents.py:104-129 | Win, else block the opponent (the later definition of `block_player_move` replaces the first), else centre-first. None exactly on a full board. The board is restored. |
| Agents.SmartAgent | agents.py:166-190 | The priority win > block > setup > `random_agent`, with the same guarantees as `SmartAgent.SmartAgent`. |
| Agents.MinimaxAgentCorrected | agents.py:56-68 | The intended selector: the leftmost valid column with the greatest score, and None exactly on a full board. |

## Left out

- The `int(float(col))` coercion in `drop_piece` and `valid_move` (game_utils.py:15, game_utils.py:28) is left out, together with the `ValueError` it raises on non-numeric input. Columns are integers throughout.
- These are not part of the model: `ai_move` and `get_column_from_mouse` in game_utils.py, the pygame UI, menus, music and player data, and the machine-learning agent (agents.py:294-372).
- Agents.ValidMove: requires a column in 0..6, because Python's negative indexing and the out-of-range error of `board[0][col]` are not modelled. Every caller passes 0..6.
- GameUtils.MakeMove: requires a column in 0..6 for the same reason. Its callers only pass valid columns.
- `random.choice` on an empty list raises `IndexError` in Python. The model returns None instead; see `RandomAgent.RandomAgent`. This branch is reached only on a full board.
- agents/smart_agent.py:45 imports `make_move` from `connect4.main`, which does not define it. As written, every call of `find_win_move` raises ImportError before its loop starts, so `smart_agent` never returns a column. The model uses `game_utils.make_move`, which is what the function evidently means.
- The first definitions of `find_win_move` and `block_player_move` in agents.py:131-159 are rebound by the later ones at agents.py:192-219 before any agent runs. Only the later ones are modelled.
- Python integers are unbounded, as are Dafny's, so no wrap-around arises. `±float('inf')` is the datatype `Scores.Score`.
- The players are not restricted to 1 and 2 anywhere the source does not restrict them. `EvaluateWindowTable` assumes a player of 1 or 2 and cells of 0..2, because its table form needs them.
- `game_help.py`'s `block_player_move` writes only its private copy, so it is modelled as a function on board values (`GameHelp.BlockPlayerMove`), which the imperative `GameUtils.BlockPlayerMove` is proved to equal.

## Findings

| source | as written | input that shows it | evidently intended | confidence | as-written member | corrected member |
|---|---|---|---|---|---|---|
| agents/minimax_agent.py:16 | `if score > best_score` with `best_score = -float('inf')`: a valid column whose score is -inf is never chosen | `Search.DrawnBoard(2)`, player 1. Every column but 0 is full, and column 0 has two empty cells. Nobody has four in a row. After player 1's drop and the reply the board is full with no winner, so the search scores column 0 as -inf and the agent returns None on a non-full board. | take the first valid column whatever its score (`best_col is None or score > best_score`), so that None means a full board | not executed | Search.LeftmostBestPassesOnDrawnBoard | MinimaxAgent.MinimaxAgentCorrected |
| agents.py:65 | the same strict test in `agents.py`'s `minimax_agent` | the same board and player; the lemma holds for every leaf evaluator, including the win/loss one | the same | not executed | Search.LeftmostBestPassesOnDrawnBoard | Agents.MinimaxAgentCorrected |
