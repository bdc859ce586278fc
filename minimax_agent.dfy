/** agents/minimax_agent.py: the alpha-beta search on the mutable board, each
    child searched on a fresh copy, and the root selector. */
module MinimaxAgent {
  import opened Scores
  import opened Board
  import opened BoardArray
  import opened Search
  import GameUtils
  import Evaluation

  /** minimax: evaluate_board at depth 0 or once either player has won;
      otherwise the maximizer's or the minimizer's loop over the columns.
      The caller's board is only read. */
  method Minimax(board: array2<int>, depth: nat, alpha: Score, beta: Score, maximizing: bool, player: int) returns (value: Score)
    requires Shaped(board)
    ensures value == AlphaBeta(Static(Windows, player), Cells(board), depth, alpha, beta, maximizing, player)
    decreases depth, 2
  {
    var terminal := IsTerminal(board, depth);
    if terminal {
      var score := Evaluation.EvaluateBoard(board, player);
      return Fin(score);
    }
    if maximizing {
      value := MaximizerLoop(board, depth, alpha, beta, player);
    } else {
      value := MinimizerLoop(board, depth, alpha, beta, player);
    }
  }

  /** The maximizer's loop of minimax: player's drop into each valid column
      in turn, max_eval and alpha raised to each child's value, and the loop
      left once beta <= alpha. */
  method MaximizerLoop(board: array2<int>, depth: nat, alpha: Score, beta: Score, player: int) returns (maxEval: Score)
    requires Shaped(board) && depth > 0
    ensures maxEval == AlphaBetaFrom(Static(Windows, player), Cells(board), depth, alpha, beta, true, player, 0, NegInf)
    decreases depth, 1
  {
    ghost var g := Cells(board);
    ghost var leaf := Static(Windows, player);
    maxEval := NegInf;
    var a := alpha;
    var col := 0;
    while col < Cols
      invariant 0 <= col <= Cols
      invariant AlphaBetaFrom(leaf, g, depth, a, beta, true, player, col, maxEval) == AlphaBetaFrom(leaf, g, depth, alpha, beta, true, player, 0, NegInf)
    {
      var cut;
      maxEval, a, cut := MaximizerColumn(board, depth, a, beta, player, col, maxEval);
      if cut {
        break;
      }
      col := col + 1;
    }
  }

  /** One round of the maximizer's loop at column col: a valid column's child
      is searched in the window (a, beta), max_eval and alpha are raised to
      its value, and the loop is cut once beta <= alpha; an invalid column is
      passed over. */
  method MaximizerColumn(board: array2<int>, depth: nat, a: Score, beta: Score, player: int, col: int, maxEval: Score)
    returns (maxEval': Score, a': Score, cut: bool)
    requires Shaped(board) && depth > 0 && 0 <= col < Cols
    ensures AlphaBetaFrom(Static(Windows, player), Cells(board), depth, a, beta, true, player, col, maxEval) ==
      if cut then maxEval' else AlphaBetaFrom(Static(Windows, player), Cells(board), depth, a', beta, true, player, col + 1, maxEval')
    decreases depth, 0
  {
    ghost var g := Cells(board);
    ghost var leaf := Static(Windows, player);
    if ValidMove(Cells(board), col) {
      var e := SearchChild(board, col, Mover(true, player), depth - 1, a, beta, false, player);
      assert Cells(board) == g;
      AlphaBetaMaxColumn(leaf, g, depth, a, beta, player, col, maxEval, e);
      maxEval' := Max(maxEval, e);
      a' := Max(a, e);
      cut := Le(beta, a');
    } else {
      AlphaBetaSkipColumn(leaf, g, depth, a, beta, true, player, col, maxEval);
      maxEval', a', cut := maxEval, a, false;
    }
  }

  /** The minimizer's loop: the opponent's drop into each valid column,
      min_eval and beta lowered to each child's value, and the loop left
      once beta <= alpha. */
  method MinimizerLoop(board: array2<int>, depth: nat, alpha: Score, beta: Score, player: int) returns (minEval: Score)
    requires Shaped(board) && depth > 0
    ensures minEval == AlphaBetaFrom(Static(Windows, player), Cells(board), depth, alpha, beta, false, player, 0, PosInf)
    decreases depth, 1
  {
    ghost var g := Cells(board);
    ghost var leaf := Static(Windows, player);
    minEval := PosInf;
    var b := beta;
    var col := 0;
    while col < Cols
      invariant 0 <= col <= Cols
      invariant AlphaBetaFrom(leaf, g, depth, alpha, b, false, player, col, minEval) == AlphaBetaFrom(leaf, g, depth, alpha, beta, false, player, 0, PosInf)
    {
      var cut;
      minEval, b, cut := MinimizerColumn(board, depth, alpha, b, player, col, minEval);
      if cut {
        break;
      }
      col := col + 1;
    }
  }

  /** One round of the minimizer's loop at column col, with the opponent's
      drop, min_eval and beta lowered to the child's value. */
  method MinimizerColumn(board: array2<int>, depth: nat, alpha: Score, b: Score, player: int, col: int, minEval: Score)
    returns (minEval': Score, b': Score, cut: bool)
    requires Shaped(board) && depth > 0 && 0 <= col < Cols
    ensures AlphaBetaFrom(Static(Windows, player), Cells(board), depth, alpha, b, false, player, col, minEval) ==
      if cut then minEval' else AlphaBetaFrom(Static(Windows, player), Cells(board), depth, alpha, b', false, player, col + 1, minEval')
    decreases depth, 0
  {
    ghost var g := Cells(board);
    ghost var leaf := Static(Windows, player);
    if ValidMove(Cells(board), col) {
      var e := SearchChild(board, col, Mover(false, player), depth - 1, alpha, b, true, player);
      assert Cells(board) == g;
      AlphaBetaMinColumn(leaf, g, depth, alpha, b, player, col, minEval, e);
      minEval' := Min(minEval, e);
      b' := Min(b, e);
      cut := Le(b', alpha);
    } else {
      AlphaBetaSkipColumn(leaf, g, depth, alpha, b, false, player, col, minEval);
      minEval', b', cut := minEval, b, false;
    }
  }

  /** depth == 0 or check_win(board, 1) or check_win(board, 2), evaluated
      left to right as Python's or does. */
  method IsTerminal(board: array2<int>, depth: nat) returns (terminal: bool)
    requires Shaped(board)
    ensures terminal == Terminal(Cells(board), depth)
  {
    terminal := depth == 0;
    if !terminal {
      terminal := GameUtils.CheckWin(board, 1);
    }
    if !terminal {
      terminal := GameUtils.CheckWin(board, 2);
    }
  }

  /** The search of one child: a copy of the board, make_move of the mover's
      piece in col, and minimax of the copy one level down. */
  method SearchChild(board: array2<int>, col: int, mover: int, depth: nat, alpha: Score, beta: Score, maximizing: bool, player: int) returns (e: Score)
    requires Shaped(board) && ValidMove(Cells(board), col)
    ensures e == AlphaBeta(Static(Windows, player), Drop(Cells(board), col, mover), depth, alpha, beta, maximizing, player)
    decreases depth, 3
  {
    var temp := Copy(board);
    var row := GameUtils.MakeMove(temp, col, mover);
    e := Minimax(temp, depth, alpha, beta, maximizing, player);
  }

  /** The root's score of a valid column: minimax of a copy after player's
      drop, to depth 3 with the full window (-inf, +inf), which is the
      unpruned value of that child. */
  method ScoreColumn(board: array2<int>, player: int, col: int) returns (score: Score)
    requires Shaped(board) && ValidMove(Cells(board), col)
    ensures score == RootValue(Static(Windows, player), Cells(board), player, col)
  {
    score := SearchChild(board, col, player, SearchDepth, NegInf, PosInf, false, player);
    FullWindowIsExact(Static(Windows, player), Drop(Cells(board), col, player), SearchDepth, false, player);
  }

  /** minimax_agent: scores every valid column by a depth-3 search of a copy
      after player's drop, with the full window, and keeps the first column
      whose score is strictly greater than every earlier one.  Because the
      full window makes pruning exact, the choice is the leftmost best column
      by the unpruned minimax value. */
  method MinimaxAgent(board: array2<int>, player: int) returns (bestCol: Option<int>)
    requires Shaped(board)
    ensures IsLeftmostBest(Static(Windows, player), Cells(board), player, bestCol)
    ensures IsFull(Cells(board)) ==> bestCol.None?
  {
    ghost var g := Cells(board);
    ghost var leaf := Static(Windows, player);
    FullIffNoMove(g);
    bestCol := None;
    var bestScore := NegInf;
    var col := 0;
    while col < Cols
      invariant 0 <= col <= Cols
      invariant LeftmostBestBefore(leaf, g, player, col, bestCol)
      invariant bestScore == ChoiceScore(leaf, g, player, bestCol)
    {
      if ValidMove(Cells(board), col) {
        var score := ScoreColumn(board, player, col);
        assert Cells(board) == g;
        LeftmostBestStep(leaf, g, player, col, bestCol, score);
        if Lt(bestScore, score) {
          bestScore := score;
          bestCol := Some(col);
        }
      } else {
        LeftmostBestStep(leaf, g, player, col, bestCol, bestScore);
      }
      col := col + 1;
    }
  }

  /** The root selector as evidently intended: the first valid column is
      taken whatever its score, so that a -inf score cannot leave the agent
      without a move; the choice is the leftmost valid column with the
      greatest score, and None only on a full board. */
  method MinimaxAgentCorrected(board: array2<int>, player: int) returns (bestCol: Option<int>)
    requires Shaped(board)
    ensures IsLeftmostMax(Static(Windows, player), Cells(board), player, bestCol)
    ensures bestCol.None? <==> IsFull(Cells(board))
  {
    ghost var g := Cells(board);
    ghost var leaf := Static(Windows, player);
    FullIffNoMove(g);
    bestCol := None;
    var bestScore := NegInf;
    var col := 0;
    while col < Cols
      invariant 0 <= col <= Cols
      invariant LeftmostMaxBefore(leaf, g, player, col, bestCol)
      invariant bestScore == ChoiceScore(leaf, g, player, bestCol)
    {
      if ValidMove(Cells(board), col) {
        var score := ScoreColumn(board, player, col);
        assert Cells(board) == g;
        LeftmostMaxStep(leaf, g, player, col, bestCol, score);
        if bestCol.None? || Lt(bestScore, score) {
          bestScore := score;
          bestCol := Some(col);
        }
      } else {
        LeftmostMaxStep(leaf, g, player, col, bestCol, bestScore);
      }
      col := col + 1;
    }
  }
}
