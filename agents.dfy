/** agents.py: the all-in-one agent module.  Its make_move, check_win and
    rule helpers are the ones of game_utils.py and agents/smart_agent.py
    (GameUtils, SmartAgent); what differs is valid_move (no range test),
    evaluate_board (win/loss only), minimax (no pruning), and random_agent,
    whose block step is the later, opponent-blocking definition of
    block_player_move that replaces the first one in the module. */
module Agents {
  import opened Scores
  import opened Board
  import opened Lines
  import opened BoardArray
  import opened Moves
  import opened Search
  import GameUtils
  import MA = MinimaxAgent
  import RA = RandomAgent
  import SA = SmartAgent

  /** valid_move: only the top cell is read.  Python would wrap a negative
      column and fail on one past the end, so callers pass 0..6 (they do). */
  function ValidMove(board: array2<int>, col: int): (ok: bool)
    reads board
    requires Shaped(board) && 0 <= col < Cols
    ensures ok == Board.ValidMove(Cells(board), col)
  {
    board[0, col] == Empty
  }

  /** evaluate_board: 100 when player has four in a row, -100 when only the
      opponent has, 0 otherwise. */
  method EvaluateBoard(board: array2<int>, player: int) returns (score: int)
    requires Shaped(board)
    ensures score == WinLossScore(Cells(board), player)
    ensures score == 100 <==> HasFour(Cells(board), player)
    ensures score == -100 <==> !HasFour(Cells(board), player) && HasFour(Cells(board), Opponent(player))
    ensures score == 0 || score == 100 || score == -100
  {
    var won := GameUtils.CheckWin(board, player);
    if won {
      return 100;
    }
    var lost := GameUtils.CheckWin(board, Opponent(player));
    if lost {
      return -100;
    }
    return 0;
  }

  /** minimax: evaluate_board at depth 0 or once either player has won;
      otherwise the maximizer's or minimizer's loop over all valid columns,
      without pruning.  The caller's board is only read. */
  method Minimax(board: array2<int>, depth: nat, maximizing: bool, player: int) returns (value: Score)
    requires Shaped(board)
    ensures value == Search.Minimax(Static(WinLoss, player), Cells(board), depth, maximizing, player)
    decreases depth, 2
  {
    var terminal := MA.IsTerminal(board, depth);
    if terminal {
      var score := EvaluateBoard(board, player);
      return Fin(score);
    }
    if maximizing {
      value := MaximizerLoop(board, depth, player);
    } else {
      value := MinimizerLoop(board, depth, player);
    }
  }

  /** The maximizer's loop: max_eval over player's drop into every valid
      column. */
  method MaximizerLoop(board: array2<int>, depth: nat, player: int) returns (maxEval: Score)
    requires Shaped(board) && depth > 0
    ensures maxEval == MinimaxFrom(Static(WinLoss, player), Cells(board), depth, true, player, 0, NegInf)
    decreases depth, 1
  {
    ghost var g := Cells(board);
    ghost var leaf := Static(WinLoss, player);
    maxEval := NegInf;
    var col := 0;
    while col < Cols
      invariant 0 <= col <= Cols
      invariant MinimaxFrom(leaf, g, depth, true, player, col, maxEval) == MinimaxFrom(leaf, g, depth, true, player, 0, NegInf)
    {
      if ValidMove(board, col) {
        var e := SearchChild(board, col, Mover(true, player), depth - 1, false, player);
        assert Cells(board) == g;
        MinimaxColumn(leaf, g, depth, true, player, col, maxEval, e);
        maxEval := Max(maxEval, e);
      }
      col := col + 1;
    }
  }

  /** The minimizer's loop: min_eval over the opponent's drop into every
      valid column. */
  method MinimizerLoop(board: array2<int>, depth: nat, player: int) returns (minEval: Score)
    requires Shaped(board) && depth > 0
    ensures minEval == MinimaxFrom(Static(WinLoss, player), Cells(board), depth, false, player, 0, PosInf)
    decreases depth, 1
  {
    ghost var g := Cells(board);
    ghost var leaf := Static(WinLoss, player);
    minEval := PosInf;
    var col := 0;
    while col < Cols
      invariant 0 <= col <= Cols
      invariant MinimaxFrom(leaf, g, depth, false, player, col, minEval) == MinimaxFrom(leaf, g, depth, false, player, 0, PosInf)
    {
      if ValidMove(board, col) {
        var e := SearchChild(board, col, Mover(false, player), depth - 1, true, player);
        assert Cells(board) == g;
        MinimaxColumn(leaf, g, depth, false, player, col, minEval, e);
        minEval := Min(minEval, e);
      }
      col := col + 1;
    }
  }

  /** One child: a copy of the board, make_move of the mover's piece in col,
      and minimax of the copy one level down. */
  method SearchChild(board: array2<int>, col: int, mover: int, depth: nat, maximizing: bool, player: int) returns (e: Score)
    requires Shaped(board) && Board.ValidMove(Cells(board), col)
    ensures e == Search.Minimax(Static(WinLoss, player), Drop(Cells(board), col, mover), depth, maximizing, player)
    decreases depth, 3
  {
    var temp := Copy(board);
    var row := GameUtils.MakeMove(temp, col, mover);
    e := Minimax(temp, depth, maximizing, player);
  }

  /** minimax_agent: every valid column scored by a depth-3 unpruned search
      after player's drop; the first column whose score beats every earlier
      one is kept. */
  method MinimaxAgent(board: array2<int>, player: int) returns (bestCol: Option<int>)
    requires Shaped(board)
    ensures IsLeftmostBest(Static(WinLoss, player), Cells(board), player, bestCol)
    ensures IsFull(Cells(board)) ==> bestCol.None?
  {
    ghost var g := Cells(board);
    ghost var leaf := Static(WinLoss, player);
    FullIffNoMove(g);
    bestCol := None;
    var bestScore := NegInf;
    var col := 0;
    while col < Cols
      invariant 0 <= col <= Cols
      invariant LeftmostBestBefore(leaf, g, player, col, bestCol)
      invariant bestScore == ChoiceScore(leaf, g, player, bestCol)
    {
      if ValidMove(board, col) {
        var score := SearchChild(board, col, player, SearchDepth, false, player);
        assert Cells(board) == g;
        LeftmostBestStep(leaf, g, player, col, bestCol, score);
        if Lt(bestScore, score) {
          bestScore := score;
          bestCol := Some(col);
        }
      } else {
        LeftmostBestStep(leaf, g, player, col, bestCol, bestScore);
      }
      col := col + 1;
    }
  }

  /** random_agent: a winning column, else the column that blocks the
      opponent's win, else the first free column in centre-first order.
      random.choice is reached only on a full board, where its list is empty
      and Python raises IndexError; that outcome is None here. */
  method RandomAgent(board: array2<int>, player: int) returns (col: Option<int>)
    requires Shaped(board)
    modifies board
    ensures Cells(board) == old(Cells(board))
    ensures var g := old(Cells(board));
      var win := FirstMove(g, player, Win(player), 0);
      var block := FirstMove(g, Opponent(player), Win(Opponent(player)), 0);
      col == if win.Some? then win else if block.Some? then block else RA.CentreFirst(g)
    ensures col.None? <==> IsFull(old(Cells(board)))
    ensures col.Some? ==> Board.ValidMove(old(Cells(board)), col.value)
  {
    ghost var g := Cells(board);
    col := SA.FindWinMove(board, player);
    if col.Some? {
      return;
    }
    col := SA.BlockPlayerMove(board, player);
    if col.Some? {
      return;
    }
    RA.CentreOrderIsPermutation();
    var i := 0;
    while i < |RA.CentreOrder|
      invariant 0 <= i <= |RA.CentreOrder|
      invariant Cells(board) == g
      invariant RA.CentreFirstFrom(g, i) == RA.CentreFirst(g)
    {
      var c := RA.CentreOrder[i];
      assert c in RA.CentreOrder;
      if ValidMove(board, c) {
        return Some(c);
      }
      i := i + 1;
    }
    assert RA.ValidColumns(Cells(board)) == [];
    col := None;
  }

  /** smart_agent: the priority win > block > setup > random_agent.  Once
      the win and block steps have failed, random_agent's own win and block
      steps fail too, so the last resort is the centre-first column; None
      exactly on a full board. */
  method SmartAgent(board: array2<int>, player: int) returns (col: Option<int>)
    requires Shaped(board)
    modifies board
    ensures Cells(board) == old(Cells(board))
    ensures var g := old(Cells(board));
      var win := FirstMove(g, player, Win(player), 0);
      var block := FirstMove(g, Opponent(player), Win(Opponent(player)), 0);
      var setup := FirstMove(g, player, Setup(player), 0);
      col == if win.Some? then win else if block.Some? then block else if setup.Some? then setup else RA.CentreFirst(g)
    ensures col.None? <==> IsFull(old(Cells(board)))
    ensures col.Some? ==> Board.ValidMove(old(Cells(board)), col.value)
  {
    col := SA.FindWinMove(board, player);
    if col.Some? {
      return;
    }
    col := SA.BlockPlayerMove(board, player);
    if col.Some? {
      return;
    }
    col := SA.FindSetupMove(board, player);
    if col.Some? {
      return;
    }
    col := RandomAgent(board, player);
  }

  /** The root selector as evidently intended: the first valid column is
      taken whatever its score, so that a -inf score cannot leave the agent
      without a move; the choice is the leftmost valid column with the
      greatest score, and None only on a full board. */
  method MinimaxAgentCorrected(board: array2<int>, player: int) returns (bestCol: Option<int>)
    requires Shaped(board)
    ensures IsLeftmostMax(Static(WinLoss, player), Cells(board), player, bestCol)
    ensures bestCol.None? <==> IsFull(Cells(board))
  {
    ghost var g := Cells(board);
    ghost var leaf := Static(WinLoss, player);
    FullIffNoMove(g);
    bestCol := None;
    var bestScore := NegInf;
    var col := 0;
    while col < Cols
      invariant 0 <= col <= Cols
      invariant LeftmostMaxBefore(leaf, g, player, col, bestCol)
      invariant bestScore == ChoiceScore(leaf, g, player, bestCol)
    {
      if ValidMove(board, col) {
        var score := SearchChild(board, col, player, SearchDepth, false, player);
        assert Cells(board) == g;
        LeftmostMaxStep(leaf, g, player, col, bestCol, score);
        if bestCol.None? || Lt(bestScore, score) {
          bestScore := score;
          bestCol := Some(col);
        }
      } else {
        LeftmostMaxStep(leaf, g, player, col, bestCol, bestScore);
      }
      col := col + 1;
    }
  }
}
