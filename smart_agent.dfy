/** agents/smart_agent.py: win, else block the opponent, else build a setup,
    else fall back to random_agent.  The helpers use game_utils.make_move (the
    lazy import in find_win_move names connect4.main, which defines no
    make_move; see README). */
module SmartAgent {
  import opened Board
  import opened Lines
  import opened BoardArray
  import opened Moves
  import Probe
  import RandomAgent

  /** find_win_move: the first valid column where player's drop wins. */
  method FindWinMove(board: array2<int>, player: int) returns (col: Option<int>)
    requires Shaped(board)
    modifies board
    ensures Cells(board) == old(Cells(board))
    ensures col == FirstMove(old(Cells(board)), player, Win(player), 0)
  {
    col := Probe.TryMoves(board, player, Win(player));
  }

  /** block_player_move: the first valid column where Opponent(player)
      would win. */
  method BlockPlayerMove(board: array2<int>, player: int) returns (col: Option<int>)
    requires Shaped(board)
    modifies board
    ensures Cells(board) == old(Cells(board))
    ensures col == FirstMove(old(Cells(board)), Opponent(player), Win(Opponent(player)), 0)
  {
    var opponent := Opponent(player);
    col := Probe.TryMoves(board, opponent, Win(opponent));
  }

  /** find_setup_move: the first valid column after whose drop player has a
      two-and-a-gap line. */
  method FindSetupMove(board: array2<int>, player: int) returns (col: Option<int>)
    requires Shaped(board)
    modifies board
    ensures Cells(board) == old(Cells(board))
    ensures col == FirstMove(old(Cells(board)), player, Setup(player), 0)
  {
    col := Probe.TryMoves(board, player, Setup(player));
  }

  /** smart_agent: the priority win > block > setup > random_agent.  Once the
      win step has failed, random_agent's own win and block steps fail too, so
      the last resort is the centre-first column; None (random_agent's
      IndexError) exactly on a full board. */
  method SmartAgent(board: array2<int>, player: int) returns (col: Option<int>)
    requires Shaped(board)
    modifies board
    ensures Cells(board) == old(Cells(board))
    ensures var g := old(Cells(board));
      var win := FirstMove(g, player, Win(player), 0);
      var block := FirstMove(g, Opponent(player), Win(Opponent(player)), 0);
      var setup := FirstMove(g, player, Setup(player), 0);
      col == if win.Some? then win else if block.Some? then block else if setup.Some? then setup else RandomAgent.CentreFirst(g)
    ensures col.None? <==> IsFull(old(Cells(board)))
    ensures col.Some? ==> ValidMove(old(Cells(board)), col.value)
  {
    col := FindWinMove(board, player);
    if col.Some? {
      return;
    }
    col := BlockPlayerMove(board, player);
    if col.Some? {
      return;
    }
    col := FindSetupMove(board, player);
    if col.Some? {
      return;
    }
    col := RandomAgent.RandomAgent(board, player);
  }
}
