/** The apply-and-undo loop shared by find_win_move, block_player_move and
    find_setup_move in agents/smart_agent.py, agents/random_agent.py and
    agents.py: each valid column in turn gets a piece on the caller's own
    board, the board is tested, and the cell is reset to 0. */
module Probe {
  import opened Board
  import opened Lines
  import opened BoardArray
  import opened Moves
  import GameUtils
  import SetupChecks

  /** The test a helper runs after its trial move: check_win or
      can_create_setup. */
  method Reached(board: array2<int>, goal: Goal) returns (hit: bool)
    requires Shaped(board)
    ensures hit == Achieves(Cells(board), goal)
  {
    match goal
    case Win(p) =>
      hit := GameUtils.CheckWin(board, p);
    case Setup(p) =>
      hit := SetupChecks.CanCreateSetup(board, p);
  }

  /** Tries mover's piece in each valid column 0..6 and returns the first
      column whose trial move reaches the goal, or None.  Every trial move is
      undone on both paths, so the caller's board ends as it started. */
  method TryMoves(board: array2<int>, mover: int, goal: Goal) returns (col: Option<int>)
    requires Shaped(board)
    modifies board
    ensures Cells(board) == old(Cells(board))
    ensures col == FirstMove(old(Cells(board)), mover, goal, 0)
  {
    ghost var g := Cells(board);
    var c := 0;
    while c < Cols
      invariant 0 <= c <= Cols
      invariant Cells(board) == g
      invariant FirstMove(g, mover, goal, 0) == FirstMove(g, mover, goal, c)
    {
      if ValidMove(Cells(board), c) {
        var row := GameUtils.MakeMove(board, c, mover);
        var hit := Reached(board, goal);
        board[row.value, c] := Empty;
        Extensionality(Cells(board), g);
        if hit {
          return Some(c);
        }
      }
      c := c + 1;
    }
    return None;
  }
}
