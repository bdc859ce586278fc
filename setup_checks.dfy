/** The smart agent's setup test (agents/smart_agent.py, repeated in
    agents.py): a 3-cell line holding two of the player's pieces and one
    empty cell. */
module SetupChecks {
  import opened Board
  import opened Lines
  import opened BoardArray

  /** check_horizontal: the row slices board[row][col:col+3]. */
  method CheckHorizontal(board: array2<int>, player: int) returns (found: bool)
    requires Shaped(board)
    ensures found == LineIn(Cells(board), Horizontal, TwoAndGap(player))
  {
    found := FindLine(board, Horizontal, TwoAndGap(player));
  }

  /** check_vertical: columns outside, rows inside. */
  method CheckVertical(board: array2<int>, player: int) returns (found: bool)
    requires Shaped(board)
    ensures found == LineIn(Cells(board), Vertical, TwoAndGap(player))
  {
    found := FindLine(board, Vertical, TwoAndGap(player));
  }

  /** check_diagonal: the down-right lines first, then the up-right ones. */
  method CheckDiagonal(board: array2<int>, player: int) returns (found: bool)
    requires Shaped(board)
    ensures found == (LineIn(Cells(board), Diagonal, TwoAndGap(player)) || LineIn(Cells(board), AntiDiagonal, TwoAndGap(player)))
  {
    found := FindLine(board, Diagonal, TwoAndGap(player));
    if !found {
      found := FindLine(board, AntiDiagonal, TwoAndGap(player));
    }
  }

  /** check_two_in_a_row: dispatch on the direction's name; any other name
      gives false. */
  method CheckTwoInARow(board: array2<int>, player: int, direction: string) returns (found: bool)
    requires Shaped(board)
    ensures direction == "horizontal" ==> found == LineIn(Cells(board), Horizontal, TwoAndGap(player))
    ensures direction == "vertical" ==> found == LineIn(Cells(board), Vertical, TwoAndGap(player))
    ensures direction == "diagonal" ==>
      found == (LineIn(Cells(board), Diagonal, TwoAndGap(player)) || LineIn(Cells(board), AntiDiagonal, TwoAndGap(player)))
    ensures direction !in {"horizontal", "vertical", "diagonal"} ==> !found
  {
    if direction == "horizontal" {
      found := CheckHorizontal(board, player);
    } else if direction == "vertical" {
      found := CheckVertical(board, player);
    } else if direction == "diagonal" {
      found := CheckDiagonal(board, player);
    } else {
      found := false;
    }
  }

  /** can_create_setup: any of the three named checks, all three evaluated. */
  method CanCreateSetup(board: array2<int>, player: int) returns (found: bool)
    requires Shaped(board)
    ensures found == HasSetup(Cells(board), player)
  {
    var h := CheckTwoInARow(board, player, "horizontal");
    var v := CheckTwoInARow(board, player, "vertical");
    var d := CheckTwoInARow(board, player, "diagonal");
    found := h || v || d;
  }
}
