/** game_utils.py: the board operations on the mutable board the game loop
    passes around.  utils.py repeats create_board, drop_piece, valid_move,
    check_win and block_player_move token for token, and agents.py repeats
    make_move and check_win; those copies are the same members. */
module GameUtils {
  import opened Board
  import opened Lines
  import opened BoardArray
  import GameHelp

  /** create_board: a fresh 6 x 7 board of zeros. */
  method CreateBoard() returns (board: array2<int>)
    ensures fresh(board) && Shaped(board)
    ensures Cells(board) == EmptyGrid()
  {
    board := new int[Rows, Cols]((_, _) => Empty);
    Extensionality(Cells(board), EmptyGrid());
  }

  /** drop_piece: -1 for a column off the board; otherwise the bottom-up scan
      puts the piece in the lowest empty cell and returns its row, or returns
      -1 when the column is full. */
  method DropPiece(board: array2<int>, col: int, player: int) returns (row: int)
    requires Shaped(board)
    modifies board
    ensures row == if 0 <= col < Cols then LandingRow(old(Cells(board)), col) else -1
    ensures Cells(board) == Drop(old(Cells(board)), col, player)
  {
    if col < 0 || col >= Cols {
      return -1;
    }
    ghost var g := Cells(board);
    var r := Rows - 1;
    while r >= 0
      invariant -1 <= r < Rows
      invariant Cells(board) == g
      invariant forall r' :: r < r' < Rows ==> g[r'][col] != Empty
    {
      if board[r, col] == Empty {
        board[r, col] := player;
        Extensionality(Cells(board), Set(g, r, col, player));
        return r;
      }
      r := r - 1;
    }
    return -1;
  }

  /** make_move: the same bottom-up placement without the range test, whose
      callers only pass columns on the board; None when the column is full. */
  method MakeMove(board: array2<int>, col: int, player: int) returns (row: Option<int>)
    requires Shaped(board) && 0 <= col < Cols
    modifies board
    ensures row == if LandingRow(old(Cells(board)), col) >= 0 then Some(LandingRow(old(Cells(board)), col)) else None
    ensures Cells(board) == Drop(old(Cells(board)), col, player)
  {
    ghost var g := Cells(board);
    var r := Rows - 1;
    while r >= 0
      invariant -1 <= r < Rows
      invariant Cells(board) == g
      invariant forall r' :: r < r' < Rows ==> g[r'][col] != Empty
    {
      if board[r, col] == Empty {
        board[r, col] := player;
        Extensionality(Cells(board), Set(g, r, col, player));
        return Some(r);
      }
      r := r - 1;
    }
    return None;
  }

  /** check_win: the four scans in the source's order, horizontal, vertical,
      down-right and up-right, stopping at the first complete line. */
  method CheckWin(board: array2<int>, piece: int) returns (won: bool)
    requires Shaped(board)
    ensures won == HasFour(Cells(board), piece)
  {
    won := FindLine(board, Horizontal, Four(piece));
    if won {
      return;
    }
    won := FindLine(board, Vertical, Four(piece));
    if won {
      return;
    }
    won := FindLine(board, Diagonal, Four(piece));
    if won {
      return;
    }
    won := FindLine(board, AntiDiagonal, Four(piece));
  }

  /** block_player_move: tries each valid column on a copy of the board and
      returns the first one whose drop wins for player, or -1.  The method
      may not modify the caller's board, so the board is unchanged. */
  method BlockPlayerMove(board: array2<int>, player: int) returns (col: int)
    requires Shaped(board)
    ensures col == GameHelp.BlockPlayerMove(Cells(board), player)
  {
    ghost var g := Cells(board);
    var c := 0;
    while c < Cols
      invariant 0 <= c <= Cols
      invariant forall c' :: 0 <= c' < c && ValidMove(g, c') ==> !HasFour(Drop(g, c', player), player)
    {
      if ValidMove(Cells(board), c) {
        var temp := Copy(board);
        var row := DropPiece(temp, c, player);
        var won := CheckWin(temp, player);
        if won {
          return c;
        }
      }
      c := c + 1;
    }
    return -1;
  }
}
