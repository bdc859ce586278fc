/** agents/random_agent.py: take a winning column, else (meant to) block, else
    the first free column in centre-first order. */
module RandomAgent {
  import opened Board
  import opened Lines
  import opened BoardArray
  import opened Moves
  import Probe

  /** middle_columns: the centre first, then outward alternating left and right. */
  const CentreOrder: seq<int> := [3, 2, 4, 1, 5, 0, 6]

  /** The centre-first order lists every column exactly once. */
  lemma CentreOrderIsPermutation()
    ensures |CentreOrder| == Cols
    ensures forall c :: c in CentreOrder <==> 0 <= c < Cols
    ensures forall i, j :: 0 <= i < j < |CentreOrder| ==> CentreOrder[i] != CentreOrder[j]
  {
  }

  /** The first column of CentreOrder[i..] that is a valid move. */
  function CentreFirstFrom(g: Grid, i: nat): (col: Option<int>)
    requires WellFormed(g) && i <= |CentreOrder|
    ensures col.Some? ==> ValidMove(g, col.value)
    ensures col.Some? ==>
      exists k :: i <= k < |CentreOrder| && CentreOrder[k] == col.value && forall k' :: i <= k' < k ==> !ValidMove(g, CentreOrder[k'])
    ensures col.None? ==> forall k :: i <= k < |CentreOrder| ==> !ValidMove(g, CentreOrder[k])
    decreases |CentreOrder| - i
  {
    if i == |CentreOrder| then None
    else if ValidMove(g, CentreOrder[i]) then Some(CentreOrder[i])
    else CentreFirstFrom(g, i + 1)
  }

  /** The centre-first choice: a valid column, preceded in CentreOrder only by
      full columns, and missing exactly when the board is full. */
  function CentreFirst(g: Grid): (col: Option<int>)
    requires WellFormed(g)
    ensures col.Some? ==> ValidMove(g, col.value)
    ensures col.None? <==> IsFull(g)
  {
    CentreOrderIsPermutation();
    FullIffNoMove(g);
    CentreFirstFrom(g, 0)
  }

  /** [col for col in range(COLUMN_COUNT) if valid_move(board, col)]. */
  function ValidColumns(g: Grid): (cols: seq<int>)
    requires WellFormed(g)
    ensures forall c :: c in cols <==> ValidMove(g, c)
  {
    ValidColumnsFrom(g, 0)
  }

  function ValidColumnsFrom(g: Grid, c: int): (cols: seq<int>)
    requires WellFormed(g) && 0 <= c <= Cols
    ensures forall c' :: c' in cols <==> c <= c' && ValidMove(g, c')
    decreases Cols - c
  {
    if c == Cols then []
    else (if ValidMove(g, c) then [c] else []) + ValidColumnsFrom(g, c + 1)
  }

  /** find_win_move: the first valid column where player's own drop wins. */
  method FindWinMove(board: array2<int>, player: int) returns (col: Option<int>)
    requires Shaped(board)
    modifies board
    ensures Cells(board) == old(Cells(board))
    ensures col == FirstMove(old(Cells(board)), player, Win(player), 0)
  {
    col := Probe.TryMoves(board, player, Win(player));
  }

  /** block_player_move: this file's version drops player's own piece, not the
      opponent's, so it asks the same question as FindWinMove. */
  method BlockPlayerMove(board: array2<int>, player: int) returns (col: Option<int>)
    requires Shaped(board)
    modifies board
    ensures Cells(board) == old(Cells(board))
    ensures col == FirstMove(old(Cells(board)), player, Win(player), 0)
  {
    col := Probe.TryMoves(board, player, Win(player));
  }

  /** random_agent.  The block step can never change the outcome (it repeats
      the win step), so the choice is the winning column if any, else the
      first free column in centre-first order.  random.choice is reached only
      on a full board, where its list is empty and Python raises IndexError;
      that outcome is None here. */
  method RandomAgent(board: array2<int>, player: int) returns (col: Option<int>)
    requires Shaped(board)
    modifies board
    ensures Cells(board) == old(Cells(board))
    ensures var win := FirstMove(old(Cells(board)), player, Win(player), 0);
      col == if win.Some? then win else CentreFirst(old(Cells(board)))
    ensures col.None? <==> IsFull(old(Cells(board)))
    ensures col.Some? ==> ValidMove(old(Cells(board)), col.value)
  {
    ghost var g := Cells(board);
    col := FindWinMove(board, player);
    if col.Some? {
      return;
    }
    col := BlockPlayerMove(board, player);
    if col.Some? {
      return;
    }
    var i := 0;
    while i < |CentreOrder|
      invariant 0 <= i <= |CentreOrder|
      invariant Cells(board) == g
      invariant CentreFirstFrom(g, i) == CentreFirst(g)
    {
      if ValidMove(Cells(board), CentreOrder[i]) {
        return Some(CentreOrder[i]);
      }
      i := i + 1;
    }
    assert ValidColumns(Cells(board)) == [] by {
      CentreOrderIsPermutation();
    }
    col := None;
  }
}
