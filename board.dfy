/** The Connect Four board as a value: 6 rows of 7 cells, row 0 at the top,
    cells holding 0 (empty) or a player's number.  This is the board model
    that game_utils.py, utils.py and agents.py each write out; the imperative
    versions of its operations (on an array) are in GameUtils. */
module Board {

  const Rows: int := 6
  const Cols: int := 7
  const Empty: int := 0

  type Grid = seq<seq<int>>

  /** Python's None-or-value results. */
  datatype Option<T> = None | Some(value: T)

  predicate WellFormed(g: Grid) {
    |g| == Rows && forall r :: 0 <= r < Rows ==> |g[r]| == Cols
  }

  predicate InBoard(r: int, c: int) {
    0 <= r < Rows && 0 <= c < Cols
  }

  /** Every cell holds 0, 1 or 2. */
  ghost predicate Pieces(g: Grid)
    requires WellFormed(g)
  {
    forall r, c :: InBoard(r, c) ==> 0 <= g[r][c] <= 2
  }

  /** Gravity: every cell below an occupied cell is occupied, so the pieces of
      every column are contiguous from the bottom row upward. */
  ghost predicate Gravity(g: Grid)
    requires WellFormed(g)
  {
    forall r, r', c :: 0 <= r <= r' < Rows && 0 <= c < Cols && g[r][c] != Empty ==> g[r'][c] != Empty
  }

  /** create_board: six rows of seven zeros. */
  function EmptyGrid(): (g: Grid)
    ensures WellFormed(g) && Pieces(g) && Gravity(g)
    ensures forall r, c :: InBoard(r, c) ==> g[r][c] == Empty
  {
    seq(Rows, _ => seq(Cols, _ => Empty))
  }

  /** The grid with one cell replaced. */
  function Set(g: Grid, r: int, c: int, v: int): (h: Grid)
    requires WellFormed(g) && InBoard(r, c)
    ensures WellFormed(h)
    ensures forall r', c' :: InBoard(r', c') ==> h[r'][c'] == if r' == r && c' == c then v else g[r'][c']
  {
    g[r := g[r][c := v]]
  }

  /** Two well-formed grids with the same cells are equal. */
  lemma Extensionality(g: Grid, h: Grid)
    requires WellFormed(g) && WellFormed(h)
    requires forall r, c :: InBoard(r, c) ==> g[r][c] == h[r][c]
    ensures g == h
  {
    forall r | 0 <= r < Rows
      ensures g[r] == h[r]
    {
      assert forall c :: 0 <= c < Cols ==> g[r][c] == h[r][c];
    }
  }

  /** valid_move (game_utils.py, utils.py): the column is on the board and its
      top cell is empty; the range test comes first, so an out-of-range column
      is rejected without reading the board. */
  predicate ValidMove(g: Grid, col: int)
    requires WellFormed(g)
  {
    0 <= col < Cols && g[0][col] == Empty
  }

  /** The bottom-up scan of drop_piece and make_move, from row r upward. */
  function LowestEmptyFrom(g: Grid, col: int, r: int): (row: int)
    requires WellFormed(g) && 0 <= col < Cols && -1 <= r < Rows
    ensures -1 <= row <= r
    ensures row >= 0 ==> g[row][col] == Empty
    ensures forall r' :: row < r' <= r ==> g[r'][col] != Empty
    decreases r + 1
  {
    if r < 0 then -1
    else if g[r][col] == Empty then r
    else LowestEmptyFrom(g, col, r - 1)
  }

  /** The row a piece dropped into column col lands in: the empty cell with
      the largest row index, every cell below it being occupied; -1 exactly
      when the whole column is occupied. */
  function LandingRow(g: Grid, col: int): (row: int)
    requires WellFormed(g) && 0 <= col < Cols
    ensures -1 <= row < Rows
    ensures row >= 0 ==> g[row][col] == Empty
    ensures forall r :: row < r < Rows ==> g[r][col] != Empty
  {
    LowestEmptyFrom(g, col, |g| - 1)
  }

  /** The board after drop_piece(g, col, p): the landing cell of an in-range,
      non-full column holds p; anything else leaves the board as it was. */
  function Drop(g: Grid, col: int, p: int): (h: Grid)
    requires WellFormed(g)
    ensures WellFormed(h)
  {
    if 0 <= col < Cols && LandingRow(g, col) >= 0 then Set(g, LandingRow(g, col), col, p) else g
  }

  /** Exactly one cell changes when a drop succeeds, and none when it fails. */
  lemma DropChangesOnlyLandingCell(g: Grid, col: int, p: int)
    requires WellFormed(g)
    ensures var h := Drop(g, col, p);
      forall r, c :: InBoard(r, c) ==>
        h[r][c] == if 0 <= col < Cols && c == col && r == LandingRow(g, col) then p else g[r][c]
  {
  }

  /** valid_move and drop_piece agree on a board that obeys gravity: the top
      cell of an in-range column is empty exactly when a drop into it lands. */
  lemma ValidMoveIffLands(g: Grid, col: int)
    requires WellFormed(g) && Gravity(g)
    ensures ValidMove(g, col) <==> 0 <= col < Cols && LandingRow(g, col) >= 0
  {
  }

  /** Dropping a piece keeps every column contiguous from the bottom. */
  lemma DropKeepsGravity(g: Grid, col: int, p: int)
    requires WellFormed(g) && Gravity(g) && p != Empty
    ensures Gravity(Drop(g, col, p))
  {
  }

  /** Dropping a player's piece keeps every cell in 0..2. */
  lemma DropKeepsPieces(g: Grid, col: int, p: int)
    requires WellFormed(g) && Pieces(g) && 1 <= p <= 2
    ensures Pieces(Drop(g, col, p))
  {
  }

  /** board_is_full: every top cell is occupied. */
  predicate IsFull(g: Grid)
    requires WellFormed(g)
  {
    forall c :: 0 <= c < Cols ==> g[0][c] != Empty
  }

  /** The board is full exactly when no column is a valid move, and, on a
      board that obeys gravity, exactly when no cell at all is empty. */
  lemma FullIffNoMove(g: Grid)
    requires WellFormed(g)
    ensures IsFull(g) <==> forall c :: 0 <= c < Cols ==> !ValidMove(g, c)
    ensures Gravity(g) ==> (IsFull(g) <==> forall r, c :: InBoard(r, c) ==> g[r][c] != Empty)
  {
    if IsFull(g) {
      forall c | 0 <= c < Cols
        ensures !ValidMove(g, c)
      {
        assert g[0][c] != Empty;
      }
    }
    if forall c :: 0 <= c < Cols ==> !ValidMove(g, c) {
      forall c | 0 <= c < Cols
        ensures g[0][c] != Empty
      {
        assert !ValidMove(g, c);
      }
    }
    if Gravity(g) && IsFull(g) {
      forall r, c | InBoard(r, c)
        ensures g[r][c] != Empty
      {
        assert g[0][c] != Empty;
      }
    }
  }

  /** switch_turn: 2 after 1, and 1 after anything else. */
  function SwitchTurn(turn: int): (next: int)
    ensures next == 1 || next == 2
    ensures next != turn
    ensures turn == 1 || turn == 2 ==> next == Opponent(turn)
  {
    if turn == 1 then 2 else 1
  }

  /** The other player, 3 - p, as the search and the agents compute it. */
  function Opponent(p: int): (q: int)
    ensures p == 1 <==> q == 2
    ensures p == 2 <==> q == 1
  {
    3 - p
  }

  /** The rows returned by n successive drops of p into column col, where a
      drop into a full column returns -1. */
  function DropRows(g: Grid, col: int, p: int, n: nat): (rows: seq<int>)
    requires WellFormed(g) && 0 <= col < Cols
    ensures |rows| == n
    ensures forall i :: 0 <= i < n ==> -1 <= rows[i] < Rows
    decreases n
  {
    if n == 0 then [] else [LandingRow(g, col)] + DropRows(Drop(g, col, p), col, p, n - 1)
  }

  /** Column col holds k empty cells at the top and pieces below them. */
  ghost predicate ColumnHeight(g: Grid, col: int, k: int)
    requires WellFormed(g) && 0 <= col < Cols
  {
    0 <= k <= Rows &&
    (forall r :: 0 <= r < k ==> g[r][col] == Empty) &&
    (forall r :: k <= r < Rows ==> g[r][col] != Empty)
  }

  /** Successive drops into a column with k empty cells land in rows k-1,
      k-2, ..., 0 and then return -1. */
  lemma {:induction false} DropsStackUp(g: Grid, col: int, p: int, k: int, n: nat)
    requires WellFormed(g) && 0 <= col < Cols && p != Empty
    requires ColumnHeight(g, col, k)
    ensures forall i :: 0 <= i < n ==> DropRows(g, col, p, n)[i] == if i < k then k - 1 - i else -1
    decreases n
  {
    if n > 0 {
      var h := Drop(g, col, p);
      if k > 0 {
        assert g[k - 1][col] == Empty;
        assert LandingRow(g, col) == k - 1;
        assert ColumnHeight(h, col, k - 1);
        DropsStackUp(h, col, p, k - 1, n - 1);
      } else {
        assert h == g;
        DropsStackUp(h, col, p, k, n - 1);
      }
    }
  }

  /** Six drops into an empty column fill rows 5, 4, ..., 0 in that order and
      a seventh is refused with -1. */
  lemma SixDropsFillColumn(g: Grid, col: int, p: int)
    requires WellFormed(g) && 0 <= col < Cols && p != Empty
    requires forall r :: 0 <= r < Rows ==> g[r][col] == Empty
    ensures DropRows(g, col, p, Rows + 1) == [5, 4, 3, 2, 1, 0, -1]
  {
    assert ColumnHeight(g, col, Rows);
    DropsStackUp(g, col, p, Rows, Rows + 1);
    var rows := DropRows(g, col, p, Rows + 1);
    assert rows[0] == 5 && rows[1] == 4 && rows[2] == 3 && rows[3] == 2 && rows[4] == 1 && rows[5] == 0 && rows[6] == -1;
  }
}
