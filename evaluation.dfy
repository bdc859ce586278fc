/** The positional evaluator of agents/minimax_agent.py: a score for every
    4-cell window (evaluate_window) summed over all 69 windows of the board
    (evaluate_board). */
module Evaluation {
  import opened Board
  import opened Lines
  import opened BoardArray

  /** evaluate_window: the first matching row of the table 4 own: 100,
      3 own + 1 empty: 5, 2 own + 2 empty: 2, 3 opponent + 1 empty: -4,
      2 opponent + 2 empty: -2, anything else: 0. */
  function EvaluateWindow(w: seq<int>, player: int): (score: int)
    ensures -4 <= score <= 100
    ensures score == 100 <==> Count(w, player) == 4
  {
    var opp := 3 - player;
    if Count(w, player) == 4 then 100
    else if Count(w, player) == 3 && Count(w, Empty) == 1 then 5
    else if Count(w, player) == 2 && Count(w, Empty) == 2 then 2
    else if Count(w, opp) == 3 && Count(w, Empty) == 1 then -4
    else if Count(w, opp) == 2 && Count(w, Empty) == 2 then -2
    else 0
  }

  /** A 4-cell window scores 100 exactly when the player owns all four cells. */
  lemma EvaluateWindowFull(w: seq<int>, player: int)
    requires |w| == 4
    ensures EvaluateWindow(w, player) == 100 <==> forall k :: 0 <= k < 4 ==> w[k] == player
  {
    CountFull(w, player);
  }

  /** The table of a 4-cell window of 0/1/2 cells by its numbers of own and
      opponent pieces. */
  function TableScore(own: int, opp: int): int {
    if own == 4 then 100
    else if own == 3 && opp == 0 then 5
    else if own == 2 && opp == 0 then 2
    else if opp == 3 && own == 0 then -4
    else if opp == 2 && own == 0 then -2
    else 0
  }

  /** On real windows the first-match chain is the table: a window that holds
      pieces of both players, or four of the opponent's, scores 0, a positive
      score means no opponent piece and a negative one no own piece. */
  lemma {:induction false} EvaluateWindowTable(w: seq<int>, player: int)
    requires |w| == 4 && (player == 1 || player == 2)
    requires forall k :: 0 <= k < 4 ==> 0 <= w[k] <= 2
    ensures EvaluateWindow(w, player) == TableScore(Count(w, player), Count(w, Opponent(player)))
    ensures Count(w, player) > 0 && Count(w, Opponent(player)) > 0 ==> EvaluateWindow(w, player) == 0
    ensures Count(w, Opponent(player)) == 4 ==> EvaluateWindow(w, player) == 0
    ensures EvaluateWindow(w, player) > 0 ==> Count(w, Opponent(player)) == 0
    ensures EvaluateWindow(w, player) < 0 ==> Count(w, player) == 0
  {
    CountsDisjoint(w, player, Opponent(player), Empty);
  }

  /** The score of the window the loops visit at indices (i, j). */
  function WindowScore(g: Grid, player: int, d: Direction, i: int, j: int): int
    requires WellFormed(g) && Visits(d, 4, i, j)
  {
    ScanIsExact(d, 4, 0, 0, i, j);
    EvaluateWindow(Window(g, d, AnchorRow(d, i, j), AnchorCol(d, i, j), 4), player)
  }

  /** The windows (i, 0), ..., (i, j - 1) of one pass of an inner loop. */
  function RowSum(g: Grid, player: int, d: Direction, i: int, j: int): (s: int)
    requires WellFormed(g) && OuterLo(d, 4) <= i < OuterHi(d, 4) && 0 <= j <= InnerHi(d, 4)
    ensures -4 * j <= s <= 100 * j
    decreases j
  {
    if j == 0 then 0 else RowSum(g, player, d, i, j - 1) + WindowScore(g, player, d, i, j - 1)
  }

  /** The number of windows in the outer passes OuterLo, ..., i - 1. */
  function WindowsBefore(d: Direction, i: int): nat
    requires OuterLo(d, 4) <= i <= OuterHi(d, 4)
    decreases i
  {
    if i == OuterLo(d, 4) then 0 else WindowsBefore(d, i - 1) + InnerHi(d, 4)
  }

  /** The windows of the outer passes OuterLo, ..., i - 1. */
  function LinesSum(g: Grid, player: int, d: Direction, i: int): (s: int)
    requires WellFormed(g) && OuterLo(d, 4) <= i <= OuterHi(d, 4)
    ensures -4 * WindowsBefore(d, i) <= s <= 100 * WindowsBefore(d, i)
    decreases i
  {
    if i == OuterLo(d, 4) then 0 else LinesSum(g, player, d, i - 1) + RowSum(g, player, d, i - 1, InnerHi(d, 4))
  }

  /** One more outer pass adds that pass's row sum. */
  lemma LinesSumNext(g: Grid, player: int, d: Direction, i: int)
    requires WellFormed(g) && OuterLo(d, 4) <= i < OuterHi(d, 4)
    ensures LinesSum(g, player, d, i + 1) == LinesSum(g, player, d, i) + RowSum(g, player, d, i, InnerHi(d, 4))
  {
  }

  /** The sum over every window of one direction. */
  function DirectionScore(g: Grid, player: int, d: Direction): int
    requires WellFormed(g)
  {
    LinesSum(g, player, d, OuterHi(d, 4))
  }

  /** What evaluate_board computes: the four directions' sums. */
  function BoardScore(g: Grid, player: int): int
    requires WellFormed(g)
  {
    DirectionScore(g, player, Horizontal) + DirectionScore(g, player, Vertical) +
    DirectionScore(g, player, Diagonal) + DirectionScore(g, player, AntiDiagonal)
  }

  /** The board has 24 horizontal, 21 vertical and 12 + 12 diagonal windows,
      69 in all, so evaluate_board lies between -4 * 69 and 100 * 69. */
  lemma BoardScoreBounds(g: Grid, player: int)
    requires WellFormed(g)
    ensures -276 <= BoardScore(g, player) <= 6900
  {
    assert WindowsBefore(Horizontal, OuterHi(Horizontal, 4)) == 24;
    assert WindowsBefore(Vertical, OuterHi(Vertical, 4)) == 21;
    assert WindowsBefore(Diagonal, OuterHi(Diagonal, 4)) == 12;
    assert WindowsBefore(AntiDiagonal, OuterHi(AntiDiagonal, 4)) == 12;
  }

  /** evaluate_window of the window the loops visit at indices (i, j),
      read from the board. */
  method ScoreWindowAt(board: array2<int>, player: int, d: Direction, i: int, j: int) returns (ws: int)
    requires Shaped(board) && Visits(d, 4, i, j)
    ensures ws == WindowScore(Cells(board), player, d, i, j)
  {
    ScanIsExact(d, 4, 0, 0, i, j);
    var window := ArrayWindow(board, d, AnchorRow(d, i, j), AnchorCol(d, i, j), 4);
    ws := EvaluateWindow(window, player);
  }

  /** One pass of an inner loop of evaluate_board: adds the scores of the
      windows (i, 0), ..., (i, InnerHi - 1) to the running score. */
  method AddPass(board: array2<int>, player: int, d: Direction, i: int, score0: int) returns (score: int)
    requires Shaped(board) && OuterLo(d, 4) <= i < OuterHi(d, 4)
    ensures score == score0 + RowSum(Cells(board), player, d, i, InnerHi(d, 4))
  {
    ghost var g := Cells(board);
    score := score0;
    var j := 0;
    while j < InnerHi(d, 4)
      invariant 0 <= j <= InnerHi(d, 4)
      invariant score == score0 + RowSum(g, player, d, i, j)
    {
      var ws := ScoreWindowAt(board, player, d, i, j);
      assert Cells(board) == g;
      assert RowSum(g, player, d, i, j + 1) == RowSum(g, player, d, i, j) + ws;
      score := score + ws;
      j := j + 1;
    }
  }

  /** One of evaluate_board's four loop nests, adding every window score of
      direction d to the running score. */
  method AddDirection(board: array2<int>, player: int, d: Direction, score0: int) returns (score: int)
    requires Shaped(board)
    ensures score == score0 + DirectionScore(Cells(board), player, d)
  {
    ghost var g := Cells(board);
    score := score0;
    var i := OuterLo(d, 4);
    while i < OuterHi(d, 4)
      invariant OuterLo(d, 4) <= i <= OuterHi(d, 4)
      invariant score == score0 + LinesSum(g, player, d, i)
    {
      score := AddPass(board, player, d, i, score);
      assert Cells(board) == g;
      LinesSumNext(g, player, d, i);
      i := i + 1;
    }
  }

  /** evaluate_board: the horizontal, vertical, down-right and up-right nests
      in turn, on one running score. */
  method EvaluateBoard(board: array2<int>, player: int) returns (score: int)
    requires Shaped(board)
    ensures score == BoardScore(Cells(board), player)
    ensures -276 <= score <= 6900
  {
    ghost var g := Cells(board);
    score := 0;
    score := AddDirection(board, player, Horizontal, score);
    score := AddDirection(board, player, Vertical, score);
    score := AddDirection(board, player, Diagonal, score);
    score := AddDirection(board, player, AntiDiagonal, score);
    assert Cells(board) == g;
    BoardScoreBounds(g, player);
  }
}
