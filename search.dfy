/** The game-tree search: the unpruned minimax of agents.py (the reference),
    the fail-soft alpha-beta search of agents/minimax_agent.py, and the root
    choice both agents make.  The search runs on board values; the methods
    that run it on the mutable board are in MinimaxAgent and Agents. */
module Search {
  import opened Scores
  import opened Board
  import opened Lines
  import Evaluation

  /** The static evaluator called at the leaves. */
  datatype Evaluator =
    | Windows  // evaluate_board of agents/minimax_agent.py
    | WinLoss  // evaluate_board of agents.py

  /** Both root selectors search each child to depth 3. */
  const SearchDepth: nat := 3

  /** agents.py's evaluate_board: 100 for a four of player, else -100 for a
      four of the opponent, else 0. */
  ghost function WinLossScore(g: Grid, player: int): int
    requires WellFormed(g)
  {
    if HasFour(g, player) then 100 else if HasFour(g, Opponent(player)) then -100 else 0
  }

  /** A static evaluator as a function of the board; it is only applied to
      well-formed boards. */
  type Leaf = Grid -> int

  /** The leaf score of each evaluator, for the given player. */
  ghost function Static(ev: Evaluator, player: int): Leaf {
    match ev
    case Windows => g => if WellFormed(g) then Evaluation.BoardScore(g, player) else 0
    case WinLoss => g => if WellFormed(g) then WinLossScore(g, player) else 0
  }

  /** The search stops at depth 0 or once either player has four in a row. */
  ghost predicate Terminal(g: Grid, depth: nat)
    requires WellFormed(g)
  {
    depth == 0 || HasFour(g, 1) || HasFour(g, 2)
  }

  /** The maximizer drops player's piece, the minimizer the opponent's. */
  function Mover(maximizing: bool, player: int): int {
    if maximizing then player else Opponent(player)
  }

  /** The unpruned minimax value (agents.py minimax, with either evaluator). */
  ghost function Minimax(leaf: Leaf, g: Grid, depth: nat, maximizing: bool, player: int): Score
    requires WellFormed(g)
    decreases depth, Cols + 1
  {
    if Terminal(g, depth) then Fin(leaf(g))
    else MinimaxFrom(leaf, g, depth, maximizing, player, 0, if maximizing then NegInf else PosInf)
  }

  /** The value of the child reached by dropping the mover's piece in col. */
  ghost function Child(leaf: Leaf, g: Grid, depth: nat, maximizing: bool, player: int, col: int): Score
    requires WellFormed(g) && depth > 0
    decreases depth, 0
  {
    Minimax(leaf, Drop(g, col, Mover(maximizing, player)), depth - 1, !maximizing, player)
  }

  /** The unpruned loop over columns col..6 with running max (or min) acc. */
  ghost function MinimaxFrom(leaf: Leaf, g: Grid, depth: nat, maximizing: bool, player: int, col: int, acc: Score): Score
    requires WellFormed(g) && depth > 0 && 0 <= col <= Cols
    decreases depth, Cols - col
  {
    if col == Cols then acc
    else if !ValidMove(g, col) then MinimaxFrom(leaf, g, depth, maximizing, player, col + 1, acc)
    else
      var e := Child(leaf, g, depth, maximizing, player, col);
      MinimaxFrom(leaf, g, depth, maximizing, player, col + 1, if maximizing then Max(acc, e) else Min(acc, e))
  }

  /** The unpruned loop's result is at least (at most) acc and every valid
      child's value from col on, and it is acc or one of those values. */
  lemma {:induction false} MinimaxFromIsExtreme(leaf: Leaf, g: Grid, depth: nat, maximizing: bool, player: int, col: int, acc: Score)
    requires WellFormed(g) && depth > 0 && 0 <= col <= Cols
    ensures var v := MinimaxFrom(leaf, g, depth, maximizing, player, col, acc);
      if maximizing then Le(acc, v) else Le(v, acc)
    ensures var v := MinimaxFrom(leaf, g, depth, maximizing, player, col, acc);
      forall c :: col <= c < Cols && ValidMove(g, c) ==>
        if maximizing then Le(Child(leaf, g, depth, maximizing, player, c), v) else Le(v, Child(leaf, g, depth, maximizing, player, c))
    ensures var v := MinimaxFrom(leaf, g, depth, maximizing, player, col, acc);
      v == acc || exists c :: col <= c < Cols && ValidMove(g, c) && v == Child(leaf, g, depth, maximizing, player, c)
    decreases Cols - col
  {
    if col < Cols {
      if !ValidMove(g, col) {
        MinimaxFromIsExtreme(leaf, g, depth, maximizing, player, col + 1, acc);
      } else {
        var e := Child(leaf, g, depth, maximizing, player, col);
        var acc' := if maximizing then Max(acc, e) else Min(acc, e);
        var v := MinimaxFrom(leaf, g, depth, maximizing, player, col + 1, acc');
        MinimaxFromIsExtreme(leaf, g, depth, maximizing, player, col + 1, acc');
        LeTotalOrder(acc, acc', v);
        LeTotalOrder(e, acc', v);
        LeTotalOrder(v, acc', acc);
        LeTotalOrder(v, acc', e);
      }
    }
  }

  /** A non-terminal node takes the greatest (maximizer) or least (minimizer)
      value among the children of its valid columns, and -inf (+inf) when it
      has no valid column. */
  lemma MinimaxIsBestChild(leaf: Leaf, g: Grid, depth: nat, maximizing: bool, player: int)
    requires WellFormed(g) && !Terminal(g, depth)
    ensures var v := Minimax(leaf, g, depth, maximizing, player);
      forall c :: ValidMove(g, c) ==>
        if maximizing then Le(Child(leaf, g, depth, maximizing, player, c), v) else Le(v, Child(leaf, g, depth, maximizing, player, c))
    ensures var v := Minimax(leaf, g, depth, maximizing, player);
      (exists c :: ValidMove(g, c) && v == Child(leaf, g, depth, maximizing, player, c)) ||
      v == (if maximizing then NegInf else PosInf)
    ensures (forall c :: !ValidMove(g, c)) ==> Minimax(leaf, g, depth, maximizing, player) == (if maximizing then NegInf else PosInf)
  {
    MinimaxFromIsExtreme(leaf, g, depth, maximizing, player, 0, if maximizing then NegInf else PosInf);
  }

  /** minimax of agents/minimax_agent.py on board values: the same tree, with
      the window (alpha, beta) narrowed after every child and the loop left
      once beta <= alpha. */
  ghost function AlphaBeta(leaf: Leaf, g: Grid, depth: nat, alpha: Score, beta: Score, maximizing: bool, player: int): Score
    requires WellFormed(g)
    decreases depth, Cols + 1
  {
    if Terminal(g, depth) then Fin(leaf(g))
    else AlphaBetaFrom(leaf, g, depth, alpha, beta, maximizing, player, 0, if maximizing then NegInf else PosInf)
  }

  ghost function AlphaBetaFrom(leaf: Leaf, g: Grid, depth: nat, alpha: Score, beta: Score, maximizing: bool, player: int, col: int, best: Score): Score
    requires WellFormed(g) && depth > 0 && 0 <= col <= Cols
    decreases depth, Cols - col
  {
    if col == Cols then best
    else if !ValidMove(g, col) then AlphaBetaFrom(leaf, g, depth, alpha, beta, maximizing, player, col + 1, best)
    else
      var e := AlphaBeta(leaf, Drop(g, col, Mover(maximizing, player)), depth - 1, alpha, beta, !maximizing, player);
      if maximizing then
        var alpha' := Max(alpha, e);
        if Le(beta, alpha') then Max(best, e) else AlphaBetaFrom(leaf, g, depth, alpha', beta, true, player, col + 1, Max(best, e))
      else
        var beta' := Min(beta, e);
        if Le(beta', alpha) then Min(best, e) else AlphaBetaFrom(leaf, g, depth, alpha, beta', false, player, col + 1, Min(best, e))
  }

  /** Fail-soft: r is v when v lies strictly inside (alpha, beta), and
      otherwise a bound on the same side of the window as v. */
  ghost predicate FailSoft(v: Score, r: Score, alpha: Score, beta: Score) {
    (Le(v, alpha) ==> Le(v, r) && Le(r, alpha)) &&
    (Lt(alpha, v) && Lt(v, beta) ==> r == v) &&
    (Le(beta, v) ==> Le(beta, r) && Le(r, v))
  }

  /** Pruning is fail-soft with respect to the unpruned search with the same
      evaluator. */
  lemma {:induction false} AlphaBetaFailSoft(leaf: Leaf, g: Grid, depth: nat, alpha: Score, beta: Score, maximizing: bool, player: int)
    requires WellFormed(g) && Lt(alpha, beta)
    ensures FailSoft(Minimax(leaf, g, depth, maximizing, player), AlphaBeta(leaf, g, depth, alpha, beta, maximizing, player), alpha, beta)
    decreases depth, Cols + 1, 0
  {
    if !Terminal(g, depth) {
      if maximizing {
        MaxLoopFailSoft(leaf, g, depth, alpha, beta, player, 0, alpha, NegInf, NegInf);
      } else {
        MinLoopFailSoft(leaf, g, depth, alpha, beta, player, 0, beta, PosInf, PosInf);
      }
    }
  }

  /** The invariant of the maximizer's loop: a is the current alpha, best
      the pruned running maximum and acc the unpruned one, with
      acc <= best <= a = max(alpha, acc) < beta. */
  ghost predicate MaxInvariant(alpha: Score, beta: Score, a: Score, best: Score, acc: Score) {
    Lt(a, beta) && Le(acc, best) && Le(best, a) && a == Max(alpha, acc)
  }

  /** The invariant of the minimizer's loop: b is the current beta, with
      alpha < b = min(beta, acc) <= best <= acc. */
  ghost predicate MinInvariant(alpha: Score, beta: Score, b: Score, best: Score, acc: Score) {
    Lt(alpha, b) && Le(best, acc) && Le(b, best) && b == Min(beta, acc)
  }

  /** One step of the maximizer's loop on scores alone: e is the child's
      unpruned value and e' its fail-soft value in the window (a, beta).  The
      loop is cut exactly when e >= beta, and otherwise keeps its invariant. */
  lemma MaxStep(alpha: Score, beta: Score, a: Score, best: Score, acc: Score, e: Score, e': Score)
    requires MaxInvariant(alpha, beta, a, best, acc)
    requires FailSoft(e, e', a, beta)
    ensures Le(beta, Max(a, e')) <==> Le(beta, e)
    ensures Lt(e, beta) ==> MaxInvariant(alpha, beta, Max(a, e'), Max(best, e'), Max(acc, e))
  {
    LeTotalOrder(alpha, acc, best);
    LeTotalOrder(acc, best, a);
    LeTotalOrder(e, e', a);
    LeTotalOrder(a, e, beta);
    LeTotalOrder(e', beta, e);
    LeTotalOrder(alpha, acc, e);
  }

  /** After a cut the pruned result max(best, e') is a fail-high bound on any
      value v at least max(acc, e). */
  lemma MaxCut(alpha: Score, beta: Score, a: Score, best: Score, acc: Score, e: Score, e': Score, v: Score)
    requires MaxInvariant(alpha, beta, a, best, acc)
    requires FailSoft(e, e', a, beta) && Le(beta, e) && Le(Max(acc, e), v)
    ensures FailSoft(v, Max(best, e'), alpha, beta)
  {
    LeTotalOrder(alpha, a, beta);
    LeTotalOrder(beta, e, v);
    LeTotalOrder(e, Max(acc, e), v);
    LeTotalOrder(best, a, e);
    LeTotalOrder(e', e, v);
    LeTotalOrder(beta, e', Max(best, e'));
    LeTotalOrder(alpha, beta, v);
  }

  /** When the maximizer's loop runs to the end, its result is fail-soft. */
  lemma MaxEnd(alpha: Score, beta: Score, a: Score, best: Score, acc: Score)
    requires MaxInvariant(alpha, beta, a, best, acc)
    ensures FailSoft(acc, best, alpha, beta)
  {
    LeTotalOrder(alpha, acc, best);
    LeTotalOrder(acc, best, a);
    LeTotalOrder(acc, a, beta);
  }

  /** The minimizer's step, the mirror image of MaxStep: the loop is cut
      exactly when e <= alpha, and otherwise keeps its invariant. */
  lemma MinStep(alpha: Score, beta: Score, b: Score, best: Score, acc: Score, e: Score, e': Score)
    requires MinInvariant(alpha, beta, b, best, acc)
    requires FailSoft(e, e', alpha, b)
    ensures Le(Min(b, e'), alpha) <==> Le(e, alpha)
    ensures Lt(alpha, e) ==> MinInvariant(alpha, beta, Min(b, e'), Min(best, e'), Min(acc, e))
  {
    LeTotalOrder(beta, acc, best);
    LeTotalOrder(b, best, acc);
    LeTotalOrder(e, e', b);
    LeTotalOrder(alpha, e, b);
    LeTotalOrder(e', alpha, e);
    LeTotalOrder(beta, acc, e);
  }

  lemma MinCut(alpha: Score, beta: Score, b: Score, best: Score, acc: Score, e: Score, e': Score, v: Score)
    requires MinInvariant(alpha, beta, b, best, acc)
    requires FailSoft(e, e', alpha, b) && Le(e, alpha) && Le(v, Min(acc, e))
    ensures FailSoft(v, Min(best, e'), alpha, beta)
  {
    LeTotalOrder(alpha, b, beta);
    LeTotalOrder(v, e, alpha);
    LeTotalOrder(v, Min(acc, e), e);
    LeTotalOrder(e, b, best);
    LeTotalOrder(v, e, e');
    LeTotalOrder(Min(best, e'), e', alpha);
    LeTotalOrder(v, alpha, beta);
  }

  lemma MinEnd(alpha: Score, beta: Score, b: Score, best: Score, acc: Score)
    requires MinInvariant(alpha, beta, b, best, acc)
    ensures FailSoft(acc, best, alpha, beta)
  {
    LeTotalOrder(beta, acc, best);
    LeTotalOrder(b, best, acc);
    LeTotalOrder(alpha, b, acc);
  }

  /** One unfolding of the pruned maximizer's loop at a valid column. */
  lemma AlphaBetaMaxColumn(leaf: Leaf, g: Grid, depth: nat, a: Score, beta: Score, player: int, col: int, best: Score, e': Score)
    requires WellFormed(g) && depth > 0 && 0 <= col < Cols && ValidMove(g, col)
    requires e' == AlphaBeta(leaf, Drop(g, col, Mover(true, player)), depth - 1, a, beta, false, player)
    ensures AlphaBetaFrom(leaf, g, depth, a, beta, true, player, col, best) ==
      if Le(beta, Max(a, e')) then Max(best, e') else AlphaBetaFrom(leaf, g, depth, Max(a, e'), beta, true, player, col + 1, Max(best, e'))
  {
  }

  /** One unfolding of the pruned minimizer's loop at a valid column. */
  lemma AlphaBetaMinColumn(leaf: Leaf, g: Grid, depth: nat, alpha: Score, b: Score, player: int, col: int, best: Score, e': Score)
    requires WellFormed(g) && depth > 0 && 0 <= col < Cols && ValidMove(g, col)
    requires e' == AlphaBeta(leaf, Drop(g, col, Mover(false, player)), depth - 1, alpha, b, true, player)
    ensures AlphaBetaFrom(leaf, g, depth, alpha, b, false, player, col, best) ==
      if Le(Min(b, e'), alpha) then Min(best, e') else AlphaBetaFrom(leaf, g, depth, alpha, Min(b, e'), false, player, col + 1, Min(best, e'))
  {
  }

  /** The pruned loop passes over a column that is not a valid move. */
  lemma AlphaBetaSkipColumn(leaf: Leaf, g: Grid, depth: nat, alpha: Score, beta: Score, maximizing: bool, player: int, col: int, best: Score)
    requires WellFormed(g) && depth > 0 && 0 <= col < Cols && !ValidMove(g, col)
    ensures AlphaBetaFrom(leaf, g, depth, alpha, beta, maximizing, player, col, best) ==
      AlphaBetaFrom(leaf, g, depth, alpha, beta, maximizing, player, col + 1, best)
  {
  }

  /** One unfolding of the unpruned loop at a valid column. */
  lemma MinimaxColumn(leaf: Leaf, g: Grid, depth: nat, maximizing: bool, player: int, col: int, acc: Score, e: Score)
    requires WellFormed(g) && depth > 0 && 0 <= col < Cols && ValidMove(g, col)
    requires e == Minimax(leaf, Drop(g, col, Mover(maximizing, player)), depth - 1, !maximizing, player)
    ensures MinimaxFrom(leaf, g, depth, maximizing, player, col, acc) ==
      MinimaxFrom(leaf, g, depth, maximizing, player, col + 1, if maximizing then Max(acc, e) else Min(acc, e))
  {
  }

  /** The maximizer's loop over columns col..6 is fail-soft, given its
      invariant on entry. */
  lemma {:induction false} MaxLoopFailSoft(leaf: Leaf, g: Grid, depth: nat, alpha: Score, beta: Score, player: int, col: int, a: Score, best: Score, acc: Score)
    requires WellFormed(g) && depth > 0 && 0 <= col <= Cols
    requires MaxInvariant(alpha, beta, a, best, acc)
    ensures FailSoft(MinimaxFrom(leaf, g, depth, true, player, col, acc), AlphaBetaFrom(leaf, g, depth, a, beta, true, player, col, best), alpha, beta)
    decreases depth, Cols - col, 1
  {
    if col == Cols {
      MaxEnd(alpha, beta, a, best, acc);
    } else if !ValidMove(g, col) {
      MaxLoopFailSoft(leaf, g, depth, alpha, beta, player, col + 1, a, best, acc);
    } else if Le(beta, Minimax(leaf, Drop(g, col, Mover(true, player)), depth - 1, false, player)) {
      MaxColumnCut(leaf, g, depth, alpha, beta, player, col, a, best, acc);
    } else {
      MaxColumnOn(leaf, g, depth, alpha, beta, player, col, a, best, acc);
    }
  }

  /** A child value e >= beta cuts the maximizer's loop with a fail-high
      result. */
  lemma {:induction false} MaxColumnCut(leaf: Leaf, g: Grid, depth: nat, alpha: Score, beta: Score, player: int, col: int, a: Score, best: Score, acc: Score)
    requires WellFormed(g) && depth > 0 && 0 <= col < Cols && ValidMove(g, col)
    requires MaxInvariant(alpha, beta, a, best, acc)
    requires Le(beta, Minimax(leaf, Drop(g, col, Mover(true, player)), depth - 1, false, player))
    ensures FailSoft(MinimaxFrom(leaf, g, depth, true, player, col, acc), AlphaBetaFrom(leaf, g, depth, a, beta, true, player, col, best), alpha, beta)
    decreases depth, Cols - col, 0
  {
    var e := Minimax(leaf, Drop(g, col, Mover(true, player)), depth - 1, false, player);
    var e' := AlphaBeta(leaf, Drop(g, col, Mover(true, player)), depth - 1, a, beta, false, player);
    AlphaBetaFailSoft(leaf, Drop(g, col, Mover(true, player)), depth - 1, a, beta, false, player);
    MaxStep(alpha, beta, a, best, acc, e, e');
    AlphaBetaMaxColumn(leaf, g, depth, a, beta, player, col, best, e');
    MinimaxColumn(leaf, g, depth, true, player, col, acc, e);
    MinimaxFromIsExtreme(leaf, g, depth, true, player, col + 1, Max(acc, e));
    MaxCut(alpha, beta, a, best, acc, e, e', MinimaxFrom(leaf, g, depth, true, player, col + 1, Max(acc, e)));
  }

  /** Below beta the maximizer's loop goes on to the next column with the
      narrowed window, and the fail-soft relation there carries back. */
  lemma {:induction false} MaxColumnOn(leaf: Leaf, g: Grid, depth: nat, alpha: Score, beta: Score, player: int, col: int, a: Score, best: Score, acc: Score)
    requires WellFormed(g) && depth > 0 && 0 <= col < Cols && ValidMove(g, col)
    requires MaxInvariant(alpha, beta, a, best, acc)
    requires Lt(Minimax(leaf, Drop(g, col, Mover(true, player)), depth - 1, false, player), beta)
    ensures FailSoft(MinimaxFrom(leaf, g, depth, true, player, col, acc), AlphaBetaFrom(leaf, g, depth, a, beta, true, player, col, best), alpha, beta)
    decreases depth, Cols - col, 0
  {
    var e := Minimax(leaf, Drop(g, col, Mover(true, player)), depth - 1, false, player);
    var e' := AlphaBeta(leaf, Drop(g, col, Mover(true, player)), depth - 1, a, beta, false, player);
    AlphaBetaFailSoft(leaf, Drop(g, col, Mover(true, player)), depth - 1, a, beta, false, player);
    MaxStep(alpha, beta, a, best, acc, e, e');
    MaxLoopFailSoft(leaf, g, depth, alpha, beta, player, col + 1, Max(a, e'), Max(best, e'), Max(acc, e));
    AlphaBetaMaxColumn(leaf, g, depth, a, beta, player, col, best, e');
    MinimaxColumn(leaf, g, depth, true, player, col, acc, e);
  }

  /** The minimizer's loop, the mirror image of MaxLoopFailSoft. */
  lemma {:induction false} MinLoopFailSoft(leaf: Leaf, g: Grid, depth: nat, alpha: Score, beta: Score, player: int, col: int, b: Score, best: Score, acc: Score)
    requires WellFormed(g) && depth > 0 && 0 <= col <= Cols
    requires MinInvariant(alpha, beta, b, best, acc)
    ensures FailSoft(MinimaxFrom(leaf, g, depth, false, player, col, acc), AlphaBetaFrom(leaf, g, depth, alpha, b, false, player, col, best), alpha, beta)
    decreases depth, Cols - col, 1
  {
    if col == Cols {
      MinEnd(alpha, beta, b, best, acc);
    } else if !ValidMove(g, col) {
      MinLoopFailSoft(leaf, g, depth, alpha, beta, player, col + 1, b, best, acc);
    } else if Le(Minimax(leaf, Drop(g, col, Mover(false, player)), depth - 1, true, player), alpha) {
      MinColumnCut(leaf, g, depth, alpha, beta, player, col, b, best, acc);
    } else {
      MinColumnOn(leaf, g, depth, alpha, beta, player, col, b, best, acc);
    }
  }

  /** A child value e <= alpha cuts the minimizer's loop with a fail-low
      result. */
  lemma {:induction false} MinColumnCut(leaf: Leaf, g: Grid, depth: nat, alpha: Score, beta: Score, player: int, col: int, b: Score, best: Score, acc: Score)
    requires WellFormed(g) && depth > 0 && 0 <= col < Cols && ValidMove(g, col)
    requires MinInvariant(alpha, beta, b, best, acc)
    requires Le(Minimax(leaf, Drop(g, col, Mover(false, player)), depth - 1, true, player), alpha)
    ensures FailSoft(MinimaxFrom(leaf, g, depth, false, player, col, acc), AlphaBetaFrom(leaf, g, depth, alpha, b, false, player, col, best), alpha, beta)
    decreases depth, Cols - col, 0
  {
    var e := Minimax(leaf, Drop(g, col, Mover(false, player)), depth - 1, true, player);
    var e' := AlphaBeta(leaf, Drop(g, col, Mover(false, player)), depth - 1, alpha, b, true, player);
    AlphaBetaFailSoft(leaf, Drop(g, col, Mover(false, player)), depth - 1, alpha, b, true, player);
    MinStep(alpha, beta, b, best, acc, e, e');
    AlphaBetaMinColumn(leaf, g, depth, alpha, b, player, col, best, e');
    MinimaxColumn(leaf, g, depth, false, player, col, acc, e);
    MinimaxFromIsExtreme(leaf, g, depth, false, player, col + 1, Min(acc, e));
    MinCut(alpha, beta, b, best, acc, e, e', MinimaxFrom(leaf, g, depth, false, player, col + 1, Min(acc, e)));
  }

  /** Above alpha the minimizer's loop goes on to the next column. */
  lemma {:induction false} MinColumnOn(leaf: Leaf, g: Grid, depth: nat, alpha: Score, beta: Score, player: int, col: int, b: Score, best: Score, acc: Score)
    requires WellFormed(g) && depth > 0 && 0 <= col < Cols && ValidMove(g, col)
    requires MinInvariant(alpha, beta, b, best, acc)
    requires Lt(alpha, Minimax(leaf, Drop(g, col, Mover(false, player)), depth - 1, true, player))
    ensures FailSoft(MinimaxFrom(leaf, g, depth, false, player, col, acc), AlphaBetaFrom(leaf, g, depth, alpha, b, false, player, col, best), alpha, beta)
    decreases depth, Cols - col, 0
  {
    var e := Minimax(leaf, Drop(g, col, Mover(false, player)), depth - 1, true, player);
    var e' := AlphaBeta(leaf, Drop(g, col, Mover(false, player)), depth - 1, alpha, b, true, player);
    AlphaBetaFailSoft(leaf, Drop(g, col, Mover(false, player)), depth - 1, alpha, b, true, player);
    MinStep(alpha, beta, b, best, acc, e, e');
    MinLoopFailSoft(leaf, g, depth, alpha, beta, player, col + 1, Min(b, e'), Min(best, e'), Min(acc, e));
    AlphaBetaMinColumn(leaf, g, depth, alpha, b, player, col, best, e');
    MinimaxColumn(leaf, g, depth, false, player, col, acc, e);
  }

  /** With the full window (-inf, +inf) pruning changes nothing. */
  lemma FullWindowIsExact(leaf: Leaf, g: Grid, depth: nat, maximizing: bool, player: int)
    requires WellFormed(g)
    ensures AlphaBeta(leaf, g, depth, NegInf, PosInf, maximizing, player) == Minimax(leaf, g, depth, maximizing, player)
  {
    AlphaBetaFailSoft(leaf, g, depth, NegInf, PosInf, maximizing, player);
  }

  /** The score a root selector gives column col: the minimizer's value of
      the board after player's drop, searched to depth 3. */
  ghost function RootValue(leaf: Leaf, g: Grid, player: int, col: int): Score
    requires WellFormed(g)
  {
    Minimax(leaf, Drop(g, col, player), SearchDepth, false, player)
  }

  /** The score of a choice so far: -inf before any column is taken. */
  ghost function ChoiceScore(leaf: Leaf, g: Grid, player: int, choice: Option<int>): Score
    requires WellFormed(g)
  {
    if choice.Some? then RootValue(leaf, g, player, choice.value) else NegInf
  }

  /** What minimax_agent's loop has chosen among the columns below n: None
      while every valid one scored -inf; otherwise a valid column with a
      score above -inf that no valid column below n beats, every valid
      column before it scoring strictly less. */
  ghost predicate LeftmostBestBefore(leaf: Leaf, g: Grid, player: int, n: int, choice: Option<int>)
    requires WellFormed(g)
  {
    match choice
    case None => forall c :: 0 <= c < n && ValidMove(g, c) ==> RootValue(leaf, g, player, c) == NegInf
    case Some(b) =>
      0 <= b < n && ValidMove(g, b) && RootValue(leaf, g, player, b) != NegInf &&
      (forall c :: 0 <= c < n && ValidMove(g, c) ==> Le(RootValue(leaf, g, player, c), RootValue(leaf, g, player, b))) &&
      (forall c :: 0 <= c < b && ValidMove(g, c) ==> Lt(RootValue(leaf, g, player, c), RootValue(leaf, g, player, b)))
  }

  /** The choice of minimax_agent: None when every valid column scores -inf
      (in particular on a full board); otherwise a valid column with the
      greatest score, every valid column before it scoring strictly less. */
  ghost predicate IsLeftmostBest(leaf: Leaf, g: Grid, player: int, choice: Option<int>)
    requires WellFormed(g)
  {
    LeftmostBestBefore(leaf, g, player, Cols, choice)
  }

  /** One round of minimax_agent's loop: column n, when valid, replaces the
      choice exactly when its score is strictly greater. */
  lemma LeftmostBestStep(leaf: Leaf, g: Grid, player: int, n: int, choice: Option<int>, score: Score)
    requires WellFormed(g) && 0 <= n < Cols && LeftmostBestBefore(leaf, g, player, n, choice)
    requires ValidMove(g, n) ==> score == RootValue(leaf, g, player, n)
    ensures LeftmostBestBefore(leaf, g, player, n + 1,
      if ValidMove(g, n) && Lt(ChoiceScore(leaf, g, player, choice), score) then Some(n) else choice)
  {
    var best := ChoiceScore(leaf, g, player, choice);
    if ValidMove(g, n) && Lt(best, score) {
      forall c | 0 <= c < n && ValidMove(g, c)
        ensures Lt(RootValue(leaf, g, player, c), score)
      {
        LeTotalOrder(RootValue(leaf, g, player, c), best, score);
      }
    } else if ValidMove(g, n) {
      LeTotalOrder(score, best, best);
    }
  }

  /** What the corrected loop has chosen among the columns below n: None
      while no column below n was valid; otherwise the leftmost valid column
      below n with the greatest score. */
  ghost predicate LeftmostMaxBefore(leaf: Leaf, g: Grid, player: int, n: int, choice: Option<int>)
    requires WellFormed(g)
  {
    match choice
    case None => forall c :: 0 <= c < n ==> !ValidMove(g, c)
    case Some(b) =>
      0 <= b < n && ValidMove(g, b) &&
      (forall c :: 0 <= c < n && ValidMove(g, c) ==> Le(RootValue(leaf, g, player, c), RootValue(leaf, g, player, b))) &&
      (forall c :: 0 <= c < b && ValidMove(g, c) ==> Lt(RootValue(leaf, g, player, c), RootValue(leaf, g, player, b)))
  }

  /** The intended choice of a root selector: None exactly when no column is
      valid; otherwise the leftmost valid column with the greatest score,
      whatever that score is. */
  ghost predicate IsLeftmostMax(leaf: Leaf, g: Grid, player: int, choice: Option<int>)
    requires WellFormed(g)
  {
    LeftmostMaxBefore(leaf, g, player, Cols, choice)
  }

  /** One round of the corrected loop: the first valid column is always
      taken, and a later one when its score is strictly greater. */
  lemma LeftmostMaxStep(leaf: Leaf, g: Grid, player: int, n: int, choice: Option<int>, score: Score)
    requires WellFormed(g) && 0 <= n < Cols && LeftmostMaxBefore(leaf, g, player, n, choice)
    requires ValidMove(g, n) ==> score == RootValue(leaf, g, player, n)
    ensures LeftmostMaxBefore(leaf, g, player, n + 1,
      if ValidMove(g, n) && (choice.None? || Lt(ChoiceScore(leaf, g, player, choice), score)) then Some(n) else choice)
  {
    var best := ChoiceScore(leaf, g, player, choice);
    if ValidMove(g, n) && choice.Some? && Lt(best, score) {
      forall c | 0 <= c < n && ValidMove(g, c)
        ensures Lt(RootValue(leaf, g, player, c), score)
      {
        LeTotalOrder(RootValue(leaf, g, player, c), best, score);
      }
    } else if ValidMove(g, n) && choice.Some? {
      LeTotalOrder(score, best, best);
    } else if ValidMove(g, n) {
      LeTotalOrder(score, score, score);
    }
  }

  /** A drawn position: every cell holds 2 - ((c / 2 + r) % 2), except the top
      k cells of column 0, which are empty.  With k = 2 there are 20 pieces of
      each player, so it is player 1's turn; with k = 0 the board is full. */
  function DrawnCell(k: int, r: int, c: int): int {
    if c == 0 && r < k then Empty else 2 - ((c / 2 + r) % 2)
  }

  function DrawnBoard(k: int): (g: Grid)
    ensures WellFormed(g)
    ensures forall r, c :: InBoard(r, c) ==> g[r][c] == DrawnCell(k, r, c)
  {
    seq(Rows, r => seq(Cols, c => DrawnCell(k, r, c)))
  }

  /** Off the empty cells, stepping one colour pair sideways or one row
      flips the colour. */
  lemma DrawnCellFlips(k: int, r: int, c: int, r': int, c': int)
    requires 0 <= k <= 2 && (1 <= c || 2 <= r) && (1 <= c' || 2 <= r')
    requires (c' / 2 + r') == (c / 2 + r) + 1 || (c' / 2 + r') == (c / 2 + r) - 1
    ensures DrawnCell(k, r, c) != DrawnCell(k, r', c')
  {
  }

  /** Among the last three cells of any line of four on a drawn board two
      neighbours differ. */
  lemma DrawnLineIsMixed(k: int, d: Direction, r: int, c: int)
    requires 0 <= k <= 2 && Fits(d, r, c, 4)
    ensures DrawnCell(k, RowOf(d, r, 1), ColOf(d, c, 1)) != DrawnCell(k, RowOf(d, r, 2), ColOf(d, c, 2)) ||
      DrawnCell(k, RowOf(d, r, 2), ColOf(d, c, 2)) != DrawnCell(k, RowOf(d, r, 3), ColOf(d, c, 3))
  {
    match d
    case Horizontal =>
      if c % 2 == 0 {
        DrawnCellFlips(k, r, c + 1, r, c + 2);
      } else {
        DrawnCellFlips(k, r, c + 2, r, c + 3);
      }
    case Vertical =>
      DrawnCellFlips(k, r + 2, c, r + 3, c);
    case Diagonal =>
      if c % 2 == 0 {
        DrawnCellFlips(k, r + 2, c + 2, r + 3, c + 3);
      } else {
        DrawnCellFlips(k, r + 1, c + 1, r + 2, c + 2);
      }
    case AntiDiagonal =>
      if c % 2 == 0 {
        DrawnCellFlips(k, r - 2, c + 2, r - 3, c + 3);
      } else {
        DrawnCellFlips(k, r - 1, c + 1, r - 2, c + 2);
      }
  }

  /** No player has four in a row on the drawn boards. */
  lemma DrawnBoardHasNoFour(k: int, p: int)
    requires 0 <= k <= 2
    ensures !HasFour(DrawnBoard(k), p)
  {
    var g := DrawnBoard(k);
    forall d, r, c | Fits(d, r, c, 4)
      ensures !Matches(Window(g, d, r, c, 4), Four(p))
    {
      DrawnLineIsMixed(k, d, r, c);
    }
  }

  /** The moves on the drawn boards: only column 0 is open while k > 0;
      player 1's drop turns DrawnBoard(2) into DrawnBoard(1), and the
      opponent's reply fills the board. */
  lemma DrawnBoardMoves()
    ensures ValidMove(DrawnBoard(2), 0) && ValidMove(DrawnBoard(1), 0)
    ensures forall c :: 1 <= c < Cols ==> !ValidMove(DrawnBoard(2), c) && !ValidMove(DrawnBoard(1), c)
    ensures forall c :: !ValidMove(DrawnBoard(0), c)
    ensures Drop(DrawnBoard(2), 0, 1) == DrawnBoard(1)
    ensures Drop(DrawnBoard(1), 0, 2) == DrawnBoard(0)
  {
    var g0, g1, g2 := DrawnBoard(2), DrawnBoard(1), DrawnBoard(0);
    forall c | 1 <= c < Cols
      ensures !ValidMove(g0, c) && !ValidMove(g1, c)
    {
      assert g0[0][c] != Empty && g1[0][c] != Empty;
    }
    forall c | 0 <= c < Cols
      ensures !ValidMove(g2, c)
    {
      assert g2[0][c] != Empty;
    }
    assert LandingRow(g0, 0) == 1 by {
      assert g0[5][0] != Empty && g0[4][0] != Empty && g0[3][0] != Empty && g0[2][0] != Empty;
    }
    Extensionality(Drop(g0, 0, 1), g1);
    assert LandingRow(g1, 0) == 0 by {
      assert g1[5][0] != Empty && g1[4][0] != Empty && g1[3][0] != Empty && g1[2][0] != Empty && g1[1][0] != Empty;
    }
    Extensionality(Drop(g1, 0, 2), g2);
  }

  /** The search below player 1's only move on DrawnBoard(2): the minimizer's
      only child is the full board, where the maximizer has no move and no one
      has won, so both values are -inf, whatever the leaves score. */
  lemma DrawnBoardScoresNegInf(leaf: Leaf)
    ensures Minimax(leaf, DrawnBoard(1), SearchDepth, false, 1) == NegInf
  {
    DrawnBoardMoves();
    DrawnBoardHasNoFour(1, 1);
    DrawnBoardHasNoFour(1, 2);
    DrawnBoardHasNoFour(0, 1);
    DrawnBoardHasNoFour(0, 2);
    MinimaxIsBestChild(leaf, DrawnBoard(0), SearchDepth - 1, true, 1);
    MinimaxIsBestChild(leaf, DrawnBoard(1), SearchDepth, false, 1);
    assert Child(leaf, DrawnBoard(1), SearchDepth, false, 1, 0) == NegInf;
  }

  /** Finding, as written: on DrawnBoard(2) column 0 is a valid move, yet
      its root score is -inf, the strict test never fires, and the only
      choice the selectors can make is None, whatever the leaves score. */
  lemma LeftmostBestPassesOnDrawnBoard(leaf: Leaf)
    ensures !IsFull(DrawnBoard(2)) && ValidMove(DrawnBoard(2), 0)
    ensures IsLeftmostBest(leaf, DrawnBoard(2), 1, None)
    ensures forall choice :: IsLeftmostBest(leaf, DrawnBoard(2), 1, choice) ==> choice == None
  {
    DrawnBoardMoves();
    DrawnBoardScoresNegInf(leaf);
    assert RootValue(leaf, DrawnBoard(2), 1, 0) == NegInf;
  }
}
