/** The question the rule-based helpers ask of every column in turn: is it a
    valid move, and does the board satisfy a goal once the piece is in? */
module Moves {
  import opened Board
  import opened Lines

  /** What a trial drop is tested for: a four-in-a-row for p (check_win) or a
      setup for p (can_create_setup). */
  datatype Goal = Win(p: int) | Setup(p: int)

  ghost predicate Achieves(g: Grid, goal: Goal)
    requires WellFormed(g)
  {
    match goal
    case Win(p) => HasFour(g, p)
    case Setup(p) => HasSetup(g, p)
  }

  /** The lowest column from `from` on that is a valid move and after whose
      drop of `mover` the goal holds; None when there is no such column. */
  ghost function FirstMove(g: Grid, mover: int, goal: Goal, from: int): (r: Option<int>)
    requires WellFormed(g) && 0 <= from <= Cols
    ensures r.Some? ==> from <= r.value < Cols && ValidMove(g, r.value) && Achieves(Drop(g, r.value, mover), goal)
    ensures r.Some? ==> forall c :: from <= c < r.value && ValidMove(g, c) ==> !Achieves(Drop(g, c, mover), goal)
    ensures r.None? ==> forall c :: from <= c < Cols && ValidMove(g, c) ==> !Achieves(Drop(g, c, mover), goal)
    decreases Cols - from
  {
    if from == Cols then None
    else if ValidMove(g, from) && Achieves(Drop(g, from, mover), goal) then Some(from)
    else FirstMove(g, mover, goal, from + 1)
  }
}
