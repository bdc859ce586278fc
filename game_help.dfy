/** game_help.py: the block test the game loop runs before asking an agent. */
module GameHelp {
  import opened Board
  import opened Lines
  import opened Moves

  /** block_player_move: the lowest valid column in which a drop of player's
      piece (made on a copy) completes four in a row for player, or -1 when
      there is none.  The caller's board is a value here, so it cannot change. */
  ghost function BlockPlayerMove(g: Grid, player: int): (col: int)
    requires WellFormed(g)
    ensures col == -1 || (0 <= col < Cols && ValidMove(g, col) && HasFour(Drop(g, col, player), player))
    ensures col == -1 <==> forall c :: ValidMove(g, c) ==> !HasFour(Drop(g, c, player), player)
    ensures forall c :: 0 <= c < col && ValidMove(g, c) ==> !HasFour(Drop(g, c, player), player)
  {
    match FirstMove(g, player, Win(player), 0)
    case None => -1
    case Some(c) => c
  }
}
