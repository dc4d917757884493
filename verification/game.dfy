/**
 * The bookkeeping the game loop does after each accepted move: the mover's
 * win is checked before a full board, and only when neither ends the game
 * does the turn pass to the other mark.
 */
module Game {
  import opened Board

  /** How the game stands after a move. */
  datatype Outcome = Won(winner: char) | Drawn | NextTurn(player: char)

  /** The other mark: 'o' after 'x', 'x' after anything else. */
  function Opponent(current: char): char {
    if current == 'x' then 'o' else 'x'
  }

  /**
   * The outcome after `current` has placed a mark and the board became `g`:
   * a win for `current` if it owns a line, otherwise a draw if no cell is
   * free, otherwise the other mark moves next.
   */
  function AfterMove(g: Grid, current: char): (o: Outcome)
    ensures o == Won(current) <==> HasThreeInARow(g, current)
    ensures o == Drawn <==> !HasThreeInARow(g, current) && FreeCount(g) == 0
    ensures o.NextTurn? <==> !HasThreeInARow(g, current) && FreeCount(g) > 0
    ensures o.NextTurn? ==> o.player == Opponent(current)
  {
    CheckForWinIffThreeInARow(g, current);
    DrawIffNoFreeCell(g);
    if CheckForWin(g, current) then Won(current)
    else if CheckForDraw(g) then Drawn
    else NextTurn(Opponent(current))
  }
}
