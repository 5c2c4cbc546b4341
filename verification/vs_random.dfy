/**
 * The human-versus-computer `Connect4Game` with the short-term (random)
 * agent. The human plays `'R'` and moves first; a human move that neither wins
 * nor fills the board is answered at once by the computer's `'Y'`, through the
 * recursive `make_move(-1)`.
 */
module VsRandom {
  import opened Wrappers
  import opened Board
  import BoardLemmas
  import opened Rules
  import opened Agents
  import HotSeat

  const Human: Player := R
  const Computer: Player := Y

  /**
   * The computer branch of `make_move`: the agent picks a random valid column
   * and the same judgement follows; if play goes on, the human is to move.
   * `random.choice` would raise on a full board.
   */
  function ComputerMove(s: Game, roll: nat): (s2: Game)
    requires !IsFull(s.board)
    ensures exists col :: IsValidMove(s.board, col) && s2.board == Board.MakeMove(s.board, col, Computer).1
  {
    var col := RandomMove(s.board, roll);
    if IsValidMove(s.board, col) then
      var (ok, g2) := Board.MakeMove(s.board, col, Computer);
      if ok then
        match Judge(g2, Computer)
        case Some(o) => s.(board := g2, over := true, winner := Some(o))
        case None => s.(board := g2, current := Human)
      else s
    else s
  }

  /**
   * `make_move(col)`: on the human's turn an invalid column is ignored, and a
   * valid one drops the human's piece and, if play goes on, hands over to the
   * computer's reply; on the computer's turn, the computer moves. A human line
   * ends the game at once with `'R'` as winner and no reply.
   */
  function MakeMove(s: Game, col: int, roll: nat): (s2: Game)
    requires s.current != Human ==> !IsFull(s.board)
    ensures s.current == Human && !IsValidMove(s.board, col) ==> s2 == s
    ensures s.current == Human && IsValidMove(s.board, col) ==>
      var mid := HotSeat.MakeMove(s, col);
      !mid.over ==> !IsFull(mid.board) && mid.current == Computer
    ensures s.current == Human && IsValidMove(s.board, col) ==>
      var mid := HotSeat.MakeMove(s, col);
      s2 == (if mid.over then mid else ComputerMove(mid, roll))
    ensures s.current == Human && IsValidMove(s.board, col) && HasLine(Board.MakeMove(s.board, col, Human).1, Human) ==>
      s2 == s.(board := Board.MakeMove(s.board, col, Human).1, over := true, winner := Some(Won(Human)))
    ensures s.current != Human ==> s2 == ComputerMove(s, roll)
  {
    if s.current == Human then
      if IsValidMove(s.board, col) then
        var mid := HotSeat.MakeMove(s, col);
        if mid.over then mid else ComputerMove(mid, roll)
      else s
    else ComputerMove(s, roll)
  }

  /**
   * The computer's reply keeps the invariant of an alternating game started by
   * `'R'`, adds one `'Y'` piece, and leaves the human to move unless it ended
   * the game.
   */
  lemma ComputerMoveReachable(s: Game, roll: nat)
    requires HotSeat.Reachable(s) && !s.over && s.current == Computer
    ensures var s2 := ComputerMove(s, roll);
      && HotSeat.Reachable(s2)
      && Count(s2.board, Piece(Computer)) == Count(s.board, Piece(Computer)) + 1
      && Count(s2.board, Piece(Human)) == Count(s.board, Piece(Human))
      && (!s2.over ==> s2.current == Human)
      && (s2.over ==> s2.winner == Some(Won(Computer)) || s2.winner == Some(Draw))
  {
    var col := RandomMove(s.board, roll);
    assert ComputerMove(s, roll) == HotSeat.MakeMove(s, col);
    HotSeat.MakeMoveReachable(s, col);
  }

  /**
   * A human click on the human's turn keeps the invariant; afterwards either
   * the game is over, or it is the human's turn again and the computer has
   * answered with exactly one piece. An invalid column changes nothing.
   */
  lemma MakeMoveReachable(s: Game, col: int, roll: nat)
    requires HotSeat.Reachable(s) && !s.over && s.current == Human
    ensures var s2 := MakeMove(s, col, roll);
      && HotSeat.Reachable(s2)
      && (!s2.over ==> s2.current == Human)
      && (IsValidMove(s.board, col) && !s2.over ==>
            && Count(s2.board, Piece(Human)) == Count(s.board, Piece(Human)) + 1
            && Count(s2.board, Piece(Computer)) == Count(s.board, Piece(Computer)) + 1)
  {
    if IsValidMove(s.board, col) {
      var mid := HotSeat.MakeMove(s, col);
      HotSeat.MakeMoveReachable(s, col);
      if !mid.over {
        assert MakeMove(s, col, roll) == ComputerMove(mid, roll);
        ComputerMoveReachable(mid, roll);
      } else {
        assert MakeMove(s, col, roll) == mid;
      }
    }
  }
}
