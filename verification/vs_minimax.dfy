/**
 * The human-versus-computer `Connect4Game` with the long-term (minimax)
 * agent: as with the random agent, the human plays `'R'` first and each human
 * move that does not end the game is answered at once by the computer's `'Y'`,
 * now chosen by the depth-3 alpha-beta search.
 */
module VsMinimax {
  import opened Wrappers
  import opened Board
  import BoardLemmas
  import opened Rules
  import opened Minimax
  import HotSeat

  const Human: Player := R
  const Computer: Player := Y

  /**
   * The computer branch of `make_move`: the agent's move is played if it is a
   * valid column and judged as usual. The agent answers `None` only when the
   * search starts at a cutoff; the code then fails on `is_valid_move(None)`, and
   * the model leaves the game unchanged (no reachable game gets there, see
   * `ComputerAlwaysMoves`).
   */
  function ComputerMove(s: Game): (s2: Game)
    ensures AgentMove(s.board, Computer).None? ==> s2 == s
    ensures AgentMove(s.board, Computer).Some? ==>
      s2.board == Board.MakeMove(s.board, AgentMove(s.board, Computer).value, Computer).1
  {
    match AgentMove(s.board, Computer)
    case None => s
    case Some(col) =>
      if IsValidMove(s.board, col) then
        var (ok, g2) := Board.MakeMove(s.board, col, Computer);
        if ok then
          match Judge(g2, Computer)
          case Some(o) => s.(board := g2, over := true, winner := Some(o))
          case None => s.(board := g2, current := Human)
        else s
      else s
  }

  /**
   * `make_move(col)`, with the same shape as for the random agent: a valid human
   * click is the hot-seat move, answered by the computer only if it did not end
   * the game; on the computer's turn the computer moves.
   */
  function MakeMove(s: Game, col: int): (s2: Game)
    ensures s.current == Human && !IsValidMove(s.board, col) ==> s2 == s
    ensures s.current == Human && IsValidMove(s.board, col) ==>
      var mid := HotSeat.MakeMove(s, col);
      s2 == (if mid.over then mid else ComputerMove(mid))
    ensures s.current == Human && IsValidMove(s.board, col) && HasLine(Board.MakeMove(s.board, col, Human).1, Human) ==>
      s2 == s.(board := Board.MakeMove(s.board, col, Human).1, over := true, winner := Some(Won(Human)))
    ensures s.current != Human ==> s2 == ComputerMove(s)
  {
    if s.current == Human then
      if IsValidMove(s.board, col) then
        var mid := HotSeat.MakeMove(s, col);
        if mid.over then mid else ComputerMove(mid)
      else s
    else ComputerMove(s)
  }

  /** In an unfinished game the search never starts at a cutoff, so the agent always names a valid column. */
  lemma ComputerAlwaysMoves(s: Game)
    requires HotSeat.Reachable(s) && !s.over
    ensures AgentMove(s.board, Computer).Some?
    ensures IsValidMove(s.board, AgentMove(s.board, Computer).value)
  {
  }

  /** The computer's reply keeps the invariant, adds one `'Y'` piece, and hands back to the human unless it ended the game. */
  lemma ComputerMoveReachable(s: Game)
    requires HotSeat.Reachable(s) && !s.over && s.current == Computer
    ensures var s2 := ComputerMove(s);
      && HotSeat.Reachable(s2)
      && Count(s2.board, Piece(Computer)) == Count(s.board, Piece(Computer)) + 1
      && Count(s2.board, Piece(Human)) == Count(s.board, Piece(Human))
      && (!s2.over ==> s2.current == Human)
      && (s2.over ==> s2.winner == Some(Won(Computer)) || s2.winner == Some(Draw))
  {
    ComputerAlwaysMoves(s);
    var col := AgentMove(s.board, Computer).value;
    assert ComputerMove(s) == HotSeat.MakeMove(s, col);
    HotSeat.MakeMoveReachable(s, col);
  }

  /**
   * A human click on the human's turn keeps the invariant; afterwards either
   * the game is over, or it is the human's turn again and the computer has
   * answered with exactly one piece.
   */
  lemma MakeMoveReachable(s: Game, col: int)
    requires HotSeat.Reachable(s) && !s.over && s.current == Human
    ensures var s2 := MakeMove(s, col);
      && HotSeat.Reachable(s2)
      && (!s2.over ==> s2.current == Human)
      && (IsValidMove(s.board, col) && !s2.over ==>
            && Count(s2.board, Piece(Human)) == Count(s.board, Piece(Human)) + 1
            && Count(s2.board, Piece(Computer)) == Count(s.board, Piece(Computer)) + 1)
  {
    if IsValidMove(s.board, col) {
      var mid := HotSeat.MakeMove(s, col);
      HotSeat.MakeMoveReachable(s, col);
      if !mid.over {
        assert MakeMove(s, col) == ComputerMove(mid);
        ComputerMoveReachable(mid);
      } else {
        assert MakeMove(s, col) == mid;
      }
    }
  }
}
