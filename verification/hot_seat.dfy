/**
 * The two-player `Connect4Game` of the human-versus-human script, whose
 * `make_move` the AI-versus-AI script repeats word for word: drop the current
 * player's piece into a valid column, then declare a win or a draw, or pass
 * the turn to the other colour. `'R'` moves first.
 */
module HotSeat {
  import opened Wrappers
  import opened Board
  import BoardLemmas
  import opened Rules

  /** The colour whose piece went in last: the player to move has not moved yet unless the game ended on their move. */
  function LastMover(s: Game): Player
  {
    if s.over then s.current else Other(s.current)
  }

  /** The invariant of a hot-seat game. */
  ghost predicate Reachable(s: Game)
  {
    Consistent(s, R, LastMover(s))
  }

  /** `__init__`: an empty board with `'R'` to move. */
  lemma InitReachable()
    ensures Reachable(NewGame(R))
  {
    NewGameConsistent(R, R);
  }

  /**
   * `make_move(col)`: nothing happens unless `col` is a valid move; otherwise
   * the current player's piece drops, and a line or a full board ends the game
   * with the mover as the current player, else the turn passes.
   */
  function MakeMove(s: Game, col: int): (s2: Game)
    ensures !IsValidMove(s.board, col) ==> s2 == s
    ensures IsValidMove(s.board, col) ==> s2.board == Board.MakeMove(s.board, col, s.current).1
  {
    if IsValidMove(s.board, col) then
      var (ok, g2) := Board.MakeMove(s.board, col, s.current);
      if ok then
        match Judge(g2, s.current)
        case Some(o) => s.(board := g2, over := true, winner := Some(o))
        case None => s.(board := g2, current := Other(s.current))
      else s
    else s
  }

  /**
   * A move in an unfinished game keeps the invariant, adds exactly one piece of
   * the player to move, and either ends the game with that player's line or a
   * draw, or hands the turn to the other colour.
   */
  lemma MakeMoveReachable(s: Game, col: int)
    requires Reachable(s) && !s.over
    ensures var s2 := MakeMove(s, col);
      && Reachable(s2)
      && (IsValidMove(s.board, col) ==>
            && Count(s2.board, Piece(s.current)) == Count(s.board, Piece(s.current)) + 1
            && Count(s2.board, Piece(Other(s.current))) == Count(s.board, Piece(Other(s.current)))
            && (s2.over ==> s2.current == s.current && (s2.winner == Some(Won(s.current)) || s2.winner == Some(Draw)))
            && (!s2.over ==> s2.current == Other(s.current)))
  {
    if IsValidMove(s.board, col) {
      JudgedDrop(s.board, col, s.current, R);
      BoardLemmas.MoveCounts(s.board, col, s.current);
    }
  }

  /**
   * The event loop can deliver a further click after the game has ended, and
   * `make_move` does not look at `game_over`; still, the result stands: after a
   * win the winner is still to move and keeps the line, and after a draw no
   * column is valid.
   */
  lemma LateClickKeepsResult(s: Game, col: int)
    requires Reachable(s) && s.over
    ensures MakeMove(s, col).over && MakeMove(s, col).winner == s.winner
  {
    assert Consistent(s, R, s.current);
    if s.winner != Some(Draw) {
      assert s.winner.value.Won?;
      assert s.winner.value.player == s.current;
    }
    AfterResult(s, col);
  }

  lemma AfterResult(s: Game, col: int)
    requires s.over
    requires s.winner == Some(Draw) || (s.winner == Some(Won(s.current)) && HasLine(s.board, s.current))
    requires s.winner == Some(Draw) ==> IsFull(s.board)
    ensures MakeMove(s, col).over && MakeMove(s, col).winner == s.winner
  {
    if s.winner == Some(Draw) {
      FullRefusesMoves(s.board, col);
    } else if IsValidMove(s.board, col) {
      StillWins(s.board, col, s.current);
    }
  }
}
