/**
 * What the five `Connect4Game` classes share: the result of a game, the game
 * record (board, player to move, `game_over`, `winner`), and the judgement each
 * of them makes after a successful drop: the mover wins if they have a line,
 * otherwise a full board is a draw, otherwise play goes on.
 */
module Rules {
  import opened Wrappers
  import opened Board
  import BoardLemmas

  /** The `winner` attribute once set: a player's token or `'Draw'`. */
  datatype Outcome = Won(player: Player) | Draw

  datatype Game = Game(board: Grid, current: Player, over: bool, winner: Option<Outcome>)

  /** A fresh board, `first` to move, no result yet. */
  function NewGame(first: Player): (s: Game)
    ensures s.board == Blank() && s.current == first && !s.over && s.winner.None?
  {
    Game(Blank(), first, false, None)
  }

  /** The `if check_winner(p) ... elif is_full() ...` chain after `p` has dropped a piece. */
  function Judge(g: Grid, p: Player): (o: Option<Outcome>)
    ensures o == Some(Won(p)) <==> HasLine(g, p)
    ensures o == Some(Draw) <==> !HasLine(g, p) && IsFull(g)
    ensures o.None? <==> !HasLine(g, p) && !IsFull(g)
  {
    if CheckWinner(g, p) then Some(Won(p))
    else if IsFull(g) then Some(Draw)
    else None
  }

  /** The board holds one more piece of `first` than of the other player exactly when `last` moved last. */
  ghost predicate Balanced(g: Grid, first: Player, last: Player)
  {
    Count(g, Piece(first)) == Count(g, Piece(Other(first))) + (if last == first then 1 else 0)
  }

  /**
   * A game record the play can reach, where `first` is the colour that moves
   * first and `last` the colour that moved last: gravity holds, the game is over
   * exactly when a result is set, an unfinished game has no line and a free
   * column, a draw is a full board without lines, a win belongs to the last
   * mover alone, and the pieces alternate starting with `first`.
   */
  ghost predicate Consistent(s: Game, first: Player, last: Player)
  {
    && Settled(s.board)
    && (s.over <==> s.winner.Some?)
    && (!s.over ==> !HasLine(s.board, R) && !HasLine(s.board, Y) && !IsFull(s.board))
    && (s.winner == Some(Draw) ==> IsFull(s.board) && !HasLine(s.board, R) && !HasLine(s.board, Y))
    && (s.winner.Some? && s.winner.value.Won? ==>
          s.winner.value.player == last && HasLine(s.board, last) && !HasLine(s.board, Other(last)))
    && Balanced(s.board, first, last)
  }

  /** The empty board before anyone moves is consistent, with the second colour counted as the last mover. */
  lemma NewGameConsistent(first: Player, current: Player)
    ensures Consistent(Game(Blank(), current, false, None), first, Other(first))
  {
    BoardLemmas.BlankBoard(R);
    BoardLemmas.BlankBoard(Y);
    BoardLemmas.BlankCounts();
    BoardLemmas.FullIffNoValidMove(Blank());
    BoardLemmas.BlankMoves();
  }

  /**
   * One judged drop into a valid column of an unfinished, consistent game: the
   * board keeps gravity, gains one piece of the mover, the mover's opponent still
   * has no line, and the judgement reports the mover's line, a draw, or neither.
   */
  lemma JudgedDrop(g: Grid, col: int, p: Player, first: Player)
    requires Settled(g) && !HasLine(g, R) && !HasLine(g, Y) && IsValidMove(g, col)
    requires Balanced(g, first, Other(p))
    ensures var g2 := MakeMove(g, col, p).1;
      && MakeMove(g, col, p).0
      && Settled(g2)
      && Balanced(g2, first, p)
      && !HasLine(g2, Other(p))
      && (Judge(g2, p) == Some(Won(p)) ==> HasLine(g2, p))
      && (Judge(g2, p) == Some(Draw) ==> IsFull(g2) && !HasLine(g2, R) && !HasLine(g2, Y))
      && (Judge(g2, p).None? ==> !IsFull(g2) && !HasLine(g2, R) && !HasLine(g2, Y))
  {
    BoardLemmas.MoveLandsLowest(g, col, p);
    BoardLemmas.MovePreservesSettled(g, col, p);
    BoardLemmas.MoveCounts(g, col, p);
    BoardLemmas.NoLineForOther(g, col, p);
    assert Other(Other(p)) == p;
  }

  /** A player who already has a line and drops again is judged the winner again. */
  lemma StillWins(g: Grid, col: int, p: Player)
    requires HasLine(g, p) && IsValidMove(g, col)
    ensures MakeMove(g, col, p).0 && Judge(MakeMove(g, col, p).1, p) == Some(Won(p))
  {
    BoardLemmas.MoveLandsLowest(g, col, p);
    BoardLemmas.WinPersists(g, col, p, p);
  }

  /** A full board accepts no move. */
  lemma FullRefusesMoves(g: Grid, col: int)
    requires IsFull(g)
    ensures !IsValidMove(g, col)
  {
    BoardLemmas.FullIffNoValidMove(g);
  }
}
