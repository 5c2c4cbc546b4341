/**
 * The `Connect4Game` of the random-agents script: two random agents, `'R'`
 * (`agent1`) and `'Y'` (`agent2`), play each other. `current_agent` starts as
 * `agent1`, but `update` switches the agent BEFORE it moves, so `'Y'` drops the
 * first piece. The agent's own `make_move` never passes the turn: the record's
 * `current` is the colour that moved last.
 */
module RandomMatch {
  import opened Wrappers
  import opened Board
  import BoardLemmas
  import opened Rules
  import opened Agents

  /** `__init__`: an empty board with `agent1`, i.e. `'R'`, as the current agent. */
  function Init(): (s: Game)
    ensures s.board == Blank() && s.current == R && !s.over && s.winner.None?
  {
    NewGame(R)
  }

  /**
   * `make_move(agent)`: the agent picks a random valid column; its piece drops,
   * and a line or a full board ends the game. The current agent is not changed.
   * The agent's `random.choice` would raise on a full board.
   */
  function MakeMove(s: Game, p: Player, roll: nat): (s2: Game)
    requires !IsFull(s.board)
    ensures s2.current == s.current
    ensures exists col :: IsValidMove(s.board, col) && s2.board == Board.MakeMove(s.board, col, p).1
  {
    var col := RandomMove(s.board, roll);
    if IsValidMove(s.board, col) then
      var (ok, g2) := Board.MakeMove(s.board, col, p);
      if ok then
        match Judge(g2, p)
        case Some(o) => s.(board := g2, over := true, winner := Some(o))
        case None => s.(board := g2)
      else s
    else s
  }

  /** `update()`: switch to the other agent, then let it move. */
  function Update(s: Game, roll: nat): (s2: Game)
    requires !IsFull(s.board)
    ensures s2.current == Other(s.current)
    ensures exists col :: IsValidMove(s.board, col) && s2.board == Board.MakeMove(s.board, col, Other(s.current)).1
  {
    var p := Other(s.current);
    MakeMove(s.(current := p), p, roll)
  }

  /** The invariant of a random match: `'Y'` moved first and the current agent moved last. */
  ghost predicate Reachable(s: Game)
  {
    Consistent(s, Y, s.current)
  }

  lemma InitReachable()
    ensures Reachable(Init())
  {
    NewGameConsistent(Y, R);
  }

  /**
   * The run loop calls `update` only while the game is not over. Each such call
   * keeps the invariant, adds one piece of the newly current agent and none of
   * the other, and a result it sets is that agent's win or a draw.
   */
  lemma UpdateReachable(s: Game, roll: nat)
    requires Reachable(s) && !s.over
    ensures !IsFull(s.board)
    ensures var s2 := Update(s, roll);
      && Reachable(s2)
      && Count(s2.board, Piece(Other(s.current))) == Count(s.board, Piece(Other(s.current))) + 1
      && Count(s2.board, Piece(s.current)) == Count(s.board, Piece(s.current))
      && (s2.over ==> s2.winner == Some(Won(Other(s.current))) || s2.winner == Some(Draw))
  {
    var p := Other(s.current);
    var col := RandomMove(s.board, roll);
    assert Other(p) == s.current;
    JudgedDrop(s.board, col, p, Y);
    BoardLemmas.MoveCounts(s.board, col, p);
  }

  /** In a game with no piece yet the current agent is `'R'`, and the first move drops a yellow piece. */
  lemma FirstMove(s: Game, roll: nat)
    requires Reachable(s) && !s.over && Pieces(s.board) == 0
    ensures !IsFull(s.board)
    ensures var s2 := Update(s, roll);
      && s2.current == Y && Count(s2.board, Piece(Y)) == 1 && Count(s2.board, Piece(R)) == 0
  {
    UpdateReachable(s, roll);
  }

  /** Although `agent1` is `'R'`, the first piece on the board is yellow. */
  lemma FirstPieceIsYellow(roll: nat)
    ensures !IsFull(Init().board)
    ensures var s := Update(Init(), roll);
      && s.current == Y && Count(s.board, Piece(Y)) == 1 && Count(s.board, Piece(R)) == 0
  {
    InitReachable();
    BoardLemmas.BlankCounts();
    FirstMove(Init(), roll);
  }
}
