/**
 * The AI-versus-AI driver: two random agents take turns through the hot-seat
 * `make_move`, and `run_ai_vs_ai` plays a number of games and tallies the
 * results. The random draws come from `dice(game, step)`.
 */
module AiVsAi {
  import opened Wrappers
  import opened Board
  import BoardLemmas
  import opened Rules
  import opened Agents
  import opened HotSeat

  /**
   * `update()`: while the game is on, the agent of the current colour picks a
   * random valid column and plays it. `random.choice` would raise on a full
   * board, which an unfinished game never has.
   */
  function Update(s: Game, roll: nat): (s2: Game)
    requires s.over || !IsFull(s.board)
    ensures s.over ==> s2 == s
    ensures !s.over ==> exists col :: IsValidMove(s.board, col) && s2 == HotSeat.MakeMove(s, col)
  {
    if !s.over then HotSeat.MakeMove(s, RandomMove(s.board, roll))
    else s
  }

  /** `reset_game()`: back to an empty board, `'R'` to move, no result. */
  function ResetGame(): (s: Game)
    ensures Reachable(s) && s.board == Blank() && s.current == R && !s.over && s.winner.None?
  {
    InitReachable();
    NewGame(R)
  }

  /** An update of an unfinished game keeps the invariant and fills one more cell. */
  lemma UpdateFillsCell(s: Game, roll: nat)
    requires Reachable(s) && !s.over
    ensures Reachable(Update(s, roll))
    ensures Count(Update(s, roll).board, Empty) + 1 == Count(s.board, Empty)
  {
    var col := RandomMove(s.board, roll);
    MakeMoveReachable(s, col);
    BoardLemmas.MoveCounts(s.board, col, s.current);
  }

  /**
   * The inner `while not self.game_over: self.update()` loop. It stops: every
   * update of an unfinished game fills a cell, and a full board ends the game,
   * so at most 42 updates run.
   */
  function PlayOut(s: Game, dice: (nat, nat) -> nat, game: nat, step: nat): (r: Game)
    requires Reachable(s)
    ensures Reachable(r) && r.over
    ensures r.winner.Some?
    decreases Count(s.board, Empty) + (if s.over then 0 else 1)
  {
    if s.over then s
    else
      UpdateFillsCell(s, dice(game, step));
      PlayOut(Update(s, dice(game, step)), dice, game, step + 1)
  }

  /** Game number `game` of the tally: reset, then update until the game is over; it always ends with a result. */
  function PlayGame(dice: (nat, nat) -> nat, game: nat): (r: Game)
    ensures r.over && r.winner.Some?
  {
    PlayOut(ResetGame(), dice, game, 0)
  }

  /**
   * The result the inner loop leaves in `winner` when started from `s`,
   * followed move by move without building the final record.
   */
  function FinalResult(s: Game, dice: (nat, nat) -> nat, game: nat, step: nat): Outcome
    requires Reachable(s)
    decreases Count(s.board, Empty) + (if s.over then 0 else 1)
  {
    if s.over then s.winner.value
    else
      UpdateFillsCell(s, dice(game, step));
      FinalResult(Update(s, dice(game, step)), dice, game, step + 1)
  }

  /** Following the moves gives the `winner` of the finished record. */
  lemma {:induction false} FinalResultAgrees(s: Game, dice: (nat, nat) -> nat, game: nat, step: nat)
    requires Reachable(s)
    ensures PlayOut(s, dice, game, step).winner == Some(FinalResult(s, dice, game, step))
    decreases Count(s.board, Empty) + (if s.over then 0 else 1)
  {
    if !s.over {
      UpdateFillsCell(s, dice(game, step));
      FinalResultAgrees(Update(s, dice(game, step)), dice, game, step + 1);
    }
  }

  /** How many of the first `n` games played from `start` end with outcome `o`. */
  function Tally(dice: (nat, nat) -> nat, start: Game, n: nat, o: Outcome): nat
    requires Reachable(start)
  {
    if n == 0 then 0
    else Tally(dice, start, n - 1, o) + (if FinalResult(start, dice, n - 1, 0) == o then 1 else 0)
  }

  /** One more game adds one to the tally of its own outcome only. */
  lemma TallyStep(dice: (nat, nat) -> nat, start: Game, n: nat, o: Outcome)
    requires Reachable(start) && n > 0
    ensures Tally(dice, start, n, o) == Tally(dice, start, n - 1, o) + (if FinalResult(start, dice, n - 1, 0) == o then 1 else 0)
  {
  }

  /** A result is a red win, a yellow win or a draw. */
  lemma OutcomeCases(o: Outcome)
    ensures o == Won(R) || o == Won(Y) || o == Draw
  {
    match o
    case Won(p) => assert p == R || p == Y;
    case Draw =>
  }

  /** Each tally moves on by one exactly for the games whose finished record names that outcome. */
  lemma TallyCountsGame(dice: (nat, nat) -> nat, start: Game, n: nat, o: Outcome)
    requires Reachable(start)
    ensures Tally(dice, start, n + 1, o)
      == Tally(dice, start, n, o) + (if PlayOut(start, dice, n, 0).winner == Some(o) then 1 else 0)
  {
    TallyStep(dice, start, n + 1, o);
    FinalResultAgrees(start, dice, n, 0);
  }

  /** The counting loop of `run_ai_vs_ai`, with every game starting over from `start`. */
  method TallyGames(numGames: nat, dice: (nat, nat) -> nat, start: Game) returns (redWins: nat, yellowWins: nat, draws: nat)
    requires Reachable(start)
    ensures redWins == Tally(dice, start, numGames, Won(R))
    ensures yellowWins == Tally(dice, start, numGames, Won(Y))
    ensures draws == Tally(dice, start, numGames, Draw)
    ensures redWins + yellowWins + draws == numGames
  {
    redWins, yellowWins, draws := 0, 0, 0;
    var k: nat := 0;
    while k < numGames
      invariant k <= numGames
      invariant redWins == Tally(dice, start, k, Won(R))
      invariant yellowWins == Tally(dice, start, k, Won(Y))
      invariant draws == Tally(dice, start, k, Draw)
      invariant redWins + yellowWins + draws == k
    {
      var result := FinalResult(start, dice, k, 0);
      OutcomeCases(result);
      TallyStep(dice, start, k + 1, Won(R));
      TallyStep(dice, start, k + 1, Won(Y));
      TallyStep(dice, start, k + 1, Draw);
      if result == Won(R) {
        redWins := redWins + 1;
      } else if result == Won(Y) {
        yellowWins := yellowWins + 1;
      } else if result == Draw {
        draws := draws + 1;
      }
      k := k + 1;
    }
  }

  /**
   * `run_ai_vs_ai(num_games)`: plays `numGames` games, each after `reset_game`,
   * and counts red wins, yellow wins and draws; each counter is the number of
   * games with that result, and together they count every game.
   */
  method RunAiVsAi(numGames: nat, dice: (nat, nat) -> nat) returns (redWins: nat, yellowWins: nat, draws: nat)
    ensures redWins == Tally(dice, ResetGame(), numGames, Won(R))
    ensures yellowWins == Tally(dice, ResetGame(), numGames, Won(Y))
    ensures draws == Tally(dice, ResetGame(), numGames, Draw)
    ensures redWins + yellowWins + draws == numGames
  {
    redWins, yellowWins, draws := TallyGames(numGames, dice, ResetGame());
  }
}
