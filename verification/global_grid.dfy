/**
 * The script with a module-level `board` and free functions. Its cells hold
 * `EMPTY` (0), `PLAYER1` (1) or `PLAYER2` (2); here they are `Empty`,
 * `Piece(R)` and `Piece(Y)` of the shared grid, since the script draws
 * `PLAYER1` red and `PLAYER2` yellow. The grid is passed in and returned rather
 * than mutated in place.
 */
module GlobalGrid {
  import opened Wrappers
  import opened Board
  import BoardLemmas
  import opened Rules
  import opened Agents
  import HotSeat

  const WinningLength: int := 4

  /**
   * `drop_piece(column, player)`: scan the column from the bottom row up and put
   * the piece into the first empty cell, returning its row; a full column is
   * left alone and the function falls off its end, returning `None`.
   */
  function DropPiece(g: Grid, column: int, p: Player): (res: (Grid, Option<int>))
    requires 0 <= column < Cols
    ensures res.1.Some? <==> exists k | 0 <= k < Rows :: g[k][column] == Empty
    ensures res.1.Some? ==> IsLowestEmpty(g, column, res.1.value) && OnlyCellChanged(g, res.0, res.1.value, column, Piece(p))
    ensures res.1.None? ==> res.0 == g
  {
    match LowestEmpty(g, column)
    case None => (g, None)
    case Some(row) => (Place(g, row, column, Piece(p)), Some(row))
  }

  /** The script's drop and the engine's `make_move` leave the same grid and agree on success. */
  lemma DropMatchesEngine(g: Grid, column: int, p: Player)
    requires 0 <= column < Cols
    ensures DropPiece(g, column, p).0 == Board.MakeMove(g, column, p).1
    ensures DropPiece(g, column, p).1.Some? <==> Board.MakeMove(g, column, p).0
  {
  }

  /** A drop into a valid column lands and returns the row it landed on. */
  lemma ValidDropLands(g: Grid, column: int, p: Player)
    requires IsValidMove(g, column)
    ensures DropPiece(g, column, p).1.Some?
  {
    assert g[0][column] == Empty;
  }

  /** The cell is on the board and holds `p`'s piece: the guard of every probe of the script's `check_winner`. */
  predicate Holds(g: Grid, p: Player, cell: (int, int))
  {
    InBounds(cell.0, cell.1) && g[cell.0][cell.1] == Piece(p)
  }

  /** One direction of the script's `check_winner`: does some cell of `cells`, tried in order, hold `p`'s piece? */
  function Probe(g: Grid, p: Player, cells: seq<(int, int)>): (hit: bool)
    ensures hit <==> exists i | 0 <= i < |cells| :: Holds(g, p, cells[i])
    decreases |cells|
  {
    if cells == [] then false
    else Holds(g, p, cells[0]) || Probe(g, p, cells[1..])
  }

  /** `range(col - WINNING_LENGTH + 1, col + 1)` along the row. */
  function HorizontalCells(row: int, col: int): (cells: seq<(int, int)>)
    ensures |cells| == WinningLength && forall i | 0 <= i < WinningLength :: cells[i] == (row, col - 3 + i)
  {
    seq(WinningLength, i => (row, col - WinningLength + 1 + i))
  }

  /** `range(row - WINNING_LENGTH + 1, row + 1)` along the column. */
  function VerticalCells(row: int, col: int): (cells: seq<(int, int)>)
    ensures |cells| == WinningLength && forall i | 0 <= i < WinningLength :: cells[i] == (row - 3 + i, col)
  {
    seq(WinningLength, i => (row - WinningLength + 1 + i, col))
  }

  /** `(row - i, col + i)` for `i` in `range(WINNING_LENGTH)`. */
  function RisingCells(row: int, col: int): (cells: seq<(int, int)>)
    ensures |cells| == WinningLength && forall i | 0 <= i < WinningLength :: cells[i] == (row - i, col + i)
  {
    seq(WinningLength, i => (row - i, col + i))
  }

  /** `(row + i, col + i)` for `i` in `range(WINNING_LENGTH)`. */
  function FallingCells(row: int, col: int): (cells: seq<(int, int)>)
    ensures |cells| == WinningLength && forall i | 0 <= i < WinningLength :: cells[i] == (row + i, col + i)
  {
    seq(WinningLength, i => (row + i, col + i))
  }

  /**
   * `check_winner(row, col, player)` as the script writes it: each direction
   * returns True as soon as ONE cell of its range holds the player's piece.
   */
  function CheckWinnerAsWritten(g: Grid, row: int, col: int, p: Player): (won: bool)
    requires InBounds(row, col)
    ensures won <==> exists i | 0 <= i < WinningLength ::
      || Holds(g, p, HorizontalCells(row, col)[i]) || Holds(g, p, VerticalCells(row, col)[i])
      || Holds(g, p, RisingCells(row, col)[i]) || Holds(g, p, FallingCells(row, col)[i])
  {
    Probe(g, p, HorizontalCells(row, col)) || Probe(g, p, VerticalCells(row, col))
    || Probe(g, p, RisingCells(row, col)) || Probe(g, p, FallingCells(row, col))
  }

  /** The horizontal range ends at `col` itself, so the as-written check holds whenever the cell is the player's. */
  lemma AsWrittenAlwaysTrue(g: Grid, row: int, col: int, p: Player)
    requires InBounds(row, col) && g[row][col] == Piece(p)
    ensures CheckWinnerAsWritten(g, row, col, p)
  {
    var h := HorizontalCells(row, col);
    assert h[3] == (row, col);
    assert Probe(g, p, h);
  }

  /**
   * A player with at most two pieces who drops a third is declared the winner by
   * the as-written check at the landing cell, yet has no line of four.
   */
  lemma EarlyDropDeclaredWin(g: Grid, column: int, p: Player)
    requires IsValidMove(g, column) && Count(g, Piece(p)) <= 2
    ensures var (g2, row) := DropPiece(g, column, p);
      && row.Some? && CheckWinnerAsWritten(g2, row.value, column, p) && !HasLine(g2, p)
  {
    ValidDropLands(g, column, p);
    var (g2, row) := DropPiece(g, column, p);
    AsWrittenAlwaysTrue(g2, row.value, column, p);
    BoardLemmas.PlaceCounts(g, row.value, column, p);
    if HasLine(g2, p) {
      BoardLemmas.LineNeedsFourPieces(g2, p);
    }
  }

  /** The very first piece, dropped into column 0 of an empty board, lands on the bottom row and is declared a win. */
  lemma FirstDropCounterexample()
    ensures var (g2, row) := DropPiece(Blank(), 0, R);
      && row == Some(5) && CheckWinnerAsWritten(g2, 5, 0, R) && !HasLine(g2, R)
  {
    BoardLemmas.BlankCounts();
    EarlyDropDeclaredWin(Blank(), 0, R);
  }

  /** The window in direction `d` whose `i`-th cell is (row, col) lies on the board and is all `p`'s. */
  predicate LineThrough(g: Grid, p: Player, d: Direction, row: int, col: int, i: int)
  {
    var r0, c0 := row - RowOffset(d, i), col - ColOffset(d, i);
    IsWindow(d, r0, c0) && LineAt(g, p, d, r0, c0)
  }

  /**
   * The check the script evidently intends: some window of four in one of the
   * four directions passes through the landing cell and is all the player's.
   */
  function CheckWinnerAt(g: Grid, row: int, col: int, p: Player): (won: bool)
    ensures won ==> HasLine(g, p)
    ensures won <==> exists d, i | 0 <= i < WinningLength :: LineThrough(g, p, d, row, col, i)
  {
    exists i | 0 <= i < WinningLength ::
      LineThrough(g, p, Horizontal, row, col, i) || LineThrough(g, p, Vertical, row, col, i)
      || LineThrough(g, p, DownRight, row, col, i) || LineThrough(g, p, UpRight, row, col, i)
  }

  /** A window that became complete when one cell changed contains that cell. */
  lemma WindowTouchesChange(g: Grid, g2: Grid, r0: int, c0: int, x: Cell, p: Player, d: Direction, row: int, col: int)
    requires OnlyCellChanged(g, g2, r0, c0, x)
    requires IsWindow(d, row, col) && LineAt(g2, p, d, row, col) && !LineAt(g, p, d, row, col)
    ensures exists i | 0 <= i < WinningLength :: row + RowOffset(d, i) == r0 && col + ColOffset(d, i) == c0
  {
    var i :| 0 <= i < 4 && At(g, d, row, col, i) != At(g2, d, row, col, i);
    var rr, cc := row + RowOffset(d, i), col + ColOffset(d, i);
    assert InBounds(rr, cc);
    if rr != r0 || cc != c0 {
      assert g2[rr][cc] == g[rr][cc];
    }
  }

  /**
   * Before the drop nobody had a line of `p`'s; then the corrected check at the
   * landing cell holds exactly when the board after the drop has a line of `p`'s.
   */
  lemma CheckWinnerAtIffLine(g: Grid, column: int, p: Player)
    requires IsValidMove(g, column) && !HasLine(g, p)
    ensures var (g2, row) := DropPiece(g, column, p);
      && row.Some? && (CheckWinnerAt(g2, row.value, column, p) <==> HasLine(g2, p))
  {
    ValidDropLands(g, column, p);
    var (g2, row) := DropPiece(g, column, p);
    var r := row.value;
    if HasLine(g2, p) {
      var d, r0, c0 :| IsWindow(d, r0, c0) && LineAt(g2, p, d, r0, c0);
      assert !LineAt(g, p, d, r0, c0);
      WindowTouchesChange(g, g2, r, column, Piece(p), p, d, r0, c0);
      var i :| 0 <= i < WinningLength && r0 + RowOffset(d, i) == r && c0 + ColOffset(d, i) == column;
      assert LineThrough(g2, p, d, r, column, i);
    }
  }

  /** `is_board_full()`: no cell of the board is `EMPTY`. */
  function IsBoardFull(g: Grid): (full: bool)
    ensures full <==> Count(g, Empty) == 0
    ensures Settled(g) ==> (full <==> IsFull(g))
  {
    EmptyCellCounted(g);
    FullTopMeansFull(g);
    forall r, c | 0 <= r < Rows && 0 <= c < Cols :: g[r][c] != Empty
  }

  /** Under gravity, occupied top cells mean an occupied column. */
  lemma FullTopMeansFull(g: Grid)
    ensures Settled(g) && IsFull(g) ==> forall r, c | 0 <= r < Rows && 0 <= c < Cols :: g[r][c] != Empty
  {
    if Settled(g) && IsFull(g) {
      forall r, c | 0 <= r < Rows && 0 <= c < Cols ensures g[r][c] != Empty {
        if r > 0 {
          assert g[0][c] != Empty;
        }
      }
    }
  }

  lemma EmptyCellCounted(g: Grid)
    ensures (exists r, c | 0 <= r < Rows && 0 <= c < Cols :: g[r][c] == Empty) <==> Count(g, Empty) > 0
  {
    if exists r, c | 0 <= r < Rows && 0 <= c < Cols :: g[r][c] == Empty {
      var r, c :| 0 <= r < Rows && 0 <= c < Cols && g[r][c] == Empty;
      assert (r, c) in Positions(g, Empty);
    } else {
      assert Positions(g, Empty) == {};
    }
  }

  /** `random.choice([PLAYER1, PLAYER2])`: the colour that opens the game. */
  function FirstTurn(roll: nat): Player
  {
    Choose([R, Y], roll)
  }

  /** Either colour can open. */
  lemma FirstTurnCovers(p: Player)
    ensures exists roll: nat :: FirstTurn(roll) == p
  {
    ChooseCovers([R, Y], p);
    var roll: nat :| Choose([R, Y], roll) == p;
    assert FirstTurn(roll) == p;
  }

  /**
   * The computer's turn of `main`: draw `random_agent()` until the column is
   * valid. `rolls` are the successive draws; the result is the first valid
   * column drawn, or None if no draw in `rolls` is valid (the script would keep
   * drawing).
   */
  method AgentColumn(g: Grid, rolls: seq<nat>) returns (column: Option<int>)
    ensures column.Some? ==> IsValidMove(g, column.value)
    ensures column.Some? ==> exists k | 0 <= k < |rolls| ::
      (RandomColumn(rolls[k]) == column.value && forall j | 0 <= j < k :: !IsValidMove(g, RandomColumn(rolls[j])))
    ensures column.None? <==> forall k | 0 <= k < |rolls| :: !IsValidMove(g, RandomColumn(rolls[k]))
  {
    var k := 0;
    while k < |rolls|
      invariant 0 <= k <= |rolls|
      invariant forall j | 0 <= j < k :: !IsValidMove(g, RandomColumn(rolls[j]))
    {
      var c := RandomColumn(rolls[k]);
      if IsValidMove(g, c) {
        return Some(c);
      }
      k := k + 1;
    }
    return None;
  }

  /**
   * One pass of the `while True` loop of `main` once a column is known, with the
   * script's `check_winner`: the piece drops, and the game ends with the mover
   * as winner, or as a draw on a full board, or the turn passes. `None` (no
   * input this frame) changes nothing. A full column makes `drop_piece` return
   * `None`, and `check_winner` then fails on its first lookup `board[None][c]`
   * in the horizontal scan, so the column must be valid.
   */
  function StepAsWritten(s: Game, column: Option<int>): (s2: Game)
    requires column.Some? ==> IsValidMove(s.board, column.value)
    ensures column.None? ==> s2 == s
    ensures column.Some? ==> s2.board == Board.MakeMove(s.board, column.value, s.current).1
  {
    match column
    case None => s
    case Some(col) =>
      var (g2, row) := DropPiece(s.board, col, s.current);
      if row.None? then s
      else if CheckWinnerAsWritten(g2, row.value, col, s.current) then s.(board := g2, over := true, winner := Some(Won(s.current)))
      else if IsBoardFull(g2) then s.(board := g2, over := true, winner := Some(Draw))
      else s.(board := g2, current := Other(s.current))
  }

  /** As written, whoever drops the first piece of a game is declared the winner. */
  lemma AsWrittenStepEndsGame(s: Game, col: int)
    requires IsValidMove(s.board, col)
    ensures StepAsWritten(s, Some(col)).over && StepAsWritten(s, Some(col)).winner == Some(Won(s.current))
  {
    ValidDropLands(s.board, col, s.current);
    var (g2, row) := DropPiece(s.board, col, s.current);
    AsWrittenAlwaysTrue(g2, row.value, col, s.current);
  }

  /** The same pass with the corrected check: what the loop of `main` evidently means. */
  function Step(s: Game, column: Option<int>): (s2: Game)
    requires column.Some? ==> IsValidMove(s.board, column.value)
    ensures column.None? ==> s2 == s
    ensures column.Some? ==> s2.board == Board.MakeMove(s.board, column.value, s.current).1
    ensures s2.winner != s.winner && s2.winner.Some? && s2.winner.value.Won? ==>
      s2.winner.value.player == s.current && HasLine(s2.board, s.current)
  {
    match column
    case None => s
    case Some(col) =>
      var (g2, row) := DropPiece(s.board, col, s.current);
      if row.None? then s
      else if CheckWinnerAt(g2, row.value, col, s.current) then s.(board := g2, over := true, winner := Some(Won(s.current)))
      else if IsBoardFull(g2) then s.(board := g2, over := true, winner := Some(Draw))
      else s.(board := g2, current := Other(s.current))
  }

  /**
   * In an unfinished, consistent game (whoever opened), the corrected pass does
   * exactly what the class-based games' `make_move` does.
   */
  lemma StepMatchesClassGame(s: Game, col: int, first: Player)
    requires Consistent(s, first, Other(s.current)) && !s.over && IsValidMove(s.board, col)
    ensures Step(s, Some(col)) == HotSeat.MakeMove(s, col)
  {
    assert Settled(s.board) && !HasLine(s.board, s.current) by {
      assert s.current == R || s.current == Y;
    }
    ChecksAgree(s.board, col, s.current);
  }

  /** After a drop into a valid column, the script's drop and checks compute what the engine's do. */
  lemma ChecksAgree(g: Grid, col: int, p: Player)
    requires Settled(g) && !HasLine(g, p) && IsValidMove(g, col)
    ensures var (g2, row) := DropPiece(g, col, p);
      && row.Some? && Board.MakeMove(g, col, p) == (true, g2)
      && CheckWinnerAt(g2, row.value, col, p) == CheckWinner(g2, p)
      && IsBoardFull(g2) == IsFull(g2)
  {
    CheckWinnerAtIffLine(g, col, p);
    DropMatchesEngine(g, col, p);
    BoardLemmas.MoveLandsLowest(g, col, p);
    BoardLemmas.MovePreservesSettled(g, col, p);
  }

  /**
   * The corrected pass keeps the game consistent: the pieces alternate from the
   * opening colour, a result belongs to the mover, and play goes on to the
   * other colour otherwise.
   */
  lemma StepConsistent(s: Game, col: int, first: Player)
    requires Consistent(s, first, Other(s.current)) && !s.over && IsValidMove(s.board, col)
    ensures var s2 := Step(s, Some(col));
      && Consistent(s2, first, HotSeat.LastMover(s2))
      && (s2.over ==> s2.current == s.current)
      && (!s2.over ==> s2.current == Other(s.current))
  {
    StepMatchesClassGame(s, col, first);
    JudgedDrop(s.board, col, s.current, first);
  }
}
