/**
 * The Connect Four board engine (the `Connect4Board` class, which five of the
 * repository's files carry in identical copies).
 *
 * The grid is a list of 6 rows of 7 cells; row 0 is the TOP of the board, so a
 * dropped piece falls towards larger row indices.
 */
module Board {
  import opened Wrappers

  const Rows: int := 6
  const Cols: int := 7

  /** The two tokens, `'R'` and `'Y'`. */
  datatype Player = R | Y

  /** A cell is empty (`' '`) or holds one player's token. */
  datatype Cell = Empty | Piece(owner: Player)

  function Other(p: Player): Player
  {
    if p == R then Y else R
  }

  predicate IsGrid(g: seq<seq<Cell>>)
  {
    |g| == Rows && forall r | 0 <= r < |g| :: |g[r]| == Cols
  }

  type Grid = g: seq<seq<Cell>> | IsGrid(g) witness seq(6, _ => seq(7, _ => Empty))

  /** The board `Connect4Board()` starts with: every cell empty. */
  function Blank(): (g: Grid)
    ensures forall r, c | 0 <= r < Rows && 0 <= c < Cols :: g[r][c] == Empty
  {
    seq(Rows, _ => seq(Cols, _ => Empty))
  }

  predicate InBounds(row: int, col: int)
  {
    0 <= row < Rows && 0 <= col < Cols
  }

  /** `is_valid_move`: the column exists and its top cell is empty. */
  predicate IsValidMove(g: Grid, col: int)
  {
    0 <= col < Cols && g[0][col] == Empty
  }

  /** `is_full`: every top cell is occupied. */
  predicate IsFull(g: Grid)
  {
    forall c | 0 <= c < Cols :: g[0][c] != Empty
  }

  /** `row` is the largest empty row index of column `col`. */
  predicate IsLowestEmpty(g: Grid, col: int, row: int)
    requires 0 <= col < Cols
  {
    0 <= row < Rows && g[row][col] == Empty
    && forall k | row < k < Rows :: g[k][col] != Empty
  }

  /** The scan of `make_move`: rows `row`, `row - 1`, ..., 0 of column `col`, first empty one wins. */
  function ScanColumn(g: Grid, col: int, row: int): (r: Option<int>)
    requires 0 <= col < Cols && -1 <= row < Rows
    ensures r.Some? ==> 0 <= r.value <= row && g[r.value][col] == Empty
    ensures r.Some? ==> forall k | r.value < k <= row :: g[k][col] != Empty
    ensures r.None? ==> forall k | 0 <= k <= row :: g[k][col] != Empty
    decreases row + 1
  {
    if row < 0 then None
    else if g[row][col] == Empty then Some(row)
    else ScanColumn(g, col, row - 1)
  }

  /** The row a piece dropped into `col` lands on, or None when the column is full. */
  function LowestEmpty(g: Grid, col: int): (r: Option<int>)
    requires 0 <= col < Cols
    ensures r.Some? <==> exists k | 0 <= k < Rows :: g[k][col] == Empty
    ensures r.Some? ==> IsLowestEmpty(g, col, r.value)
  {
    ScanColumn(g, col, Rows - 1)
  }

  /** `g2` is `g` with exactly the cell (row, col) set to `c`. */
  predicate OnlyCellChanged(g: Grid, g2: Grid, row: int, col: int, c: Cell)
  {
    InBounds(row, col) && g2[row][col] == c
    && forall r, k | 0 <= r < Rows && 0 <= k < Cols && (r != row || k != col) :: g2[r][k] == g[r][k]
  }

  function Place(g: Grid, row: int, col: int, c: Cell): (g2: Grid)
    requires InBounds(row, col)
    ensures OnlyCellChanged(g, g2, row, col, c)
  {
    g[row := g[row][col := c]]
  }

  /**
   * `make_move(col, player)`: drop the piece into the lowest empty cell of the
   * column and report True, or report False and leave the grid alone when the
   * column is full.
   */
  function MakeMove(g: Grid, col: int, p: Player): (res: (bool, Grid))
    requires 0 <= col < Cols
    ensures res.0 <==> exists k | 0 <= k < Rows :: g[k][col] == Empty
    ensures res.0 ==> exists row :: IsLowestEmpty(g, col, row) && OnlyCellChanged(g, res.1, row, col, Piece(p))
    ensures !res.0 ==> res.1 == g
  {
    match LowestEmpty(g, col)
    case None => (false, g)
    case Some(row) => (true, Place(g, row, col, Piece(p)))
  }

  /** The four scan directions of `check_winner`. */
  datatype Direction = Horizontal | Vertical | DownRight | UpRight

  /** `range(FirstRow(d), EndRow(d))` is the outer loop of the scan in direction d. */
  function FirstRow(d: Direction): int
  {
    if d == UpRight then 3 else 0
  }

  function EndRow(d: Direction): int
  {
    match d
    case Horizontal => Rows
    case Vertical => Rows - 3
    case DownRight => Rows - 3
    case UpRight => Rows
  }

  /** `range(EndCol(d))` is the inner loop of the scan in direction d. */
  function EndCol(d: Direction): int
  {
    if d == Vertical then Cols else Cols - 3
  }

  /** A start position the scan in direction d visits. */
  predicate IsWindow(d: Direction, row: int, col: int)
  {
    FirstRow(d) <= row < EndRow(d) && 0 <= col < EndCol(d)
  }

  /** Row and column offsets of the i-th cell of a window. */
  function RowOffset(d: Direction, i: int): int
  {
    match d
    case Horizontal => 0
    case Vertical => i
    case DownRight => i
    case UpRight => -i
  }

  function ColOffset(d: Direction, i: int): int
  {
    if d == Vertical then 0 else i
  }

  /** The i-th cell (0 <= i < 4) of the window starting at (row, col). */
  function At(g: Grid, d: Direction, row: int, col: int, i: int): Cell
    requires IsWindow(d, row, col) && 0 <= i < 4
  {
    g[row + RowOffset(d, i)][col + ColOffset(d, i)]
  }

  /** All four cells of the window hold `p`'s token. */
  predicate LineAt(g: Grid, p: Player, d: Direction, row: int, col: int)
    requires IsWindow(d, row, col)
  {
    At(g, d, row, col, 0) == Piece(p) && At(g, d, row, col, 1) == Piece(p)
    && At(g, d, row, col, 2) == Piece(p) && At(g, d, row, col, 3) == Piece(p)
  }

  /** Reference definition of a win: some window of four cells in some direction is all `p`. */
  ghost predicate HasLine(g: Grid, p: Player)
  {
    exists d, row, col | IsWindow(d, row, col) :: LineAt(g, p, d, row, col)
  }

  /** The nested loops of one direction, resumed at start position (row, col), in row-major order. */
  function ScanFrom(g: Grid, p: Player, d: Direction, row: int, col: int): (found: bool)
    requires FirstRow(d) <= row <= EndRow(d) && 0 <= col <= EndCol(d)
    ensures found <==> exists r, c | IsWindow(d, r, c) && (r > row || (r == row && c >= col)) :: LineAt(g, p, d, r, c)
    decreases EndRow(d) - row, EndCol(d) - col
  {
    if row == EndRow(d) then false
    else if col == EndCol(d) then ScanFrom(g, p, d, row + 1, 0)
    else LineAt(g, p, d, row, col) || ScanFrom(g, p, d, row, col + 1)
  }

  /** `check_winner(player)`: horizontal, vertical, down-right and up-right scans in turn. */
  function CheckWinner(g: Grid, p: Player): (won: bool)
    ensures won <==> HasLine(g, p)
  {
    ScanFrom(g, p, Horizontal, 0, 0) || ScanFrom(g, p, Vertical, 0, 0)
    || ScanFrom(g, p, DownRight, 0, 0) || ScanFrom(g, p, UpRight, 3, 0)
  }

  /** The comprehension `[col for col in range(c, 7) if is_valid_move(col)]`. */
  function ValidMovesFrom(g: Grid, c: int): (vs: seq<int>)
    requires 0 <= c <= Cols
    ensures forall i | 0 <= i < |vs| :: c <= vs[i] < Cols && IsValidMove(g, vs[i])
    ensures forall i, j | 0 <= i < j < |vs| :: vs[i] < vs[j]
    ensures forall k | c <= k < Cols && IsValidMove(g, k) :: k in vs
    decreases Cols - c
  {
    if c == Cols then []
    else if IsValidMove(g, c) then [c] + ValidMovesFrom(g, c + 1)
    else ValidMovesFrom(g, c + 1)
  }

  /** `get_valid_moves()`, also written inline in the agents: the valid columns in ascending order. */
  function ValidMoves(g: Grid): (vs: seq<int>)
    ensures forall i | 0 <= i < |vs| :: IsValidMove(g, vs[i])
    ensures forall i, j | 0 <= i < j < |vs| :: vs[i] < vs[j]
    ensures forall k | IsValidMove(g, k) :: k in vs
  {
    ValidMovesFrom(g, 0)
  }

  /** Gravity: no empty cell lies below an occupied cell of the same column. */
  predicate Settled(g: Grid)
  {
    forall r1, r2, c | 0 <= r1 < r2 < Rows && 0 <= c < Cols && g[r1][c] != Empty :: g[r2][c] != Empty
  }

  /** The positions holding `cell`. */
  function Positions(g: Grid, cell: Cell): set<(int, int)>
  {
    set r, c | 0 <= r < Rows && 0 <= c < Cols && g[r][c] == cell :: (r, c)
  }

  /** How many cells hold `cell`. */
  function Count(g: Grid, cell: Cell): nat
  {
    |Positions(g, cell)|
  }

  /** How many pieces of either colour are on the board. */
  function Pieces(g: Grid): nat
  {
    Count(g, Piece(R)) + Count(g, Piece(Y))
  }
}
