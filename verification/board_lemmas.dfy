/** Properties of the board engine: gravity, placement, win detection, fullness and piece counts. */
module BoardLemmas {
  import opened Wrappers
  import opened Board

  /** Every position of the 6x7 grid. */
  function AllCells(): set<(int, int)>
  {
    set r, c | 0 <= r < Rows && 0 <= c < Cols :: (r, c)
  }

  function RowCells(r: int, m: nat): set<(int, int)>
  {
    set c | 0 <= c < m :: (r, c)
  }

  function Block(n: nat, m: nat): set<(int, int)>
  {
    set r, c | 0 <= r < n && 0 <= c < m :: (r, c)
  }

  lemma {:induction false} RowCellsSize(r: int, m: nat)
    ensures |RowCells(r, m)| == m
  {
    if m > 0 {
      RowCellsSize(r, m - 1);
      assert RowCells(r, m) == RowCells(r, m - 1) + {(r, m - 1)};
    }
  }

  lemma {:induction false} BlockSize(n: nat, m: nat)
    ensures |Block(n, m)| == n * m
  {
    if n > 0 {
      BlockSize(n - 1, m);
      RowCellsSize(n - 1, m);
      var above, last := Block(n - 1, m), RowCells(n - 1, m);
      assert Block(n, m) == above + last by {
        forall x | x in Block(n, m) ensures x in above + last {
          if x.0 < n - 1 { assert x in above; } else { assert x in last; }
        }
      }
      assert above !! last;
      MulStep(n, m);
    }
  }

  lemma MulStep(n: int, m: int)
    ensures (n - 1) * m + m == n * m
  {
  }

  /** The board has 42 cells. */
  lemma AllCellsSize()
    ensures |AllCells()| == 42
  {
    BlockSize(6, 7);
    assert AllCells() == Block(6, 7);
  }

  /** Every cell is empty or holds a red or a yellow piece, so the counts add up to 42. */
  lemma CountsPartition(g: Grid)
    ensures Count(g, Empty) + Pieces(g) == 42
  {
    var e, r, y := Positions(g, Empty), Positions(g, Piece(R)), Positions(g, Piece(Y));
    assert AllCells() == e + r + y by {
      forall r0, c0 | 0 <= r0 < Rows && 0 <= c0 < Cols ensures (r0, c0) in e + r + y {
        match g[r0][c0]
        case Empty => assert (r0, c0) in e;
        case Piece(R) => assert (r0, c0) in r;
        case Piece(Y) => assert (r0, c0) in y;
      }
    }
    assert e * r == {} && e * y == {} && r * y == {};
    assert |e + r| == |e| + |r|;
    assert (e + r) * y == {};
    AllCellsSize();
  }

  /** The columns c, c + 1, ..., 6. */
  function ColumnsFrom(c: int): seq<int>
    decreases Cols - c
  {
    if c >= Cols then [] else [c] + ColumnsFrom(c + 1)
  }

  /** With every top cell open, the valid moves from column c on are c, c + 1, ..., 6. */
  lemma {:induction false} AllColumnsOpen(g: Grid, c: int)
    requires forall k | 0 <= k < Cols :: g[0][k] == Empty
    requires 0 <= c <= Cols
    ensures ValidMovesFrom(g, c) == ColumnsFrom(c)
    decreases Cols - c
  {
    if c < Cols {
      AllColumnsOpen(g, c + 1);
      OpenColumnHeads(g, c);
    }
  }

  /** A valid column heads the valid moves from it on. */
  lemma OpenColumnHeads(g: Grid, c: int)
    requires IsValidMove(g, c)
    ensures ValidMovesFrom(g, c) == [c] + ValidMovesFrom(g, c + 1)
  {
  }

  /** A fresh board is settled and no player has a line on it. */
  lemma BlankBoard(p: Player)
    ensures Settled(Blank()) && !HasLine(Blank(), p)
  {
  }

  /** A fresh board holds no piece and 42 empty cells. */
  lemma BlankCounts()
    ensures Pieces(Blank()) == 0 && Count(Blank(), Empty) == 42
  {
    var g := Blank();
    assert Positions(g, Piece(R)) == {};
    assert Positions(g, Piece(Y)) == {};
    CountsPartition(g);
  }

  /** On a fresh board every column is a valid move, in ascending order. */
  lemma BlankMoves()
    ensures ValidMoves(Blank()) == ColumnsFrom(0)
  {
    AllColumnsOpen(Blank(), 0);
  }

  /** The columns from 0 on are 0, 1, ..., 6. */
  lemma AllColumns()
    ensures ColumnsFrom(0) == [0, 1, 2, 3, 4, 5, 6]
  {
  }

  /** Under gravity a column accepts a piece exactly when its top cell is empty. */
  lemma ValidIffMoveSucceeds(g: Grid, col: int, p: Player)
    requires Settled(g) && 0 <= col < Cols
    ensures IsValidMove(g, col) <==> MakeMove(g, col, p).0
  {
    if MakeMove(g, col, p).0 {
      var k :| 0 <= k < Rows && g[k][col] == Empty;
    }
  }

  /** A successful move lands in the lowest empty cell of the column and changes no other cell. */
  lemma MoveLandsLowest(g: Grid, col: int, p: Player)
    requires IsValidMove(g, col)
    ensures MakeMove(g, col, p).0
    ensures var row := LowestEmpty(g, col).value;
      OnlyCellChanged(g, MakeMove(g, col, p).1, row, col, Piece(p))
  {
    assert g[0][col] == Empty;
  }

  /** Dropping a piece keeps every column free of gaps. */
  lemma MovePreservesSettled(g: Grid, col: int, p: Player)
    requires Settled(g) && 0 <= col < Cols
    ensures Settled(MakeMove(g, col, p).1)
  {
    var res := MakeMove(g, col, p);
    if res.0 {
      var row :| IsLowestEmpty(g, col, row) && OnlyCellChanged(g, res.1, row, col, Piece(p));
      var g2 := res.1;
      forall r1, r2, c | 0 <= r1 < r2 < Rows && 0 <= c < Cols && g2[r1][c] != Empty
        ensures g2[r2][c] != Empty
      {
      }
    }
  }

  /** Filling an empty cell leaves every complete window complete. */
  lemma FillKeepsLine(g: Grid, g2: Grid, r0: int, c0: int, x: Cell, p: Player, d: Direction, row: int, col: int)
    requires OnlyCellChanged(g, g2, r0, c0, x) && g[r0][c0] == Empty
    requires IsWindow(d, row, col) && LineAt(g, p, d, row, col)
    ensures LineAt(g2, p, d, row, col)
  {
    forall i | 0 <= i < 4 ensures At(g2, d, row, col, i) == At(g, d, row, col, i) {
      var rr, cc := row + RowOffset(d, i), col + ColOffset(d, i);
      assert g[rr][cc] == Piece(p);
    }
  }

  /** A line, once on the board, survives any later move. */
  lemma WinPersists(g: Grid, col: int, q: Player, p: Player)
    requires 0 <= col < Cols && HasLine(g, p)
    ensures HasLine(MakeMove(g, col, q).1, p)
  {
    var d, row, c :| IsWindow(d, row, c) && LineAt(g, p, d, row, c);
    var res := MakeMove(g, col, q);
    if res.0 {
      var r0 :| IsLowestEmpty(g, col, r0) && OnlyCellChanged(g, res.1, r0, col, Piece(q));
      FillKeepsLine(g, res.1, r0, col, Piece(q), p, d, row, c);
    }
  }

  /** A window complete for `q` after one cell was set to something other than `q` was complete before. */
  lemma LineWasThere(g: Grid, g2: Grid, r0: int, c0: int, x: Cell, q: Player, d: Direction, row: int, col: int)
    requires OnlyCellChanged(g, g2, r0, c0, x) && x != Piece(q)
    requires IsWindow(d, row, col) && LineAt(g2, q, d, row, col)
    ensures LineAt(g, q, d, row, col)
  {
    forall i | 0 <= i < 4 ensures At(g, d, row, col, i) == At(g2, d, row, col, i) {
      var rr, cc := row + RowOffset(d, i), col + ColOffset(d, i);
      assert g2[rr][cc] == Piece(q);
    }
  }

  /** A move by `p` never completes a line for the other player: the only changed cell holds `p`. */
  lemma NoLineForOther(g: Grid, col: int, p: Player)
    requires 0 <= col < Cols && !HasLine(g, Other(p))
    ensures !HasLine(MakeMove(g, col, p).1, Other(p))
  {
    var res := MakeMove(g, col, p);
    if res.0 {
      var r0 :| IsLowestEmpty(g, col, r0) && OnlyCellChanged(g, res.1, r0, col, Piece(p));
      forall d, row, c | IsWindow(d, row, c) ensures !LineAt(res.1, Other(p), d, row, c) {
        if LineAt(res.1, Other(p), d, row, c) {
          LineWasThere(g, res.1, r0, col, Piece(p), Other(p), d, row, c);
        }
      }
    }
  }

  /** The board is full exactly when no column is a valid move, i.e. when the move list is empty. */
  lemma FullIffNoValidMove(g: Grid)
    ensures IsFull(g) <==> forall c :: !IsValidMove(g, c)
    ensures IsFull(g) <==> ValidMoves(g) == []
  {
    if !IsFull(g) {
      var c :| 0 <= c < Cols && g[0][c] == Empty;
      assert IsValidMove(g, c);
      assert c in ValidMoves(g);
    }
  }

  /** Setting an empty cell to `p` adds one `p` piece, one piece in all, and one fewer empty cell. */
  lemma PlaceCounts(g: Grid, row: int, col: int, p: Player)
    requires InBounds(row, col) && g[row][col] == Empty
    ensures var g2 := Place(g, row, col, Piece(p));
      && Count(g2, Piece(p)) == Count(g, Piece(p)) + 1
      && Count(g2, Piece(Other(p))) == Count(g, Piece(Other(p)))
      && Pieces(g2) == Pieces(g) + 1
      && Count(g2, Empty) + 1 == Count(g, Empty)
  {
    var g2 := Place(g, row, col, Piece(p));
    assert Positions(g2, Piece(p)) == Positions(g, Piece(p)) + {(row, col)};
    assert Positions(g2, Piece(Other(p))) == Positions(g, Piece(Other(p)));
    assert Positions(g, Empty) == Positions(g2, Empty) + {(row, col)};
    assert p == R || p == Y;
  }

  /** A successful move adds exactly one piece of the mover's colour. */
  lemma MoveCounts(g: Grid, col: int, p: Player)
    requires IsValidMove(g, col)
    ensures var g2 := MakeMove(g, col, p).1;
      && Count(g2, Piece(p)) == Count(g, Piece(p)) + 1
      && Count(g2, Piece(Other(p))) == Count(g, Piece(Other(p)))
      && Pieces(g2) == Pieces(g) + 1
      && Count(g2, Empty) + 1 == Count(g, Empty)
  {
    MoveLandsLowest(g, col, p);
    PlaceCounts(g, LowestEmpty(g, col).value, col, p);
  }

  /** A line is four distinct cells, so a player with fewer than four pieces has none. */
  lemma LineNeedsFourPieces(g: Grid, p: Player)
    requires HasLine(g, p)
    ensures Count(g, Piece(p)) >= 4
  {
    var d, row, col :| IsWindow(d, row, col) && LineAt(g, p, d, row, col);
    var cells := set i | 0 <= i < 4 :: (row + RowOffset(d, i), col + ColOffset(d, i));
    var a, b, c, e := (row + RowOffset(d, 0), col + ColOffset(d, 0)), (row + RowOffset(d, 1), col + ColOffset(d, 1)),
      (row + RowOffset(d, 2), col + ColOffset(d, 2)), (row + RowOffset(d, 3), col + ColOffset(d, 3));
    var four := {a, b, c, e};
    assert |four| == 4;
    assert four <= Positions(g, Piece(p));
    SubsetSize(four, Positions(g, Piece(p)));
  }

  lemma SubsetSize<T>(a: set<T>, b: set<T>)
    requires a <= b
    ensures |a| <= |b|
  {
    assert b == a + (b - a);
  }

  /** A full board has at least its seven top cells occupied. */
  lemma FullHasSevenPieces(g: Grid)
    requires IsFull(g)
    ensures Pieces(g) >= 7
  {
    var top := {(0, 0), (0, 1), (0, 2), (0, 3), (0, 4), (0, 5), (0, 6)};
    var r, y := Positions(g, Piece(R)), Positions(g, Piece(Y));
    assert |top| == 7;
    forall c | 0 <= c < Cols ensures (0, c) in r + y {
      match g[0][c]
      case Piece(R) => assert (0, c) in r;
      case Piece(Y) => assert (0, c) in y;
    }
    assert top <= r + y;
    SubsetSize(top, r + y);
  }
}
