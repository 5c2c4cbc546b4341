/**
 * The depth-limited minimax agent with alpha-beta pruning (`LongTermAgent`).
 *
 * The agent maximises for its own token `me` and minimises for the opponent,
 * which the code fixes as `'R'` whatever `me` is. The search is written in two
 * parts: `GameTree` is the tree of positions the recursion visits (the cutoff
 * test, the list of valid moves, and for each move a copy of the board with the
 * piece dropped), and `TreeSearch` is the alpha-beta loop over that tree. Child
 * positions are values, so a search never alters the caller's board, and
 * building a subtree the pruning skips changes nothing. The float bounds
 * `-inf`/`+inf` become the integer sentinels `NegInf`/`PosInf`, which lie
 * outside every score a search can produce.
 */
module Minimax {
  import opened Wrappers
  import opened Board
  import BoardLemmas

  /** The opponent token hard-coded in `minimax` and `evaluate`. */
  const Opponent: Player := R
  const NegInf: int := -2
  const PosInf: int := 2
  /**
   * A search depth, counted down one ply per level: `Zero` is the `depth == 0`
   * cutoff and `d.prev` is the `depth - 1` passed to each child.
   */
  datatype Depth = Zero | Succ(prev: Depth)

  /** The number of plies a depth stands for. */
  function Plies(d: Depth): nat
  {
    match d
    case Zero => 0
    case Succ(p) => Plies(p) + 1
  }

  /** The depth `make_move` searches to: three plies. */
  const SearchDepth: Depth := Succ(Succ(Succ(Zero)))

  function Max(a: int, b: int): int { if a >= b then a else b }
  function Min(a: int, b: int): int { if a <= b then a else b }

  /** `evaluate`: +1 when the agent has a line, else -1 when `'R'` has one, else 0. */
  function Evaluate(g: Grid, me: Player): (v: int)
    ensures v == 1 <==> HasLine(g, me)
    ensures v == -1 <==> !HasLine(g, me) && HasLine(g, Opponent)
    ensures v == 0 <==> !HasLine(g, me) && !HasLine(g, Opponent)
  {
    if CheckWinner(g, me) then 1
    else if CheckWinner(g, Opponent) then -1
    else 0
  }

  /**
   * The cutoff test at the head of `minimax`. A position past it still has
   * plies to search, a column to try, and no line of the agent or of `'R'`.
   */
  predicate Cutoff(g: Grid, depth: Depth, me: Player)
    ensures !Cutoff(g, depth, me) ==>
      depth.Succ? && ValidMoves(g) != [] && !HasLine(g, me) && !HasLine(g, Opponent)
  {
    BoardLemmas.FullIffNoValidMove(g);
    depth == Zero || IsFull(g) || CheckWinner(g, me) || CheckWinner(g, Opponent)
  }

  /** Whose piece a node's moves drop: the agent's at maximising nodes, `'R'` at minimising ones. */
  function Mover(maximizing: bool, me: Player): Player
  {
    if maximizing then me else Opponent
  }

  /** The copied board with `p`'s piece dropped into `col`: one cell changes, the lowest empty one of `col`. */
  function Child(g: Grid, col: int, p: Player): (g2: Grid)
    requires IsValidMove(g, col)
    ensures exists row :: IsLowestEmpty(g, col, row) && OnlyCellChanged(g, g2, row, col, Piece(p))
  {
    MakeMove(g, col, p).1
  }

  /** A position the search visits: scored at a cutoff, otherwise one subtree per valid move. */
  datatype Tree = Leaf(score: int) | Node(kids: Kids)
  datatype Kids = Nil | Cons(move: int, sub: Tree, rest: Kids)

  /** The moves of a node, in the order the loop tries them. */
  function Moves(ks: Kids): seq<int>
  {
    match ks
    case Nil => []
    case Cons(m, _, rest) => [m] + Moves(rest)
  }

  /** The subtrees of a node, one per move and in the same order. */
  function Subtrees(ks: Kids): (ts: seq<Tree>)
    ensures |ts| == |Moves(ks)|
  {
    match ks
    case Nil => []
    case Cons(_, sub, rest) => [sub] + Subtrees(rest)
  }

  /** Every leaf is scored in [-1, 1] and every inner node has a move. */
  predicate Proper(t: Tree)
  {
    match t
    case Leaf(v) => -1 <= v <= 1
    case Node(ks) => ks.Cons? && ProperKids(ks)
  }

  predicate ProperKids(ks: Kids)
  {
    match ks
    case Nil => true
    case Cons(_, sub, rest) => Proper(sub) && ProperKids(rest)
  }

  /** The positions `minimax(board, depth, maximizing, ...)` visits. */
  function GameTree(g: Grid, depth: Depth, maximizing: bool, me: Player): (t: Tree)
    ensures Proper(t)
    ensures t.Leaf? <==> Cutoff(g, depth, me)
    ensures t.Leaf? ==> t.score == Evaluate(g, me)
    ensures t.Node? ==> Moves(t.kids) == ValidMoves(g)
    decreases depth, 1, 0
  {
    if Cutoff(g, depth, me) then Leaf(Evaluate(g, me))
    else
      BoardLemmas.FullIffNoValidMove(g);
      Node(Branches(g, depth.prev, maximizing, me, ValidMoves(g)))
  }

  /** One subtree per move of `moves`: copy the board, drop the mover's piece, search to `childDepth`. */
  function Branches(g: Grid, childDepth: Depth, maximizing: bool, me: Player, moves: seq<int>): (ks: Kids)
    requires forall i | 0 <= i < |moves| :: IsValidMove(g, moves[i])
    ensures ProperKids(ks) && Moves(ks) == moves
    decreases childDepth, 2, |moves|
  {
    if |moves| == 0 then Nil
    else
      var rest := Branches(g, childDepth, maximizing, me, moves[1..]);
      var sub := GameTree(Child(g, moves[0], Mover(maximizing, me)), childDepth, !maximizing, me);
      assert Moves(Cons(moves[0], sub, rest)) == [moves[0]] + moves[1..] == moves;
      Cons(moves[0], sub, rest)
  }

  /** A position that is not a cutoff has one subtree per valid move, each searched one ply less. */
  lemma ExpandNode(g: Grid, depth: Depth, maximizing: bool, me: Player)
    requires !Cutoff(g, depth, me)
    ensures depth.Succ?
    ensures GameTree(g, depth, maximizing, me) == Node(Branches(g, depth.prev, maximizing, me, ValidMoves(g)))
  {
  }

  /** The alpha-beta recursion of `minimax` over the visited positions. */
  function TreeSearch(t: Tree, maximizing: bool, alpha: int, beta: int): (res: (int, Option<int>))
    requires Proper(t)
    ensures -1 <= res.0 <= 1
    ensures t.Leaf? ==> res == (t.score, None)
    ensures t.Node? ==> res.1.Some? && res.1.value in Moves(t.kids)
    decreases t
  {
    match t
    case Leaf(v) => (v, None)
    case Node(ks) =>
      if maximizing then MaxLoop(ks, alpha, beta, NegInf, None)
      else MinLoop(ks, alpha, beta, PosInf, None)
  }

  /** The `for move in valid_moves` loop of a maximising node, with its running max and best move. */
  function MaxLoop(ks: Kids, alpha: int, beta: int, best: int, bestMove: Option<int>): (res: (int, Option<int>))
    requires ProperKids(ks)
    requires bestMove.None? <==> best == NegInf
    requires bestMove.Some? ==> -1 <= best <= 1
    ensures res.1.None? <==> res.0 == NegInf
    ensures res.1.Some? ==> -1 <= res.0 <= 1
    ensures res.1 == bestMove || (res.1.Some? && res.1.value in Moves(ks))
    ensures ks.Cons? ==> res.1.Some?
    decreases ks
  {
    match ks
    case Nil => (best, bestMove)
    case Cons(m, sub, rest) =>
      var score := TreeSearch(sub, false, alpha, beta).0;
      var best' := if score > best then score else best;
      var bestMove' := if score > best then Some(m) else bestMove;
      var alpha' := Max(alpha, score);
      if beta <= alpha' then (best', bestMove')
      else MaxLoop(rest, alpha', beta, best', bestMove')
  }

  /** The loop of a minimising node: running min and best move, pruning once `beta <= alpha`. */
  function MinLoop(ks: Kids, alpha: int, beta: int, best: int, bestMove: Option<int>): (res: (int, Option<int>))
    requires ProperKids(ks)
    requires bestMove.None? <==> best == PosInf
    requires bestMove.Some? ==> -1 <= best <= 1
    ensures res.1.None? <==> res.0 == PosInf
    ensures res.1.Some? ==> -1 <= res.0 <= 1
    ensures res.1 == bestMove || (res.1.Some? && res.1.value in Moves(ks))
    ensures ks.Cons? ==> res.1.Some?
    decreases ks
  {
    match ks
    case Nil => (best, bestMove)
    case Cons(m, sub, rest) =>
      var score := TreeSearch(sub, true, alpha, beta).0;
      var best' := if score < best then score else best;
      var bestMove' := if score < best then Some(m) else bestMove;
      var beta' := Min(beta, score);
      if beta' <= alpha then (best', bestMove')
      else MinLoop(rest, alpha, beta', best', bestMove')
  }

  /**
   * `minimax(board, depth, maximizing_player, alpha, beta)`: the score of the
   * position and the move that achieves it (None at a cutoff).
   */
  function Search(g: Grid, depth: Depth, maximizing: bool, alpha: int, beta: int, me: Player): (res: (int, Option<int>))
    ensures -1 <= res.0 <= 1
    ensures Cutoff(g, depth, me) ==> res == (Evaluate(g, me), None)
    ensures !Cutoff(g, depth, me) ==> res.1.Some? && IsValidMove(g, res.1.value)
  {
    TreeSearch(GameTree(g, depth, maximizing, me), maximizing, alpha, beta)
  }

  /** `LongTermAgent.make_move`: a depth-3 search from a maximising root with an open window. */
  function AgentMove(g: Grid, me: Player): (m: Option<int>)
    ensures m.None? <==> IsFull(g) || HasLine(g, me) || HasLine(g, Opponent)
    ensures m.Some? ==> IsValidMove(g, m.value)
  {
    Search(g, SearchDepth, true, NegInf, PosInf, me).1
  }
}
