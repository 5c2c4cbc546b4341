/**
 * Reference search: the same minimax as `LongTermAgent.minimax`, with the same
 * move order, cutoff test, evaluation and strict tie-break, but without the
 * alpha-beta window, so every child of every node is examined.
 */
module PlainMinimax {
  import opened Wrappers
  import opened Board
  import opened Minimax

  /** The unpruned minimax value of a tree and the first move that attains it. */
  function FullTree(t: Tree, maximizing: bool): (res: (int, Option<int>))
    requires Proper(t)
    ensures -1 <= res.0 <= 1
    ensures t.Leaf? ==> res == (t.score, None)
    ensures t.Node? ==> res.1.Some? && res.1.value in Moves(t.kids)
    decreases t
  {
    match t
    case Leaf(v) => (v, None)
    case Node(ks) =>
      if maximizing then FullMaxLoop(ks, NegInf, None)
      else FullMinLoop(ks, PosInf, None)
  }

  function FullMaxLoop(ks: Kids, best: int, bestMove: Option<int>): (res: (int, Option<int>))
    requires ProperKids(ks)
    requires bestMove.None? <==> best == NegInf
    requires bestMove.Some? ==> -1 <= best <= 1
    ensures res.1.None? <==> res.0 == NegInf
    ensures res.1.Some? ==> -1 <= res.0 <= 1
    ensures best <= res.0
    ensures res.1 == bestMove || (res.1.Some? && res.1.value in Moves(ks))
    ensures ks.Cons? ==> res.1.Some?
    decreases ks
  {
    match ks
    case Nil => (best, bestMove)
    case Cons(m, sub, rest) =>
      var score := FullTree(sub, false).0;
      if score > best then FullMaxLoop(rest, score, Some(m))
      else FullMaxLoop(rest, best, bestMove)
  }

  function FullMinLoop(ks: Kids, best: int, bestMove: Option<int>): (res: (int, Option<int>))
    requires ProperKids(ks)
    requires bestMove.None? <==> best == PosInf
    requires bestMove.Some? ==> -1 <= best <= 1
    ensures res.1.None? <==> res.0 == PosInf
    ensures res.1.Some? ==> -1 <= res.0 <= 1
    ensures res.0 <= best
    ensures res.1 == bestMove || (res.1.Some? && res.1.value in Moves(ks))
    ensures ks.Cons? ==> res.1.Some?
    decreases ks
  {
    match ks
    case Nil => (best, bestMove)
    case Cons(m, sub, rest) =>
      var score := FullTree(sub, true).0;
      if score < best then FullMinLoop(rest, score, Some(m))
      else FullMinLoop(rest, best, bestMove)
  }

  /** Plain minimax of a position to the given depth. */
  function FullSearch(g: Grid, depth: Depth, maximizing: bool, me: Player): (res: (int, Option<int>))
    ensures -1 <= res.0 <= 1
    ensures Cutoff(g, depth, me) ==> res == (Evaluate(g, me), None)
    ensures !Cutoff(g, depth, me) ==> res.1.Some? && IsValidMove(g, res.1.value)
  {
    FullTree(GameTree(g, depth, maximizing, me), maximizing)
  }
}
