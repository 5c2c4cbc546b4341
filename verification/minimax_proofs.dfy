/**
 * What the alpha-beta search computes: pruning never changes the score or the
 * move chosen at the root, the root keeps the first (lowest) column among
 * equally good ones, and what that means for quiet positions and for an
 * immediate win.
 */
module MinimaxProofs {
  import opened Wrappers
  import opened Board
  import BoardLemmas
  import opened Minimax
  import opened PlainMinimax

  /** A score seen through the window (a, b): everything at or below a reads as a, at or above b as b. */
  function Clamp(x: int, a: int, b: int): int
  {
    if x <= a then a else if x >= b then b else x
  }

  /**
   * Alpha-beta soundness: inside the window (alpha, beta) the pruned search and
   * the full search agree, and outside it they fail on the same side.
   */
  lemma {:induction false} TreeWindow(t: Tree, maximizing: bool, alpha: int, beta: int)
    requires Proper(t)
    requires NegInf <= alpha < beta <= PosInf
    ensures Clamp(TreeSearch(t, maximizing, alpha, beta).0, alpha, beta)
         == Clamp(FullTree(t, maximizing).0, alpha, beta)
    decreases t, 1
  {
    match t
    case Leaf(_) =>
    case Node(ks) =>
      if maximizing {
        MaxLoopWindow(ks, alpha, alpha, beta, NegInf, None, NegInf, None);
      } else {
        MinLoopWindow(ks, beta, alpha, beta, PosInf, None, PosInf, None);
      }
  }

  /**
   * The loop of a maximising node entered with window (a0, beta): the pruned loop
   * has raised alpha to its running maximum, and both loops' running maxima look
   * the same through the window.
   */
  lemma {:induction false} MaxLoopWindow(ks: Kids, a0: int, alpha: int, beta: int,
                                         best: int, bestMove: Option<int>, fullBest: int, fullMove: Option<int>)
    requires ProperKids(ks)
    requires bestMove.None? <==> best == NegInf
    requires bestMove.Some? ==> -1 <= best <= 1
    requires fullMove.None? <==> fullBest == NegInf
    requires fullMove.Some? ==> -1 <= fullBest <= 1
    requires NegInf <= a0 && alpha == Max(a0, best) && alpha < beta <= PosInf
    requires Clamp(best, a0, beta) == Clamp(fullBest, a0, beta)
    ensures Clamp(MaxLoop(ks, alpha, beta, best, bestMove).0, a0, beta)
         == Clamp(FullMaxLoop(ks, fullBest, fullMove).0, a0, beta)
    decreases ks, 0
  {
    match ks
    case Nil =>
    case Cons(m, sub, rest) =>
      var score := TreeSearch(sub, false, alpha, beta).0;
      var fullScore := FullTree(sub, false).0;
      TreeWindow(sub, false, alpha, beta);
      MaxStep(a0, alpha, beta, best, fullBest, score, fullScore);
      var alpha' := Max(alpha, score);
      var fullBest' := if fullScore > fullBest then fullScore else fullBest;
      var fullMove' := if fullScore > fullBest then Some(m) else fullMove;
      var best' := if score > best then score else best;
      var bestMove' := if score > best then Some(m) else bestMove;
      assert FullMaxLoop(ks, fullBest, fullMove) == FullMaxLoop(rest, fullBest', fullMove');
      if alpha' < beta {
        MaxLoopWindow(rest, a0, alpha', beta, best', bestMove', fullBest', fullMove');
      } else {
        assert MaxLoop(ks, alpha, beta, best, bestMove).0 == best';
      }
  }

  /** The loop of a minimising node entered with window (alpha, b0), symmetrically. */
  lemma {:induction false} MinLoopWindow(ks: Kids, b0: int, alpha: int, beta: int,
                                         best: int, bestMove: Option<int>, fullBest: int, fullMove: Option<int>)
    requires ProperKids(ks)
    requires bestMove.None? <==> best == PosInf
    requires bestMove.Some? ==> -1 <= best <= 1
    requires fullMove.None? <==> fullBest == PosInf
    requires fullMove.Some? ==> -1 <= fullBest <= 1
    requires b0 <= PosInf && beta == Min(b0, best) && NegInf <= alpha < beta
    requires Clamp(best, alpha, b0) == Clamp(fullBest, alpha, b0)
    ensures Clamp(MinLoop(ks, alpha, beta, best, bestMove).0, alpha, b0)
         == Clamp(FullMinLoop(ks, fullBest, fullMove).0, alpha, b0)
    decreases ks, 0
  {
    match ks
    case Nil =>
    case Cons(m, sub, rest) =>
      var score := TreeSearch(sub, true, alpha, beta).0;
      var fullScore := FullTree(sub, true).0;
      TreeWindow(sub, true, alpha, beta);
      MinStep(b0, alpha, beta, best, fullBest, score, fullScore);
      var beta' := Min(beta, score);
      var fullBest' := if fullScore < fullBest then fullScore else fullBest;
      var fullMove' := if fullScore < fullBest then Some(m) else fullMove;
      var best' := if score < best then score else best;
      var bestMove' := if score < best then Some(m) else bestMove;
      assert FullMinLoop(ks, fullBest, fullMove) == FullMinLoop(rest, fullBest', fullMove');
      if alpha < beta' {
        MinLoopWindow(rest, b0, alpha, beta', best', bestMove', fullBest', fullMove');
      } else {
        assert MinLoop(ks, alpha, beta, best, bestMove).0 == best';
      }
  }

  /** One iteration of a maximising loop keeps the pruned and full running maxima equal through the window. */
  lemma MaxStep(a0: int, alpha: int, beta: int, best: int, fullBest: int, score: int, fullScore: int)
    requires alpha == Max(a0, best) && alpha < beta
    requires Clamp(best, a0, beta) == Clamp(fullBest, a0, beta)
    requires Clamp(score, alpha, beta) == Clamp(fullScore, alpha, beta)
    ensures var best' := if score > best then score else best;
      var fullBest' := if fullScore > fullBest then fullScore else fullBest;
      var alpha' := Max(alpha, score);
      && alpha' == Max(a0, best')
      && Clamp(best', a0, beta) == Clamp(fullBest', a0, beta)
      && (beta <= alpha' ==> fullBest' >= beta && Clamp(best', a0, beta) == beta)
  {
  }

  /** One iteration of a minimising loop, symmetrically. */
  lemma MinStep(b0: int, alpha: int, beta: int, best: int, fullBest: int, score: int, fullScore: int)
    requires beta == Min(b0, best) && alpha < beta
    requires Clamp(best, alpha, b0) == Clamp(fullBest, alpha, b0)
    requires Clamp(score, alpha, beta) == Clamp(fullScore, alpha, beta)
    ensures var best' := if score < best then score else best;
      var fullBest' := if fullScore < fullBest then fullScore else fullBest;
      var beta' := Min(beta, score);
      && beta' == Min(b0, best')
      && Clamp(best', alpha, b0) == Clamp(fullBest', alpha, b0)
      && (beta' <= alpha ==> fullBest' <= alpha && Clamp(best', alpha, b0) == alpha)
  {
  }

  /**
   * At the root (`alpha = -inf`, `beta = +inf`, maximising) nothing is ever
   * pruned that matters: the pruned search returns exactly the plain minimax
   * score and the same move.
   */
  lemma TreeRootAgrees(t: Tree)
    requires Proper(t)
    ensures TreeSearch(t, true, NegInf, PosInf) == FullTree(t, true)
  {
    if t.Node? {
      RootLoopAgrees(t.kids, NegInf, None);
    }
  }

  /** The root loop: its alpha is always its running best, so each child's window is (best, +inf). */
  lemma {:induction false} RootLoopAgrees(ks: Kids, best: int, bestMove: Option<int>)
    requires ProperKids(ks)
    requires bestMove.None? <==> best == NegInf
    requires bestMove.Some? ==> -1 <= best <= 1
    ensures MaxLoop(ks, best, PosInf, best, bestMove) == FullMaxLoop(ks, best, bestMove)
    decreases ks
  {
    match ks
    case Nil =>
    case Cons(m, sub, rest) =>
      TreeWindow(sub, false, best, PosInf);
      var score := TreeSearch(sub, false, best, PosInf).0;
      var best' := if score > best then score else best;
      var bestMove' := if score > best then Some(m) else bestMove;
      RootLoopAgrees(rest, best', bestMove');
  }

  /** Alpha-beta soundness for a position: `minimax` with window (alpha, beta) against plain minimax. */
  lemma SearchWindow(g: Grid, depth: Depth, maximizing: bool, alpha: int, beta: int, me: Player)
    requires NegInf <= alpha < beta <= PosInf
    ensures Clamp(Search(g, depth, maximizing, alpha, beta, me).0, alpha, beta)
         == Clamp(FullSearch(g, depth, maximizing, me).0, alpha, beta)
  {
    TreeWindow(GameTree(g, depth, maximizing, me), maximizing, alpha, beta);
  }

  /** The agent's root call returns the plain minimax score and move. */
  lemma RootAgrees(g: Grid, depth: Depth, me: Player)
    ensures Search(g, depth, true, NegInf, PosInf, me) == FullSearch(g, depth, true, me)
  {
    TreeRootAgrees(GameTree(g, depth, true, me));
  }

  /** The plain minimax scores of a node's subtrees, in move order. */
  function Values(ks: Kids, maximizing: bool): (vs: seq<int>)
    requires ProperKids(ks)
    ensures |vs| == |Moves(ks)|
    ensures forall i | 0 <= i < |vs| :: -1 <= vs[i] <= 1
  {
    match ks
    case Nil => []
    case Cons(_, sub, rest) => [FullTree(sub, maximizing).0] + Values(rest, maximizing)
  }

  /** No subtree scores above what the maximising loop returns. */
  lemma {:induction false} FullMaxLoopBound(ks: Kids, best: int, bestMove: Option<int>)
    requires ProperKids(ks)
    requires bestMove.None? <==> best == NegInf
    requires bestMove.Some? ==> -1 <= best <= 1
    ensures forall i | 0 <= i < |Moves(ks)| :: Values(ks, false)[i] <= FullMaxLoop(ks, best, bestMove).0
    decreases ks
  {
    match ks
    case Nil =>
    case Cons(m, sub, rest) =>
      var score := FullTree(sub, false).0;
      var vs := Values(ks, false);
      var vs' := Values(rest, false);
      assert vs == [score] + vs';
      var best', bestMove' := if score > best then score else best, if score > best then Some(m) else bestMove;
      FullMaxLoopBound(rest, best', bestMove');
      assert FullMaxLoop(ks, best, bestMove) == FullMaxLoop(rest, best', bestMove');
      forall i | 0 <= i < |vs| ensures vs[i] <= FullMaxLoop(rest, best', bestMove').0 {
        if i > 0 { assert vs[i] == vs'[i - 1]; }
      }
  }

  /**
   * The maximising loop returns the running best it started from (index -1),
   * or the score and move of subtree `i`, which beats that running best and
   * every earlier subtree: the strict `>` keeps the first of equal scores.
   */
  lemma {:induction false} FullMaxLoopFirst(ks: Kids, best: int, bestMove: Option<int>) returns (i: int)
    requires ProperKids(ks)
    requires bestMove.None? <==> best == NegInf
    requires bestMove.Some? ==> -1 <= best <= 1
    ensures -1 <= i < |Moves(ks)|
    ensures i == -1 ==> FullMaxLoop(ks, best, bestMove) == (best, bestMove)
    ensures 0 <= i ==> FullMaxLoop(ks, best, bestMove) == (Values(ks, false)[i], Some(Moves(ks)[i]))
    ensures 0 <= i ==> best < Values(ks, false)[i]
    ensures 0 <= i ==> forall j | 0 <= j < i :: Values(ks, false)[j] < Values(ks, false)[i]
    decreases ks
  {
    match ks
    case Nil =>
      i := -1;
    case Cons(m, sub, rest) =>
      var score := FullTree(sub, false).0;
      var vs := Values(ks, false);
      var vs' := Values(rest, false);
      assert vs == [score] + vs';
      assert Moves(ks) == [m] + Moves(rest);
      var best', bestMove' := if score > best then score else best, if score > best then Some(m) else bestMove;
      var k := FullMaxLoopFirst(rest, best', bestMove');
      assert FullMaxLoop(ks, best, bestMove) == FullMaxLoop(rest, best', bestMove');
      if k == -1 {
        i := if score > best then 0 else -1;
      } else {
        i := k + 1;
        assert vs[i] == vs'[k] && Moves(ks)[i] == Moves(rest)[k];
        forall j | 0 <= j < i ensures vs[j] < vs[i] {
          if j > 0 { assert vs[j] == vs'[j - 1]; }
        }
      }
  }

  /** Subtree `i` of a position's node is the search of the board after dropping into `moves[i]`. */
  lemma {:induction false} BranchValues(g: Grid, childDepth: Depth, maximizing: bool, me: Player, moves: seq<int>)
    requires forall i | 0 <= i < |moves| :: IsValidMove(g, moves[i])
    ensures forall i | 0 <= i < |moves| ::
      Values(Branches(g, childDepth, maximizing, me, moves), !maximizing)[i]
        == FullSearch(Child(g, moves[i], Mover(maximizing, me)), childDepth, !maximizing, me).0
    decreases |moves|
  {
    if |moves| > 0 {
      BranchesCons(g, childDepth, maximizing, me, moves);
      BranchValues(g, childDepth, maximizing, me, moves[1..]);
      var vs := Values(Branches(g, childDepth, maximizing, me, moves), !maximizing);
      var tail := Values(Branches(g, childDepth, maximizing, me, moves[1..]), !maximizing);
      forall i | 1 <= i < |moves|
        ensures vs[i] == FullSearch(Child(g, moves[i], Mover(maximizing, me)), childDepth, !maximizing, me).0
      {
        assert vs[i] == tail[i - 1];
        assert moves[i] == moves[1..][i - 1];
      }
    }
  }

  /**
   * Branch `i` of a node is the whole search of the board copy with move
   * `moves[i]` played by the side to move, one ply shallower and with the
   * other side to move.
   */
  lemma {:induction false} BranchSubtrees(g: Grid, childDepth: Depth, maximizing: bool, me: Player, moves: seq<int>, i: int)
    requires forall j | 0 <= j < |moves| :: IsValidMove(g, moves[j])
    requires 0 <= i < |moves|
    ensures |Subtrees(Branches(g, childDepth, maximizing, me, moves))| == |moves|
    ensures Subtrees(Branches(g, childDepth, maximizing, me, moves))[i]
      == GameTree(Child(g, moves[i], Mover(maximizing, me)), childDepth, !maximizing, me)
    decreases i
  {
    var rest := Branches(g, childDepth, maximizing, me, moves[1..]);
    var sub := GameTree(Child(g, moves[0], Mover(maximizing, me)), childDepth, !maximizing, me);
    var ts := Subtrees(Branches(g, childDepth, maximizing, me, moves));
    assert Branches(g, childDepth, maximizing, me, moves) == Cons(moves[0], sub, rest);
    assert ts == [sub] + Subtrees(rest);
    if i > 0 {
      BranchSubtrees(g, childDepth, maximizing, me, moves[1..], i - 1);
      assert ts[i] == Subtrees(rest)[i - 1];
      assert moves[i] == moves[1..][i - 1];
    } else {
      assert ts[0] == sub;
    }
  }

  /** The first subtree's score heads the scores of a node's subtrees. */
  lemma BranchesCons(g: Grid, childDepth: Depth, maximizing: bool, me: Player, moves: seq<int>)
    requires |moves| > 0 && forall i | 0 <= i < |moves| :: IsValidMove(g, moves[i])
    ensures Values(Branches(g, childDepth, maximizing, me, moves), !maximizing)
         == [FullSearch(Child(g, moves[0], Mover(maximizing, me)), childDepth, !maximizing, me).0]
            + Values(Branches(g, childDepth, maximizing, me, moves[1..]), !maximizing)
  {
    var rest := Branches(g, childDepth, maximizing, me, moves[1..]);
    var sub := GameTree(Child(g, moves[0], Mover(maximizing, me)), childDepth, !maximizing, me);
    assert Branches(g, childDepth, maximizing, me, moves) == Cons(moves[0], sub, rest);
  }

  /** The plain minimax score of dropping the agent's piece into `col`, searched one ply less. */
  function ChildValue(g: Grid, depth: Depth, me: Player, col: int): int
    requires depth.Succ? && IsValidMove(g, col)
  {
    FullSearch(Child(g, col, me), depth.prev, false, me).0
  }

  /** At a maximising root the plain search returns the first subtree with the largest score. */
  lemma RootFirst(ks: Kids) returns (i: int)
    requires ProperKids(ks) && ks.Cons?
    ensures 0 <= i < |Moves(ks)|
    ensures FullMaxLoop(ks, NegInf, None) == (Values(ks, false)[i], Some(Moves(ks)[i]))
    ensures forall j | 0 <= j < |Moves(ks)| :: Values(ks, false)[j] <= Values(ks, false)[i]
    ensures forall j | 0 <= j < i :: Values(ks, false)[j] < Values(ks, false)[i]
  {
    FullMaxLoopBound(ks, NegInf, None);
    i := FullMaxLoopFirst(ks, NegInf, None);
  }

  /**
   * The agent's choice: when the position is not a cutoff, the move returned is
   * valid, scores the returned value, no valid column scores more, and every
   * lower valid column scores strictly less.
   */
  lemma FirstBest(g: Grid, depth: Depth, me: Player)
    requires !Cutoff(g, depth, me)
    ensures var (v, m) := Search(g, depth, true, NegInf, PosInf, me);
      && m.Some? && IsValidMove(g, m.value)
      && ChildValue(g, depth, me, m.value) == v
      && (forall c | IsValidMove(g, c) :: ChildValue(g, depth, me, c) <= v)
      && (forall c | IsValidMove(g, c) && c < m.value :: ChildValue(g, depth, me, c) < v)
  {
    RootAgrees(g, depth, me);
    var moves := ValidMoves(g);
    ExpandNode(g, depth, true, me);
    var ks := Branches(g, depth.prev, true, me, moves);
    BranchValues(g, depth.prev, true, me, moves);
    var i := RootFirst(ks);
    ChooseColumn(g, depth, me, moves, Values(ks, false), i);
  }

  /** From positions in the move list to columns, using that the valid columns are listed in ascending order. */
  lemma ChooseColumn(g: Grid, depth: Depth, me: Player, moves: seq<int>, vs: seq<int>, i: int)
    requires depth.Succ? && moves == ValidMoves(g) && |vs| == |moves| && 0 <= i < |moves|
    requires forall k | 0 <= k < |moves| :: vs[k] == ChildValue(g, depth, me, moves[k])
    requires forall j | 0 <= j < |moves| :: vs[j] <= vs[i]
    requires forall j | 0 <= j < i :: vs[j] < vs[i]
    ensures forall c | IsValidMove(g, c) :: ChildValue(g, depth, me, c) <= vs[i]
    ensures forall c | IsValidMove(g, c) && c < moves[i] :: ChildValue(g, depth, me, c) < vs[i]
  {
    forall c | IsValidMove(g, c) ensures ChildValue(g, depth, me, c) <= vs[i] {
      var k :| 0 <= k < |moves| && moves[k] == c;
    }
    forall c | IsValidMove(g, c) && c < moves[i] ensures ChildValue(g, depth, me, c) < vs[i] {
      var k :| 0 <= k < |moves| && moves[k] == c;
      assert k != i;
    }
  }

  /** Every leaf of the tree scores 0. */
  predicate AllZero(t: Tree)
  {
    match t
    case Leaf(v) => v == 0
    case Node(ks) => AllZeroKids(ks)
  }

  predicate AllZeroKids(ks: Kids)
  {
    match ks
    case Nil => true
    case Cons(_, sub, rest) => AllZero(sub) && AllZeroKids(rest)
  }

  /** When every outcome is a draw-like 0, the search scores 0 and keeps the first move it tries. */
  lemma {:induction false} ZeroSearch(t: Tree, maximizing: bool, alpha: int, beta: int)
    requires Proper(t) && AllZero(t)
    ensures TreeSearch(t, maximizing, alpha, beta).0 == 0
    ensures t.Node? ==> TreeSearch(t, maximizing, alpha, beta).1 == Some(t.kids.move)
    decreases t, 1
  {
    match t
    case Leaf(_) =>
    case Node(ks) =>
      if maximizing {
        ZeroMaxLoop(ks, alpha, beta, NegInf, None);
      } else {
        ZeroMinLoop(ks, alpha, beta, PosInf, None);
      }
  }

  lemma {:induction false} ZeroMaxLoop(ks: Kids, alpha: int, beta: int, best: int, bestMove: Option<int>)
    requires ProperKids(ks) && AllZeroKids(ks)
    requires (best == NegInf && bestMove.None?) || (best == 0 && bestMove.Some?)
    ensures MaxLoop(ks, alpha, beta, best, bestMove)
         == if best == NegInf && ks.Cons? then (0, Some(ks.move)) else (best, bestMove)
    decreases ks, 0
  {
    match ks
    case Nil =>
    case Cons(m, sub, rest) =>
      ZeroSearch(sub, false, alpha, beta);
      var best', bestMove' := if best == NegInf then 0 else best, if best == NegInf then Some(m) else bestMove;
      ZeroMaxLoop(rest, Max(alpha, 0), beta, best', bestMove');
  }

  lemma {:induction false} ZeroMinLoop(ks: Kids, alpha: int, beta: int, best: int, bestMove: Option<int>)
    requires ProperKids(ks) && AllZeroKids(ks)
    requires (best == PosInf && bestMove.None?) || (best == 0 && bestMove.Some?)
    ensures MinLoop(ks, alpha, beta, best, bestMove)
         == if best == PosInf && ks.Cons? then (0, Some(ks.move)) else (best, bestMove)
    decreases ks, 0
  {
    match ks
    case Nil =>
    case Cons(m, sub, rest) =>
      ZeroSearch(sub, true, alpha, beta);
      var best', bestMove' := if best == PosInf then 0 else best, if best == PosInf then Some(m) else bestMove;
      ZeroMinLoop(rest, alpha, Min(beta, 0), best', bestMove');
  }

  /** With fewer than four pieces on the board nobody has a line, so a position scores 0. */
  lemma NoLineYet(g: Grid, me: Player)
    requires Pieces(g) <= 3
    ensures Evaluate(g, me) == 0
    ensures !IsFull(g)
  {
    if HasLine(g, me) { BoardLemmas.LineNeedsFourPieces(g, me); }
    if HasLine(g, Opponent) { BoardLemmas.LineNeedsFourPieces(g, Opponent); }
    if IsFull(g) { BoardLemmas.FullHasSevenPieces(g); }
  }

  /** A search that cannot reach four pieces of one colour sees only scores of 0. */
  lemma {:induction false} QuietTree(g: Grid, depth: Depth, maximizing: bool, me: Player)
    requires Pieces(g) + Plies(depth) <= 3
    ensures AllZero(GameTree(g, depth, maximizing, me))
    decreases depth, 1, 1
  {
    if Cutoff(g, depth, me) {
      QuietLeaf(g, depth, maximizing, me);
    } else {
      QuietNode(g, depth, maximizing, me);
    }
  }

  lemma {:induction false} QuietNode(g: Grid, depth: Depth, maximizing: bool, me: Player)
    requires Pieces(g) + Plies(depth) <= 3 && !Cutoff(g, depth, me)
    ensures AllZero(GameTree(g, depth, maximizing, me))
    decreases depth, 0, 0
  {
    ExpandNode(g, depth, maximizing, me);
    QuietBranches(g, depth.prev, maximizing, me, ValidMoves(g));
  }

  lemma QuietLeaf(g: Grid, depth: Depth, maximizing: bool, me: Player)
    requires Pieces(g) <= 3 && Cutoff(g, depth, me)
    ensures GameTree(g, depth, maximizing, me) == Leaf(0)
  {
    NoLineYet(g, me);
  }

  lemma {:induction false} QuietBranches(g: Grid, childDepth: Depth, maximizing: bool, me: Player, moves: seq<int>)
    requires Pieces(g) + Plies(childDepth) <= 2
    requires forall i | 0 <= i < |moves| :: IsValidMove(g, moves[i])
    ensures AllZeroKids(Branches(g, childDepth, maximizing, me, moves))
    decreases childDepth, 2, |moves|
  {
    if |moves| > 0 {
      var p := Mover(maximizing, me);
      BoardLemmas.MoveCounts(g, moves[0], p);
      QuietTree(Child(g, moves[0], p), childDepth, !maximizing, me);
      QuietBranches(g, childDepth, maximizing, me, moves[1..]);
    }
  }

  /**
   * Before any player can have four pieces the agent cannot tell moves apart:
   * every search scores 0 and plays the lowest valid column.
   */
  lemma QuietSearch(g: Grid, depth: Depth, maximizing: bool, alpha: int, beta: int, me: Player)
    requires Pieces(g) + Plies(depth) <= 3
    ensures Search(g, depth, maximizing, alpha, beta, me).0 == 0
    ensures depth.Succ? ==> |ValidMoves(g)| > 0 && Search(g, depth, maximizing, alpha, beta, me).1 == Some(ValidMoves(g)[0])
  {
    NoLineYet(g, me);
    var t := GameTree(g, depth, maximizing, me);
    QuietTree(g, depth, maximizing, me);
    ZeroSearch(t, maximizing, alpha, beta);
    assert Search(g, depth, maximizing, alpha, beta, me) == TreeSearch(t, maximizing, alpha, beta);
    if depth.Succ? {
      assert !Cutoff(g, depth, me);
      assert Moves(t.kids)[0] == t.kids.move;
    }
  }

  /** On a board without pieces the agent plays the lowest valid column. */
  lemma OpeningMove(g: Grid, me: Player)
    requires Pieces(g) == 0
    ensures |ValidMoves(g)| > 0 && AgentMove(g, me) == Some(ValidMoves(g)[0])
  {
    QuietSearch(g, SearchDepth, true, NegInf, PosInf, me);
  }

  /** On the empty board the agent plays column 0, whichever colour it holds. */
  lemma EmptyBoardPicksColumnZero(me: Player)
    ensures AgentMove(Blank(), me) == Some(0)
  {
    BoardLemmas.BlankCounts();
    BoardLemmas.BlankMoves();
    BoardLemmas.AllColumns();
    OpeningMove(Blank(), me);
  }

  /**
   * At depth 1 the agent scores 1 exactly when some valid column completes a
   * line for it, and then it plays the lowest such column.
   */
  lemma DepthOneWin(g: Grid, me: Player)
    requires !Cutoff(g, Succ(Zero), me)
    ensures var (v, m) := Search(g, Succ(Zero), true, NegInf, PosInf, me);
      && (v == 1 <==> exists c | IsValidMove(g, c) :: HasLine(Child(g, c, me), me))
      && (v == 1 ==> m.Some? && IsValidMove(g, m.value) && HasLine(Child(g, m.value, me), me)
                     && forall c | IsValidMove(g, c) && c < m.value :: !HasLine(Child(g, c, me), me))
  {
    FirstBest(g, Succ(Zero), me);
    forall c | IsValidMove(g, c) ensures ChildValue(g, Succ(Zero), me, c) == 1 <==> HasLine(Child(g, c, me), me) {
      assert Cutoff(Child(g, c, me), Zero, me);
    }
  }
}
