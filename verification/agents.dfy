/**
 * The random agents. Every random draw is an explicit `roll`: `random.choice(vs)`
 * is `vs[roll % |vs|]`, and `random.randint(0, 6)` is `roll % 7`. Which rolls the
 * library produces, and how likely each is, is left to the caller.
 */
module Agents {
  import opened Board
  import BoardLemmas

  /** `random.choice(vs)`: some element of a non-empty list (an empty list raises in the library). */
  function Choose<T>(vs: seq<T>, roll: nat): (x: T)
    requires |vs| > 0
    ensures x in vs
  {
    vs[roll % |vs|]
  }

  /** Every element of the list is the outcome of some roll. */
  lemma ChooseCovers<T>(vs: seq<T>, x: T)
    requires x in vs
    ensures exists roll: nat :: Choose(vs, roll) == x
  {
    var k :| 0 <= k < |vs| && vs[k] == x;
    assert k % |vs| == k;
    assert Choose(vs, k) == x;
  }

  /**
   * `RandomAgent.make_move` / `ShortTermAgent.make_move`, and `select_move`
   * applied to `get_valid_moves()`: a random column among the valid ones.
   */
  function RandomMove(g: Grid, roll: nat): (col: int)
    requires !IsFull(g)
    ensures IsValidMove(g, col)
  {
    BoardLemmas.FullIffNoValidMove(g);
    Choose(ValidMoves(g), roll)
  }

  /** The random agent can play every valid column and nothing else. */
  lemma RandomMoveCovers(g: Grid, col: int)
    requires IsValidMove(g, col)
    ensures !IsFull(g)
    ensures exists roll: nat :: RandomMove(g, roll) == col
  {
    BoardLemmas.FullIffNoValidMove(g);
    ChooseCovers(ValidMoves(g), col);
    var roll: nat :| Choose(ValidMoves(g), roll) == col;
    assert RandomMove(g, roll) == col;
  }

  /** `random_agent()` of the global-grid script: `random.randint(0, COLS - 1)`. */
  function RandomColumn(roll: nat): (col: int)
    ensures 0 <= col < Cols
  {
    roll % Cols
  }

  /** Every column is the outcome of some roll of `random_agent()`. */
  lemma RandomColumnCovers(col: int)
    requires 0 <= col < Cols
    ensures exists roll: nat :: RandomColumn(roll) == col
  {
    assert RandomColumn(col) == col;
  }
}
