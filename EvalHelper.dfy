/**
 * Distances on the board and the example scoring functions built from them.
 */
module EvalHelper {
  import opened Util

  /** Chebyshev distance between players 0 and 1. */
  function DistanceBetweenPlayers(ps: seq<Position>): (dist: nat)
    requires |ps| >= 2
    ensures dist >= Abs(ps[0].row - ps[1].row) && dist >= Abs(ps[0].col - ps[1].col)
    ensures dist == Abs(ps[0].row - ps[1].row) || dist == Abs(ps[0].col - ps[1].col)
    ensures dist == 0 <==> SameSquare(ps[0], ps[1])
    ensures dist <= 1 <==> Near(ps[0], ps[1])
  {
    Max(Abs(ps[0].row - ps[1].row), Abs(ps[0].col - ps[1].col))
  }

  function Max(x: int, y: int): int {
    if x >= y then x else y
  }

  /** Swapping players 0 and 1 does not change their distance. */
  lemma DistanceSymmetric(ps: seq<Position>)
    requires |ps| >= 2
    ensures DistanceBetweenPlayers([ps[1], ps[0]] + ps[2..]) == DistanceBetweenPlayers(ps)
  {
    var swapped := [ps[1], ps[0]] + ps[2..];
    assert swapped[0] == ps[1] && swapped[1] == ps[0];
    assert Abs(ps[1].row - ps[0].row) == Abs(ps[0].row - ps[1].row);
    assert Abs(ps[1].col - ps[0].col) == Abs(ps[0].col - ps[1].col);
  }

  /** Chebyshev distance from the centre square (2,2). */
  function DistanceToCenter(p: Position): (dist: nat)
    ensures dist >= Abs(p.row - 2) && dist >= Abs(p.col - 2)
    ensures dist == Abs(p.row - 2) || dist == Abs(p.col - 2)
    ensures InBounds(p) ==> dist <= 2
    ensures dist == 0 <==> p.row == 2 && p.col == 2
  {
    Max(Abs(p.row - 2), Abs(p.col - 2))
  }

  /**
   * The first example score: the height of the player's own position. The
   * source rebinds the name to the second definition, so this one is never used.
   */
  function EvaluationFunctionExampleFirst(playerNumber: nat, ps: seq<Position>): int
    requires playerNumber < |ps|
  {
    ps[playerNumber].height
  }

  /**
   * The first score looks at the player's own height only: between two
   * position lists it changes by exactly the change of that height, so it is
   * unaffected by where anyone stands and by every other player's height.
   */
  lemma ExampleFirstByHeights(playerNumber: nat, ps: seq<Position>, qs: seq<Position>)
    requires playerNumber < |ps| && |qs| == |ps|
    ensures EvaluationFunctionExampleFirst(playerNumber, qs) - EvaluationFunctionExampleFirst(playerNumber, ps)
         == qs[playerNumber].height - ps[playerNumber].height
    ensures EvaluationFunctionExampleFirst(playerNumber, qs) >= 0
    ensures qs[playerNumber].height == ps[playerNumber].height ==>
      EvaluationFunctionExampleFirst(playerNumber, qs) == EvaluationFunctionExampleFirst(playerNumber, ps)
  {
  }

  /**
   * The effective example score: twice the player's height less the height of
   * the opponent, who is the other of players 0 and 1.
   */
  function EvaluationFunctionExample(playerNumber: nat, ps: seq<Position>): int
    requires playerNumber < |ps| && |ps| >= 2
  {
    var yourHeight := ps[playerNumber].height;
    var opponentHeight := ps[(playerNumber + 1) % 2].height;
    2 * yourHeight - opponentHeight
  }

  /**
   * The effective score is the first score counted twice for oneself and once
   * against the opponent; for players 0 and 1 the two scores sum to the sum of
   * their heights.
   */
  lemma ExampleScoresRelated(ps: seq<Position>)
    requires |ps| >= 2
    ensures EvaluationFunctionExample(0, ps)
         == 2 * EvaluationFunctionExampleFirst(0, ps) - EvaluationFunctionExampleFirst(1, ps)
    ensures EvaluationFunctionExample(1, ps)
         == 2 * EvaluationFunctionExampleFirst(1, ps) - EvaluationFunctionExampleFirst(0, ps)
  {
  }

  /**
   * A position is better the higher the player stands and the lower its
   * opponent stands: between two position lists of the same length, the score
   * changes by twice the change of the player's own height less the change of
   * the opponent's, whatever else differs. So it strictly rises with the
   * player's height and strictly falls with the opponent's, the other held fixed.
   */
  lemma ExampleScoreByHeights(playerNumber: nat, ps: seq<Position>, qs: seq<Position>)
    requires playerNumber < |ps| && |ps| >= 2 && |qs| == |ps|
    ensures var me, opp := playerNumber, (playerNumber + 1) % 2;
      && me != opp
      && EvaluationFunctionExample(me, qs) - EvaluationFunctionExample(me, ps)
         == 2 * (qs[me].height - ps[me].height) - (qs[opp].height - ps[opp].height)
      && (qs[opp].height == ps[opp].height ==>
            (EvaluationFunctionExample(me, qs) > EvaluationFunctionExample(me, ps) <==> qs[me].height > ps[me].height))
      && (qs[me].height == ps[me].height ==>
            (EvaluationFunctionExample(me, qs) > EvaluationFunctionExample(me, ps) <==> qs[opp].height < ps[opp].height))
  {
  }
}
