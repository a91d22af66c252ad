/** The static evaluation of a position (game/heuristic.py).  Every weight is an
    exact rational, so the model computes with `real`. */
module Heuristic {
  import opened State
  import opened Rules

  function RMin(a: real, b: real): real { if a <= b then a else b }
  function RMax(a: real, b: real): real { if a >= b then a else b }

  /** fuzzy_distance_score: 0 for an infinite distance, else 1 - min(d / max, 1). */
  function FuzzyDistanceScore(distance: Distance, maxDistance: real): (r: real)
    requires maxDistance != 0.0
    ensures distance == Infinite ==> r == 0.0
    ensures distance.Finite? && distance.value >= 0.0 && maxDistance > 0.0 ==> 0.0 <= r <= 1.0
    ensures distance.Finite? && maxDistance > 0.0 && distance.value >= maxDistance ==> r == 0.0
    ensures distance == Finite(0.0) ==> r == 1.0
  {
    if distance == Infinite then 0.0
    else
      AtLeastOne(distance.value, maxDistance);
      NonNegativeQuotient(distance.value, maxDistance);
      var normalized := RMin(distance.value / maxDistance, 1.0);
      1.0 - normalized
  }

  lemma NonNegativeQuotient(a: real, b: real)
    ensures a >= 0.0 && b > 0.0 ==> a / b >= 0.0
  {
    if a >= 0.0 && b > 0.0 {
      var q := a / b;
      assert q * b == a;
    }
  }

  /** The nearer the treasure, the higher the score. */
  lemma FuzzyDistanceScoreNonIncreasing(d1: real, d2: real, maxDistance: real)
    requires maxDistance > 0.0 && d1 <= d2
    ensures FuzzyDistanceScore(Finite(d1), maxDistance) >= FuzzyDistanceScore(Finite(d2), maxDistance)
  {
    assert d1 / maxDistance <= d2 / maxDistance by {
      assert d2 / maxDistance - d1 / maxDistance == (d2 - d1) / maxDistance;
    }
  }

  /** fuzzy_mobility_score: min(n / max, 1). */
  function FuzzyMobilityScore(numMoves: int, maxMoves: int): (r: real)
    requires maxMoves != 0
    ensures numMoves >= 0 && maxMoves > 0 ==> 0.0 <= r <= 1.0
    ensures numMoves >= maxMoves > 0 ==> r == 1.0
    ensures r <= 1.0
  {
    AtLeastOne(numMoves as real, maxMoves as real);
    RMin(numMoves as real / maxMoves as real, 1.0)
  }

  lemma AtLeastOne(a: real, b: real)
    ensures a >= b > 0.0 ==> a / b >= 1.0
  {
    if a >= b > 0.0 {
      var q := a / b;
      assert q * b == a;
    }
  }

  lemma AtMostMinusOne(a: real, b: real)
    ensures b > 0.0 && a <= -b ==> a / b <= -1.0
  {
    if b > 0.0 && a <= -b {
      var q := a / b;
      assert q * b == a;
    }
  }

  /** fuzzy_score_difference: the difference clamped to [-max, max] and mapped
      linearly onto [0, 1]. */
  function FuzzyScoreDifference(scoreDiff: int, maxDiff: real): (r: real)
    requires maxDiff != 0.0
    ensures 0.0 <= r <= 1.0
    ensures scoreDiff == 0 ==> r == 0.5
    ensures maxDiff > 0.0 && scoreDiff as real >= maxDiff ==> r == 1.0
    ensures maxDiff > 0.0 && scoreDiff as real <= -maxDiff ==> r == 0.0
  {
    AtLeastOne(scoreDiff as real, maxDiff);
    AtMostMinusOne(scoreDiff as real, maxDiff);
    var normalized := RMax(-1.0, RMin(1.0, scoreDiff as real / maxDiff));
    (normalized + 1.0) / 2.0
  }

  /** A larger lead never scores lower. */
  lemma FuzzyScoreDifferenceNonDecreasing(a: int, b: int, maxDiff: real)
    requires maxDiff > 0.0 && a <= b
    ensures FuzzyScoreDifference(a, maxDiff) <= FuzzyScoreDifference(b, maxDiff)
  {
    assert a as real / maxDiff <= b as real / maxDiff by {
      assert b as real / maxDiff - a as real / maxDiff == (b - a) as real / maxDiff;
    }
  }

  /** A copy of the state with the turn forced to one side; its visited set is
      the copy's, that is the two current cells. */
  function WithTurn(s: GameState, humanTurn: bool): (r: GameState)
    ensures r.gridSize == s.gridSize && r.humanPos == s.humanPos && r.aiPos == s.aiPos
    ensures r.visited == {s.humanPos, s.aiPos} && r.isHumanTurn == humanTurn
  {
    Copy(s).(isHumanTurn := humanTurn)
  }

  /** The boards the game is played on have a positive side length (the
      command line refuses sizes below 3); the distance factors divide by
      2 * gridSize. */
  predicate Evaluable(s: GameState)
  {
    s.gridSize > 0
  }

  /** The weights of the four factors: score difference 0.5, AI proximity 0.25,
      human proximity -0.15 and mobility advantage 0.1. */
  function Blend(fuzzyScore: real, fuzzyAiDist: real, fuzzyHumanDist: real, mobilityAdvantage: real): (r: real)
    ensures (0.0 <= fuzzyScore <= 1.0 && 0.0 <= fuzzyAiDist <= 1.0 && 0.0 <= fuzzyHumanDist <= 1.0 &&
             -1.0 <= mobilityAdvantage <= 1.0) ==> -0.25 <= r <= 0.85
  {
    fuzzyScore * 0.5 + fuzzyAiDist * 0.25 - fuzzyHumanDist * 0.15 + mobilityAdvantage * 0.1
  }

  /** (AI move count - human move count) / 4, each counted on a copy with the
      turn forced to that side. */
  function MobilityAdvantage(s: GameState): (r: real)
    ensures -1.0 <= r <= 1.0
  {
    var aiMoves := |LegalMoves(WithTurn(s, false))|;
    var humanMoves := |LegalMoves(WithTurn(s, true))|;
    LegalMovesCharacterised(WithTurn(s, false));
    LegalMovesCharacterised(WithTurn(s, true));
    (aiMoves - humanMoves) as real / 4.0
  }

  /** Proximity of `p` to the nearest treasure, with max_distance = 2 * gridSize. */
  function Proximity(s: GameState, p: Pos): (r: real)
    requires s.gridSize > 0
    ensures 0.0 <= r <= 1.0
  {
    var maxDistance := (s.gridSize * 2) as real;
    FuzzyDistanceScore(NearestDistance(p, s.treasures), maxDistance)
  }

  /** The weighted blend of the non-terminal evaluation, before scaling by 20;
      mobility is counted on copies with the turn forced to each side. */
  function WeightedFactors(s: GameState): (r: real)
    requires s.gridSize > 0
    ensures -0.25 <= r <= 0.85
  {
    var fuzzyScore := FuzzyScoreDifference(ScoreDifference(s), 20.0);
    var fuzzyAiDist := Proximity(s, s.aiPos);
    var fuzzyHumanDist := Proximity(s, s.humanPos);
    var mobilityAdvantage := MobilityAdvantage(s);
    Blend(fuzzyScore, fuzzyAiDist, fuzzyHumanDist, mobilityAdvantage)
  }

  /** The final score: the raw difference plus twenty times the blend. */
  function Scaled(scoreDiff: int, weightedScore: real): (r: real)
    ensures -0.25 <= weightedScore <= 0.85 ==> scoreDiff as real - 5.0 <= r <= scoreDiff as real + 17.0
  {
    scoreDiff as real + weightedScore * 20.0
  }

  /** The fixed-magnitude value of a position with no treasure left. */
  function TerminalValue(scoreDiff: int): (r: real)
    ensures scoreDiff > 0 <==> r == 1000.0
    ensures scoreDiff < 0 <==> r == -1000.0
    ensures scoreDiff == 0 <==> r == 0.0
  {
    if scoreDiff > 0 then 1000.0 else if scoreDiff < 0 then -1000.0 else 0.0
  }

  /** The value of a position with treasure left: the score difference plus
      twenty times the weighted blend, so between 5 below and 17 above it. */
  function PositionalValue(s: GameState): (r: real)
    requires s.gridSize > 0
    ensures ScoreDifference(s) as real - 5.0 <= r <= ScoreDifference(s) as real + 17.0
  {
    Scaled(ScoreDifference(s), WeightedFactors(s))
  }

  /** evaluate_state, from the AI's (the maximizer's) point of view.  With no
      treasure left it is +1000, -1000 or 0 by the sign of the score difference;
      otherwise the score difference plus at most 17 and at least -5 points of
      positional adjustment. */
  function Evaluate(s: GameState): (r: real)
    requires Evaluable(s)
    ensures s.treasures == map[] ==> r == TerminalValue(ScoreDifference(s))
  {
    if s.treasures == map[] then TerminalValue(ScoreDifference(s))
    else PositionalValue(s)
  }

  /** While treasure remains the evaluation stays within 5 below and 17 above
      the score difference, so the true score dominates the positional terms. */
  lemma EvaluateBounded(s: GameState)
    requires Evaluable(s) && s.treasures != map[]
    ensures ScoreDifference(s) as real - 5.0 <= Evaluate(s) <= ScoreDifference(s) as real + 17.0
  {
  }

  /** While treasure remains, evaluate_state is the score difference plus
      twenty times the blend of its four factors: the fuzzy score difference
      (maximum 20) with weight 0.5, the AI's and the human's proximity to
      their nearest treasure (maximum distance twice the board side) with
      weights 0.25 and -0.15, and a quarter of the difference in legal move
      counts, each counted with the turn forced to that side, with weight 0.1. */
  lemma EvaluateFormula(s: GameState)
    requires Evaluable(s) && s.treasures != map[]
    ensures var diff := ScoreDifference(s);
            var maxDistance := (2 * s.gridSize) as real;
            Evaluate(s) == diff as real + 20.0 * (
              0.5 * FuzzyScoreDifference(diff, 20.0)
              + 0.25 * FuzzyDistanceScore(NearestDistance(s.aiPos, s.treasures), maxDistance)
              - 0.15 * FuzzyDistanceScore(NearestDistance(s.humanPos, s.treasures), maxDistance)
              + 0.1 * ((|LegalMoves(WithTurn(s, false))| - |LegalMoves(WithTurn(s, true))|) as real / 4.0))
  {
  }

  /** With no treasure left, the evaluation and the winner agree. */
  lemma EvaluateAgreesWithWinner(s: GameState)
    requires Evaluable(s) && s.treasures == map[]
    ensures Evaluate(s) > 0.0 <==> GetWinner(s) == AI
    ensures Evaluate(s) < 0.0 <==> GetWinner(s) == Human
    ensures Evaluate(s) == 0.0 <==> GetWinner(s) == Draw
  {
  }

  /** evaluate_simple: the score difference alone. */
  function EvaluateSimple(s: GameState): (r: real)
    ensures r > 0.0 <==> GetWinner(s) == AI
    ensures r < 0.0 <==> GetWinner(s) == Human
    ensures r == 0.0 <==> GetWinner(s) == Draw
  {
    ScoreDifference(s) as real
  }
}
