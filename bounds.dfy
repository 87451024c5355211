/** Consequences of the chess rules for the search: on positions where a
    position without moves is always an end of the game, every score is a
    finite value within the mate scores, the search finds a move exactly
    when the position is not a leaf, and a mate in one is chosen. */
module SearchBounds {
  import opened Scores
  import opened Rules
  import opened Evaluator
  import opened SearchSpec

  /** Minimax values are finite and within -10000 .. 10000. */
  lemma {:induction false} MinimaxBounded(p: Position, depth: nat, maximizing: bool)
    requires Consistent(p)
    ensures MinimaxValue(p, depth, maximizing).Fin?
    ensures -MateScore <= MinimaxValue(p, depth, maximizing).n <= MateScore
    decreases depth, 1
  {
    if IsLeaf(p, depth) {
      EvaluationRange(p);
    } else {
      var vs := ChildValues(p, depth, maximizing);
      ChildValuesBounded(p, depth, maximizing);
      BestScoreIsBest(maximizing, vs);
      assert |vs| > 0;
      var j :| 0 <= j < |vs| && vs[j] == BestScore(maximizing, vs);
      assert vs[j].Fin? && -MateScore <= vs[j].n <= MateScore;
    }
  }

  /** Every child value is finite and within -10000 .. 10000. */
  lemma {:induction false} ChildValuesBounded(p: Position, depth: nat, maximizing: bool)
    requires Consistent(p) && depth > 0
    ensures forall j :: 0 <= j < |Moves(p)| ==>
      ChildValues(p, depth, maximizing)[j].Fin? && -MateScore <= ChildValues(p, depth, maximizing)[j].n <= MateScore
    decreases depth, 0
  {
    var vs := ChildValues(p, depth, maximizing);
    forall j | 0 <= j < |vs|
      ensures vs[j].Fin? && -MateScore <= vs[j].n <= MateScore
    {
      ChildConsistent(p, j);
      MinimaxBounded(Child(p, j), depth - 1, !maximizing);
    }
  }

  /** The unpruned search returns no move exactly when the position is a
      leaf: every position that is not over has a move, and every child
      value beats the starting -Infinity/+Infinity. */
  lemma SearchFindsMove(p: Position, depth: nat, maximizing: bool)
    requires Consistent(p)
    ensures Unpruned(p, depth, maximizing).move.None? <==> IsLeaf(p, depth)
  {
    if !IsLeaf(p, depth) {
      var vs := ChildValues(p, depth, maximizing);
      PickFirstBest(maximizing, Moves(p), vs);
      ChildValuesBounded(p, depth, maximizing);
      assert |vs| > 0 && vs[0].Fin?;
    }
  }

  /** The mate score from the point of view of the side searched for:
      +10000 for the maximizer, -10000 for the minimizer. */
  function MateFor(maximizing: bool): int {
    if maximizing then MateScore else -MateScore
  }

  /** On scores alone: when no score is better than the `k`-th, which beats
      the starting value, the first-best choice has that score and is no
      later than `k`. */
  lemma PickReachesTop(maximizing: bool, ms: seq<Move>, vs: seq<Score>, k: nat)
    requires |ms| == |vs| && k < |vs| && vs[k] != Worst(maximizing)
    requires forall j :: 0 <= j < |vs| ==> !Above(maximizing, vs[j], vs[k])
    ensures Pick(maximizing, ms, vs).score == vs[k]
    ensures exists j :: 0 <= j <= k && Pick(maximizing, ms, vs).move == Some(ms[j]) && vs[j] == vs[k]
  {
    PickFirstBest(maximizing, ms, vs);
    BestScoreIsBest(maximizing, vs);
    var b := BestScore(maximizing, vs);
    var i :| 0 <= i < |vs| && vs[i] == b;
    assert b == vs[k];
    var r := Pick(maximizing, ms, vs);
    var j :| 0 <= j < |vs| && r.move.value == ms[j] && vs[j] == b &&
             forall j' :: 0 <= j' < j ==> Above(maximizing, vs[j], vs[j']);
    assert j <= k;
  }

  /** The value of a move that checkmates the opponent of the side searched
      for. */
  lemma MateChildValue(p: Position, depth: nat, maximizing: bool, k: nat)
    requires Consistent(p) && depth > 0
    requires k < |Moves(p)| && Child(p, k).checkmate && Child(p, k).whiteToMove == !maximizing
    ensures ChildValues(p, depth, maximizing)[k] == Fin(MateFor(maximizing))
  {
    ChildConsistent(p, k);
    assert Child(p, k).gameOver;
  }

  /** Mate in one is chosen: if some move checkmates the opponent, the
      search scores the mate (+10000 for the maximizer, -10000 for the
      minimizer) and plays the first move with that value, which comes no
      later than the mating move. */
  lemma MateInOneChosen(p: Position, depth: nat, maximizing: bool, k: nat)
    requires Consistent(p) && !IsLeaf(p, depth)
    requires k < |Moves(p)| && Child(p, k).checkmate && Child(p, k).whiteToMove == !maximizing
    ensures Unpruned(p, depth, maximizing).score == Fin(MateFor(maximizing))
    ensures exists j :: 0 <= j <= k && Unpruned(p, depth, maximizing).move == Some(Moves(p)[j]) &&
                        MinimaxValue(Child(p, j), depth - 1, !maximizing) == Fin(MateFor(maximizing))
  {
    var ms, vs := Moves(p), ChildValues(p, depth, maximizing);
    ChildValuesBounded(p, depth, maximizing);
    MateChildValue(p, depth, maximizing, k);
    assert forall j :: 0 <= j < |vs| ==> !Above(maximizing, vs[j], vs[k]);
    PickReachesTop(maximizing, ms, vs, k);
    var j :| 0 <= j <= k && Pick(maximizing, ms, vs).move == Some(ms[j]) && vs[j] == vs[k];
    assert vs[j] == MinimaxValue(Child(p, j), depth - 1, !maximizing);
  }
}
