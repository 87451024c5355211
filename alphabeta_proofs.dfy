/** What the alpha-beta search is proved to compute: fail-soft bounds on the
    minimax value at every node, the same score and move as unpruned
    minimax at a root searched with the full window, the moves it examines
    and why it stops, and the bounds that hold on positions obeying the
    chess rules. */
module AlphaBetaProofs {
  import opened Scores
  import opened Rules
  import opened Evaluator
  import opened SearchSpec

  // ---- Small facts about the best score ----

  lemma BestScoreStep(maximizing: bool, vs: seq<Score>, i: nat)
    requires i < |vs|
    ensures BestScore(maximizing, vs[..i + 1]) == Better(maximizing, BestScore(maximizing, vs[..i]), vs[i])
  {
    assert vs[..i + 1][..i] == vs[..i];
  }

  /** The best over all scores is at least the best over a prefix. */
  lemma BestScorePrefix(maximizing: bool, vs: seq<Score>, i: nat)
    requires i <= |vs|
    ensures !Above(maximizing, BestScore(maximizing, vs[..i]), BestScore(maximizing, vs))
  {
    BestScoreIsBest(maximizing, vs);
    BestScoreIsBest(maximizing, vs[..i]);
    if i > 0 {
      var j :| 0 <= j < i && vs[..i][j] == BestScore(maximizing, vs[..i]);
      assert vs[j] == vs[..i][j];
    }
  }

  // ---- One turn of the loop, unfolded ----

  /** The minimax value of the `i`-th child, as listed among the children. */
  lemma ChildValueAt(p: Position, depth: nat, maximizing: bool, i: nat)
    requires depth > 0 && i < |Moves(p)|
    ensures ChildValues(p, depth, maximizing)[i] == MinimaxValue(Child(p, i), depth - 1, !maximizing)
  {
  }

  // ---- Fail-soft bounds at every node ----

  /** The fail-soft relation between a result `r` of a search with window
      (`alpha`, `beta`) and the true minimax value `v`: a result at or below
      alpha is an upper bound, one at or above beta a lower bound, and one
      strictly inside the window is exact. */
  predicate FailSoft(v: Score, r: Score, alpha: Score, beta: Score) {
    (Le(r, alpha) ==> Le(v, r)) &&
    (Le(beta, r) ==> Le(r, v)) &&
    (Less(alpha, r) && Less(r, beta) ==> r == v)
  }

  /** What the loop keeps while it runs at a node entered with window
      (`alpha0`, `beta0`): the window (`alpha`, `beta`) is the entry window
      narrowed by the running best `B`, and the best true value `P` of the
      children examined so far is no better than `B`, and equal to it once
      `B` beats the node's own bound. */
  predicate ScanInvariant(maximizing: bool, alpha0: Score, beta0: Score,
                          alpha: Score, beta: Score, B: Score, P: Score) {
    (if maximizing then alpha == Max(alpha0, B) && beta == beta0
     else beta == Min(beta0, B) && alpha == alpha0) &&
    !Above(maximizing, P, B) &&
    (Above(maximizing, B, if maximizing then alpha0 else beta0) ==> P == B)
  }

  /** One turn of the loop on scores alone: the child returned `s` and has
      true value `v`. Either the window stays open and the invariant holds
      for the new running best, or the loop stops and its result bounds any
      value at least as good as the best true value seen. */
  lemma FailSoftStep(maximizing: bool, alpha0: Score, beta0: Score,
                     alpha: Score, beta: Score, B: Score, P: Score, s: Score, v: Score, V: Score,
                     alpha': Score, beta': Score, B': Score)
    requires Less(alpha0, beta0) && Less(alpha, beta)
    requires ScanInvariant(maximizing, alpha0, beta0, alpha, beta, B, P)
    requires FailSoft(v, s, alpha, beta)
    requires !Above(maximizing, Better(maximizing, P, v), V)
    requires B' == if Above(maximizing, s, B) then s else B
    requires alpha' == if maximizing then Max(alpha, B') else alpha
    requires beta' == if maximizing then beta else Min(beta, B')
    ensures Le(beta', alpha') ==> FailSoft(V, B', alpha0, beta0)
    ensures !Le(beta', alpha') ==> ScanInvariant(maximizing, alpha0, beta0, alpha', beta', B', Better(maximizing, P, v))
  {
  }

  /** When the loop runs out of moves with the window open, the running best
      and the best true value stand in the fail-soft relation. */
  lemma FailSoftEnd(maximizing: bool, alpha0: Score, beta0: Score,
                    alpha: Score, beta: Score, B: Score, P: Score)
    requires Less(alpha0, beta0) && Less(alpha, beta)
    requires ScanInvariant(maximizing, alpha0, beta0, alpha, beta, B, P)
    ensures FailSoft(P, B, alpha0, beta0)
  {
  }

  /** One turn of the loop: the child's fail-soft bounds carry the invariant
      to the next frame, or, if the window closes, give the node's. */
  lemma {:induction false} FailSoftAdvance(p: Position, depth: nat, maximizing: bool,
                                           alpha0: Score, beta0: Score, f: Frame)
    requires depth > 0 && |f.seen| < |Moves(p)|
    requires Less(alpha0, beta0) && Less(f.alpha, f.beta)
    requires ScanInvariant(maximizing, alpha0, beta0, f.alpha, f.beta, f.best.score,
                           BestScore(maximizing, ChildValues(p, depth, maximizing)[..|f.seen|]))
    ensures var next := Advance(p, depth, maximizing, f);
      var vs := ChildValues(p, depth, maximizing);
      (Le(next.beta, next.alpha) ==> FailSoft(BestScore(maximizing, vs), next.best.score, alpha0, beta0)) &&
      (!Le(next.beta, next.alpha) ==>
         ScanInvariant(maximizing, alpha0, beta0, next.alpha, next.beta, next.best.score,
                       BestScore(maximizing, vs[..|next.seen|])))
    decreases depth, 0, |Moves(p)| - |f.seen|, 0
  {
    var vs := ChildValues(p, depth, maximizing);
    var i := |f.seen|;
    var next := Advance(p, depth, maximizing, f);
    var s := AlphaBeta(Child(p, i), depth - 1, f.alpha, f.beta, !maximizing).score;
    AdvanceStep(p, depth, maximizing, f);
    ChildFailSoft(p, depth, maximizing, f.alpha, f.beta, i);
    BestScoreStep(maximizing, vs, i);
    BestScorePrefix(maximizing, vs, i + 1);
    FailSoftStep(maximizing, alpha0, beta0, f.alpha, f.beta, f.best.score,
                 BestScore(maximizing, vs[..i]), s, vs[i], BestScore(maximizing, vs),
                 next.alpha, next.beta, next.best.score);
  }

  /** The fail-soft bounds of the `i`-th child searched with the window
      (`alpha`, `beta`), against its value as listed among the children. */
  lemma ChildFailSoft(p: Position, depth: nat, maximizing: bool, alpha: Score, beta: Score, i: nat)
    requires depth > 0 && i < |Moves(p)| && Less(alpha, beta)
    ensures FailSoft(ChildValues(p, depth, maximizing)[i],
                     AlphaBeta(Child(p, i), depth - 1, alpha, beta, !maximizing).score, alpha, beta)
    decreases depth, 0, 0
  {
    AlphaBetaFailSoft(Child(p, i), depth - 1, alpha, beta, !maximizing);
    ChildValueAt(p, depth, maximizing, i);
  }

  lemma {:induction false} ScanFailSoft(p: Position, depth: nat, maximizing: bool,
                                        alpha0: Score, beta0: Score, f: Frame)
    requires depth > 0 && |f.seen| <= |Moves(p)|
    requires Less(alpha0, beta0) && Less(f.alpha, f.beta)
    requires ScanInvariant(maximizing, alpha0, beta0, f.alpha, f.beta, f.best.score,
                           BestScore(maximizing, ChildValues(p, depth, maximizing)[..|f.seen|]))
    ensures FailSoft(BestScore(maximizing, ChildValues(p, depth, maximizing)),
                     Scan(p, depth, maximizing, f).best.score, alpha0, beta0)
    decreases depth, 0, |Moves(p)| - |f.seen|, 1
  {
    var vs := ChildValues(p, depth, maximizing);
    var i := |f.seen|;
    if i == |Moves(p)| {
      assert vs[..i] == vs;
      assert Scan(p, depth, maximizing, f) == f;
      FailSoftEnd(maximizing, alpha0, beta0, f.alpha, f.beta, f.best.score, BestScore(maximizing, vs));
    } else {
      var next := Advance(p, depth, maximizing, f);
      FailSoftAdvance(p, depth, maximizing, alpha0, beta0, f);
      if Le(next.beta, next.alpha) {
        assert Scan(p, depth, maximizing, f) == next;
      } else {
        assert Scan(p, depth, maximizing, f) == Scan(p, depth, maximizing, next);
        ScanFailSoft(p, depth, maximizing, alpha0, beta0, next);
      }
    }
  }

  /** Fail-soft alpha-beta: for any window with alpha < beta the score the
      search returns bounds or equals the minimax value. */
  lemma {:induction false} AlphaBetaFailSoft(p: Position, depth: nat, alpha: Score, beta: Score, maximizing: bool)
    requires Less(alpha, beta)
    ensures FailSoft(MinimaxValue(p, depth, maximizing), AlphaBeta(p, depth, alpha, beta, maximizing).score, alpha, beta)
    decreases depth, 1
  {
    if !IsLeaf(p, depth) {
      ScanFailSoft(p, depth, maximizing, alpha, beta, Start(alpha, beta, maximizing));
    }
  }

  /** A minimax value strictly inside the window is found exactly; one at or
      beyond a bound makes the search fail on that side. */
  lemma WindowExact(p: Position, depth: nat, alpha: Score, beta: Score, maximizing: bool)
    requires Less(alpha, beta)
    ensures var v, r := MinimaxValue(p, depth, maximizing), AlphaBeta(p, depth, alpha, beta, maximizing).score;
      (Less(alpha, v) && Less(v, beta) ==> r == v) &&
      (Le(v, alpha) ==> Le(r, alpha)) &&
      (Le(beta, v) ==> Le(beta, r))
  {
    AlphaBetaFailSoft(p, depth, alpha, beta, maximizing);
  }

  // ---- The root: full window, same score and same move ----

  /** Once the running best is the best score possible, no later move is
      strictly better and the choice no longer changes. */
  lemma {:induction false} PickKeepsTop(maximizing: bool, ms: seq<Move>, vs: seq<Score>, k: nat)
    requires |ms| == |vs| && k <= |vs|
    requires Pick(maximizing, ms[..k], vs[..k]).score == Worst(!maximizing)
    ensures Pick(maximizing, ms, vs) == Pick(maximizing, ms[..k], vs[..k])
    decreases |vs|
  {
    var n := |vs|;
    if n == k {
      assert ms[..k] == ms && vs[..k] == vs;
    } else {
      assert ms[..n - 1][..k] == ms[..k] && vs[..n - 1][..k] == vs[..k];
      PickKeepsTop(maximizing, ms[..n - 1], vs[..n - 1], k);
    }
  }

  lemma PickStep(maximizing: bool, ms: seq<Move>, vs: seq<Score>, i: nat)
    requires |ms| == |vs| && i < |vs|
    ensures Pick(maximizing, ms[..i + 1], vs[..i + 1]) ==
      (var b := Pick(maximizing, ms[..i], vs[..i]);
       if Above(maximizing, vs[i], b.score) then SearchResult(Some(ms[i]), vs[i]) else b)
  {
    assert ms[..i + 1][..i] == ms[..i] && vs[..i + 1][..i] == vs[..i];
  }

  /** One turn of the loop at a root, on scores alone: with the window
      (`B`, +Infinity) at a max node or (-Infinity, `B`) at a min node, the
      child's score `s` beats the running best `B` exactly when its true
      value `v` does, and then equals it. */
  lemma RootStep(maximizing: bool, alpha: Score, beta: Score, B: Score, s: Score, v: Score)
    requires if maximizing then alpha == B && beta == PosInf else alpha == NegInf && beta == B
    requires Less(alpha, beta)
    requires FailSoft(v, s, alpha, beta)
    ensures Above(maximizing, s, B) <==> Above(maximizing, v, B)
    ensures Above(maximizing, s, B) ==> s == v
  {
  }

  /** The loop at a root entered with the full window (-Infinity, +Infinity)
      makes the same choice, move by move, as unpruned minimax. */
  lemma {:induction false} ScanRoot(p: Position, depth: nat, maximizing: bool, f: Frame)
    requires depth > 0 && |f.seen| <= |Moves(p)|
    requires f.best == Pick(maximizing, Moves(p)[..|f.seen|], ChildValues(p, depth, maximizing)[..|f.seen|])
    requires if maximizing then f.alpha == f.best.score && f.beta == PosInf
             else f.alpha == NegInf && f.beta == f.best.score
    requires Less(f.alpha, f.beta)
    ensures Scan(p, depth, maximizing, f).best == Pick(maximizing, Moves(p), ChildValues(p, depth, maximizing))
    decreases |Moves(p)| - |f.seen|
  {
    var ms, vs := Moves(p), ChildValues(p, depth, maximizing);
    var i := |f.seen|;
    if i == |ms| {
      assert ms[..i] == ms && vs[..i] == vs;
    } else {
      var next := Advance(p, depth, maximizing, f);
      var s := AlphaBeta(Child(p, i), depth - 1, f.alpha, f.beta, !maximizing).score;
      AdvanceStep(p, depth, maximizing, f);
      ChildFailSoft(p, depth, maximizing, f.alpha, f.beta, i);
      RootStep(maximizing, f.alpha, f.beta, f.best.score, s, vs[i]);
      PickStep(maximizing, ms, vs, i);
      assert next.best == Pick(maximizing, ms[..i + 1], vs[..i + 1]);
      if Le(next.beta, next.alpha) {
        PickKeepsTop(maximizing, ms, vs, i + 1);
      } else {
        ScanRoot(p, depth, maximizing, next);
      }
    }
  }

  /** Root equivalence: searched with the window (-Infinity, +Infinity), the
      pruning search returns the same score and the same move as minimax
      without pruning with first-best tie-breaking. */
  lemma RootEquivalence(p: Position, depth: nat, maximizing: bool)
    ensures AlphaBeta(p, depth, NegInf, PosInf, maximizing) == Unpruned(p, depth, maximizing)
  {
    if !IsLeaf(p, depth) {
      var ms, vs := Moves(p), ChildValues(p, depth, maximizing);
      assert ms[..0] == [] && vs[..0] == [];
      ScanRoot(p, depth, maximizing, Start(NegInf, PosInf, maximizing));
    }
  }

  /** The root score is the minimax value, and the root move is the first
      move whose minimax value equals it. */
  lemma RootResult(p: Position, depth: nat)
    ensures AlphaBeta(p, depth, NegInf, PosInf, true).score == MinimaxValue(p, depth, true)
    ensures AlphaBeta(p, depth, NegInf, PosInf, true).move.Some? ==>
      !IsLeaf(p, depth) &&
      exists k :: 0 <= k < |Moves(p)| && AlphaBeta(p, depth, NegInf, PosInf, true).move.value == Moves(p)[k] &&
        MinimaxValue(Child(p, k), depth - 1, false) == MinimaxValue(p, depth, true) &&
        forall j :: 0 <= j < k ==> Less(MinimaxValue(Child(p, j), depth - 1, false), MinimaxValue(p, depth, true))
  {
    RootEquivalence(p, depth, true);
    var r := AlphaBeta(p, depth, NegInf, PosInf, true);
    if !IsLeaf(p, depth) {
      var ms, vs := Moves(p), ChildValues(p, depth, true);
      PickFirstBest(true, ms, vs);
      if r.move.Some? {
        var k :| 0 <= k < |vs| && r.move.value == ms[k] && vs[k] == BestScore(true, vs) &&
                 forall j :: 0 <= j < k ==> Above(true, vs[k], vs[j]);
        assert vs[k] == MinimaxValue(Child(p, k), depth - 1, false);
        forall j | 0 <= j < k
          ensures Less(MinimaxValue(Child(p, j), depth - 1, false), MinimaxValue(p, depth, true))
        {
          assert vs[j] == MinimaxValue(Child(p, j), depth - 1, false);
        }
      }
    }
  }
}
