/** Which children a node examines, with which window, and why it stops:
    the loop's behaviour stated over the list of scores the examined
    children returned. */
module Pruning {
  import opened Scores
  import opened Rules
  import opened Evaluator
  import opened SearchSpec

  /** Alpha after the children whose scores are `seen`: a max node raises it
      to its running best, a min node leaves it. */
  function WindowAlpha(maximizing: bool, alpha: Score, seen: seq<Score>): Score {
    if maximizing then Max(alpha, BestScore(true, seen)) else alpha
  }

  /** Beta after the children whose scores are `seen`: a min node lowers it
      to its running best, a max node leaves it. */
  function WindowBeta(maximizing: bool, beta: Score, seen: seq<Score>): Score {
    if maximizing then beta else Min(beta, BestScore(false, seen))
  }

  /** Each examined child returned the score of searching it with the
      window left by the children before it. */
  ghost predicate SearchedInOrder(p: Position, depth: nat, maximizing: bool,
                                  alpha: Score, beta: Score, seen: seq<Score>)
    requires depth > 0
    decreases |seen|
  {
    |seen| <= |Moves(p)| &&
    (seen != [] ==>
       var j := |seen| - 1;
       SearchedInOrder(p, depth, maximizing, alpha, beta, seen[..j]) &&
       seen[j] == AlphaBeta(Child(p, j), depth - 1, WindowAlpha(maximizing, alpha, seen[..j]),
                            WindowBeta(maximizing, beta, seen[..j]), !maximizing).score)
  }

  /** The window after each of the first `n` children (from the first on)
      was still open. */
  predicate OpenAfter(maximizing: bool, alpha: Score, beta: Score, seen: seq<Score>, n: nat)
    requires n <= |seen|
  {
    forall j :: 0 < j <= n ==>
      Less(WindowAlpha(maximizing, alpha, seen[..j]), WindowBeta(maximizing, beta, seen[..j]))
  }

  /** What the loop keeps: the running best is the first-best choice among
      the examined moves, the window is the entry window narrowed by it, each
      examined child was searched with the window of its turn, and the
      window has stayed open after every examined child. */
  ghost predicate TraceInvariant(p: Position, depth: nat, maximizing: bool,
                                 alpha: Score, beta: Score, f: Frame)
    requires depth > 0
  {
    SearchedInOrder(p, depth, maximizing, alpha, beta, f.seen) &&
    f.best == Pick(maximizing, Moves(p)[..|f.seen|], f.seen) &&
    f.alpha == WindowAlpha(maximizing, alpha, f.seen) &&
    f.beta == WindowBeta(maximizing, beta, f.seen)
  }

  /** One turn on the running best and the window, stated on scores alone:
      keeping the new score only when strictly better and narrowing the
      window by the running best gives the first-best choice and the window
      of the longer list. */
  lemma PickWindowStep(maximizing: bool, alpha: Score, beta: Score, ms: seq<Move>, seen: seq<Score>,
                       m: Move, s: Score, f: Frame)
    requires |ms| == |seen|
    requires f.best == Pick(maximizing, ms, seen)
    requires f.alpha == WindowAlpha(maximizing, alpha, seen)
    requires f.beta == WindowBeta(maximizing, beta, seen)
    ensures var best := if Above(maximizing, s, f.best.score) then SearchResult(Some(m), s) else f.best;
      best == Pick(maximizing, ms + [m], seen + [s]) &&
      (if maximizing then Max(f.alpha, best.score) else f.alpha) == WindowAlpha(maximizing, alpha, seen + [s]) &&
      (if maximizing then f.beta else Min(f.beta, best.score)) == WindowBeta(maximizing, beta, seen + [s])
  {
    PickFirstBest(maximizing, ms, seen);
    assert (seen + [s])[..|seen|] == seen;
    assert (ms + [m])[..|ms|] == ms;
    assert BestScore(maximizing, seen + [s]) == Better(maximizing, BestScore(maximizing, seen), s);
  }

  /** Searching the next child with the window left by the examined ones
      extends the searched-in-order list. */
  lemma SearchedExtend(p: Position, depth: nat, maximizing: bool, alpha: Score, beta: Score,
                       seen: seq<Score>, s: Score)
    requires depth > 0 && |seen| < |Moves(p)|
    requires SearchedInOrder(p, depth, maximizing, alpha, beta, seen)
    requires s == AlphaBeta(Child(p, |seen|), depth - 1, WindowAlpha(maximizing, alpha, seen),
                            WindowBeta(maximizing, beta, seen), !maximizing).score
    ensures SearchedInOrder(p, depth, maximizing, alpha, beta, seen + [s])
  {
    AppendPrefix(seen, s);
  }

  /** Each examined child, by its index: searched with the window left by
      the children before it. */
  lemma {:induction false} SearchedAt(p: Position, depth: nat, maximizing: bool, alpha: Score, beta: Score,
                                      seen: seq<Score>, j: nat)
    requires depth > 0 && j < |seen|
    requires SearchedInOrder(p, depth, maximizing, alpha, beta, seen)
    ensures j < |Moves(p)|
    ensures seen[j] == AlphaBeta(Child(p, j), depth - 1, WindowAlpha(maximizing, alpha, seen[..j]),
                                 WindowBeta(maximizing, beta, seen[..j]), !maximizing).score
    decreases |seen|
  {
    var n := |seen| - 1;
    if j < n {
      SearchedAt(p, depth, maximizing, alpha, beta, seen[..n], j);
      PrefixOfPrefix(seen, j, n);
    }
  }

  /** Appending a score leaves the window after the earlier children as it was. */
  lemma OpenExtend(maximizing: bool, alpha: Score, beta: Score, seen: seq<Score>, s: Score)
    requires OpenAfter(maximizing, alpha, beta, seen, |seen|)
    ensures OpenAfter(maximizing, alpha, beta, seen + [s], |seen|)
  {
    forall j | 0 < j <= |seen|
      ensures Less(WindowAlpha(maximizing, alpha, (seen + [s])[..j]), WindowBeta(maximizing, beta, (seen + [s])[..j]))
    {
      assert (seen + [s])[..j] == seen[..j];
    }
  }

  lemma AdvanceTrace(p: Position, depth: nat, maximizing: bool, alpha: Score, beta: Score, f: Frame)
    requires depth > 0 && |f.seen| < |Moves(p)|
    requires TraceInvariant(p, depth, maximizing, alpha, beta, f)
    requires OpenAfter(maximizing, alpha, beta, f.seen, |f.seen|)
    ensures var next := Advance(p, depth, maximizing, f);
      TraceInvariant(p, depth, maximizing, alpha, beta, next) &&
      next.seen[..|f.seen|] == f.seen &&
      OpenAfter(maximizing, alpha, beta, next.seen, |f.seen|)
  {
    var i := |f.seen|;
    var ms := Moves(p);
    var s := AlphaBeta(Child(p, i), depth - 1, f.alpha, f.beta, !maximizing).score;
    var next := Advance(p, depth, maximizing, f);
    AdvanceStep(p, depth, maximizing, f);
    assert next.seen == f.seen + [s];
    assert next.best == Pick(maximizing, ms[..i + 1], next.seen) &&
           next.alpha == WindowAlpha(maximizing, alpha, next.seen) &&
           next.beta == WindowBeta(maximizing, beta, next.seen) by {
      PickWindowStep(maximizing, alpha, beta, ms[..i], f.seen, ms[i], s, f);
      PrefixExtend(ms, i);
    }
    assert SearchedInOrder(p, depth, maximizing, alpha, beta, next.seen) by {
      SearchedExtend(p, depth, maximizing, alpha, beta, f.seen, s);
    }
    assert OpenAfter(maximizing, alpha, beta, next.seen, i) by {
      OpenExtend(maximizing, alpha, beta, f.seen, s);
    }
    assert next.seen[..i] == f.seen;
  }

  /** The conclusion of the trace lemma about the frame `F` the loop ends in,
      having started from `f`. */
  ghost predicate TraceResult(p: Position, depth: nat, maximizing: bool,
                              alpha: Score, beta: Score, f: Frame, F: Frame)
    requires depth > 0
  {
    TraceInvariant(p, depth, maximizing, alpha, beta, F) &&
    |f.seen| <= |F.seen| <= |Moves(p)| &&
    F.seen[..|f.seen|] == f.seen &&
    (|F.seen| == |f.seen| || OpenAfter(maximizing, alpha, beta, F.seen, |F.seen| - 1)) &&
    (|F.seen| < |Moves(p)| ==> Le(F.beta, F.alpha))
  }

  /** The loop ends because the moves ran out. */
  lemma TraceDone(p: Position, depth: nat, maximizing: bool, alpha: Score, beta: Score, f: Frame)
    requires depth > 0 && |f.seen| == |Moves(p)|
    requires TraceInvariant(p, depth, maximizing, alpha, beta, f)
    ensures TraceResult(p, depth, maximizing, alpha, beta, f, Scan(p, depth, maximizing, f))
  {
    assert Scan(p, depth, maximizing, f) == f;
    assert f.seen[..|f.seen|] == f.seen;
  }

  /** The loop ends right after the turn that closes the window. */
  lemma TraceCut(p: Position, depth: nat, maximizing: bool, alpha: Score, beta: Score, f: Frame)
    requires depth > 0 && |f.seen| < |Moves(p)|
    requires TraceInvariant(p, depth, maximizing, alpha, beta, f)
    requires OpenAfter(maximizing, alpha, beta, f.seen, |f.seen|)
    requires var next := Advance(p, depth, maximizing, f); Le(next.beta, next.alpha)
    ensures TraceResult(p, depth, maximizing, alpha, beta, f, Scan(p, depth, maximizing, f))
  {
    AdvanceTrace(p, depth, maximizing, alpha, beta, f);
    assert Scan(p, depth, maximizing, f) == Advance(p, depth, maximizing, f);
  }

  /** The window open after one more child extends the window open after
      each of the children before it. */
  lemma OpenAppend(maximizing: bool, alpha: Score, beta: Score, seen: seq<Score>, n: nat)
    requires n < |seen|
    requires OpenAfter(maximizing, alpha, beta, seen, n)
    requires Less(WindowAlpha(maximizing, alpha, seen[..n + 1]), WindowBeta(maximizing, beta, seen[..n + 1]))
    ensures OpenAfter(maximizing, alpha, beta, seen, n + 1)
  {
  }

  /** The window stays open after this turn: it is open after every
      examined child, the new one included. */
  lemma TraceOn(p: Position, depth: nat, maximizing: bool, alpha: Score, beta: Score, f: Frame)
    requires depth > 0 && |f.seen| < |Moves(p)|
    requires TraceInvariant(p, depth, maximizing, alpha, beta, f)
    requires OpenAfter(maximizing, alpha, beta, f.seen, |f.seen|)
    requires var next := Advance(p, depth, maximizing, f); !Le(next.beta, next.alpha)
    ensures var next := Advance(p, depth, maximizing, f);
      OpenAfter(maximizing, alpha, beta, next.seen, |next.seen|)
  {
    var i := |f.seen|;
    var next := Advance(p, depth, maximizing, f);
    AdvanceTrace(p, depth, maximizing, alpha, beta, f);
    assert next.seen[..i + 1] == next.seen;
    OpenAppend(maximizing, alpha, beta, next.seen, i);
  }

  /** The conclusion for the loop from the next frame on is the conclusion
      for the loop from this frame on. */
  lemma TraceCompose(p: Position, depth: nat, maximizing: bool, alpha: Score, beta: Score,
                     f: Frame, next: Frame, F: Frame)
    requires depth > 0
    requires |next.seen| == |f.seen| + 1 && next.seen[..|f.seen|] == f.seen
    requires OpenAfter(maximizing, alpha, beta, next.seen, |f.seen|)
    requires TraceResult(p, depth, maximizing, alpha, beta, next, F)
    ensures TraceResult(p, depth, maximizing, alpha, beta, f, F)
  {
    var i := |f.seen|;
    assert F.seen[..i + 1] == next.seen;
    assert F.seen[..i + 1][..i] == F.seen[..i];
    if |F.seen| == i + 1 {
      assert F.seen == next.seen;
    }
  }

  lemma {:induction false} ScanTrace(p: Position, depth: nat, maximizing: bool,
                                     alpha: Score, beta: Score, f: Frame)
    requires depth > 0 && |f.seen| <= |Moves(p)|
    requires TraceInvariant(p, depth, maximizing, alpha, beta, f)
    requires OpenAfter(maximizing, alpha, beta, f.seen, |f.seen|)
    ensures TraceResult(p, depth, maximizing, alpha, beta, f, Scan(p, depth, maximizing, f))
    decreases |Moves(p)| - |f.seen|
  {
    if |f.seen| == |Moves(p)| {
      TraceDone(p, depth, maximizing, alpha, beta, f);
    } else if Le(Advance(p, depth, maximizing, f).beta, Advance(p, depth, maximizing, f).alpha) {
      TraceCut(p, depth, maximizing, alpha, beta, f);
    } else {
      var next := Advance(p, depth, maximizing, f);
      AdvanceTrace(p, depth, maximizing, alpha, beta, f);
      TraceOn(p, depth, maximizing, alpha, beta, f);
      ScanTrace(p, depth, maximizing, alpha, beta, next);
      assert Scan(p, depth, maximizing, f) == Scan(p, depth, maximizing, next);
      TraceCompose(p, depth, maximizing, alpha, beta, f, next, Scan(p, depth, maximizing, next));
    }
  }

  lemma TraceStart(p: Position, depth: nat, maximizing: bool, alpha: Score, beta: Score)
    requires depth > 0
    ensures TraceInvariant(p, depth, maximizing, alpha, beta, Start(alpha, beta, maximizing))
    ensures OpenAfter(maximizing, alpha, beta, [], 0)
  {
    assert Moves(p)[..0] == [];
  }

  /** The pruning discipline of a node that is not a leaf. With `seen` the
      scores returned by the children the loop examined (the first
      `|seen|` moves, in order):
      - each child was searched with the window left by the children before
        it: a max node raises alpha to its running best, a min node lowers
        beta to it;
      - the result is the first-best choice among the examined moves, so its
        score is the best of `seen` (-Infinity/+Infinity if none);
      - the loop stops early only once `beta <= alpha`, and the window was
        still open after every examined child but the last. */
  lemma SearchTrace(p: Position, depth: nat, alpha: Score, beta: Score, maximizing: bool)
    requires !IsLeaf(p, depth)
    ensures var F := Scan(p, depth, maximizing, Start(alpha, beta, maximizing));
      var seen := F.seen;
      |seen| <= |Moves(p)| &&
      SearchedInOrder(p, depth, maximizing, alpha, beta, seen) &&
      AlphaBeta(p, depth, alpha, beta, maximizing) == Pick(maximizing, Moves(p)[..|seen|], seen) &&
      AlphaBeta(p, depth, alpha, beta, maximizing).score == BestScore(maximizing, seen) &&
      (|seen| < |Moves(p)| ==>
         Le(WindowBeta(maximizing, beta, seen), WindowAlpha(maximizing, alpha, seen))) &&
      (|seen| == 0 || OpenAfter(maximizing, alpha, beta, seen, |seen| - 1))
  {
    var f := Start(alpha, beta, maximizing);
    TraceStart(p, depth, maximizing, alpha, beta);
    ScanTrace(p, depth, maximizing, alpha, beta, f);
    var F := Scan(p, depth, maximizing, f);
    assert AlphaBeta(p, depth, alpha, beta, maximizing) == F.best;
    PickFirstBest(maximizing, Moves(p)[..|F.seen|], F.seen);
  }

  /** A move returned by the search is a legal move of the position searched,
      and a leaf returns no move. */
  lemma MoveIsLegal(p: Position, depth: nat, alpha: Score, beta: Score, maximizing: bool)
    ensures IsLeaf(p, depth) ==> AlphaBeta(p, depth, alpha, beta, maximizing) == SearchResult(None, Fin(Evaluation(p)))
    ensures AlphaBeta(p, depth, alpha, beta, maximizing).move.Some? ==>
              !IsLeaf(p, depth) && AlphaBeta(p, depth, alpha, beta, maximizing).move.value in Moves(p)
  {
    if !IsLeaf(p, depth) {
      SearchTrace(p, depth, alpha, beta, maximizing);
      var F := Scan(p, depth, maximizing, Start(alpha, beta, maximizing));
      var n := |F.seen|;
      PickListed(maximizing, Moves(p)[..n], F.seen);
      var r := AlphaBeta(p, depth, alpha, beta, maximizing);
      if r.move.Some? {
        PrefixMember(Moves(p), n, r.move.value);
      }
    }
  }
}
