/** Specification of the search: the alpha-beta search exactly as the loop
    performs it (`AlphaBeta`, `Scan`), and plain minimax without pruning
    (`MinimaxValue`, `Unpruned`) to compare it with. */
module SearchSpec {
  import opened Scores
  import opened Rules
  import opened Evaluator

  /** What one search call returns: the chosen move (none at a leaf, or when
      no child improved on the starting value) and its score. */
  datatype SearchResult = SearchResult(move: Option<Move>, score: Score)

  /** The leaf rule: depth exhausted or game over. */
  predicate IsLeaf(p: Position, depth: nat) {
    depth == 0 || p.gameOver
  }

  // ---- Choosing among scored moves ----

  /** The best of the scores for the side; -Infinity (maximizer) or
      +Infinity (minimizer) when there are none. */
  function BestScore(maximizing: bool, vs: seq<Score>): Score {
    if vs == [] then Worst(maximizing)
    else Better(maximizing, BestScore(maximizing, vs[..|vs| - 1]), vs[|vs| - 1])
  }

  /** Scanning the moves in order, the running best is replaced only when a
      score is strictly better: the first move reaching the best is kept. */
  function Pick(maximizing: bool, ms: seq<Move>, vs: seq<Score>): SearchResult
    requires |ms| == |vs|
  {
    if vs == [] then SearchResult(None, Worst(maximizing))
    else
      var b := Pick(maximizing, ms[..|ms| - 1], vs[..|vs| - 1]);
      if Above(maximizing, vs[|vs| - 1], b.score) then SearchResult(Some(ms[|ms| - 1]), vs[|vs| - 1])
      else b
  }

  // ---- Minimax without pruning ----

  /** The minimax values of the children, in move order. */
  function ChildValues(p: Position, depth: nat, maximizing: bool): (vs: seq<Score>)
    requires depth > 0
    ensures |vs| == |Moves(p)|
    decreases depth, 0
  {
    seq(|Moves(p)|, k requires 0 <= k < |Moves(p)| => MinimaxValue(Child(p, k), depth - 1, !maximizing))
  }

  /** The minimax value of a position searched to `depth` plies. */
  function MinimaxValue(p: Position, depth: nat, maximizing: bool): Score
    decreases depth, 1
  {
    if IsLeaf(p, depth) then Fin(Evaluation(p))
    else BestScore(maximizing, ChildValues(p, depth, maximizing))
  }

  /** Minimax without pruning, with first-best tie-breaking among all moves. */
  function Unpruned(p: Position, depth: nat, maximizing: bool): SearchResult {
    if IsLeaf(p, depth) then SearchResult(None, Fin(Evaluation(p)))
    else Pick(maximizing, Moves(p), ChildValues(p, depth, maximizing))
  }

  // ---- The alpha-beta search as the loop runs it ----

  /** The state of the loop over a node's moves: the window, the running best
      and the scores the children examined so far returned. */
  datatype Frame = Frame(alpha: Score, beta: Score, best: SearchResult, seen: seq<Score>)

  function Start(alpha: Score, beta: Score, maximizing: bool): Frame {
    Frame(alpha, beta, SearchResult(None, Worst(maximizing)), [])
  }

  /** One turn of the loop on the next move: search the child with the
      current window, keep it if strictly better, and narrow the window
      (alpha at a max node, beta at a min node) by the running best. */
  function Advance(p: Position, depth: nat, maximizing: bool, f: Frame): (r: Frame)
    requires depth > 0 && |f.seen| < |Moves(p)|
    ensures |r.seen| == |f.seen| + 1
    decreases depth, 0, |Moves(p)| - |f.seen|, 0
  {
    var i := |f.seen|;
    var s := AlphaBeta(Child(p, i), depth - 1, f.alpha, f.beta, !maximizing).score;
    var best := if Above(maximizing, s, f.best.score) then SearchResult(Some(Moves(p)[i]), s) else f.best;
    var alpha := if maximizing then Max(f.alpha, best.score) else f.alpha;
    var beta := if maximizing then f.beta else Min(f.beta, best.score);
    Frame(alpha, beta, best, f.seen + [s])
  }

  /** The loop from frame `f` on: it ends when the moves run out, or right
      after the turn that makes `beta <= alpha`. Returns the frame it ends
      in. */
  function Scan(p: Position, depth: nat, maximizing: bool, f: Frame): (r: Frame)
    requires depth > 0 && |f.seen| <= |Moves(p)|
    ensures |f.seen| <= |r.seen| <= |Moves(p)|
    decreases depth, 0, |Moves(p)| - |f.seen|, 1
  {
    if |f.seen| == |Moves(p)| then f
    else
      var next := Advance(p, depth, maximizing, f);
      if Le(next.beta, next.alpha) then next else Scan(p, depth, maximizing, next)
  }

  /** The result of `minimax(game, depth, alpha, beta, isMaximizing)`. */
  function AlphaBeta(p: Position, depth: nat, alpha: Score, beta: Score, maximizing: bool): SearchResult
    decreases depth, 1
  {
    if IsLeaf(p, depth) then SearchResult(None, Fin(Evaluation(p)))
    else Scan(p, depth, maximizing, Start(alpha, beta, maximizing)).best
  }

  /** The frame after one turn, with the child's score named. */
  lemma AdvanceStep(p: Position, depth: nat, maximizing: bool, f: Frame)
    requires depth > 0 && |f.seen| < |Moves(p)|
    ensures var i := |f.seen|;
      var s := AlphaBeta(Child(p, i), depth - 1, f.alpha, f.beta, !maximizing).score;
      var next := Advance(p, depth, maximizing, f);
      next.seen == f.seen + [s] &&
      next.best == (if Above(maximizing, s, f.best.score) then SearchResult(Some(Moves(p)[i]), s) else f.best) &&
      next.alpha == (if maximizing then Max(f.alpha, next.best.score) else f.alpha) &&
      next.beta == (if maximizing then f.beta else Min(f.beta, next.best.score))
  {
  }

  /** The loop from a frame with moves left: one turn, then stop if the
      window has closed, else go on. */
  lemma ScanStep(p: Position, depth: nat, maximizing: bool, f: Frame)
    requires depth > 0 && |f.seen| < |Moves(p)|
    ensures var next := Advance(p, depth, maximizing, f);
      Scan(p, depth, maximizing, f) == if Le(next.beta, next.alpha) then next else Scan(p, depth, maximizing, next)
  {
  }

  /** A prefix one longer is the prefix followed by the next element. */
  lemma PrefixExtend<T>(xs: seq<T>, i: nat)
    requires i < |xs|
    ensures xs[..i + 1] == xs[..i] + [xs[i]]
  {
  }

  /** A prefix of a prefix is a prefix. */
  lemma PrefixOfPrefix<T>(xs: seq<T>, j: nat, n: nat)
    requires j <= n <= |xs|
    ensures xs[..n][..j] == xs[..j]
  {
  }

  /** What was there before an append is a prefix of the result. */
  lemma AppendPrefix<T>(xs: seq<T>, x: T)
    ensures (xs + [x])[..|xs|] == xs
  {
  }

  /** An element of a prefix is an element of the whole. */
  lemma PrefixMember<T>(xs: seq<T>, n: nat, x: T)
    requires n <= |xs| && x in xs[..n]
    ensures x in xs
  {
    var k :| 0 <= k < n && xs[..n][k] == x;
    assert xs[k] == x;
  }

  // ---- Properties of the choice among scored moves ----

  /** The best score is at least as good as every score, and is one of them
      unless there are none. */
  lemma {:induction false} BestScoreIsBest(maximizing: bool, vs: seq<Score>)
    ensures forall j :: 0 <= j < |vs| ==> !Above(maximizing, vs[j], BestScore(maximizing, vs))
    ensures vs == [] ==> BestScore(maximizing, vs) == Worst(maximizing)
    ensures vs != [] ==> exists j :: 0 <= j < |vs| && vs[j] == BestScore(maximizing, vs)
  {
    if vs != [] {
      var n := |vs|;
      BestScoreIsBest(maximizing, vs[..n - 1]);
      var b := BestScore(maximizing, vs[..n - 1]);
      var c := BestScore(maximizing, vs);
      forall j | 0 <= j < n
        ensures !Above(maximizing, vs[j], c)
      {
        if j < n - 1 {
          assert vs[..n - 1][j] == vs[j];
        }
      }
      if n == 1 && !Above(maximizing, vs[0], Worst(maximizing)) {
        WorstOnlyTies(maximizing, vs[0]);
      } else if n > 1 && c != vs[n - 1] {
        var j :| 0 <= j < n - 1 && vs[..n - 1][j] == b;
        assert vs[j] == c;
      }
    }
  }

  /** Only the starting value itself is not better than the starting value. */
  lemma WorstOnlyTies(maximizing: bool, s: Score)
    requires !Above(maximizing, s, Worst(maximizing))
    ensures s == Worst(maximizing)
  {
  }

  /** Tie-breaking: the score picked is the best score; the move picked is the
      first whose score equals it, every earlier move scored strictly worse;
      and no move is picked exactly when no score beats the starting value. */
  lemma {:induction false} PickFirstBest(maximizing: bool, ms: seq<Move>, vs: seq<Score>)
    requires |ms| == |vs|
    ensures Pick(maximizing, ms, vs).score == BestScore(maximizing, vs)
    ensures Pick(maximizing, ms, vs).move.None? <==>
              forall j :: 0 <= j < |vs| ==> vs[j] == Worst(maximizing)
    ensures Pick(maximizing, ms, vs).move.Some? ==>
              exists k :: 0 <= k < |vs| && Pick(maximizing, ms, vs).move.value == ms[k] &&
                vs[k] == BestScore(maximizing, vs) &&
                forall j :: 0 <= j < k ==> Above(maximizing, vs[k], vs[j])
  {
    if vs != [] {
      var n := |vs|;
      var ms', vs' := ms[..n - 1], vs[..n - 1];
      PickFirstBest(maximizing, ms', vs');
      var b := Pick(maximizing, ms', vs');
      var r := Pick(maximizing, ms, vs);
      assert forall j :: 0 <= j < n - 1 ==> vs'[j] == vs[j];
      if Above(maximizing, vs[n - 1], b.score) {
        assert r == SearchResult(Some(ms[n - 1]), vs[n - 1]);
        BestScoreIsBest(maximizing, vs');
        forall j | 0 <= j < n - 1
          ensures Above(maximizing, vs[n - 1], vs[j])
        {
          assert !Above(maximizing, vs'[j], b.score);
        }
        assert vs[n - 1] != Worst(maximizing);
      } else {
        assert r == b;
        if b.move.Some? {
          var k :| 0 <= k < n - 1 && b.move.value == ms'[k] && vs'[k] == BestScore(maximizing, vs') &&
                   forall j :: 0 <= j < k ==> Above(maximizing, vs'[k], vs'[j]);
          assert ms'[k] == ms[k];
          assert forall j :: 0 <= j < k ==> Above(maximizing, vs[k], vs[j]);
        } else {
          BestScoreIsBest(maximizing, vs');
          assert b.score == Worst(maximizing);
          WorstOnlyTies(maximizing, vs[n - 1]);
        }
      }
    }
  }

  /** The move picked, if any, is one of the moves scored. */
  lemma PickListed(maximizing: bool, ms: seq<Move>, vs: seq<Score>)
    requires |ms| == |vs|
    ensures Pick(maximizing, ms, vs).move.Some? ==> Pick(maximizing, ms, vs).move.value in ms
  {
    PickFirstBest(maximizing, ms, vs);
    if Pick(maximizing, ms, vs).move.Some? {
      var k :| 0 <= k < |vs| && Pick(maximizing, ms, vs).move.value == ms[k] &&
               vs[k] == BestScore(maximizing, vs) &&
               forall j :: 0 <= j < k ==> Above(maximizing, vs[k], vs[j]);
    }
  }
}
