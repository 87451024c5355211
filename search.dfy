/** `minimax`: depth-bounded alpha-beta search over the shared game object,
    playing each move and taking it back. */
module Search {
  import opened Scores
  import opened Rules
  import opened Game
  import opened Evaluator
  import opened SearchSpec

  method Minimax(game: Chess, depth: nat, alpha: Score, beta: Score, isMaximizing: bool)
    returns (result: SearchResult)
    modifies game
    decreases depth
    ensures game.current == old(game.current) && game.history == old(game.history)
    ensures result == AlphaBeta(old(game.current), depth, alpha, beta, isMaximizing)
  {
    if depth == 0 || game.IsGameOver() {
      var score := EvaluateBoard(game);
      return SearchResult(None, Fin(score));
    }
    ghost var p, h := game.current, game.history;
    ghost var final := Scan(p, depth, isMaximizing, Start(alpha, beta, isMaximizing));
    ghost var seen: seq<Score> := [];
    var moves := game.Moves();
    var bestMove: Option<Move> := None;
    var a, b := alpha, beta;

    if isMaximizing {
      var maxScore := NegInf;
      for i := 0 to |moves|
        invariant game.current == p && game.history == h
        invariant |seen| == i
        invariant Scan(p, depth, true, Frame(a, b, SearchResult(bestMove, maxScore), seen)) == final
      {
        ghost var before := Frame(a, b, SearchResult(bestMove, maxScore), seen);
        var move := moves[i];
        game.Move(move);
        var child := Minimax(game, depth - 1, a, b, false);
        var _ := game.Undo();

        if Less(maxScore, child.score) {
          maxScore := child.score;
          bestMove := Some(move);
        }
        a := Max(a, maxScore);
        seen := seen + [child.score];
        assert child.score == AlphaBeta(Child(p, i), depth - 1, before.alpha, before.beta, false).score;
        AdvanceStep(p, depth, true, before);
        ScanStep(p, depth, true, before);
        assert Advance(p, depth, true, before) == Frame(a, b, SearchResult(bestMove, maxScore), seen);
        if Le(b, a) {
          assert Frame(a, b, SearchResult(bestMove, maxScore), seen) == final;
          break;
        }
      }
      assert Frame(a, b, SearchResult(bestMove, maxScore), seen) == final;
      return SearchResult(bestMove, maxScore);
    } else {
      var minScore := PosInf;
      for i := 0 to |moves|
        invariant game.current == p && game.history == h
        invariant |seen| == i
        invariant Scan(p, depth, false, Frame(a, b, SearchResult(bestMove, minScore), seen)) == final
      {
        ghost var before := Frame(a, b, SearchResult(bestMove, minScore), seen);
        var move := moves[i];
        game.Move(move);
        var child := Minimax(game, depth - 1, a, b, true);
        var _ := game.Undo();

        if Less(child.score, minScore) {
          minScore := child.score;
          bestMove := Some(move);
        }
        b := Min(b, minScore);
        seen := seen + [child.score];
        assert child.score == AlphaBeta(Child(p, i), depth - 1, before.alpha, before.beta, true).score;
        AdvanceStep(p, depth, false, before);
        ScanStep(p, depth, false, before);
        assert Advance(p, depth, false, before) == Frame(a, b, SearchResult(bestMove, minScore), seen);
        if Le(b, a) {
          assert Frame(a, b, SearchResult(bestMove, minScore), seen) == final;
          break;
        }
      }
      assert Frame(a, b, SearchResult(bestMove, minScore), seen) == final;
      return SearchResult(bestMove, minScore);
    }
  }
}
