/** The entry points: the engine's move for a position, and a random legal
    move. FEN decoding is the rules library's; each method is given the
    position its FEN text decodes to. */
module Engine {
  import opened Scores
  import opened Rules
  import opened Evaluator
  import opened Game
  import opened SearchSpec
  import opened Search
  import opened AlphaBetaProofs
  import opened Pruning
  import opened SearchBounds

  /** Plies searched when the caller gives no depth. */
  const DefaultDepth: nat := 2

  /** `makeSmartMove`: search with the root always maximizing and the full
      window, then play the move found; no move gives no position. The
      result is what unpruned minimax chooses; on positions obeying the
      rules, there is no result exactly when the game is over (or the depth
      is 0). */
  method MakeSmartMove(start: Position, depth: nat := DefaultDepth) returns (fen: Option<string>)
    ensures var u := Unpruned(start, depth, true);
      (fen.None? <==> u.move.None?) &&
      (fen.Some? ==> u.move.value in Moves(start) && fen.value == Apply(start, u.move.value).fen)
    ensures Consistent(start) ==> (fen.None? <==> IsLeaf(start, depth))
  {
    var game := new Chess(start);
    var best := Minimax(game, depth, NegInf, PosInf, true);
    RootEquivalence(start, depth, true);
    MoveIsLegal(start, depth, NegInf, PosInf, true);
    if Consistent(start) {
      SearchFindsMove(start, depth, true);
    }
    if best.move.None? {
      return None;
    }
    game.Move(best.move.value);
    return Some(game.Fen());
  }

  /** `makeRandomMove`, with the random draw given as the index it selects:
      no position when there is no legal move, otherwise the position after
      the selected move. */
  method MakeRandomMove(start: Position, index: nat) returns (fen: Option<string>)
    requires Moves(start) != [] ==> index < |Moves(start)|
    ensures fen.None? <==> Moves(start) == []
    ensures fen.Some? ==> fen.value == Apply(start, Moves(start)[index]).fen
  {
    var game := new Chess(start);
    var moves := game.Moves();
    if |moves| == 0 {
      return None;
    }
    var move := moves[index];
    game.Move(move);
    return Some(game.Fen());
  }

  // ---- The root searched for the side to move ----

  /** `makeSmartMove` with the root maximizing when White is to move and
      minimizing when Black is: the move played is the one unpruned minimax
      chooses for the side to move, and a mate in one for the side to move
      is played (the first move with the mate value, no later than the
      mating move). */
  method MakeSmartMoveForMover(start: Position, depth: nat := DefaultDepth) returns (fen: Option<string>)
    ensures var u := Unpruned(start, depth, start.whiteToMove);
      (fen.None? <==> u.move.None?) &&
      (fen.Some? ==> u.move.value in Moves(start) && fen.value == Apply(start, u.move.value).fen)
    ensures Consistent(start) ==> (fen.None? <==> IsLeaf(start, depth))
    ensures Consistent(start) && !IsLeaf(start, depth) ==>
      forall k :: 0 <= k < |Moves(start)| && Child(start, k).checkmate &&
                  Child(start, k).whiteToMove != start.whiteToMove ==>
        fen.Some? &&
        exists j :: 0 <= j <= k && fen.value == Child(start, j).fen &&
                    MinimaxValue(Child(start, j), depth - 1, !start.whiteToMove) == Fin(MateFor(start.whiteToMove))
  {
    var game := new Chess(start);
    var best := Minimax(game, depth, NegInf, PosInf, game.Turn() == White);
    RootEquivalence(start, depth, start.whiteToMove);
    MoveIsLegal(start, depth, NegInf, PosInf, start.whiteToMove);
    if Consistent(start) {
      SearchFindsMove(start, depth, start.whiteToMove);
    }
    if Consistent(start) && !IsLeaf(start, depth) {
      forall k | 0 <= k < |Moves(start)| && Child(start, k).checkmate &&
                 Child(start, k).whiteToMove != start.whiteToMove
        ensures exists j :: 0 <= j <= k && Unpruned(start, depth, start.whiteToMove).move == Some(Moves(start)[j]) &&
                            MinimaxValue(Child(start, j), depth - 1, !start.whiteToMove) == Fin(MateFor(start.whiteToMove))
      {
        MateInOneChosen(start, depth, start.whiteToMove, k);
      }
    }
    if best.move.None? {
      return None;
    }
    game.Move(best.move.value);
    return Some(game.Fen());
  }

  /** An 8x8 board with no pieces. */
  const Blank: Board := seq(8, _ => seq(8, _ => None))

  /** Black to move with two moves: `Qh4#` mates White, `Ke7` reaches a
      drawn position. */
  const Mated: Position := Position(Blank, true, true, true, "mated", [])
  const Drawn: Position := Position(Blank, true, false, true, "drawn", [])
  const BlackToMove: Position :=
    Position(Blank, false, false, false, "black-to-move", [Edge("Qh4#", Mated), Edge("Ke7", Drawn)])

  /** The first-best choice between two scored moves. */
  lemma PickPair(maximizing: bool, ms: seq<Move>, vs: seq<Score>)
    requires |ms| == 2 && |vs| == 2
    ensures var first := if Above(maximizing, vs[0], Worst(maximizing)) then SearchResult(Some(ms[0]), vs[0])
                         else SearchResult(None, Worst(maximizing));
      Pick(maximizing, ms, vs) ==
        if Above(maximizing, vs[1], first.score) then SearchResult(Some(ms[1]), vs[1]) else first
  {
    assert ms[..1] == [ms[0]] && vs[..1] == [vs[0]];
    assert ms[..1][..0] == [] && vs[..1][..0] == [];
    assert Pick(maximizing, ms[..1][..0], vs[..1][..0]) == SearchResult(None, Worst(maximizing));
    assert Pick(maximizing, ms[..1], vs[..1]) ==
      if Above(maximizing, vs[0], Worst(maximizing)) then SearchResult(Some(ms[0]), vs[0])
      else SearchResult(None, Worst(maximizing));
  }

  /** The two children of `BlackToMove` and their values, whichever side the
      root searches for. */
  lemma BlackToMoveChildren()
    ensures Consistent(BlackToMove)
    ensures Moves(BlackToMove) == ["Qh4#", "Ke7"]
    ensures Child(BlackToMove, 0) == Mated && Child(BlackToMove, 1) == Drawn
    ensures ChildValues(BlackToMove, DefaultDepth, true) == [Fin(-MateScore), Fin(0)]
    ensures ChildValues(BlackToMove, DefaultDepth, false) == [Fin(-MateScore), Fin(0)]
  {
    var p := BlackToMove;
    assert WellShaped(Blank);
    BlankMaterial(Blank);
    assert Consistent(Mated) && Consistent(Drawn);
    assert Moves(p) == ["Qh4#", "Ke7"];
    assert Child(p, 0) == Mated;
    assert Child(p, 1) == Drawn;
    assert Evaluation(Mated) == -MateScore && Evaluation(Drawn) == 0;
  }

  /** With Black to move, the root that always maximizes plays `Ke7`, the
      move best for White, although `Qh4#` mates; the root searched for the
      side to move plays `Qh4#`. */
  lemma RootIgnoresSideToMove()
    ensures Consistent(BlackToMove) && !BlackToMove.whiteToMove
    ensures Moves(BlackToMove) == ["Qh4#", "Ke7"] && Child(BlackToMove, 0).checkmate
    ensures Unpruned(BlackToMove, DefaultDepth, true).move == Some(Moves(BlackToMove)[1])
    ensures Unpruned(BlackToMove, DefaultDepth, BlackToMove.whiteToMove).move == Some(Moves(BlackToMove)[0])
  {
    var p := BlackToMove;
    BlackToMoveChildren();
    var ms := Moves(p);
    PickPair(true, ms, ChildValues(p, DefaultDepth, true));
    PickPair(false, ms, ChildValues(p, DefaultDepth, false));
  }
}
