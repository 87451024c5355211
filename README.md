# Chess move-search engine, modelled in Dafny

This project models the move-search engine of the chess puzzle app, `lib/chessAI.ts`. It has four parts:

- `evaluateBoard` is a static evaluator. It sums material from White's point of view: p=1, n=3, b=3, r=5, q=9, k=0. If the side to move is checkmated, a mate score of -10000 or +10000 replaces the sum.
- `minimax` is a depth-bounded minimax search with fail-soft alpha-beta pruning. It plays each move on one shared game object and takes it back with `undo`.
- `makeSmartMove` searches two plies with the root always maximizing. It returns the FEN of the position after the chosen move, or nothing.
- `makeRandomMove` plays a legal move chosen by a random index.

The chess rules library is not part of this model. It stands as a concrete game tree:
- A `Position` (module `Rules`) carries its board, the side to move, the checkmate and game-over flags, and its FEN text.
- It also carries its legal moves in library order, each leading to the position that move reaches.
- `Apply(p, m)` plays a move given by its name. It takes the first listed move of that name, as `move(san)` does.
- The library's mutable game object is the class `Game.Chess`. It holds a current position and the stack of positions that `undo` returns to.

Scores are `NegInf | Fin(n) | PosInf` (module `Scores`), which is exactly the `-Infinity`, integers and `Infinity` that the search compares.

The search is specified twice (module `SearchSpec`):
- `AlphaBeta` (with `Scan` and `Advance`) is the loop exactly as written: the window passed down, the strict comparisons, and the break once `beta <= alpha`.
- `MinimaxValue` and `Unpruned` are plain minimax without pruning, with first-best tie-breaking among all moves.

The method `Search.Minimax` is proved to return `AlphaBeta` of the position it was given, and to leave the game object as it found it. The lemmas then relate `AlphaBeta` to unpruned minimax:
- fail-soft bounds at every node;
- equality at a root searched with the full window;
- which children are examined, and with which window.

## Model

| member | source | states |
|---|---|---|
| Scores.Max | lib/chessAI.ts:47 | `Math.max` on scores: the result is at least both arguments and is one of them |
| Scores.Min | lib/chessAI.ts:62 | `Math.min` on scores: the result is at most both arguments and is one of them |
| Game.Chess.constructor | lib/chessAI.ts:5 | a new game object stands at the given position with an empty history |
| Game.Chess.Move | lib/chessAI.ts:39 | playing a legal move moves to the position it reaches and pushes the old position on the history |
| Game.Chess.Undo | lib/chessAI.ts:41 | undo pops the history back to the previous position; with an empty history nothing changes and it reports that |
| Evaluator.EvaluateBoard | lib/chessAI.ts:70-92 | the nested loops over rows and squares compute the material sum, and checkmate overrides it with -10000 (White to move) or +10000 (Black to move) |
| Evaluator.MaterialSplit | lib/chessAI.ts:78-85 | the material sum is the total value of White's pieces minus the total value of Black's |
| Evaluator.MaterialUpdate | lib/chessAI.ts:78-85 | replacing the piece on one square changes the material by exactly the difference of the two square values |
| Evaluator.BlackQueenRemoved | lib/chessAI.ts:71-91 | taking a Black queen off the board of a position that is not checkmate raises the evaluation by exactly 9 |
| Evaluator.MaterialBound | lib/chessAI.ts:78-85 | a board of rows of at most 8 squares has material within 72 per row in absolute value |
| Evaluator.EvaluationRange | lib/chessAI.ts:71-91 | on an 8x8 board, a position that is not checkmate evaluates within 9·64 < 10000 in absolute value; a checkmate evaluates to the mate score of the right sign whatever the material |
| Evaluator.RecolorNegates | lib/chessAI.ts:82 | swapping the colours of all pieces negates the material |
| Evaluator.BlankMaterial | lib/chessAI.ts:78-85 | a board without pieces is worth 0 |
| SearchSpec.BestScoreIsBest | lib/chessAI.ts:37-50 | the best score over the children is at least as good as each of them, is one of them, and is -Infinity (max) or +Infinity (min) when there are none |
| SearchSpec.PickFirstBest | lib/chessAI.ts:43-46 | the strict comparison keeps the first move reaching the best score, with every earlier move strictly worse; no move is kept exactly when every score equals the starting infinity |
| SearchSpec.PickListed | lib/chessAI.ts:43-46 | the move kept is one of the moves scored |
| Search.Minimax | lib/chessAI.ts:28-67 | the recursive search with move/undo returns `AlphaBeta` of the position it was called on and leaves the game's position and history as they were |
| AlphaBetaProofs.BestScorePrefix | lib/chessAI.ts:37-50 | the best over all children is at least the best over the first ones |
| AlphaBetaProofs.FailSoftStep | lib/chessAI.ts:43-48 | one turn of the loop, on scores alone: the child's fail-soft bounds either keep the loop's invariant or, on a cut-off, give the node's own fail-soft bounds |
| AlphaBetaProofs.FailSoftEnd | lib/chessAI.ts:50 | when the moves run out with the window open, the running best stands in the fail-soft relation to the best child value |
| AlphaBetaProofs.FailSoftAdvance | lib/chessAI.ts:38-48 | one turn of the loop on a position carries the fail-soft invariant to the next frame, or establishes the node's bounds on a cut-off |
| AlphaBetaProofs.ChildFailSoft | lib/chessAI.ts:40 | the recursive call on a child obeys the fail-soft bounds against the child's minimax value |
| AlphaBetaProofs.ScanFailSoft | lib/chessAI.ts:38-50 | the whole loop from any frame that keeps the invariant returns a score in the fail-soft relation to the node's minimax value |
| AlphaBetaProofs.AlphaBetaFailSoft | lib/chessAI.ts:28-67 | for every window with alpha < beta, a result at or below alpha bounds the minimax value from above, one at or above beta bounds it from below, and one strictly inside is exact |
| AlphaBetaProofs.WindowExact | lib/chessAI.ts:28-67 | a minimax value strictly inside the window is found exactly; a value at or beyond a bound makes the search fail on that side |
| AlphaBetaProofs.PickKeepsTop | lib/chessAI.ts:43-48 | once the running best is the best possible score, no later move changes the choice, so a cut-off loses nothing |
| AlphaBetaProofs.PickStep | lib/chessAI.ts:43-46 | the choice among one more move keeps the previous choice unless the new score is strictly better |
| AlphaBetaProofs.RootStep | lib/chessAI.ts:43-48 | with the root's window, a child's returned score beats the running best exactly when its true value does, and then equals it |
| AlphaBetaProofs.ScanRoot | lib/chessAI.ts:38-50 | the loop at a root with the full window makes the same choice, move by move, as unpruned minimax |
| AlphaBetaProofs.RootEquivalence | lib/chessAI.ts:28-67 | searched with the window (-Infinity, +Infinity), the pruning search returns the same move and score as unpruned minimax with first-best tie-breaking |
| AlphaBetaProofs.RootResult | lib/chessAI.ts:20 | the root score of `makeSmartMove`'s search is the minimax value, and its move is the first move whose value equals it, every earlier move being strictly worse |
| Pruning.PickWindowStep | lib/chessAI.ts:43-48 | one turn on scores alone: the running best stays the first-best choice, and the window is the entry window narrowed by the best of the scores seen |
| Pruning.SearchedExtend | lib/chessAI.ts:40 | searching the next child with the current window extends the record of children searched in order |
| Pruning.SearchedAt | lib/chessAI.ts:40 | each examined child, by its index, was searched with the window left by the children before it |
| Pruning.OpenExtend | lib/chessAI.ts:48 | another child's score does not change the windows after the earlier children |
| Pruning.AdvanceTrace | lib/chessAI.ts:38-48 | one turn of the loop keeps the trace invariant: first-best choice, window narrowed by the running best, children searched in order |
| Pruning.TraceDone | lib/chessAI.ts:38 | the loop ending because the moves ran out satisfies the trace conclusion |
| Pruning.TraceCut | lib/chessAI.ts:48 | the loop ending at the turn that makes `beta <= alpha` satisfies the trace conclusion |
| Pruning.OpenAppend | lib/chessAI.ts:48 | the window open after one more child extends the window open after each earlier child |
| Pruning.TraceOn | lib/chessAI.ts:48 | when the turn leaves the window open, it was open after every examined child, the new one included |
| Pruning.TraceCompose | lib/chessAI.ts:38-49 | the trace conclusion from the next frame on gives the conclusion from this frame on |
| Pruning.ScanTrace | lib/chessAI.ts:38-49 | the loop from any frame keeping the trace invariant ends in a frame satisfying the trace conclusion |
| Pruning.TraceStart | lib/chessAI.ts:34-37 | the loop's initial frame (no move, -Infinity or +Infinity, entry window) satisfies the trace invariant |
| Pruning.SearchTrace | lib/chessAI.ts:36-65 | at a node that is not a leaf: the examined children are a prefix of the moves, each searched with the window left by the ones before it; a max node raises alpha to its running best, a min node lowers beta to it; the result is the first-best choice among them, with score their max (min), or ∓Infinity if none; the loop stops early only once `beta <= alpha`, and the window was open after every earlier child |
| Pruning.MoveIsLegal | lib/chessAI.ts:29-61 | a leaf returns no move and its evaluation; a move returned is a legal move of the position searched, which is not a leaf |
| SearchBounds.MinimaxBounded | lib/chessAI.ts:29-31 | on positions obeying the rules, minimax values are finite and within -10000..10000 |
| SearchBounds.ChildValuesBounded | lib/chessAI.ts:40 | on positions obeying the rules, every child value is finite and within -10000..10000 |
| SearchBounds.SearchFindsMove | lib/chessAI.ts:22 | on positions obeying the rules, unpruned minimax (the root search, by `RootEquivalence`) returns no move exactly when the position is a leaf |
| SearchBounds.PickReachesTop | lib/chessAI.ts:43-46 | when no score beats the `k`-th, which beats the starting infinity, the choice has that score and comes no later than `k` |
| SearchBounds.MateChildValue | lib/chessAI.ts:87-89 | a move that checkmates the opponent is worth the mate score for the side searched for |
| SearchBounds.MateInOneChosen | lib/chessAI.ts:43-46 | if a move checkmates the opponent, unpruned minimax (the root search, by `RootEquivalence`) scores the mate (+10000 for the maximizer, -10000 for the minimizer) and plays the first move with that value, no later than the mating move |
| Engine.MakeSmartMove | lib/chessAI.ts:18-26 | with depth 2 by default and the root always maximizing: no FEN exactly when unpruned minimax finds no move, otherwise the FEN after that (legal) move; on positions obeying the rules, no FEN exactly when the game is over or the depth is 0 |
| Engine.MakeRandomMove | lib/chessAI.ts:4-15 | no FEN exactly when there is no legal move, otherwise the FEN after the move at the drawn index |
| Engine.RootIgnoresSideToMove | lib/chessAI.ts:20 | a position with Black to move where `makeSmartMove`'s root plays the move best for White although a mate in one is available, while the root searched for the side to move plays the mate |
| Engine.MakeSmartMoveForMover | lib/chessAI.ts:20 | the entry point with the root maximizing for White and minimizing for Black plays what unpruned minimax chooses for the side to move; when a move mates the opponent it returns the FEN after the first move with the mate value, no later than that move |

## Left out

- The chess rules library itself is not part of this model: move generation, FEN decoding and encoding, and checkmate and draw detection. Positions are given as a game tree carrying these facts. `Rules.Consistent` states what the rules guarantee of that tree: an 8x8 board, checkmate only when the game is over, and game over whenever there is no legal move.
- The tree is finite, being a datatype value. Only the part of the real game within the searched depth is ever examined.
- `new Chess(fen)` on a malformed FEN throws in the source. The entry points here take the decoded position, so that error path is not modelled.
- `Math.random` and `Math.floor` in `makeRandomMove` are not modelled. The drawn index is a parameter, required to be a valid index when there are moves.
- Engine.MakeSmartMove: `depth` is a natural number. In the source a negative or fractional depth never equals 0, so the recursion runs until the game ends; that case is not modelled.
- Moves are non-empty strings, since the library's move names are never empty. The source's `!bestMove.move` test is therefore the same as "no move".
- `undo()` returns the move undone or `null` in the source; `Game.Chess.Undo` reports only whether there was one.
- Draws are scored by plain material, as in the source: a stalemate or other draw gets no score of its own.
- The user interface, the HTTP routes and the database code are not part of this model.
- Scores are from White's point of view (White's material minus Black's), whichever side is to move; the model does the same.
- The pruning search equals unpruned minimax only at a root searched with (-Infinity, +Infinity), as `makeSmartMove` does (`RootEquivalence`). With a narrowed window it gives only the fail-soft bounds (`AlphaBetaFailSoft`, `WindowExact`), so no equality is stated there.

## Findings

| source | as written | input that shows it | evidently intended | confidence | as-written member | corrected member |
|---|---|---|---|---|---|---|
| lib/chessAI.ts:20 | the root of the search is always maximizing, i.e. it picks the move best for White even when Black is to move (the app asks for a move whenever it is not the player's turn, so the engine plays Black for a White player) | Black to move with moves `Qh4#` (mates White) and `Ke7` (a drawn position): the root maximizing White's score plays `Ke7` | start the root as maximizing exactly when White is to move, so the engine plays for the side to move | high (not executed) | Engine.RootIgnoresSideToMove | Engine.MakeSmartMoveForMover |
