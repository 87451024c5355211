/** The library's mutable game object: a current position and the stack of
    earlier positions that `undo` returns to. */
module Game {
  import opened Rules

  class Chess {
    var current: Position
    /** Positions before each move not yet undone, most recent last. */
    var history: seq<Position>

    /** `new Chess(fen)`, given the position the FEN text decodes to. */
    constructor (start: Position)
      ensures current == start && history == []
    {
      current := start;
      history := [];
    }

    function Moves(): seq<Move>
      reads this
    {
      Rules.Moves(current)
    }

    function IsGameOver(): bool
      reads this
    {
      current.gameOver
    }

    function IsCheckmate(): bool
      reads this
    {
      current.checkmate
    }

    function Turn(): Color
      reads this
    {
      if current.whiteToMove then White else Black
    }

    function Squares(): seq<seq<Square>>
      reads this
    {
      current.board
    }

    function Fen(): string
      reads this
    {
      current.fen
    }

    /** `move(m)` for a move listed by `moves()`. */
    method Move(m: Move)
      requires m in Moves()
      modifies this
      ensures current == Apply(old(current), m)
      ensures history == old(history) + [old(current)]
    {
      history := history + [current];
      current := Apply(current, m);
    }

    /** `undo()`: back to the position before the last move; reports
        whether there was a move to take back. */
    method Undo() returns (undone: bool)
      modifies this
      ensures undone == (old(history) != [])
      ensures undone ==> current == old(history)[|old(history)| - 1] &&
                         history == old(history)[..|old(history)| - 1]
      ensures !undone ==> current == old(current) && history == old(history)
    {
      undone := history != [];
      if undone {
        current := history[|history| - 1];
        history := history[..|history| - 1];
      }
    }
  }
}
