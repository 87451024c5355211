/** The static evaluator: material from White's point of view, overridden by
    a mate score when the side to move is checkmated. */
module Evaluator {
  import opened Rules
  import opened Game

  /** Score of a checkmate; larger than any material total on an 8x8 board. */
  const MateScore: int := 10000

  /** The largest material total on an 8x8 board: 64 queens. */
  const MaxMaterial: int := 9 * 64

  function PieceValue(k: Kind): nat {
    match k
    case Pawn => 1
    case Knight => 3
    case Bishop => 3
    case Rook => 5
    case Queen => 9
    case King => 0
  }

  /** A White piece adds its value, a Black piece subtracts it. */
  function SquareValue(sq: Square): int {
    match sq
    case None => 0
    case Some(pc) => var v: int := PieceValue(pc.kind); if pc.color == White then v else -v
  }

  /** Sum of the square values of a row, in the order the loop visits them. */
  function RowMaterial(row: seq<Square>): int {
    if row == [] then 0 else RowMaterial(row[..|row| - 1]) + SquareValue(row[|row| - 1])
  }

  /** Sum of the row totals of a board. */
  function Material(b: Board): int {
    if b == [] then 0 else Material(b[..|b| - 1]) + RowMaterial(b[|b| - 1])
  }

  /** The value `evaluateBoard` computes for a position. */
  function Evaluation(p: Position): int {
    if p.checkmate then (if p.whiteToMove then -MateScore else MateScore)
    else Material(p.board)
  }

  /** `evaluateBoard`: walks the board row by row, square by square, then
      applies the checkmate override. */
  method EvaluateBoard(game: Chess) returns (score: int)
    ensures score == Evaluation(game.current)
  {
    score := 0;
    var board := game.Squares();
    for r := 0 to |board|
      invariant score == Material(board[..r])
    {
      var row := board[r];
      for c := 0 to |row|
        invariant score == Material(board[..r]) + RowMaterial(row[..c])
      {
        var square := row[c];
        if square.Some? {
          var value: int := PieceValue(square.value.kind);
          score := score + (if square.value.color == White then value else -value);
        }
        assert row[..c + 1][..c] == row[..c];
      }
      assert row[..|row|] == row;
      assert board[..r + 1][..r] == board[..r];
    }
    assert board[..|board|] == board;
    if game.IsCheckmate() {
      return if game.Turn() == White then -MateScore else MateScore;
    }
  }

  // ---- Sums by colour: the total is White's material minus Black's ----

  function SideRow(row: seq<Square>, c: Color): nat {
    if row == [] then 0
    else SideRow(row[..|row| - 1], c) +
         (match row[|row| - 1]
          case Some(pc) => if pc.color == c then PieceValue(pc.kind) else 0
          case None => 0)
  }

  /** Total value of the pieces of colour `c` on the board. */
  function SideMaterial(b: Board, c: Color): nat {
    if b == [] then 0 else SideMaterial(b[..|b| - 1], c) + SideRow(b[|b| - 1], c)
  }

  lemma {:induction false} RowSplit(row: seq<Square>)
    ensures RowMaterial(row) == SideRow(row, White) - SideRow(row, Black)
  {
    if row != [] {
      RowSplit(row[..|row| - 1]);
    }
  }

  /** Material is White's piece values minus Black's. */
  lemma {:induction false} MaterialSplit(b: Board)
    ensures Material(b) == SideMaterial(b, White) - SideMaterial(b, Black)
  {
    if b != [] {
      MaterialSplit(b[..|b| - 1]);
      RowSplit(b[|b| - 1]);
    }
  }

  // ---- Changing one square ----

  lemma {:induction false} RowUpdate(row: seq<Square>, c: nat, x: Square)
    requires c < |row|
    ensures RowMaterial(row[c := x]) == RowMaterial(row) - SquareValue(row[c]) + SquareValue(x)
  {
    var n := |row|;
    if c < n - 1 {
      assert row[c := x][..n - 1] == row[..n - 1][c := x];
      RowUpdate(row[..n - 1], c, x);
    } else {
      assert row[c := x][..n - 1] == row[..n - 1];
    }
  }

  /** Replacing the piece on one square changes the material by exactly the
      difference of the two square values. */
  lemma {:induction false} MaterialUpdate(b: Board, r: nat, c: nat, x: Square)
    requires r < |b| && c < |b[r]|
    ensures Material(b[r := b[r][c := x]]) == Material(b) - SquareValue(b[r][c]) + SquareValue(x)
  {
    var n := |b|;
    var b' := b[r := b[r][c := x]];
    if r < n - 1 {
      assert b'[..n - 1] == b[..n - 1][r := b[r][c := x]];
      MaterialUpdate(b[..n - 1], r, c, x);
    } else {
      assert b'[..n - 1] == b[..n - 1];
      RowUpdate(b[r], c, x);
    }
  }

  /** Taking a Black queen off the board raises the evaluation of a position
      that is not checkmate by exactly 9. */
  lemma BlackQueenRemoved(p: Position, r: nat, c: nat)
    requires r < |p.board| && c < |p.board[r]|
    requires p.board[r][c] == Some(Piece(Queen, Black))
    requires !p.checkmate
    ensures Evaluation(p.(board := p.board[r := p.board[r][c := None]])) == Evaluation(p) + 9
  {
    MaterialUpdate(p.board, r, c, None);
  }

  /** A board with no pieces is worth 0. */
  lemma {:induction false} BlankMaterial(b: Board)
    requires forall r, c :: 0 <= r < |b| && 0 <= c < |b[r]| ==> b[r][c].None?
    ensures Material(b) == 0
  {
    if b != [] {
      var n := |b|;
      BlankMaterial(b[..n - 1]);
      BlankRow(b[n - 1]);
    }
  }

  lemma {:induction false} BlankRow(row: seq<Square>)
    requires forall c :: 0 <= c < |row| ==> row[c].None?
    ensures RowMaterial(row) == 0
  {
    if row != [] {
      BlankRow(row[..|row| - 1]);
    }
  }

  // ---- Bounds: the mate score dominates every material total ----

  lemma {:induction false} RowBound(row: seq<Square>)
    ensures -9 * |row| <= RowMaterial(row) <= 9 * |row|
  {
    if row != [] {
      RowBound(row[..|row| - 1]);
    }
  }

  lemma {:induction false} MaterialBound(b: Board)
    requires forall r :: 0 <= r < |b| ==> |b[r]| <= 8
    ensures -72 * |b| <= Material(b) <= 72 * |b|
  {
    if b != [] {
      MaterialBound(b[..|b| - 1]);
      RowBound(b[|b| - 1]);
    }
  }

  /** On an 8x8 board the evaluation is the material, bounded by 9 * 64 in
      absolute value, unless the side to move is mated; then it is -10000
      when White is mated and +10000 when Black is, whatever the material. */
  lemma EvaluationRange(p: Position)
    requires WellShaped(p.board)
    ensures !p.checkmate ==> -MaxMaterial <= Evaluation(p) <= MaxMaterial < MateScore
    ensures p.checkmate ==> Evaluation(p) == (if p.whiteToMove then -MateScore else MateScore)
  {
    MaterialBound(p.board);
  }

  // ---- Colour symmetry ----

  function Recolor(sq: Square): Square {
    match sq
    case None => None
    case Some(pc) => Some(Piece(pc.kind, if pc.color == White then Black else White))
  }

  function RecolorRow(row: seq<Square>): (r: seq<Square>)
    ensures |r| == |row|
  {
    if row == [] then [] else RecolorRow(row[..|row| - 1]) + [Recolor(row[|row| - 1])]
  }

  function RecolorBoard(b: Board): (r: Board)
    ensures |r| == |b|
  {
    if b == [] then [] else RecolorBoard(b[..|b| - 1]) + [RecolorRow(b[|b| - 1])]
  }

  lemma {:induction false} RecolorRowNegates(row: seq<Square>)
    ensures RowMaterial(RecolorRow(row)) == -RowMaterial(row)
  {
    if row != [] {
      var n := |row|;
      RecolorRowNegates(row[..n - 1]);
      assert (RecolorRow(row[..n - 1]) + [Recolor(row[n - 1])])[..n - 1] == RecolorRow(row[..n - 1]);
    }
  }

  /** Swapping the colours of all pieces negates the material. */
  lemma {:induction false} RecolorNegates(b: Board)
    ensures Material(RecolorBoard(b)) == -Material(b)
  {
    if b != [] {
      var n := |b|;
      RecolorNegates(b[..n - 1]);
      RecolorRowNegates(b[n - 1]);
      assert (RecolorBoard(b[..n - 1]) + [RecolorRow(b[n - 1])])[..n - 1] == RecolorBoard(b[..n - 1]);
    }
  }
}
