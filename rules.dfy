/** The rules library the engine consumes, seen as an oracle.

    A `Position` records what the library reports about a position: the
    8x8 board, the side to move, whether it is checkmate, whether the game
    is over, its FEN text, and its legal moves in the library's order, each
    with the position it leads to. Legal-move generation, FEN parsing and
    terminal detection are not modelled; any deterministic rules library is
    described by such a (finite) tree of positions. */
module Rules {

  datatype Option<T> = None | Some(value: T)

  datatype Color = White | Black

  datatype Kind = Pawn | Knight | Bishop | Rook | Queen | King

  datatype Piece = Piece(kind: Kind, color: Color)

  /** An empty square is `None`. */
  type Square = Option<Piece>

  /** Rows of squares, as the library's `board()` returns them. */
  type Board = seq<seq<Square>>

  /** A move in standard algebraic notation, as listed by `moves()`; never
      the empty string. */
  type Move = s: string | s != [] witness "e4"

  datatype Position = Position(
    board: Board,
    whiteToMove: bool,
    checkmate: bool,
    gameOver: bool,
    fen: string,
    edges: seq<Edge>)

  datatype Edge = Edge(move: Move, target: Position)

  /** The legal moves, in the library's order. */
  function Moves(p: Position): (ms: seq<Move>)
    ensures |ms| == |p.edges|
  {
    seq(|p.edges|, k requires 0 <= k < |p.edges| => p.edges[k].move)
  }

  /** Index of the first occurrence of `m` in `ms`. */
  function IndexOf(ms: seq<Move>, m: Move): (k: nat)
    requires m in ms
    ensures k < |ms| && ms[k] == m
  {
    if ms[0] == m then 0 else 1 + IndexOf(ms[1..], m)
  }

  /** No earlier entry is `m`: a move given by name is the first legal move
      of that name. */
  lemma {:induction false} IndexOfFirst(ms: seq<Move>, m: Move)
    requires m in ms
    ensures forall j :: 0 <= j < IndexOf(ms, m) ==> ms[j] != m
  {
    if ms[0] != m {
      IndexOfFirst(ms[1..], m);
      forall j | 0 < j < IndexOf(ms, m)
        ensures ms[j] != m
      {
        assert ms[j] == ms[1..][j - 1];
      }
    }
  }

  /** The position after playing the legal move `m`. */
  function Apply(p: Position, m: Move): Position
    requires m in Moves(p)
  {
    p.edges[IndexOf(Moves(p), m)].target
  }

  /** The position reached by the `k`-th legal move. */
  function Child(p: Position, k: nat): Position
    requires k < |Moves(p)|
  {
    Apply(p, Moves(p)[k])
  }

  /** The board is 8 rows of 8 squares. */
  predicate WellShaped(b: Board) {
    |b| == 8 && forall r :: 0 <= r < |b| ==> |b[r]| == 8
  }

  /** What the chess rules guarantee of every position in the tree: an 8x8
      board, checkmate is an end of the game, and a position without legal
      moves is an end of the game (checkmate or stalemate). */
  ghost predicate Consistent(p: Position)
    decreases p
  {
    WellShaped(p.board) &&
    (p.checkmate ==> p.gameOver) &&
    (|p.edges| == 0 ==> p.gameOver) &&
    forall k :: 0 <= k < |p.edges| ==> Consistent(p.edges[k].target)
  }

  lemma ChildConsistent(p: Position, k: nat)
    requires Consistent(p) && k < |Moves(p)|
    ensures Consistent(Child(p, k))
  {
    var i := IndexOf(Moves(p), Moves(p)[k]);
    assert Child(p, k) == p.edges[i].target;
  }
}
