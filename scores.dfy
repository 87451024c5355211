/** Search scores: the integer evaluations together with the two infinities
    that the search uses as the starting value of a running best and as the
    initial alpha-beta window. */
module Scores {

  datatype Score = NegInf | Fin(n: int) | PosInf

  /** Strict order of the extended integers. */
  predicate Less(a: Score, b: Score) {
    (a.NegInf? && !b.NegInf?) ||
    (a.Fin? && b.PosInf?) ||
    (a.Fin? && b.Fin? && a.n < b.n)
  }

  predicate Le(a: Score, b: Score) {
    !Less(b, a)
  }

  /** `Math.max` on two scores. */
  function Max(a: Score, b: Score): (m: Score)
    ensures Le(a, m) && Le(b, m) && (m == a || m == b)
  {
    if Less(a, b) then b else a
  }

  /** `Math.min` on two scores. */
  function Min(a: Score, b: Score): (m: Score)
    ensures Le(m, a) && Le(m, b) && (m == a || m == b)
  {
    if Less(b, a) then b else a
  }

  /** `a` is strictly better than `b` for the side that maximizes (when
      `maximizing`) or minimizes (otherwise). */
  predicate Above(maximizing: bool, a: Score, b: Score) {
    if maximizing then Less(b, a) else Less(a, b)
  }

  /** The value a running best starts from: -Infinity for the maximizer,
      +Infinity for the minimizer. Nothing is below it for that side. */
  function Worst(maximizing: bool): (w: Score)
    ensures forall s :: !Above(maximizing, w, s)
  {
    if maximizing then NegInf else PosInf
  }

  /** The better of two scores for the side; `a` on a tie. */
  function Better(maximizing: bool, a: Score, b: Score): (c: Score)
    ensures !Above(maximizing, a, c) && !Above(maximizing, b, c)
    ensures c == a || c == b
  {
    if Above(maximizing, b, a) then b else a
  }
}
