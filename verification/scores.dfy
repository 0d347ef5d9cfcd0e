/** Evaluations: a real number, or one of the two infinities a decided
    position scores (positive favours black). */
module Scores {

  datatype Score = NegInf | Fin(v: real) | PosInf

  /** Strict order of the extended reals (`<` on Python floats without NaN). */
  predicate Below(a: Score, b: Score)
  {
    match (a, b)
    case (NegInf, NegInf) => false
    case (NegInf, _) => true
    case (Fin(x), Fin(y)) => x < y
    case (Fin(_), PosInf) => true
    case (_, _) => false
  }

  predicate AtMost(a: Score, b: Score) { !Below(b, a) }

  /** Python's `max(a, b)`: `a` unless `b` is strictly larger. */
  function Max(a: Score, b: Score): (r: Score)
    ensures AtMost(a, r) && AtMost(b, r) && (r == a || r == b)
  {
    if Below(a, b) then b else a
  }

  /** Python's `min(a, b)`: `a` unless `b` is strictly smaller. */
  function Min(a: Score, b: Score): (r: Score)
    ensures AtMost(r, a) && AtMost(r, b) && (r == a || r == b)
  {
    if Below(b, a) then b else a
  }

  /** `a` is strictly better than `b` for the side to move (black maximises). */
  predicate Better(maximizing: bool, a: Score, b: Score)
  {
    if maximizing then Below(b, a) else Below(a, b)
  }

  /** Float negation: a finite value changes sign and the two infinities
      trade places. */
  function Neg(a: Score): (r: Score)
    ensures Below(a, Fin(0.0)) <==> Below(Fin(0.0), r)
    ensures a.Fin? <==> r.Fin?
    ensures r.Fin? ==> r.v == -a.v
    ensures a == NegInf <==> r == PosInf
    ensures a == PosInf <==> r == NegInf
  {
    match a
    case NegInf => PosInf
    case Fin(x) => Fin(-x)
    case PosInf => NegInf
  }

  lemma BelowIsStrictTotalOrder(a: Score, b: Score, c: Score)
    ensures !Below(a, a)
    ensures Below(a, b) ==> !Below(b, a)
    ensures a != b ==> Below(a, b) || Below(b, a)
    ensures Below(a, b) && Below(b, c) ==> Below(a, c)
  {
  }

  lemma MinAssociative(a: Score, b: Score, c: Score)
    ensures Min(Min(a, b), c) == Min(a, Min(b, c))
  {
  }
}
