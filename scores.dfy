/** Search scores: the integers extended with the two infinities that the
    search uses as the initial running maximum and minimum and as the initial
    alpha-beta window. */
module Scores {

  datatype Score = NegInf | Fin(n: int) | PosInf

  /** The order of the extended integers. */
  predicate Le(a: Score, b: Score) {
    a.NegInf? || b.PosInf? || (a.Fin? && b.Fin? && a.n <= b.n)
  }

  predicate Lt(a: Score, b: Score) {
    !Le(b, a)
  }

  /** Python's max(a, b) on numbers (the first argument when they are equal). */
  function Max(a: Score, b: Score): (m: Score)
    ensures Le(a, m) && Le(b, m)
    ensures m == a || m == b
  {
    if Lt(a, b) then b else a
  }

  /** Python's min(a, b) on numbers (the first argument when they are equal). */
  function Min(a: Score, b: Score): (m: Score)
    ensures Le(m, a) && Le(m, b)
    ensures m == a || m == b
  {
    if Lt(b, a) then b else a
  }

  lemma LeTotalOrder(a: Score, b: Score, c: Score)
    ensures Le(a, a)
    ensures Le(a, b) || Le(b, a)
    ensures Le(a, b) && Le(b, a) ==> a == b
    ensures Le(a, b) && Le(b, c) ==> Le(a, c)
  {
  }
}
