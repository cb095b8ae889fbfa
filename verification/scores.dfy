/** Search scores: material values extended with the two sentinels the search
    starts its running maximum, running minimum and window bounds from. */
module Scores {

  /** An integer evaluation, or one of the two infinite sentinels. */
  datatype Score = NegInf | Fin(value: int) | PosInf

  /** The total order on scores: NegInf below every integer, PosInf above. */
  predicate Le(a: Score, b: Score)
  {
    a.NegInf? || b.PosInf? || (a.Fin? && b.Fin? && a.value <= b.value)
  }

  predicate Lt(a: Score, b: Score)
  {
    !Le(b, a)
  }

  function Max(a: Score, b: Score): (r: Score)
    ensures Le(a, r) && Le(b, r)
    ensures r == a || r == b
  {
    if Le(a, b) then b else a
  }

  function Min(a: Score, b: Score): (r: Score)
    ensures Le(r, a) && Le(r, b)
    ensures r == a || r == b
  {
    if Le(a, b) then a else b
  }

  lemma LeTotalOrder(a: Score, b: Score, c: Score)
    ensures Le(a, a)
    ensures Le(a, b) || Le(b, a)
    ensures Le(a, b) && Le(b, a) ==> a == b
    ensures Le(a, b) && Le(b, c) ==> Le(a, c)
  {
  }
}
