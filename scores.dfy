/**
  Search scores. The engine's scores are integers; `float('-inf')` and
  `float('inf')` appear only as sentinels (the initial best value and the
  initial window), so a score is an integer extended with the two infinities.
 */
module Scores {

  datatype Score = NegInf | Fin(n: int) | PosInf

  /** Python's `x <= y` on these values. */
  predicate Le(x: Score, y: Score) {
    x.NegInf? || y.PosInf? || (x.Fin? && y.Fin? && x.n <= y.n)
  }

  /** Python's `x < y` on these values. */
  predicate Lt(x: Score, y: Score) {
    !Le(y, x)
  }

  /** Python's built-in `max(x, y)`: the first argument unless the second is strictly larger. */
  function Max(x: Score, y: Score): (r: Score)
    ensures Le(x, r) && Le(y, r)
    ensures r == x || r == y
  {
    if Lt(x, y) then y else x
  }

  /** Python's built-in `min(x, y)`: the first argument unless the second is strictly smaller. */
  function Min(x: Score, y: Score): (r: Score)
    ensures Le(r, x) && Le(r, y)
    ensures r == x || r == y
  {
    if Lt(y, x) then y else x
  }
}
