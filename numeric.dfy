/** The few numeric library functions the app relies on, with `Double` taken as `real`. */
module Numeric {

  function Abs(x: real): (r: real)
    ensures r >= 0.0 && (r == x || r == -x)
  {
    if x < 0.0 then -x else x
  }

  /** Swift's `max` on integers. */
  function Max(a: int, b: int): (r: int)
    ensures r >= a && r >= b && (r == a || r == b)
  {
    if a >= b then a else b
  }

  /** Swift's `round` followed by `Int(...)`: the nearest integer, halfway cases away from zero. */
  function Round(x: real): (r: int)
    ensures x >= 0.0 ==> r >= 0 && x - 0.5 < r as real <= x + 0.5
    ensures x < 0.0 ==> r <= 0 && x - 0.5 <= r as real < x + 0.5
  {
    if x >= 0.0 then (x + 0.5).Floor else -((-x + 0.5).Floor)
  }

  /** Rounding never moves a whole number. */
  lemma RoundOfInt(n: int)
    ensures Round(n as real) == n
  {
  }

  /** Rounding preserves order. */
  lemma RoundMonotone(x: real, y: real)
    requires x <= y
    ensures Round(x) <= Round(y)
  {
  }

  /** Two values at least one apart round at least one apart. */
  lemma RoundSeparates(x: real, y: real)
    requires x + 1.0 <= y
    ensures Round(x) + 1 <= Round(y)
  {
  }
}
