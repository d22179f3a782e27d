/** Numeric helpers shared by the reading page and the goals page. */
module Measures {

  /** A positive whole number: a daily goal or an achievement requirement. */
  type Positive = n: int | 1 <= n witness 1

  function Min(a: int, b: int): int {
    if a <= b then a else b
  }

  function Max(a: int, b: int): int {
    if a >= b then a else b
  }

  /** How much of a target has been reached: the ratio of current value to
      requirement as a percentage, capped at 100. Used by the daily progress
      bars and by every achievement card. */
  function Percent(current: nat, requirement: Positive): (p: real)
    ensures 0.0 <= p <= 100.0
    ensures p == 100.0 <==> current >= requirement
    ensures current < requirement ==> p * requirement as real == current as real * 100.0
  {
    var raw := (current as real / requirement as real) * 100.0;
    if raw < 100.0 then raw else 100.0
  }
}
