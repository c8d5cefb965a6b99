/**
 * Rounding of exact reals as numpy does it: to the nearest integer, with a
 * value exactly half-way between two integers going to the even one.
 */
module Rounding {

  function Abs(x: real): real
  {
    if x < 0.0 then -x else x
  }

  /**
   * Round-half-to-even. The two ensures clauses determine the result:
   * it lies within one half of `x`, and at a tie it is even.
   */
  function RoundHalfEven(x: real): (n: int)
    ensures x - 0.5 <= n as real <= x + 0.5
    ensures Abs(x - n as real) == 0.5 ==> n % 2 == 0
  {
    var f := x.Floor;
    var d := x - f as real;
    if d < 0.5 then f
    else if d > 0.5 then f + 1
    else if f % 2 == 0 then f
    else f + 1
  }

  /** No integer is closer to `x` than its rounding. */
  lemma RoundHalfEvenIsNearest(x: real, m: int)
    ensures Abs(x - RoundHalfEven(x) as real) <= Abs(x - m as real)
  {
    var n := RoundHalfEven(x);
    if m < n {
      assert m as real <= n as real - 1.0;
    } else if m > n {
      assert m as real >= n as real + 1.0;
    }
  }

  /** Rounding never reverses the order of two values. */
  lemma RoundHalfEvenMonotone(x: real, y: real)
    requires x <= y
    ensures RoundHalfEven(x) <= RoundHalfEven(y)
  {
  }

  /** An integer rounds to itself. */
  lemma RoundHalfEvenOfInteger(n: int)
    ensures RoundHalfEven(n as real) == n
  {
  }

  /** Python's `round(x, 2)` on a numpy float: rounding to the nearest hundredth, ties to even. */
  function RoundHundredths(x: real): (r: real)
    ensures Abs(r - x) <= 0.005
    ensures (r * 100.0).Floor as real == r * 100.0
  {
    var n := RoundHalfEven(x * 100.0);
    var r := n as real / 100.0;
    assert r * 100.0 == n as real;
    assert (n as real).Floor == n;
    assert x * 100.0 - 0.5 <= r * 100.0 <= x * 100.0 + 0.5;
    assert x - 0.005 <= r <= x + 0.005;
    r
  }
}
