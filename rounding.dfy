/** Rounding to the nearest integer with ties to the even neighbour: the rule of
    Python's built-in `round` and of numpy's `around`, both of which the pipeline
    relies on (the split sizes and the quantile index). Floating-point values are
    modelled as exact reals. */
module Rounding {

  /** Round `x` to the nearest integer; a value exactly half-way between two
      integers goes to the even one. */
  function RoundHalfEven(x: real): (r: int)
    ensures -0.5 <= x - r as real <= 0.5
    ensures (x - r as real == 0.5 || x - r as real == -0.5) ==> r % 2 == 0
  {
    var f := x.Floor;
    var frac := x - f as real;
    if frac < 0.5 then f
    else if frac > 0.5 then f + 1
    else if f % 2 == 0 then f
    else f + 1
  }

  /** The two properties above pin the result down: no other integer has them. */
  lemma RoundHalfEvenUnique(x: real, r: int)
    requires -0.5 <= x - r as real <= 0.5
    requires (x - r as real == 0.5 || x - r as real == -0.5) ==> r % 2 == 0
    ensures r == RoundHalfEven(x)
  {
  }

  /** Rounding an integer gives that integer back. */
  lemma RoundInteger(n: int)
    ensures RoundHalfEven(n as real) == n
  {
    RoundHalfEvenUnique(n as real, n);
  }

  /** Rounding is monotone: a larger argument never rounds to a smaller integer. */
  lemma RoundMonotone(x: real, y: real)
    requires x <= y
    ensures RoundHalfEven(x) <= RoundHalfEven(y)
  {
  }

  /** A value between 0 and n rounds to an integer between 0 and n. */
  lemma RoundWithin(x: real, n: nat)
    requires 0.0 <= x <= n as real
    ensures 0 <= RoundHalfEven(x) <= n
  {
    RoundInteger(0);
    RoundInteger(n);
    RoundMonotone(0.0, x);
    RoundMonotone(x, n as real);
  }
}
