/** Rounding half away from zero, as `math.Round` and `decimal.Round` do it. */
module Rounding {

  function RoundHalfAway(x: real): int {
    if x >= 0.0 then (x + 0.5).Floor else -(-x + 0.5).Floor
  }

  function Truncate(x: real): int {
    if x >= 0.0 then x.Floor else -(-x).Floor
  }

  /** q is a nearest integer, and on a tie the one farther from zero. */
  predicate IsNearest(q: int, x: real) {
    var d := q as real - x;
    -0.5 <= d <= 0.5 && (d == 0.5 ==> x > 0.0) && (d == -0.5 ==> x < 0.0)
  }

  /** Exactly one integer is nearest, and it is the rounded value. */
  lemma RoundIsNearest(x: real, q: int)
    ensures IsNearest(q, x) <==> q == RoundHalfAway(x)
  {
    var r := RoundHalfAway(x);
    assert IsNearest(r, x);
  }

  lemma RoundMonotone(x: real, y: real)
    requires x <= y
    ensures RoundHalfAway(x) <= RoundHalfAway(y)
  {
    RoundIsNearest(x, RoundHalfAway(x));
    RoundIsNearest(y, RoundHalfAway(y));
  }

  lemma RoundInteger(n: int)
    ensures RoundHalfAway(n as real) == n && Truncate(n as real) == n
  {
    RoundIsNearest(n as real, n);
  }

  lemma RoundOdd(x: real)
    ensures RoundHalfAway(-x) == -RoundHalfAway(x)
  {
    RoundIsNearest(-x, -RoundHalfAway(x));
    RoundIsNearest(x, RoundHalfAway(x));
  }
}
