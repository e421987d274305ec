/**
 Rounding to two decimal places. Both the retention-time rounding of the
 pivot and the rounding of percentages and relative retention times round
 half to even; here the rounding is taken on exact reals and yields the
 number of hundredths.
 */
module Rounding {

  /**
   The integer nearest to `x`, ties going to the even neighbour; this is the
   number of hundredths of a value `x / 100` rounded to two decimals.
   */
  function RoundHalfEven(x: real): (r: int)
    ensures x - 0.5 <= r as real <= x + 0.5
    ensures (r as real - x == 0.5 || x - r as real == 0.5) ==> r % 2 == 0
  {
    var f := x.Floor;
    var d := x - f as real;
    if d < 0.5 then f
    else if d > 0.5 then f + 1
    else if f % 2 == 0 then f
    else f + 1
  }

  /** A value rounded to two decimals, as a count of hundredths. */
  function Round2(x: real): (h: int)
    ensures x * 100.0 - 0.5 <= h as real <= x * 100.0 + 0.5
  {
    RoundHalfEven(x * 100.0)
  }

  /** Rounding to hundredths leaves a value that is already a whole number of hundredths unchanged. */
  lemma {:induction false} Round2OfHundredths(n: int)
    ensures Round2(n as real / 100.0) == n
  {
    assert (n as real / 100.0) * 100.0 == n as real;
    var x := n as real;
    assert x.Floor == n;
  }
}
