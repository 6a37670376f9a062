/** Python's `round` on the ratios the miner reports. The ratios are taken as
    exact rationals (`real`), not as binary floating-point numbers. */
module Numbers {

  /** `round(x)`: the integer nearest to `x`; a value exactly halfway between
      two integers goes to the even one. */
  function RoundHalfEven(x: real): (n: int)
    ensures x - 0.5 <= n as real <= x + 0.5
    ensures (n as real == x - 0.5 || n as real == x + 0.5) ==> n % 2 == 0
  {
    var f := x.Floor;
    var frac := x - f as real;
    if frac < 0.5 then f
    else if frac > 0.5 then f + 1
    else if f % 2 == 0 then f
    else f + 1
  }

  /** The two properties in RoundHalfEven's contract single out one integer:
      any integer that has them is the one `round` returns. */
  lemma RoundHalfEvenUnique(x: real, n: int)
    requires x - 0.5 <= n as real <= x + 0.5
    requires (n as real == x - 0.5 || n as real == x + 0.5) ==> n % 2 == 0
    ensures n == RoundHalfEven(x)
  {
    var m := RoundHalfEven(x);
    assert -1 <= n - m <= 1;
  }

  /** `round(x, 2)`: `x` rounded to a whole number of hundredths; a value
      exactly halfway between two hundredths goes to the one with an even
      last digit. */
  function RoundHundredths(x: real): (r: real)
    ensures x - 0.005 <= r <= x + 0.005
    ensures (r * 100.0).Floor as real == r * 100.0
    ensures (r == x - 0.005 || r == x + 0.005) ==> (r * 100.0).Floor % 2 == 0
  {
    RoundHalfEven(x * 100.0) as real / 100.0
  }

  /** RoundHundredths' contract singles out one number: any whole number of
      hundredths within 0.005 of `x`, even in the last digit on a tie, is
      the one `round(x, 2)` returns. */
  lemma RoundHundredthsUnique(x: real, r: real)
    requires x - 0.005 <= r <= x + 0.005
    requires (r * 100.0).Floor as real == r * 100.0
    requires (r == x - 0.005 || r == x + 0.005) ==> (r * 100.0).Floor % 2 == 0
    ensures r == RoundHundredths(x)
  {
    var n := (r * 100.0).Floor;
    RoundHalfEvenUnique(x * 100.0, n);
  }
}
