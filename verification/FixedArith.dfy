/** What the operations of `include/fixedmath.h` are meant to compute: integer arithmetic on 16.16 values,
    rounded half away from zero and saturated. `fixed` is a 32-bit integer, as the documentation says. */
module FixedArith {
  import opened Basics

  const FIXED_MAX: int := 0x7FFFFFFF
  const FIXED_MIN: int := -0x80000000

  type Fixed = x: int | -0x80000000 <= x <= 0x7FFFFFFF

  datatype Errno = Clear | ERANGE | EDOM

  /** A returned value and the error a call reports, if any. */
  datatype Outcome = Outcome(value: Fixed, error: Errno)

  /** Two's-complement wrapping to 32 bits. */
  function Wrap32(x: int): Fixed {
    (x + 0x80000000) % 0x1_0000_0000 - 0x80000000
  }

  /** `x` with its sign turned if `y` is negative, so that x / y is Turned(x, y) / |y|. */
  function Turned(x: int, y: int): int { if y < 0 then -x else x }

  function InRange(x: int): bool {
    FIXED_MIN <= x <= FIXED_MAX
  }

  function Saturated(x: int): Outcome {
    Outcome(if x < 0 then -0x7FFFFFFF else 0x7FFFFFFF, ERANGE)
  }

  /** n / d rounded to the nearest integer, halves away from zero. */
  function RoundAway(n: int, d: int): int
    requires d > 0
  {
    if n >= 0 then (2 * n + d) / (2 * d) else -((2 * -n + d) / (2 * d))
  }

  lemma DivisionBounds(n: nat, d: int)
    requires d > 0
    ensures d * (n / d) <= n < d * (n / d) + d
  {
  }

  lemma RoundedMagnitude(m: nat, d: int, q: int)
    requires d > 0 && q == (2 * m + d) / (2 * d)
    ensures 2 * m - d < 2 * (d * q) <= 2 * m + d
  {
    DivisionBounds(2 * m + d, 2 * d);
    assert 2 * d * q == 2 * (d * q);
  }

  /** The rounded value is within half a unit, and a tie goes away from zero. */
  lemma RoundAwayError(n: int, d: int)
    requires d > 0
    ensures 2 * Abs(d * RoundAway(n, d) - n) <= d
    ensures 2 * Abs(d * RoundAway(n, d) - n) == d ==> Abs(d * RoundAway(n, d)) > Abs(n)
  {
    var q := (2 * Abs(n) + d) / (2 * d);
    RoundedMagnitude(Abs(n), d, q);
    if n < 0 { Negated(d, q); }
  }

  lemma Negated(d: int, q: int)
    ensures d * -q == -(d * q)
  {
  }

  function SumSpec(x: Fixed, y: Fixed): Outcome {
    if InRange(x + y) then Outcome(x + y, Clear) else Saturated(x + y)
  }

  /** The difference, except at the one pair that the sign test of fixsub misses. */
  function DifferenceSpec(x: Fixed, y: Fixed): Outcome {
    if x == 0 && y == FIXED_MIN then Outcome(FIXED_MIN, Clear)
    else if InRange(x - y) then Outcome(x - y, Clear) else Saturated(x - y)
  }

  /** n units of 2^-32 as a fixed value. */
  function ProductSpec(n: int): Outcome {
    if Abs(n) > 32767 * 0x1_0000_0000 then Saturated(n)
    else
      RoundAwayRange(n, 65536, 32767 * 65536);
      Outcome(RoundAway(n, 65536), Clear)
  }

  /** n / d as a fixed value. */
  function RatioSpec(n: int, d: int): Outcome
    requires d > 0
  {
    if Abs(n) > 32767 * d then Saturated(n)
    else
      RoundAwayRange(65536 * n, d, 32767 * 65536);
      Outcome(RoundAway(65536 * n, d), Clear)
  }

  function QuotientSpec(x: Fixed, y: Fixed): Outcome {
    if y == 0 then Saturated(x) else RatioSpec(Turned(x, y), Abs(y))
  }

  lemma RoundAwayRange(n: int, d: int, bound: int)
    requires d > 0 && Abs(n) <= bound * d && 0 <= bound < 0x7FFFFFFF
    ensures -bound <= RoundAway(n, d) <= bound
  {
    var m := Abs(n);
    var q := (2 * m + d) / (2 * d);
    assert 2 * d * q <= 2 * m + d;
    if q >= bound + 1 {
      ProductMonotone(2 * d, bound + 1, q);
    }
  }

  lemma ProductMonotone(k: nat, a: int, b: int)
    requires a <= b
    ensures k * a <= k * b
  {
  }
}
