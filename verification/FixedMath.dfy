/** `include/fixedmath.h`: the inline functions as values with the error they report, and whole runs of them. */
module FixedMath {
  import opened Basics
  import opened FixedArith
  import opened FixedDouble

  /** fixadd decides by the signs after a wrapping addition. */
  function Fixadd(x: Fixed, y: Fixed): Outcome {
    var result := Wrap32(x + y);
    if result >= 0 then
      if x < 0 && y < 0 then Outcome(-0x7FFFFFFF, ERANGE) else Outcome(result, Clear)
    else
      if x > 0 && y > 0 then Outcome(0x7FFFFFFF, ERANGE) else Outcome(result, Clear)
  }

  function Fixsub(x: Fixed, y: Fixed): Outcome {
    var result := Wrap32(x - y);
    if result >= 0 then
      if x < 0 && y > 0 then Outcome(-0x7FFFFFFF, ERANGE) else Outcome(result, Clear)
    else
      if x > 0 && y < 0 then Outcome(0x7FFFFFFF, ERANGE) else Outcome(result, Clear)
  }

  /** The sign test finds every overflow of a sum: exact if it fits, saturated if not. */
  lemma FixaddExact(x: Fixed, y: Fixed)
    ensures Fixadd(x, y) == SumSpec(x, y)
    ensures var r := Fixadd(x, y);
      if x + y > 0x7FFFFFFF then r == Outcome(0x7FFFFFFF, ERANGE)
      else if x + y < -0x80000000 then r == Outcome(-0x7FFFFFFF, ERANGE)
      else r == Outcome(x + y, Clear)
  {
  }

  /** Of all differences it misses one overflow, 0 - (-2^31), where fixsub returns -2^31 without an error. */
  lemma FixsubExact(x: Fixed, y: Fixed)
    ensures Fixsub(x, y) == DifferenceSpec(x, y)
    ensures (Fixsub(x, y).error == Clear ==> Fixsub(x, y).value == x - y) <==> !(x == 0 && y == FIXED_MIN)
    ensures var r := Fixsub(x, y);
      if x == 0 && y == -0x80000000 then r == Outcome(-0x80000000, Clear)
      else if x - y > 0x7FFFFFFF then r == Outcome(0x7FFFFFFF, ERANGE)
      else if x - y < -0x80000000 then r == Outcome(-0x7FFFFFFF, ERANGE)
      else r == Outcome(x - y, Clear)
  {
  }

  /** Subtracting is adding the negative, in value and in error, wherever the negative exists. */
  lemma FixsubIsFixadd(x: Fixed, y: Fixed)
    requires y != FIXED_MIN
    ensures Fixsub(x, y) == Fixadd(x, -y)
  {
  }

  /** Dividing a product by its factor gives the other factor back, if the factor is at least 1.0 in size
      and neither call reports an error; a smaller factor loses up to 2^15 / |y| + 1/2 units. */
  lemma MulDivRoundTrip(x: Fixed, y: Fixed)
    requires y != 0
    ensures var p := Fixmul(x, y);
      var q := Fixdiv(p.value, y);
      p.error == Clear && q.error == Clear ==>
        && (Abs(y) >= 0x10000 ==> q.value == x)
        && 2 * Abs(y) * Abs(q.value - x) <= 65536 + Abs(y)
  {
    var p := Fixmul(x, y);
    var q := Fixdiv(p.value, y);
    if p.error == Clear && q.error == Clear {
      FixmulExact(x, y);
      FixdivExact(p.value, y);
      SignedRoundTrip(x, y, x * y, p.value, q.value);
    }
  }

  lemma SignedRoundTrip(x: int, y: int, n: int, p: int, q: int)
    requires y != 0 && n == x * y && p == RoundAway(n, 65536) && q == RoundAway(65536 * Turned(p, y), Abs(y))
    ensures (Abs(y) >= 0x10000 ==> q == x) && 2 * Abs(y) * Abs(q - x) <= 65536 + Abs(y)
  {
    if y > 0 {
      RoundTrip(x, n, p, y);
    } else {
      NegatedProduct(x, y);
      RoundAwayOdd(n, 65536);
      RoundTrip(x, -n, -p, -y);
    }
  }

  lemma NegatedProduct(x: int, y: int)
    ensures -(x * y) == x * -y
  {
  }

  lemma RoundAwayOdd(n: int, d: int)
    requires d > 0
    ensures RoundAway(-n, d) == -RoundAway(n, d)
  {
  }

  lemma RoundTrip(x: int, n: int, p: int, d: nat)
    requires d > 0 && n == x * d && p == RoundAway(n, 65536)
    ensures var q := RoundAway(65536 * p, d);
      (d >= 0x10000 ==> q == x) && 2 * d * Abs(q - x) <= 65536 + d
  {
    var q := RoundAway(65536 * p, d);
    RoundAwayError(n, 65536);
    RoundAwayError(65536 * p, d);
    ProductError(d, q, x, n, p);
    if d == 0x10000 {
      WholeRounds(x);
    }
    if d >= 0x10000 {
      RoundAwayUnique(65536 * p, d, x);
    }
  }

  lemma ProductError(d: nat, q: int, x: int, n: int, p: int)
    requires n == x * d && 2 * Abs(65536 * p - n) <= 65536 && 2 * Abs(d * q - 65536 * p) <= d
    ensures 2 * d * Abs(q - x) <= 65536 + d
  {
    var e := d * q - n;
    assert e == d * (q - x);
    AbsProduct(d, q - x);
    assert 2 * Abs(e) <= 65536 + d;
    assert 2 * d * Abs(q - x) == 2 * (d * Abs(q - x));
  }

  lemma WholeRounds(k: int)
    ensures RoundAway(k * 65536, 65536) == k
  {
  }

  lemma AbsProduct(d: nat, k: int)
    ensures Abs(d * k) == d * Abs(k)
  {
  }

  lemma RoundAwayUnique(m: int, d: nat, x: int)
    requires d > 0 && 2 * Abs(m - x * d) < d
    ensures RoundAway(m, d) == x
  {
    if m >= 0 {
      QuotientIs(2 * m + d, 2 * d, x);
    } else {
      QuotientIs(2 * -m + d, 2 * d, -x);
    }
  }

  lemma QuotientIs(a: int, b: int, q: int)
    requires b > 0 && 0 <= a - q * b < b
    ensures a / b == q
  {
    var r := a / b;
    assert r * b <= a < r * b + b;
    if r < q { ProductMonotone(b, r + 1, q); }
    if q < r { ProductMonotone(b, q + 1, r); }
  }

  /** A fixed value survives the conversion to double and back exactly when it is in the documented range;
      beyond it ftofix saturates. */
  lemma DoubleRoundTrip(x: Fixed)
    ensures Ftofix(Fixtof(x)) == if Abs(x) <= 32767 * 65536 then Outcome(x, Clear) else Saturated(x)
  {
    FixtofExact(x);
    SmallExact(x);
    ScaledValue(x, x * 65536);
    ProductOutcome(x * 65536, x as real / 65536.0);
    WholeRounds(x);
  }

  lemma ScaledValue(x: int, n: int)
    requires n == x * 65536
    ensures x as real / 65536.0 == n as real / 4294967296.0
  {
  }

  // ---------------------------------------------------------------- whole calculations

  datatype Step =
    | AddStep(x: Fixed, y: Fixed)
    | SubStep(x: Fixed, y: Fixed)
    | MulStep(x: Fixed, y: Fixed)
    | DivStep(x: Fixed, y: Fixed)

  function Result(s: Step): Outcome {
    match s
    case AddStep(x, y) => Fixadd(x, y)
    case SubStep(x, y) => Fixsub(x, y)
    case MulStep(x, y) => Fixmul(x, y)
    case DivStep(x, y) => Fixdiv(x, y)
  }

  function After(errno: Errno, error: Errno): Errno {
    if error == Clear then errno else error
  }

  /** `errno` after a run of calls. */
  function Run(errno: Errno, steps: seq<Step>): Errno {
    if steps == [] then errno else After(Run(errno, steps[..|steps| - 1]), Result(steps[|steps| - 1]).error)
  }

  /** The value is the exact result of the operands, or the nearest one that can be represented. */
  predicate Faithful(s: Step, value: int) {
    match s
    case AddStep(x, y) => value == x + y
    case SubStep(x, y) => value == x - y
    case MulStep(x, y) => 2 * Abs(65536 * value - x * y) <= 65536
    case DivStep(x, y) => y != 0 && 2 * Abs(y * value - 65536 * x) <= Abs(y)
  }

  lemma ProductFaithful(n: int)
    requires ProductSpec(n).error == Clear
    ensures 2 * Abs(65536 * ProductSpec(n).value - n) <= 65536
  {
    RoundAwayError(n, 65536);
  }

  lemma QuotientFaithful(x: Fixed, y: Fixed)
    requires QuotientSpec(x, y).error == Clear
    ensures y != 0 && 2 * Abs(y * QuotientSpec(x, y).value - 65536 * x) <= Abs(y)
  {
    var n, d, q: int := Turned(x, y), Abs(y), QuotientSpec(x, y).value;
    RatioFaithful(n, d);
    if y < 0 { TurnedError(y, q, x, d, n); }
  }

  lemma TurnedError(y: int, q: int, x: int, d: int, n: int)
    requires d == -y && n == -x
    ensures Abs(y * q - 65536 * x) == Abs(d * q - 65536 * n)
  {
    assert d * q == -(y * q);
  }

  /** The product of two values, given as n units of 2^-32: within half a unit, ties away from zero. */
  lemma ProductWritten(n: int)
    ensures Abs(n) > 32767 * 0x1_0000_0000 ==>
      ProductSpec(n) == Outcome(if n < 0 then -0x7FFFFFFF else 0x7FFFFFFF, ERANGE)
    ensures Abs(n) <= 32767 * 0x1_0000_0000 ==> var r := ProductSpec(n);
      && r.error == Clear && 2 * Abs(65536 * r.value - n) <= 65536
      && (2 * Abs(65536 * r.value - n) == 65536 ==> Abs(65536 * r.value) > Abs(n))
  {
    RoundAwayError(n, 65536);
  }

  /** The quotient of two values, likewise. */
  lemma QuotientWritten(x: Fixed, y: Fixed)
    ensures y == 0 || Abs(x) > 32767 * Abs(y) ==>
      QuotientSpec(x, y) == Outcome(if (x < 0) != (y < 0) then -0x7FFFFFFF else 0x7FFFFFFF, ERANGE)
    ensures y != 0 && Abs(x) <= 32767 * Abs(y) ==> var r := QuotientSpec(x, y);
      && r.error == Clear && 2 * Abs(y * r.value - 65536 * x) <= Abs(y)
      && (2 * Abs(y * r.value - 65536 * x) == Abs(y) ==> Abs(y * r.value) > 65536 * Abs(x))
  {
    if y != 0 && Abs(x) <= 32767 * Abs(y) {
      var n, d, q := Turned(x, y), Abs(y), QuotientSpec(x, y).value;
      assert q == RoundAway(65536 * n, d);
      RoundAwayError(65536 * n, d);
      if y < 0 {
        TurnedError(y, q, x, d, n);
        assert d * q == -(y * q);
      }
    }
  }

  lemma RatioFaithful(n: int, d: int)
    requires d > 0 && RatioSpec(n, d).error == Clear
    ensures 2 * Abs(d * RatioSpec(n, d).value - 65536 * n) <= d
  {
    RoundAwayError(65536 * n, d);
  }

  /** A call that reports no error is faithful, except for 0 - (-2^31). */
  lemma StepFaithful(s: Step)
    ensures Result(s).error == Clear ==> (Faithful(s, Result(s).value) <==> s != SubStep(0, FIXED_MIN))
  {
    match s
    case AddStep(x, y) => FixaddExact(x, y);
    case SubStep(x, y) => FixsubExact(x, y);
    case MulStep(x, y) =>
      FixmulExact(x, y);
      if ProductSpec(x * y).error == Clear { ProductFaithful(x * y); }
    case DivStep(x, y) =>
      FixdivExact(x, y);
      if QuotientSpec(x, y).error == Clear { QuotientFaithful(x, y); }
  }

  /** `errno` is sticky: it stays clear over a run exactly when no call of the run reports an error. */
  lemma {:induction false} RunClear(errno: Errno, steps: seq<Step>)
    ensures Run(errno, steps) == Clear <==>
      errno == Clear && forall i :: 0 <= i < |steps| ==> Result(steps[i]).error == Clear
    decreases |steps|
  {
    if steps == [] {
    } else {
      var before := steps[..|steps| - 1];
      RunClear(errno, before);
      if Run(errno, steps) == Clear {
        forall i | 0 <= i < |steps| ensures Result(steps[i]).error == Clear {
          if i < |before| { assert before[i] == steps[i]; }
        }
      }
    }
  }

  /** Testing `errno` once at the end of a run vouches for every result in it. */
  lemma RunFaithful(steps: seq<Step>)
    requires Run(Clear, steps) == Clear
    ensures forall i :: 0 <= i < |steps| ==>
      (Faithful(steps[i], Result(steps[i]).value) <==> steps[i] != SubStep(0, FIXED_MIN))
  {
    RunClear(Clear, steps);
    forall i | 0 <= i < |steps|
      ensures Faithful(steps[i], Result(steps[i]).value) <==> steps[i] != SubStep(0, FIXED_MIN)
    {
      StepFaithful(steps[i]);
    }
  }

  /** fixadd (acc, fixmul (x, y)), and `errno` after it. */
  function Accumulated(acc: Outcome, x: Fixed, y: Fixed): Outcome {
    var p := Fixmul(x, y);
    var sum := Fixadd(acc.value, p.value);
    Outcome(sum.value, After(After(acc.error, p.error), sum.error))
  }

  /** A dot product: such calls over two vectors. */
  function Dot(xs: seq<Fixed>, ys: seq<Fixed>): Outcome
    requires |xs| == |ys|
  {
    if xs == [] then Outcome(0, Clear)
    else
      var n := |xs| - 1;
      Accumulated(Dot(xs[..n], ys[..n]), xs[n], ys[n])
  }

  /** The exact dot product, in units of 2^-32. */
  function ExactDot(xs: seq<Fixed>, ys: seq<Fixed>): int
    requires |xs| == |ys|
  {
    if xs == [] then 0
    else
      var n := |xs| - 1;
      ExactDot(xs[..n], ys[..n]) + Product(xs[n], ys[n])
  }

  function Product(x: int, y: int): int { x * y }

  /** `value` units of 2^-16 are within n / 2 of them of `exact` units of 2^-32. */
  predicate Within(value: int, exact: int, n: nat) {
    2 * Abs(65536 * value - exact) <= 65536 * n
  }

  /** If `errno` is still clear at the end, a dot product of length n is off by at most n / 2 units. */
  lemma {:induction false} DotError(xs: seq<Fixed>, ys: seq<Fixed>)
    requires |xs| == |ys|
    ensures Dot(xs, ys).error == Clear ==> Within(Dot(xs, ys).value, ExactDot(xs, ys), |xs|)
    decreases |xs|
  {
    if xs == [] {
    } else {
      var n := |xs| - 1;
      DotError(xs[..n], ys[..n]);
      DotTurn(Dot(xs[..n], ys[..n]), xs[n], ys[n], ExactDot(xs[..n], ys[..n]), n);
    }
  }

  /** One turn adds the error of one product. */
  lemma DotTurn(acc: Outcome, x: Fixed, y: Fixed, exact: int, n: nat)
    requires acc.error == Clear ==> Within(acc.value, exact, n)
    ensures Accumulated(acc, x, y).error == Clear ==>
      Within(Accumulated(acc, x, y).value, exact + Product(x, y), n + 1)
  {
    var p := Fixmul(x, y);
    var sum := Fixadd(acc.value, p.value);
    if acc.error == Clear && p.error == Clear && sum.error == Clear {
      StepFaithful(MulStep(x, y));
      StepFaithful(AddStep(acc.value, p.value));
      ErrorsAdd(acc.value, p.value, exact, Product(x, y), n);
    }
  }

  lemma ErrorsAdd(acc: int, p: int, exact: int, product: int, n: nat)
    requires 2 * Abs(65536 * acc - exact) <= 65536 * n && 2 * Abs(65536 * p - product) <= 65536
    ensures 2 * Abs(65536 * (acc + p) - (exact + product)) <= 65536 * (n + 1)
  {
  }

  // ---------------------------------------------------------------- conversions to and from integers

  /** Arithmetic right shift. */
  function Shr(x: int, n: nat): int
    requires n == 8 || n == 15 || n == 16
  {
    x / (if n == 8 then 0x100 else if n == 15 then 0x8000 else 0x10000)
  }

  /** Bitwise complement. */
  function Not(x: int): int { -x - 1 }

  function Fixceil(x: Fixed): Outcome {
    if x > 0x7FFF0000 then Outcome(0x7FFF, ERANGE)
    else
      var y := x + 0xFFFF;
      if y > 0 then Outcome(Shr(y, 16), Clear) else Outcome(Not(Shr(Not(y), 16)), Clear)
  }

  function Itofix(x: int): Fixed { Wrap32(x * 0x10000) }

  /** (x & 0x8000) >> 15 is bit 15. */
  function Fixtoi(x: Fixed): int { Shr(x, 16) + Shr(x, 15) % 2 }

  /** fixceil is the ceiling, not the nearest integer that its comment promises. */
  lemma FixceilIsCeiling(x: Fixed)
    ensures Fixceil(x).error == Clear <==> x <= 0x7FFF0000
    ensures x <= 0x7FFF0000 ==> var n := Fixceil(x).value; (n - 1) * 0x10000 < x <= n * 0x10000
  {
  }

  /** fixtoi rounds to the nearest integer, halves up. */
  lemma FixtoiIsNearest(x: Fixed)
    ensures var n := Fixtoi(x); n * 0x10000 - 0x8000 <= x < n * 0x10000 + 0x8000
  {
    var b, r := HalfBit(x);
  }

  /** Bit 15 and the bits below it. */
  lemma HalfBit(x: int) returns (b: int, r: int)
    ensures x == 0x10000 * Shr(x, 16) + 0x8000 * b + r && 0 <= b <= 1 && 0 <= r < 0x8000
    ensures Shr(x, 15) % 2 == b
  {
    var m := x % 0x10000;
    b, r := m / 0x8000, m % 0x8000;
    assert x / 0x8000 == 2 * (x / 0x10000) + b;
  }

  /** The nearest integer, as documented, it is exactly for an integer or a fraction of at least a half; in the
      saturated range up to 32767.5. For 1, the smallest positive value, it is not. */
  lemma FixceilIsNearestIff(x: Fixed)
    ensures x <= 0x7FFF0000 ==>
      (Fixceil(x).value == Fixtoi(x) <==> x % 0x10000 == 0 || x % 0x10000 >= 0x8000)
    ensures x > 0x7FFF0000 ==> (Fixceil(x).value == Fixtoi(x) <==> x < 0x7FFF8000)
    ensures Fixceil(1).value == 1 && Fixtoi(1) == 0
  {
    FixtoiIsNearest(x);
    FixceilIsCeiling(x);
  }

  lemma IntegersOrdered(x: Fixed, y: Fixed)
    requires x <= y
    ensures Fixtoi(x) <= Fixtoi(y)
    ensures y <= 0x7FFF0000 ==> Fixceil(x).value <= Fixceil(y).value
    ensures x <= 0x7FFF0000 ==> Fixtoi(x) <= Fixceil(x).value <= Fixtoi(x) + 1
  {
    FixtoiIsNearest(x);
    FixtoiIsNearest(y);
    FixceilIsCeiling(x);
    FixceilIsCeiling(y);
  }

  lemma ItofixWraps(n: int)
    ensures -0x8000 <= n < 0x8000 <==> Itofix(n) == n * 0x10000
    ensures (Itofix(n) - n * 0x10000) % 0x1_0000_0000 == 0
  {
    var k := (n * 0x10000 + 0x80000000) / 0x1_0000_0000;
    assert Itofix(n) - n * 0x10000 == -k * 0x1_0000_0000;
  }

  lemma FixtoiOfInteger(n: int)
    requires -0x8000 <= n < 0x8000
    ensures Fixtoi(n * 0x10000) == n
  {
    FixtoiIsNearest(n * 0x10000);
  }

  /** Integers of 16 bits survive the round trip; back and forth a value moves by at most a half, unless it
      rounds to 32768, which itofix cannot represent. */
  lemma IntegerRoundTrip(x: Fixed, n: int)
    ensures -0x8000 <= n < 0x8000 <==> Itofix(n) == n * 0x10000
    ensures (Itofix(n) - n * 0x10000) % 0x1_0000_0000 == 0
    ensures -0x8000 <= n < 0x8000 ==> Fixtoi(Itofix(n)) == n
    ensures Abs(Itofix(Fixtoi(x)) - x) <= 0x8000 <==> x < 0x7FFF8000
  {
    ItofixWraps(n);
    if -0x8000 <= n < 0x8000 { FixtoiOfInteger(n); }
    FixtoiIsNearest(x);
    ItofixWraps(Fixtoi(x));
  }

  // ---------------------------------------------------------------- table indices

  function CosIndex(x: Fixed): int { Shr(Wrap32(x + 0x4000), 15) % 0x200 }

  function SinIndex(x: Fixed): int { Shr(Wrap32(x - 0x400000 + 0x4000), 15) % 0x200 }

  function TanIndex(x: Fixed): int { Shr(Wrap32(x + 0x4000), 15) % 0x100 }

  /** fixacos and fixasin look up this entry for -1.0 <= x <= 1.0. */
  function AcosIndex(x: Fixed): int { Shr(x + 65536 + 127, 8) }

  function Fixacos(table: seq<Fixed>, x: Fixed): Outcome
    requires |table| == 513
  {
    if x < -65536 || x > 65536 then Outcome(0, EDOM) else Outcome(table[AcosIndex(x)], Clear)
  }

  function Fixasin(table: seq<Fixed>, x: Fixed): Outcome
    requires |table| == 513
  {
    if x < -65536 || x > 65536 then Outcome(0, EDOM) else Outcome(Wrap32(0x400000 as int - table[AcosIndex(x)]), Clear)
  }

  lemma WrapIs(z: int) returns (j: int)
    ensures Wrap32(z) == z + j * 0x1_0000_0000
  {
    j := -((z + 0x80000000) / 0x1_0000_0000);
  }

  lemma IndexShift(z: int, k: int)
    ensures Shr(z + k * 0x1000000, 15) == Shr(z, 15) + 512 * k
    ensures Shr(z + k * 0x1000000, 15) % 0x200 == Shr(z, 15) % 0x200
    ensures Shr(z + k * 0x1000000, 15) % 0x100 == Shr(z, 15) % 0x100
  {
    var a := Shr(z, 15);
    assert (a + 512 * k) % 0x200 == a % 0x200;
    assert (a + 256 * (2 * k)) % 0x100 == a % 0x100;
  }

  /** Wrapping does not change an index. */
  lemma IndexUnwrapped(x: Fixed)
    ensures CosIndex(x) == Shr(x + 0x4000, 15) % 0x200
    ensures SinIndex(x) == Shr(x - 0x400000 + 0x4000, 15) % 0x200
    ensures TanIndex(x) == Shr(x + 0x4000, 15) % 0x100
  {
    var j := WrapIs(x + 0x4000);
    IndexShift(x + 0x4000, 256 * j);
    var k := WrapIs(x - 0x400000 + 0x4000);
    IndexShift(x - 0x400000 + 0x4000, 256 * k);
  }

  /** The indices of a shifted argument, whatever wraps. */
  lemma IndexShifted(x: Fixed, d: int)
    ensures CosIndex(Wrap32(x + d)) == Shr(x + d + 0x4000, 15) % 0x200
    ensures SinIndex(Wrap32(x + d)) == Shr(x + d - 0x400000 + 0x4000, 15) % 0x200
    ensures TanIndex(Wrap32(x + d)) == Shr(x + d + 0x4000, 15) % 0x100
  {
    var j := WrapIs(x + d);
    IndexUnwrapped(Wrap32(x + d));
    IndexShift(x + d + 0x4000, 256 * j);
    IndexShift(x + d - 0x400000 + 0x4000, 256 * j);
  }

  /** Adding `d` never changes the index. */
  ghost predicate CosRepeats(d: int) { forall x: Fixed :: CosIndex(Wrap32(x + d)) == CosIndex(x) }

  ghost predicate SinRepeats(d: int) { forall x: Fixed :: SinIndex(Wrap32(x + d)) == SinIndex(x) }

  ghost predicate TanRepeats(d: int) { forall x: Fixed :: TanIndex(Wrap32(x + d)) == TanIndex(x) }

  /** An argument at which the first entry of a table of `size` entries is left when `e` is added. */
  lemma LeavesFirst(e: int, size: int) returns (z: int)
    requires 0 < e < size * 0x8000 && (size == 0x200 || size == 0x100)
    ensures 0 <= z < 0x8000 && Shr(z, 15) % size == 0 && Shr(z + e, 15) % size != 0
  {
    z := if e >= 0x8000 then 0 else 0x8000 - e;
  }

  lemma CosShifted(x: Fixed, k: int, e: int)
    ensures CosIndex(Wrap32(x + (e + k * 0x1000000))) == Shr(x + 0x4000 + e, 15) % 0x200
    ensures CosIndex(x) == Shr(x + 0x4000, 15) % 0x200
  {
    IndexShifted(x, e + k * 0x1000000);
    IndexShift(x + e + 0x4000, k);
    IndexUnwrapped(x);
  }

  lemma SinShifted(x: Fixed, k: int, e: int)
    ensures SinIndex(Wrap32(x + (e + k * 0x1000000))) == Shr(x - 0x400000 + 0x4000 + e, 15) % 0x200
    ensures SinIndex(x) == Shr(x - 0x400000 + 0x4000, 15) % 0x200
  {
    IndexShifted(x, e + k * 0x1000000);
    IndexShift(x + e - 0x400000 + 0x4000, k);
    IndexUnwrapped(x);
  }

  lemma TanShifted(x: Fixed, k: int, e: int)
    ensures TanIndex(Wrap32(x + (e + k * 0x800000))) == Shr(x + 0x4000 + e, 15) % 0x100
    ensures TanIndex(x) == Shr(x + 0x4000, 15) % 0x100
  {
    IndexShifted(x, e + k * 0x800000);
    HalfTurnShift(x + e + 0x4000, k);
    IndexUnwrapped(x);
  }

  lemma CosDiffers(k: int, e: int)
    requires 0 < e < 0x1000000
    ensures !CosRepeats(e + k * 0x1000000)
  {
    var z := LeavesFirst(e, 0x200);
    var x: Fixed := z - 0x4000;
    CosShifted(x, k, e);
    assert CosIndex(Wrap32(x + (e + k * 0x1000000))) != CosIndex(x);
  }

  lemma SinDiffers(k: int, e: int)
    requires 0 < e < 0x1000000
    ensures !SinRepeats(e + k * 0x1000000)
  {
    var z := LeavesFirst(e, 0x200);
    var x: Fixed := z + 0x400000 - 0x4000;
    SinShifted(x, k, e);
    assert SinIndex(Wrap32(x + (e + k * 0x1000000))) != SinIndex(x);
  }

  lemma TanDiffers(k: int, e: int)
    requires 0 < e < 0x800000
    ensures !TanRepeats(e + k * 0x800000)
  {
    var z := LeavesFirst(e, 0x100);
    var x: Fixed := z - 0x4000;
    TanShifted(x, k, e);
    assert TanIndex(Wrap32(x + (e + k * 0x800000))) != TanIndex(x);
  }

  lemma WholeTurns(k: int)
    ensures CosRepeats(k * 0x1000000) && SinRepeats(k * 0x1000000)
  {
    forall x: Fixed ensures CosIndex(Wrap32(x + k * 0x1000000)) == CosIndex(x) { CosShifted(x, k, 0); }
    forall x: Fixed ensures SinIndex(Wrap32(x + k * 0x1000000)) == SinIndex(x) { SinShifted(x, k, 0); }
  }

  lemma HalfTurns(k: int)
    ensures TanRepeats(k * 0x800000)
  {
    forall x: Fixed ensures TanIndex(Wrap32(x + k * 0x800000)) == TanIndex(x) { TanShifted(x, k, 0); }
  }

  lemma DivideTurns(d: int, turn: int) returns (k: int, e: int)
    requires turn == 0x1000000 || turn == 0x800000
    ensures d == e + k * turn && 0 <= e < turn && e == d % turn
  {
    k, e := d / turn, d % turn;
  }

  /** A turn is 256.0: the cosine index repeats after whole multiples of it and after nothing else. */
  lemma CosTurnIff(d: int)
    ensures CosRepeats(d) <==> d % 0x1000000 == 0
  {
    var k, e := DivideTurns(d, 0x1000000);
    if e == 0 { WholeTurns(k); } else { CosDiffers(k, e); }
  }

  lemma SinTurnIff(d: int)
    ensures SinRepeats(d) <==> d % 0x1000000 == 0
  {
    var k, e := DivideTurns(d, 0x1000000);
    if e == 0 { WholeTurns(k); } else { SinDiffers(k, e); }
  }

  /** The tangent index repeats every half turn. */
  lemma TanTurnIff(d: int)
    ensures TanRepeats(d) <==> d % 0x800000 == 0
  {
    var k, e := DivideTurns(d, 0x800000);
    if e == 0 { HalfTurns(k); } else { TanDiffers(k, e); }
  }

  lemma HalfTurnShift(z: int, k: int)
    ensures Shr(z + k * 0x800000, 15) % 0x100 == Shr(z, 15) % 0x100
  {
    assert Shr(z + k * 0x800000, 15) == Shr(z, 15) + 256 * k;
    ModShiftHalf(Shr(z, 15), k);
  }

  /** All three repeat with a turn, whatever wraps. */
  lemma IndexPeriodic(x: Fixed, k: int)
    ensures var y := Wrap32(x + k * 0x1000000);
      CosIndex(y) == CosIndex(x) && SinIndex(y) == SinIndex(x) && TanIndex(y) == TanIndex(x)
  {
    CosShifted(x, k, 0);
    SinShifted(x, k, 0);
    TanShifted(x, 2 * k, 0);
  }

  /** 2 pi is 411775 units of 2^-16: no function repeats there, as the documentation in radians would have it. */
  lemma NotRadians()
    ensures !CosRepeats(411775) && !SinRepeats(411775) && !TanRepeats(411775)
  {
    CosTurnIff(411775);
    SinTurnIff(411775);
    TanTurnIff(411775);
  }

  /** The indices stay in their tables; sine lags cosine by a quarter turn; tangent repeats every half turn. */
  lemma IndexRelations(x: Fixed)
    ensures 0 <= CosIndex(x) < 512 && 0 <= SinIndex(x) < 512 && 0 <= TanIndex(x) < 256
    ensures SinIndex(x) == (CosIndex(x) - 128) % 512 && TanIndex(x) == CosIndex(x) % 256
  {
    IndexUnwrapped(x);
    var z := Shr(x + 0x4000, 15);
    assert Shr(x - 0x400000 + 0x4000, 15) == z - 128;
    QuarterTurn(z);
  }

  lemma QuarterTurn(z: int)
    ensures (z - 128) % 0x200 == (z % 0x200 - 128) % 0x200 && z % 0x100 == z % 0x200 % 0x100
  {
    var k, r := z / 0x200, z % 0x200;
    ModShift(r - 128, k);
    ModShift(r, k);
    assert z == r + 0x200 * k;
  }

  lemma ModShift(a: int, k: int)
    ensures (a + 0x200 * k) % 0x200 == a % 0x200 && (a + 0x200 * k) % 0x100 == a % 0x100
  {
    ModShiftWhole(a, k);
    ModShiftHalf(a, 2 * k);
  }

  lemma ModShiftWhole(a: int, k: int)
    ensures (a + 0x200 * k) % 0x200 == a % 0x200
  {
  }

  lemma ModShiftHalf(a: int, k: int)
    ensures (a + 0x100 * k) % 0x100 == a % 0x100
  {
  }

  /** The entry looked up is the one nearest to the argument in steps of 2^15 units, halves up: for the sine a quarter
      turn of 128 steps behind. */
  lemma IndexNearest(x: Fixed, j: int)
    requires 0x8000 * j - 0x4000 <= x < 0x8000 * j + 0x4000
    ensures CosIndex(x) == j % 512 && SinIndex(x) == (j - 128) % 512 && TanIndex(x) == j % 256
  {
    IndexUnwrapped(x);
    assert Shr(x + 0x4000, 15) == j;
    assert Shr(x - 0x400000 + 0x4000, 15) == j - 128;
  }

  /** Steps of 256 units from -1.0 on: `k` is the nearest entry, halves down. */
  predicate NearestEntry(x: int, k: int) {
    256 * k - 127 <= x + 65536 <= 256 * k + 128
  }

  /** In the domain the arc cosine is the nearest of the 513 entries of the table, halves down, and the arc sine is a
      quarter turn, 64.0, less that; outside both report EDOM. */
  lemma AcosAsin(table: seq<Fixed>, x: Fixed)
    requires |table| == 513
    ensures var a, b := Fixacos(table, x), Fixasin(table, x);
      if -65536 <= x <= 65536 then
        && (exists k :: 0 <= k <= 512 && NearestEntry(x, k))
        && (forall k :: 0 <= k <= 512 && NearestEntry(x, k) ==>
              && a == Outcome(table[k], Clear) && b.error == Clear
              && (table[k] >= -0x7FBFFFFF ==> b.value == 0x400000 as int - table[k])
              && (table[k] < -0x7FBFFFFF ==> b.value == 0x400000 as int - table[k] - 0x1_0000_0000))
      else a == b == Outcome(0, EDOM)
  {
    if -65536 <= x <= 65536 {
      var i := AcosIndex(x);
      assert 0 <= i <= 512 && NearestEntry(x, i);
      assert forall k :: NearestEntry(x, k) ==> k == i;
    }
  }

  /** They add up to a quarter turn. */
  lemma AcosPlusAsin(table: seq<Fixed>, x: Fixed)
    requires |table| == 513 && -65536 <= x <= 65536
    ensures Wrap32(Fixacos(table, x).value + Fixasin(table, x).value) == 0x400000
  {
  }
}
