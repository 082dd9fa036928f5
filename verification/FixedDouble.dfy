/** The detour of fixmul and fixdiv through `double` (`include/fixedmath.h`) computes exact integer results. */
module FixedDouble {
  import opened Basics
  import opened Doubles
  import opened FixedArith

  /** fixtof: the cast and the division both round, in principle. */
  function Fixtof(x: Fixed): real {
    Div(Rounded(x as real), 65536.0)
  }

  /** C conversion of a double to an integer. */
  function Truncate(v: real): int {
    if v < 0.0 then -((-v).Floor) else v.Floor
  }

  /** ftofix. */
  function Ftofix(x: real): Outcome {
    if x > 32767.0 then Outcome(0x7FFFFFFF, ERANGE)
    else if x < -32767.0 then Outcome(-0x7FFFFFFF, ERANGE)
    else
      FtofixRange(x);
      Outcome(Truncate(Add(Mul(x, 65536.0), if x < 0.0 then -0.5 else 0.5)), Clear)
  }

  /** fixmul. */
  function Fixmul(x: Fixed, y: Fixed): Outcome {
    Ftofix(Mul(Fixtof(x), Fixtof(y)))
  }

  /** fixdiv. */
  function Fixdiv(x: Fixed, y: Fixed): Outcome {
    if y == 0 then Outcome(if x < 0 then -0x7FFFFFFF else 0x7FFFFFFF, ERANGE)
    else
      FixtofExact(y);
      Ftofix(Div(Fixtof(x), Fixtof(y)))
  }

  // ---------------------------------------------------------------- doubles that occur

  lemma Powers()
    ensures Pow2(0) == 1.0 && Pow2(-1) == 0.5 && Pow2(-16) == 1.0 / 65536.0 && Pow2(-17) == 1.0 / 131072.0
    ensures Pow2(-32) == 1.0 / 4294967296.0
  {
    Halves(0, 1.0);
    Halves(-4, 1.0 / 16.0);
    Halves(-8, 1.0 / 256.0);
    Halves(-12, 1.0 / 4096.0);
    Halves(-16, 1.0 / 65536.0);
    Halves(-20, 1.0 / 1048576.0);
    Halves(-24, 1.0 / 16777216.0);
    Halves(-28, 1.0 / 268435456.0);
  }

  lemma Halves(e: int, p: real)
    requires Pow2(e) == p
    ensures Pow2(e - 1) == p / 2.0 && Pow2(e - 4) == p / 16.0
  {
    Pow2Next(e - 1);
    Pow2Next(e - 2);
    Pow2Next(e - 3);
    Pow2Next(e - 4);
  }

  lemma ExactAt(v: real, m: int, e: int)
    requires IsScaled(v, m, e)
    ensures IsDouble(v) && Rounded(v) == v
  {
    DoubleExact(v);
  }

  /** Integers and multiples of 2^-16, 2^-17 and 2^-32 with significands up to 2^53 are doubles. */
  lemma SmallExact(m: int)
    requires -MAX_SIGNIFICAND <= m <= MAX_SIGNIFICAND
    ensures Rounded(m as real) == m as real
    ensures Rounded(m as real / 65536.0) == m as real / 65536.0
    ensures Rounded(m as real / 131072.0) == m as real / 131072.0
    ensures Rounded(m as real / 4294967296.0) == m as real / 4294967296.0
  {
    Powers();
    ExactAt(m as real, m, 0);
    ExactAt(m as real / 65536.0, m, -16);
    ExactAt(m as real / 131072.0, m, -17);
    ExactAt(m as real / 4294967296.0, m, -32);
  }

  lemma FixtofExact(x: Fixed)
    ensures Fixtof(x) == x as real / 65536.0
  {
    SmallExact(x);
  }

  lemma RoundedBetween(lo: real, v: real, hi: real)
    requires Rounded(lo) == lo && Rounded(hi) == hi && lo <= v <= hi
    ensures lo <= Rounded(v) <= hi
  {
    RoundedMonotone(lo, v);
    RoundedMonotone(v, hi);
  }

  lemma FtofixRange(x: real)
    requires -32767.0 <= x <= 32767.0
    ensures var s := Add(Mul(x, 65536.0), if x < 0.0 then -0.5 else 0.5);
      -2147418112.5 <= s <= 2147418112.5 && (x < 0.0 ==> s <= 0.0) && (x >= 0.0 ==> s >= 0.0)
  {
    if x < 0.0 { FtofixRangeBelow(x * 65536.0); } else { FtofixRangeAbove(x * 65536.0); }
  }

  lemma FtofixRangeBelow(v: real)
    requires -2147418112.0 <= v <= 0.0
    ensures -2147418112.5 <= Rounded(Rounded(v) - 0.5) <= 0.0
  {
    SmallExact(-2147418112);
    HalfExact(-4294836225);
    RoundedBetween(-2147418112.0, v, 0.0);
    RoundedBetween(-2147418112.5, Rounded(v) - 0.5, 0.0);
  }

  lemma FtofixRangeAbove(v: real)
    requires 0.0 <= v <= 2147418112.0
    ensures 0.0 <= Rounded(Rounded(v) + 0.5) <= 2147418112.5
  {
    SmallExact(2147418112);
    HalfExact(4294836225);
    RoundedBetween(0.0, v, 2147418112.0);
    RoundedBetween(0.0, Rounded(v) + 0.5, 2147418112.5);
  }

  lemma HalfExact(m: int)
    requires -MAX_SIGNIFICAND <= m <= MAX_SIGNIFICAND
    ensures Rounded(m as real / 2.0) == m as real / 2.0
  {
    Powers();
    ExactAt(m as real / 2.0, m, -1);
  }

  // ---------------------------------------------------------------- fixmul

  lemma TruncateQuotient(n: int, d: int)
    requires d > 0
    ensures Truncate(n as real / d as real) == if n < 0 then -(-n / d) else n / d
  {
    var m := if n < 0 then -n else n;
    FloorQuotient(m, d);
    if n < 0 {
      NegatedQuotient(n as real, d as real);
    }
  }

  lemma NegatedQuotient(a: real, b: real)
    requires b > 0.0
    ensures -(a / b) == -a / b
  {
    Quotient(a, b);
    IsQuotient(-(a / b), -a, b);
  }

  lemma FloorQuotient(m: nat, d: int)
    requires d > 0
    ensures (m as real / d as real).Floor == m / d && 0.0 <= m as real / d as real
    ensures m > 0 ==> 0.0 < m as real / d as real
  {
    var q := m / d;
    assert q * d <= m < q * d + d;
    var v := m as real / d as real;
    Quotient(m as real, d as real);
    QuotientAbove(m as real, d as real, q as real);
    QuotientAbove(m as real, d as real, (q + 1) as real);
    QuotientAbove(m as real, d as real, 0.0);
    CastProduct(q, d);
    CastProduct(q + 1, d);
    assert (q + 1) * d == q * d + d;
  }

  lemma CastProduct(q: int, d: int)
    ensures q as real * d as real == (q * d) as real
  {
  }

  /** ftofix in range, with its intermediate doubles named. */
  lemma FtofixIs(d: real, t: real, s: real, n: int)
    requires -32767.0 <= d <= 32767.0 && t == Rounded(d * 65536.0)
    requires s == Rounded(t + if d < 0.0 then -0.5 else 0.5) && n == Truncate(s)
    ensures Ftofix(d) == Outcome(n, Clear)
  {
    FtofixRange(d);
  }

  lemma ProductHalf(n: int, m: int)
    requires m == if n >= 0 then n + 32768 else n - 32768
    ensures n as real / 65536.0 + (if n >= 0 then 0.5 else -0.5) == m as real / 65536.0
    ensures RoundAway(n, 65536) == if m < 0 then -(-m / 65536) else m / 65536
  {
  }

  /** The double operations on a product `d` do not round: the product itself, its scaling by ftofix, and the
      half that ftofix adds. */
  ghost predicate NothingRounded(d: real) {
    var h := if d < 0.0 then -0.5 else 0.5;
    Rounded(d) == d && Mul(d, 65536.0) == d * 65536.0 && Add(d * 65536.0, h) == d * 65536.0 + h
  }

  lemma ProductUnrounded(n: int, d: real)
    requires Abs(n) <= 32767 * 0x1_0000_0000 && d == n as real / 4294967296.0
    ensures NothingRounded(d)
  {
    SmallExact(n);
    var m := if n >= 0 then n + 32768 else n - 32768;
    SmallExact(m);
    ProductHalf(n, m);
  }

  lemma UnroundedOutcome(d: real, t: real, r: int)
    requires NothingRounded(d) && -32767.0 <= d <= 32767.0 && t == d * 65536.0
    requires r == Truncate(t + if d < 0.0 then -0.5 else 0.5)
    ensures Ftofix(Rounded(d)) == Outcome(r, Clear)
  {
    FtofixIs(d, t, t + if d < 0.0 then -0.5 else 0.5, r);
  }

  /** Where the product is in range, the result is rounded only once. */
  lemma ProductExact(n: int)
    requires -32767 * 0x1_0000_0000 <= n <= 32767 * 0x1_0000_0000
    ensures Ftofix(Rounded(n as real / 4294967296.0)) == Outcome(RoundAway(n, 65536), Clear)
  {
    var d, m := n as real / 4294967296.0, if n >= 0 then n + 32768 else n - 32768;
    ProductUnrounded(n, d);
    ProductHalf(n, m);
    TruncateQuotient(m, 65536);
    UnroundedOutcome(d, n as real / 65536.0, RoundAway(n, 65536));
  }

  /** Elsewhere rounding cannot bring the product back into range. */
  lemma ProductSaturates(n: int)
    requires Abs(n) > 32767 * 0x1_0000_0000
    ensures Ftofix(Rounded(n as real / 4294967296.0)) == Saturated(n)
  {
    var edge := 32767 * 0x1_0000_0000 + 1;
    SmallExact(edge);
    SmallExact(-edge);
    if n > 0 {
      RoundedMonotone(edge as real / 4294967296.0, n as real / 4294967296.0);
    } else {
      RoundedMonotone(n as real / 4294967296.0, -edge as real / 4294967296.0);
    }
  }

  lemma ProductOutcome(n: int, v: real)
    requires v == n as real / 4294967296.0
    ensures Ftofix(Rounded(v)) == ProductSpec(n)
  {
    if Abs(n) > 32767 * 0x1_0000_0000 { ProductSaturates(n); } else { ProductExact(n); }
  }

  lemma ProductOfSixteenths(x: int, y: int, n: int, a: real, b: real, v: real)
    requires a == x as real / 65536.0 && b == y as real / 65536.0 && n == x * y && v == a * b
    ensures v == n as real / 4294967296.0
  {
    assert x as real * y as real == n as real;
  }

  lemma DetourOfProduct(x: int, y: int, n: int, a: real, b: real)
    requires a == x as real / 65536.0 && b == y as real / 65536.0 && n == x * y
    ensures Ftofix(Mul(a, b)) == ProductSpec(n)
  {
    var v := a * b;
    ProductOfSixteenths(x, y, n, a, b, v);
    ProductOutcome(n, v);
  }

  /** fixmul is the product rounded half away from zero, and saturates exactly when it leaves +-32767. */
  lemma FixmulExact(x: Fixed, y: Fixed)
    ensures Fixmul(x, y) == ProductSpec(x * y)
  {
    FixtofExact(x);
    FixtofExact(y);
    DetourOfProduct(x, y, x * y, Fixtof(x), Fixtof(y));
  }

  lemma UnroundedDetour(x: int, y: int, n: int, a: real, b: real, d: real)
    requires a == x as real / 65536.0 && b == y as real / 65536.0 && n == x * y && d == a * b
    requires Abs(n) <= 32767 * 0x1_0000_0000
    ensures NothingRounded(d)
  {
    ProductOfSixteenths(x, y, n, a, b, d);
    ProductUnrounded(n, d);
  }

  /** Where the product is in range, every intermediate double of fixmul is exact. */
  lemma FixmulStepsExact(x: Fixed, y: Fixed, n: int, a: real, b: real, d: real)
    requires a == Fixtof(x) && b == Fixtof(y) && d == a * b
    requires n == x * y && Abs(n) <= 32767 * 0x1_0000_0000
    ensures a == x as real / 65536.0 && b == y as real / 65536.0 && NothingRounded(d)
  {
    FixtofExact(x);
    FixtofExact(y);
    UnroundedDetour(x, y, n, a, b, d);
  }

  // ---------------------------------------------------------------- fixdiv

  lemma RoundedOdd(v: real)
    ensures Rounded(-v) == -Rounded(v)
  {
  }

  lemma FtofixOdd(x: real)
    requires x != 0.0
    ensures Ftofix(x).value != FIXED_MIN && Ftofix(-x) == Outcome(-Ftofix(x).value, Ftofix(x).error)
  {
    if -32767.0 <= x <= 32767.0 && x != 0.0 {
      RoundedOdd(x * 65536.0);
      assert -x * 65536.0 == -(x * 65536.0);
      var half := if x < 0.0 then -0.5 else 0.5;
      RoundedOdd(Mul(x, 65536.0) + half);
      FtofixRange(x);
    }
  }

  lemma ScaledUp(q: real)
    requires IsDouble(q)
    ensures Rounded(q * 65536.0) == q * 65536.0
  {
    var m, e :| IsScaled(q, m, e);
    Pow2Sum(e, 16);
    Powers16();
    UnitsUp(m, Pow2(e), Pow2(e + 16));
    ExactAt(q * 65536.0, m, e + 16);
  }

  lemma Powers16()
    ensures Pow2(16) == 65536.0
  {
    Doubled(0, 1.0);
    Doubled(4, 16.0);
    Doubled(8, 256.0);
    Doubled(12, 4096.0);
  }

  lemma Doubled(e: int, p: real)
    requires Pow2(e) == p
    ensures Pow2(e + 4) == p * 16.0
  {
    Pow2Next(e);
    Pow2Next(e + 1);
    Pow2Next(e + 2);
    Pow2Next(e + 3);
  }

  lemma UnitsUp(m: int, p: real, q: real)
    requires q == p * 65536.0
    ensures Units(m, q) == Units(m, p) * 65536.0
  {
  }

  /** The bounds on a / b that follow from n being 65536 a / b rounded half up. */
  lemma QuotientLimits(a: nat, b: int, n: nat, r: real, z: real)
    requires 0 < b <= 0x80000000 && a <= 0x80000000 && z == 1.0 / b as real && r == a as real / b as real
    requires n == (131072 * a + b) / (2 * b)
    ensures z > 0.0 && 1.0 <= 2147483648.0 * z && 0.0 <= r <= 2147483648.0 * z
    ensures 131072.0 * r >= (2 * n - 1) as real && 131072.0 * r <= (2 * n + 1) as real - z
  {
    var w := b as real;
    assert 2 * b * n <= 131072 * a + b <= 2 * b * n + 2 * b - 1;
    Quotient(1.0, w);
    Quotient(a as real, w);
    QuotientAbove(1.0, w, 0.0);
    QuotientAbove(a as real, w, 0.0);
    Ordered(1.0, 2147483648.0 * z, w, w, 2147483648.0);
    Ordered(r, 2147483648.0 * z, w, a as real, 2147483648.0);
    LowerLimit(a, b, n, r);
    UpperLimit(a, b, n, r, z);
  }

  lemma Ordered(s: real, t: real, p: real, x: real, y: real)
    requires p > 0.0 && s * p == x && t * p == y && x <= y
    ensures s <= t
  {
    if t < s { TimesLessOne(t, s, p); }
  }

  lemma LowerLimit(a: nat, b: int, n: nat, r: real)
    requires b > 0 && r * b as real == a as real && 2 * b * n <= 131072 * a + b
    ensures 131072.0 * r >= (2 * n - 1) as real
  {
    var k := 2 * n - 1;
    assert k * b == 2 * b * n - b;
    assert k as real * b as real == (k * b) as real;
    assert (131072.0 * r) * b as real == (131072 * a) as real;
    Ordered(k as real, 131072.0 * r, b as real, (k * b) as real, (131072 * a) as real);
  }

  lemma UpperLimit(a: nat, b: int, n: nat, r: real, z: real)
    requires b > 0 && r * b as real == a as real && z * b as real == 1.0 && 131072 * a + b <= 2 * b * n + 2 * b - 1
    ensures 131072.0 * r <= (2 * n + 1) as real - z
  {
    var k := 2 * n + 1;
    assert k * b == 2 * b * n + b;
    assert k as real * b as real == (k * b) as real;
    assert (131072.0 * r + z) * b as real == (131072 * a + 1) as real;
    Ordered(131072.0 * r + z, k as real, b as real, (131072 * a + 1) as real, (k * b) as real);
  }

  /** Three roundings (the quotient, and the two in ftofix) do not move 65536 a / b across a half. */
  lemma QuotientExact(a: nat, b: int)
    requires 0 < b <= 0x80000000 && a <= 0x80000000 && a <= 32767 * b
    ensures Ftofix(Rounded(a as real / b as real)) == RatioSpec(a, b)
  {
    var r := a as real / b as real;
    var n := SpecOfRatio(a, b);
    NotAboveLimit(a, b);
    SmallExact(0);
    SmallExact(32767);
    RoundedBetween(0.0, r, 32767.0);
    var q := Rounded(r);
    RoundedIsDouble(r);
    ScaledUp(q);
    var s := q * 65536.0 + 0.5;
    QuotientFloor(a, b, n, r, q, s);
    FtofixIs(q, q * 65536.0, Rounded(s), n);
  }

  lemma SpecOfRatio(a: nat, b: int) returns (n: int)
    requires 0 < b && a <= 32767 * b
    ensures 0 <= n < 0x80000000 && n == (131072 * a + b) / (2 * b)
    ensures RatioSpec(a, b) == Outcome(n, Clear)
  {
    RoundAwayRange(65536 * a, b, 32767 * 65536);
    n := RoundAway(65536 * a, b);
  }

  lemma NotAboveLimit(a: nat, b: int)
    requires 0 < b && a <= 32767 * b
    ensures 0.0 <= a as real / b as real <= 32767.0
  {
    Quotient(a as real, b as real);
    assert (32767 * b) as real == 32767.0 * b as real;
    QuotientAbove(a as real, b as real, 0.0);
    QuotientAbove(a as real, b as real, 32767.0);
  }

  lemma QuotientFloor(a: nat, b: int, n: int, r: real, q: real, s: real)
    requires 0 < b <= 0x80000000 && a <= 0x80000000 && 0 <= n < 0x80000000 && n == (131072 * a + b) / (2 * b)
    requires r == a as real / b as real && q == Rounded(r) && 0.0 <= q && s == q * 65536.0 + 0.5
    ensures Truncate(Rounded(s)) == n
  {
    var z := 1.0 / b as real;
    QuotientLimits(a, b, n, r, z);
    RelativeError(r);
    SmallExact(n);
    SmallExact(2 * n - 1);
    RoundedMonotone((2 * n - 1) as real / 131072.0, r);
    RoundedMonotone(n as real, s);
    RelativeError(s);
    StaysBelow(n as real, r, z, q, s, Rounded(s));
    FloorIs(Rounded(s), n);
  }

  lemma StaysBelow(n: real, r: real, z: real, q: real, s: real, t: real)
    requires 0.0 <= n && z > 0.0 && 1.0 <= 2147483648.0 * z && 0.0 <= r <= 2147483648.0 * z
    requires 131072.0 * r <= 2.0 * n + 1.0 - z
    requires 0.0 <= q <= r + r / TWO_53 && s == q * 65536.0 + 0.5
    requires t <= s + s / TWO_53
    ensures t < n + 1.0
  {
  }

  lemma FloorIs(t: real, n: int)
    requires n as real <= t < n as real + 1.0
    ensures t.Floor == n
  {
  }

  lemma QuotientSaturates(a: nat, b: int)
    requires 0 < b && a <= 0x80000000 && a > 32767 * b
    ensures Ftofix(Rounded(a as real / b as real)) == Outcome(0x7FFFFFFF, ERANGE)
  {
    var edge := 32767 * 131072 + 1;
    SmallExact(edge);
    QuotientBeyond(a, b, edge);
    RoundedMonotone(edge as real / 131072.0, a as real / b as real);
  }

  lemma QuotientBeyond(a: nat, b: int, edge: int)
    requires 0 < b && a <= 0x80000000 && a > 32767 * b && edge == 32767 * 131072 + 1
    ensures edge as real / 131072.0 <= a as real / b as real
  {
    assert b <= 131072;
    assert (edge * b) as real <= (131072 * a) as real;
    CastProduct(edge, b);
    QuotientAbove(a as real, b as real, edge as real / 131072.0);
  }

  lemma PositiveRatio(a: nat, b: int, v: real)
    requires 0 < b <= 0x80000000 && a <= 0x80000000 && v == a as real / b as real
    ensures Ftofix(Rounded(v)) == RatioSpec(a, b)
  {
    if a > 32767 * b { QuotientSaturates(a, b); } else { QuotientExact(a, b); }
  }

  lemma NegatedSpec(n: int, b: int)
    requires n < 0 < b
    ensures RatioSpec(-n, b).value != FIXED_MIN
    ensures RatioSpec(n, b) == Outcome(-RatioSpec(-n, b).value, RatioSpec(-n, b).error)
  {
  }

  lemma RatioOutcome(n: int, b: int, v: real)
    requires 0 < b <= 0x80000000 && Abs(n) <= 0x80000000 && v == n as real / b as real
    ensures Ftofix(Rounded(v)) == RatioSpec(n, b)
  {
    if n >= 0 {
      PositiveRatio(n, b, v);
    } else {
      var w := (-n) as real / b as real;
      PositiveRatio(-n, b, w);
      NegatedQuotient((-n) as real, b as real);
      assert v == -w;
      QuotientAbove((-n) as real, b as real, 0.0);
      PositiveMonotone(w, w);
      FtofixOdd(Rounded(w));
      NegatedSpec(n, b);
    }
  }

  lemma SignedQuotient(x: int, y: int, a: real, b: real)
    requires y != 0 && a == x as real / 65536.0 && b == y as real / 65536.0
    ensures b != 0.0 && a / b == Turned(x, y) as real / Abs(y) as real
  {
    var v := a / b;
    Quotient(a, b);
    var d := Abs(y) as real;
    assert v * d == Turned(x, y) as real;
    IsQuotient(v, Turned(x, y) as real, d);
  }

  /** fixdiv is the quotient rounded half away from zero, and saturates exactly when it leaves +-32767. */
  lemma FixdivExact(x: Fixed, y: Fixed)
    ensures Fixdiv(x, y) == QuotientSpec(x, y)
  {
    if y != 0 {
      var a, b := Fixtof(x), Fixtof(y);
      FixtofExact(x);
      FixtofExact(y);
      SignedQuotient(x, y, a, b);
      RatioOutcome(Turned(x, y), Abs(y), a / b);
    }
  }
}
