/** Which fixed value ftofix (`include/fixedmath.h`) returns for a double: the nearest one, but for two doubles. */
module FixedNearest {
  import opened Doubles
  import opened FixedArith
  import opened FixedDouble

  /** The greatest double below 1/2, which is 1/2 - 2^-54. Adding 1/2 to it gives 1. */
  const BELOW_HALF: real := 9007199254740991.0 / 18014398509481984.0

  /** The nearest integer, halves away from zero. */
  function NearestAway(t: real): int {
    if t < 0.0 then -((-t + 0.5).Floor) else (t + 0.5).Floor
  }

  // ---------------------------------------------------------------- powers of two

  lemma SmallPowers()
    ensures Pow2(-52) == 1.0 / TWO_52 && Pow2(-53) == 1.0 / TWO_53 && Pow2(-54) == 1.0 / 18014398509481984.0
  {
    Powers();
    Halves(-32, 1.0 / 4294967296.0);
    Halves(-36, 1.0 / 68719476736.0);
    Halves(-40, 1.0 / 1099511627776.0);
    Halves(-44, 1.0 / 17592186044416.0);
    Halves(-48, 1.0 / 281474976710656.0);
    Halves(-52, 1.0 / 4503599627370496.0);
    Halves(-53, 1.0 / 9007199254740992.0);
  }

  lemma LargePower()
    ensures Pow2(53) == TWO_53
  {
    SmallPowers();
    Pow2Sum(-53, 53);
    Reciprocal(Pow2(-53), Pow2(53));
  }

  lemma Reciprocal(p: real, q: real)
    requires p == 1.0 / TWO_53 && Times(p, q) == 1.0
    ensures q == TWO_53
  {
  }

  lemma UnitsLess(k: int, m: int, p: real)
    requires p > 0.0
    ensures k < m <==> Units(k, p) < Units(m, p)
  {
    TimesLess(k as real, m as real, p);
  }

  /** A positive double as a multiple of the unit in its last place. */
  lemma PositiveDouble(t: real) returns (e: int, p: real, k: int)
    requires t > 0.0 && IsDouble(t)
    ensures p == Pow2(e) && t == Units(k, p) && TWO_52 * p <= t < TWO_53 * p
  {
    var s;
    e, p, s, k := Significand(t);
    DoubleExact(t);
  }

  // ---------------------------------------------------------------- from 1 on

  lemma UnitOfLarge(t: real, e: int)
    requires 1.0 <= t <= 2147418112.0 && TWO_52 * Pow2(e) <= t < TWO_53 * Pow2(e)
    ensures -52 <= e <= -1
  {
    SmallPowers();
    if e >= 0 { Pow2Monotone(0, e); }
    if e <= -53 { Pow2Monotone(e, -53); }
  }

  /** A half is a whole number of units. */
  lemma HalfWhole(e: int, p: real) returns (j: int)
    requires e <= -1 && p == Pow2(e)
    ensures Units(j, p) == 0.5
  {
    var n: nat := -1 - e;
    j := Pow2Int(n);
    Pow2Sum(e, n);
    Powers();
    TimesUnits(p, j);
  }

  /** The power of two above is a whole number. */
  lemma TopWhole(e: int, p: real) returns (b: int)
    requires -53 <= e && p == Pow2(e)
    ensures b as real == TWO_53 * p
  {
    var n: nat := e + 53;
    b := Pow2Int(n);
    Pow2Sum(e, 53);
    LargePower();
    TimesUnits(p, MAX_SIGNIFICAND);
  }

  lemma TimesUnits(p: real, j: int)
    ensures Times(p, j as real) == Units(j, p)
  {
  }

  lemma HalfUnits(j: int, p: real, n: int) returns (h: int, m: int)
    requires Units(j, p) == 0.5
    ensures Units(h, p) == n as real + 0.5 && Units(m + 1, p) == n as real + 1.0 && m == h + j - 1
  {
    h, m := 2 * j * n + j, 2 * j * n + 2 * j - 1;
    assert Units(h, p) == 2.0 * n as real * Units(j, p) + Units(j, p);
    assert Units(m + 1, p) == 2.0 * n as real * Units(j, p) + 2.0 * Units(j, p);
  }

  lemma UnitsPlus(k: int, j: int, p: real)
    ensures Units(k + j, p) == Units(k, p) + Units(j, p)
  {
  }

  /** If t < n + 1/2, then t + 1/2 is at most n + 1 less one unit, which is a double. */
  lemma OneUnitLess(t: real, p: real, k: int, j: int, n: int, b: int) returns (m: int)
    requires p > 0.0 && t == Units(k, p) && Units(j, p) == 0.5 && b as real == TWO_53 * p
    requires 0 < n < b && 0.0 < t < n as real + 0.5
    ensures -MAX_SIGNIFICAND <= m <= MAX_SIGNIFICAND && t + 0.5 <= Units(m, p) < n as real + 1.0
  {
    var h;
    h, m := HalfUnits(j, p, n);
    UnitsLess(k, h, p);
    UnitsPlus(k, j, p);
    UnitsMonotone(k + j, m, p);
    UnitsLess(m, m + 1, p);
    UnitsLess(0, m, p);
    UnitsLess(MAX_SIGNIFICAND, m + 1, p);
  }

  lemma LargeStays(t: real, n: int)
    requires IsDouble(t) && t <= 2147418112.0 && 1 <= n && n as real <= t < n as real + 0.5
    ensures Rounded(t + 0.5) < n as real + 1.0
  {
    var e, p, k := PositiveDouble(t);
    UnitOfLarge(t, e);
    var j := HalfWhole(e, p);
    var b := TopWhole(e, p);
    var m := OneUnitLess(t, p, k, j, n, b);
    ExactAt(Units(m, p), m, e);
    RoundedMonotone(t + 0.5, Units(m, p));
  }

  // ---------------------------------------------------------------- below a half

  /** Between 1/2 - 2^-53 and 1/2 there is one double. */
  lemma OnlyBelowHalf(t: real)
    requires IsDouble(t) && 0.5 - 1.0 / TWO_53 < t < 0.5
    ensures t == BELOW_HALF
  {
    var e, p, k := PositiveDouble(t);
    SmallPowers();
    if e >= -53 { Pow2Monotone(-53, e); }
    if e <= -55 { Pow2Monotone(e + 1, -54); Pow2Next(e); }
  }

  lemma PlaceOfNearOne(v: real, e: int)
    requires 0.5 <= v < 1.0 && TWO_52 * Pow2(e) <= v < TWO_53 * Pow2(e)
    ensures e == -53
  {
    SmallPowers();
    if e >= -52 { Pow2Monotone(-52, e); }
    if e <= -54 { Pow2Monotone(e, -54); }
  }

  lemma TieToOne(v: real, p: real)
    requires p == 1.0 / TWO_53 && v == BELOW_HALF + 0.5
    ensures RoundTo(v, p) == 1.0
  {
    assert v / p == 9007199254740991.5;
  }

  lemma BelowHalfLost()
    ensures Rounded(BELOW_HALF + 0.5) == 1.0
  {
    var v := BELOW_HALF + 0.5;
    PlaceOfNearOne(v, Exponent(v, 0));
    SmallPowers();
    TieToOne(v, Pow2(-53));
  }

  lemma SmallStays(t: real)
    requires IsDouble(t) && 0.0 <= t < 0.5
    ensures Rounded(t + 0.5) < 1.0 <==> t != BELOW_HALF
  {
    BelowHalfLost();
    if t <= 0.5 - 1.0 / TWO_53 {
      SmallPowers();
      ExactAt(1.0 - 1.0 / TWO_53, 9007199254740991, -53);
      RoundedMonotone(t + 0.5, 1.0 - 1.0 / TWO_53);
    } else {
      OnlyBelowHalf(t);
    }
  }

  // ---------------------------------------------------------------- ftofix

  /** Where the sum with a half stays below the next integer. */
  lemma StaysIff(t: real, n: int)
    requires IsDouble(t) && 0.0 <= t <= 2147418112.0 && n == (t + 0.5).Floor
    ensures n as real <= Rounded(t + 0.5)
    ensures Rounded(t + 0.5) < n as real + 1.0 <==> t != BELOW_HALF
  {
    SmallExact(n);
    RoundedMonotone(n as real, t + 0.5);
    if n == 0 {
      SmallStays(t);
    } else if t < n as real {
      HalfExact(2 * n + 1);
      RoundedMonotone(t + 0.5, n as real + 0.5);
    } else {
      LargeStays(t, n);
    }
  }

  lemma FloorIff(s: real, n: int)
    requires n as real <= s
    ensures s.Floor == n <==> s < n as real + 1.0
  {
  }

  lemma ScaledIsDouble(x: real)
    requires IsDouble(x)
    ensures IsDouble(x * 65536.0)
  {
    ScaledUp(x);
    RoundedIsDouble(x * 65536.0);
  }

  lemma PositiveNearestIff(x: real)
    requires IsDouble(x) && 0.0 <= x <= 32767.0
    ensures Ftofix(x).error == Clear
    ensures Ftofix(x).value == NearestAway(65536.0 * x) <==> 65536.0 * x != BELOW_HALF
  {
    var t := x * 65536.0;
    var n := (t + 0.5).Floor;
    ScaledUp(x);
    ScaledIsDouble(x);
    StaysIff(t, n);
    FtofixIs(x, t, Rounded(t + 0.5), Rounded(t + 0.5).Floor);
    FloorIff(Rounded(t + 0.5), n);
  }

  lemma NearestAwayOdd(t: real)
    requires t > 0.0
    ensures NearestAway(-t) == -NearestAway(t)
  {
  }

  lemma NegativeNearestIff(x: real, y: real)
    requires IsDouble(x) && y == -x && 0.0 < y <= 32767.0
    ensures Ftofix(x).error == Clear
    ensures Ftofix(x).value == NearestAway(65536.0 * x) <==> 65536.0 * x != -BELOW_HALF
  {
    NegatedDouble(x);
    PositiveNearestIff(y);
    FtofixOdd(y);
    NearestAwayOdd(65536.0 * y);
  }

  lemma LostValue()
    ensures Ftofix(BELOW_HALF / 65536.0) == Outcome(1, Clear)
  {
    BelowHalfLost();
    SmallPowers();
    ExactAt(BELOW_HALF, 9007199254740991, -54);
    FtofixIs(BELOW_HALF / 65536.0, BELOW_HALF, 1.0, 1);
  }

  /** For every double within the range ftofix returns the nearest fixed value, halves away from zero, exactly if the
      argument is not 1/2 - 2^-54 units of 2^-16 or its negative. For these it returns one unit instead of none. */
  lemma FtofixNearestIff(x: real)
    requires IsDouble(x) && -32767.0 <= x <= 32767.0
    ensures Ftofix(x).error == Clear
    ensures Ftofix(x).value == NearestAway(65536.0 * x) <==> 65536.0 * x != BELOW_HALF && 65536.0 * x != -BELOW_HALF
    ensures Ftofix(BELOW_HALF / 65536.0) == Outcome(1, Clear) && NearestAway(BELOW_HALF) == 0
    ensures Ftofix(-BELOW_HALF / 65536.0) == Outcome(-1, Clear) && NearestAway(-BELOW_HALF) == 0
  {
    LostValue();
    FtofixOdd(BELOW_HALF / 65536.0);
    if x >= 0.0 { PositiveNearestIff(x); } else { NegativeNearestIff(x, -x); }
  }

}
