/** C `double` values as reals: significands of 53 bits, rounding to nearest, ties to even (sections 3.4 and
    4.3.1 of IEEE 754-2008). Exponents are not bounded: no operation of fixedmath.h comes near the limits.
    4503599627370496 is 2^52 and 9007199254740992 is 2^53. */
module Doubles {

  /** A significand of 53 bits lies between 2^52 and 2^53; the upper end is the next power of two. */
  const MIN_SIGNIFICAND: int := 4503599627370496
  const MAX_SIGNIFICAND: int := 9007199254740992

  const TWO_52: real := 4503599627370496.0
  const TWO_53: real := 9007199254740992.0


  function Pow2(e: int): (p: real)
    ensures p > 0.0
    decreases if e < 0 then -e else e
  {
    if e == 0 then 1.0 else if e > 0 then 2.0 * Pow2(e - 1) else Pow2(e + 1) / 2.0
  }

  lemma Pow2Next(e: int)
    ensures Pow2(e + 1) == 2.0 * Pow2(e)
  {
  }

  lemma {:induction false} Pow2Monotone(e: int, f: int)
    requires e <= f
    ensures Pow2(e) <= Pow2(f)
    decreases f - e
  {
    if e == f {
    } else {
      Pow2Monotone(e, f - 1);
      Pow2Next(f - 1);
    }
  }

  // ---------------------------------------------------------------- products of reals

  lemma TimesLess(a: real, b: real, c: real)
    requires c > 0.0
    ensures a < b <==> a * c < b * c
    ensures a == b <==> a * c == b * c
  {
    if a < b { TimesLessOne(a, b, c); }
    if b < a { TimesLessOne(b, a, c); }
  }

  lemma TimesLessOne(a: real, b: real, c: real)
    requires c > 0.0 && a < b
    ensures a * c < b * c
  {
  }

  lemma Quotient(a: real, b: real)
    requires b != 0.0
    ensures (a / b) * b == a
  {
  }

  lemma QuotientAbove(a: real, b: real, c: real)
    requires b > 0.0
    ensures a / b >= c <==> a >= c * b
    ensures a / b > c <==> a > c * b
  {
    Quotient(a, b);
    TimesLess(a / b, c, b);
    TimesLess(c, a / b, b);
  }

  lemma IsQuotient(q: real, a: real, b: real)
    requires b > 0.0 && q * b == a
    ensures a / b == q
  {
    Quotient(a, b);
    TimesLess(a / b, q, b);
  }

  // ---------------------------------------------------------------- rounding

  /** How far the search for the exponent still has to go. */
  function SearchLeft(v: real, e: int): nat
    requires v > 0.0
  {
    var p := Pow2(e);
    if v >= TWO_53 * p then (v / p).Floor else (TWO_52 * p / v).Floor
  }

  lemma HalfFloor(t: real)
    requires t >= 1.0
    ensures 0 <= (t / 2.0).Floor < t.Floor
  {
  }

  lemma SearchUp(v: real, e: int)
    requires v > 0.0 && v >= TWO_53 * Pow2(e)
    ensures SearchLeft(v, e + 1) < SearchLeft(v, e)
  {
    Pow2Next(e);
    UpQuotients(v, Pow2(e), Pow2(e + 1));
  }

  lemma UpQuotients(v: real, p: real, q: real)
    requires p > 0.0 && q == 2.0 * p && v >= TWO_53 * p
    ensures v >= TWO_53 * q ==> 0 <= (v / q).Floor < (v / p).Floor
    ensures v < TWO_53 * q ==> 0 <= (TWO_52 * q / v).Floor < (v / p).Floor
  {
    QuotientAbove(v, p, TWO_53);
    var t := v / p;
    Quotient(v, p);
    IsQuotient(t / 2.0, v, q);
    HalfFloor(t);
    QuotientAbove(TWO_52 * q, v, 1.0);
    QuotientAbove(TWO_52 * q, v, 0.0);
  }

  lemma SearchDown(v: real, e: int)
    requires v > 0.0 && v < TWO_52 * Pow2(e)
    ensures SearchLeft(v, e - 1) < SearchLeft(v, e)
  {
    var p, q := Pow2(e), Pow2(e - 1);
    Pow2Next(e - 1);
    var t := TWO_52 * p / v;
    QuotientAbove(TWO_52 * p, v, 1.0);
    IsQuotient(t / 2.0, TWO_52 * q, v);
    HalfFloor(t);
  }

  /** The exponent of the last place of a positive value. */
  function Exponent(v: real, e: int): (r: int)
    requires v > 0.0
    ensures TWO_52 * Pow2(r) <= v < TWO_53 * Pow2(r)
    decreases SearchLeft(v, e)
  {
    if v >= TWO_53 * Pow2(e) then
      SearchUp(v, e);
      Exponent(v, e + 1)
    else if v < TWO_52 * Pow2(e) then
      SearchDown(v, e);
      Exponent(v, e - 1)
    else e
  }

  /** To the nearest integer, ties to even. */
  function NearestEven(s: real): int {
    var f := s.Floor;
    var d := s - f as real;
    if d < 0.5 then f else if d > 0.5 then f + 1 else if f % 2 == 0 then f else f + 1
  }

  function Units(m: int, p: real): real {
    m as real * p
  }

  function RoundTo(v: real, p: real): real
    requires p > 0.0
  {
    Units(NearestEven(v / p), p)
  }

  function RoundPositive(v: real): real
    requires v > 0.0
  {
    RoundTo(v, Pow2(Exponent(v, 0)))
  }

  /** The double nearest to a real value. */
  function Rounded(v: real): real {
    if v == 0.0 then 0.0 else if v > 0.0 then RoundPositive(v) else -RoundPositive(-v)
  }

  function Mul(a: real, b: real): real { Rounded(a * b) }

  function Div(a: real, b: real): real
    requires b != 0.0
  {
    Rounded(a / b)
  }

  function Add(a: real, b: real): real { Rounded(a + b) }

  /** Values a double can hold. */
  ghost predicate IsDouble(v: real) {
    exists m: int, e: int :: IsScaled(v, m, e)
  }

  ghost predicate IsScaled(v: real, m: int, e: int) {
    -MAX_SIGNIFICAND <= m <= MAX_SIGNIFICAND && v == Units(m, Pow2(e))
  }

  // ---------------------------------------------------------------- what rounding does

  lemma NearestBounds(s: real, k: int)
    ensures -0.5 <= NearestEven(s) as real - s <= 0.5
    ensures k as real <= s ==> k <= NearestEven(s)
    ensures s <= k as real ==> NearestEven(s) <= k
  {
  }

  /** `v` is `s` units `p` of its last place, and rounds to `m` of them. */
  ghost predicate Placed(v: real, e: int, p: real, s: real, m: int) {
    && p == Pow2(e) && p > 0.0 && s * p == v && m == NearestEven(s)
    && TWO_52 <= s < TWO_53 && MIN_SIGNIFICAND <= m <= MAX_SIGNIFICAND
    && TWO_52 * p <= v < TWO_53 * p
  }

  lemma RoundToIs(v: real, p: real) returns (s: real, m: int)
    requires p > 0.0 && TWO_52 * p <= v < TWO_53 * p
    ensures s * p == v && m == NearestEven(s) && RoundTo(v, p) == Units(m, p)
    ensures TWO_52 <= s < TWO_53 && MIN_SIGNIFICAND <= m <= MAX_SIGNIFICAND
  {
    s := v / p;
    m := NearestEven(s);
    Quotient(v, p);
    QuotientAbove(v, p, TWO_52);
    QuotientAbove(v, p, TWO_53);
    NearestBounds(s, MIN_SIGNIFICAND);
    NearestBounds(s, MAX_SIGNIFICAND);
  }

  lemma Significand(v: real) returns (e: int, p: real, s: real, m: int)
    requires v > 0.0
    ensures Placed(v, e, p, s, m) && RoundPositive(v) == Units(m, p)
  {
    e := Exponent(v, 0);
    p := Pow2(e);
    s, m := RoundToIs(v, p);
  }

  lemma ErrorOf(v: real, p: real, s: real, m: int)
    requires p > 0.0 && s * p == v && -0.5 <= m as real - s <= 0.5 && TWO_52 * p <= v
    ensures -v / 9007199254740992.0 <= Units(m, p) - v <= v / 9007199254740992.0
  {
    var d := m as real - s;
    assert Units(m, p) - v == d * p;
    TimesLess(d, 0.5, p);
    TimesLess(-0.5, d, p);
    assert -0.5 * p <= d * p <= 0.5 * p;
  }

  /** The error of rounding is at most half a unit in the last place. */
  lemma RelativeError(v: real)
    ensures var d := Rounded(v) - v; var b := (if v < 0.0 then -v else v) / 9007199254740992.0;
      -b <= d <= b
  {
    if v != 0.0 {
      var w := if v < 0.0 then -v else v;
      var e, p, s, m := Significand(w);
      NearestBounds(s, 0);
      ErrorOf(w, p, s, m);
    }
  }

  lemma {:induction false} Pow2Int(n: nat) returns (k: int)
    ensures k >= 1 && Pow2(n) == k as real
  {
    if n == 0 {
      k := 1;
    } else {
      var j := Pow2Int(n - 1);
      k := 2 * j;
    }
  }

  function Times(a: real, b: real): real { a * b }

  lemma TimesTwice(a: real, b: real)
    ensures Times(a, 2.0 * b) == 2.0 * Times(a, b)
  {
  }

  lemma TimesOne(a: real)
    ensures Times(a, 1.0) == a
  {
  }

  lemma {:induction false} Pow2Sum(e: int, n: nat)
    ensures Pow2(e + n) == Times(Pow2(e), Pow2(n))
    decreases n
  {
    if n == 0 {
      TimesOne(Pow2(e));
    } else {
      Pow2Sum(e, n - 1);
      Pow2Next(e + n - 1);
      Pow2Next(n - 1);
      TimesTwice(Pow2(e), Pow2(n - 1));
    }
  }

  lemma IntegerStays(k: int)
    ensures NearestEven(k as real) == k
  {
  }

  lemma ThreeFactors(a: real, b: real, c: real)
    ensures a * (b * c) == (a * c) * b
  {
  }

  lemma ScaledExact(v: real, m: int, f: int)
    requires v > 0.0 && IsScaled(v, m, f)
    ensures RoundPositive(v) == v
  {
    var e, p, s, r := Significand(v);
    ScaledPlaced(v, m, f, e, p, s, r);
  }

  lemma ScaledPlaced(v: real, m: int, f: int, e: int, p: real, s: real, r: int)
    requires Placed(v, e, p, s, r) && IsScaled(v, m, f)
    ensures Units(r, p) == v
  {
    var k := MIN_SIGNIFICAND;
    if f >= e {
      k := ScaledHigh(v, m, f, e);
    } else {
      ScaledLow(v, m, f, e);
    }
    WholeExact(v, p, s, r, k);
  }

  lemma WholeExact(v: real, p: real, s: real, r: int, k: int)
    requires p > 0.0 && s * p == v && v == Units(k, p) && r == NearestEven(s)
    ensures Units(r, p) == v
  {
    SameFactor(s, k as real, p);
    IntegerStays(k);
  }

  lemma SameFactor(s: real, k: real, p: real)
    requires p > 0.0 && s * p == k * p
    ensures s == k
  {
    TimesLess(s, k, p);
  }

  lemma ScaledHigh(v: real, m: int, f: int, e: int) returns (k: int)
    requires IsScaled(v, m, f) && f >= e
    ensures v == Units(k, Pow2(e))
  {
    var j := PowerRatio(f, e);
    k := RegroupProduct(m, j, Pow2(e), Pow2(f), v);
  }

  lemma PowerRatio(f: int, e: int) returns (k: int)
    requires f >= e
    ensures Pow2(f) == Pow2(e) * k as real
  {
    var n: nat := f - e;
    k := Pow2Int(n);
    Pow2Sum(e, n);
    assert e + n == f;
  }

  lemma RegroupProduct(m: int, k: int, p: real, q: real, v: real) returns (n: int)
    requires q == p * k as real && v == Units(m, q)
    ensures v == Units(n, p)
  {
    n := m * k;
    ThreeFactors(m as real, p, k as real);
    assert m as real * k as real == (m * k) as real;
  }

  lemma ScaledLow(v: real, m: int, f: int, e: int)
    requires IsScaled(v, m, f) && f < e && TWO_52 * Pow2(e) <= v
    ensures v == Units(MIN_SIGNIFICAND, Pow2(e))
  {
    Pow2Monotone(f + 1, e);
    Pow2Next(f);
    LowUnits(v, m, Pow2(f), Pow2(e));
  }

  lemma LowUnits(v: real, m: int, p: real, q: real)
    requires p > 0.0 && 2.0 * p <= q && m <= MAX_SIGNIFICAND && v == Units(m, p) && TWO_52 * q <= v
    ensures v == Units(MIN_SIGNIFICAND, q)
  {
    if m < MAX_SIGNIFICAND {
      TimesLessOne(m as real, TWO_53, p);
    }
  }

  /** A value that a double can hold is not changed. */
  lemma DoubleExact(v: real)
    requires IsDouble(v)
    ensures Rounded(v) == v
  {
    if v > 0.0 {
      var m, e :| IsScaled(v, m, e);
      ScaledExact(v, m, e);
    } else if v < 0.0 {
      NegatedDouble(v);
      var m, e :| IsScaled(-v, m, e);
      ScaledExact(-v, m, e);
    }
  }

  lemma NearestMonotone(s: real, t: real)
    requires s <= t
    ensures NearestEven(s) <= NearestEven(t)
  {
  }

  lemma HigherExponent(v: real, w: real, e: int, f: int)
    requires v < TWO_53 * Pow2(e) && TWO_52 * Pow2(f) <= w && e < f
    ensures TWO_53 * Pow2(e) <= TWO_52 * Pow2(f) && v < w
  {
    Pow2Monotone(e + 1, f);
    Pow2Next(e);
  }

  lemma NotLess(s: real, v: real, t: real, w: real, p: real)
    requires p > 0.0 && s * p == v && t * p == w && v <= w
    ensures s <= t
  {
    if t < s { TimesLessOne(t, s, p); }
  }

  lemma SamePlaceMonotone(v: real, e: int, p: real, s: real, m: int, w: real, t: real, n: int)
    requires Placed(v, e, p, s, m) && Placed(w, e, p, t, n) && v <= w
    ensures Units(m, p) <= Units(n, p)
  {
    NotLess(s, v, t, w, p);
    NearestMonotone(s, t);
    UnitsMonotone(m, n, p);
  }

  lemma UnitsMonotone(m: int, n: int, p: real)
    requires p > 0.0 && m <= n
    ensures Units(m, p) <= Units(n, p)
  {
    if m < n { TimesLessOne(m as real, n as real, p); }
  }

  lemma LowAndHigh(p: real, m: int, q: real, n: int)
    requires p > 0.0 && q > 0.0 && TWO_53 * p <= TWO_52 * q
    requires m <= MAX_SIGNIFICAND && MIN_SIGNIFICAND <= n
    ensures Units(m, p) <= Units(n, q)
  {
    TimesLess(TWO_53, m as real, p);
    TimesLess(n as real, TWO_52, q);
  }

  lemma PlacedPositive(v: real, e: int, p: real, s: real, m: int)
    requires Placed(v, e, p, s, m)
    ensures 0.0 < Units(m, p)
  {
    TimesLess(0.0, m as real, p);
  }

  lemma LowerPlaceMonotone(v: real, e: int, p: real, s: real, m: int, w: real, f: int, q: real, t: real, n: int)
    requires Placed(v, e, p, s, m) && Placed(w, f, q, t, n) && e < f
    ensures Units(m, p) <= Units(n, q) && v < w
  {
    HigherExponent(v, w, e, f);
    LowAndHigh(p, m, q, n);
  }

  lemma PlacedMonotone(v: real, e: int, p: real, s: real, m: int, w: real, f: int, q: real, t: real, n: int)
    requires Placed(v, e, p, s, m) && Placed(w, f, q, t, n) && v <= w
    ensures Units(m, p) <= Units(n, q)
  {
    if e < f {
      LowerPlaceMonotone(v, e, p, s, m, w, f, q, t, n);
    } else if f < e {
      LowerPlaceMonotone(w, f, q, t, n, v, e, p, s, m);
    } else {
      SamePlaceMonotone(v, e, p, s, m, w, t, n);
    }
  }

  lemma PositiveMonotone(v: real, w: real)
    requires 0.0 < v <= w
    ensures 0.0 < RoundPositive(v) <= RoundPositive(w)
  {
    var e, p, s, m := Significand(v);
    var f, q, t, n := Significand(w);
    PlacedPositive(v, e, p, s, m);
    PlacedMonotone(v, e, p, s, m, w, f, q, t, n);
  }

  /** Rounding keeps order. */
  lemma RoundedMonotone(v: real, w: real)
    requires v <= w
    ensures Rounded(v) <= Rounded(w)
  {
    if 0.0 < v { PositiveMonotone(v, w); }
    else if w < 0.0 { PositiveMonotone(-w, -v); }
    else {
      if v < 0.0 { PositiveMonotone(-v, -v); }
      if w > 0.0 { PositiveMonotone(w, w); }
    }
  }

  lemma RoundedIsDouble(v: real)
    ensures IsDouble(Rounded(v))
  {
    if v > 0.0 {
      var e, p, s, m := Significand(v);
      PlacedIsDouble(v, e, p, s, m);
    } else if v < 0.0 {
      var e, p, s, m := Significand(-v);
      PlacedIsDouble(-v, e, p, s, m);
      NegatedDouble(Units(m, p));
    } else {
      assert IsScaled(0.0, 0, 0);
    }
  }

  lemma PlacedIsDouble(v: real, e: int, p: real, s: real, m: int)
    requires Placed(v, e, p, s, m)
    ensures IsDouble(Units(m, p))
  {
    assert IsScaled(Units(m, p), m, e);
  }

  /** The exponent is the only one that puts the significand in its range. */
  lemma ExponentIs(v: real, e: int, f: int)
    requires TWO_52 * Pow2(e) <= v < TWO_53 * Pow2(e) && TWO_52 * Pow2(f) <= v < TWO_53 * Pow2(f)
    ensures e == f
  {
    if e < f { HigherExponent(v, v, e, f); }
    if f < e { HigherExponent(v, v, f, e); }
  }

  lemma HalfIsNearest(m: int)
    ensures NearestEven(m as real + 0.5) == if m % 2 == 0 then m else m + 1
  {
    assert (m as real + 0.5).Floor == m;
  }

  lemma HalfPlaced(h: real, p: real, v: real)
    requires p > 0.0 && v == h * p && TWO_52 <= h < TWO_53
    ensures TWO_52 * p <= v < TWO_53 * p && v > 0.0
  {
    TimesLess(0.0, TWO_52, p);
    TimesLess(TWO_52, h, p);
    TimesLess(h, TWO_53, p);
  }

  lemma HalfRoundedTo(m: int, p: real, v: real)
    requires MIN_SIGNIFICAND <= m < MAX_SIGNIFICAND && p > 0.0 && v == (m as real + 0.5) * p
    ensures TWO_52 * p <= v < TWO_53 * p && v > 0.0
    ensures RoundTo(v, p) == Units(if m % 2 == 0 then m else m + 1, p)
  {
    HalfPlaced(m as real + 0.5, p, v);
    var s, n := RoundToIs(v, p);
    SameFactor(s, m as real + 0.5, p);
    HalfIsNearest(m);
  }

  lemma RoundedAt(v: real, e: int, p: real)
    requires p == Pow2(e) && TWO_52 * p <= v < TWO_53 * p && v > 0.0
    ensures Rounded(v) == RoundTo(v, p) && Rounded(-v) == -RoundTo(v, p)
  {
    ExponentIs(v, e, Exponent(v, 0));
  }

  /** Half-way between two neighbouring doubles, the one with the even significand is taken. */
  lemma TiesToEven(v: real, m: int, e: int)
    requires MIN_SIGNIFICAND <= m < MAX_SIGNIFICAND && v == (m as real + 0.5) * Pow2(e)
    ensures var n := if m % 2 == 0 then m else m + 1;
      Rounded(v) == Units(n, Pow2(e)) && Rounded(-v) == -Units(n, Pow2(e))
  {
    var p := Pow2(e);
    HalfRoundedTo(m, p, v);
    RoundedAt(v, e, p);
  }

  function Distance(a: real, b: real): real {
    if a < b then b - a else a - b
  }

  /** No double is nearer to a value than the rounded one. */
  lemma Nearest(v: real, d: real)
    requires IsDouble(d)
    ensures Distance(Rounded(v), v) <= Distance(d, v)
  {
    if v > 0.0 && d > 0.0 {
      DoubleExact(d);
      NearestPositive(v, d);
    } else if v < 0.0 && d < 0.0 {
      NegatedDouble(d);
      DoubleExact(-d);
      NearestPositive(-v, -d);
    } else {
      RelativeError(v);
    }
  }

  lemma NegatedDouble(d: real)
    requires IsDouble(d)
    ensures IsDouble(-d)
  {
    var m, e :| IsScaled(d, m, e);
    NegatedUnits(m, Pow2(e));
    assert IsScaled(-d, -m, e);
  }

  lemma NegatedUnits(m: int, p: real)
    ensures Units(-m, p) == -Units(m, p)
  {
  }

  lemma NearestPositive(v: real, d: real)
    requires v > 0.0 && d > 0.0 && RoundPositive(d) == d
    ensures Distance(RoundPositive(v), v) <= Distance(d, v)
  {
    var e, p, s, m := Significand(v);
    var f, q, t, n := Significand(d);
    PlacedNearest(v, e, p, s, m, d, f, q, t, n);
  }

  lemma PlacedNearest(v: real, e: int, p: real, s: real, m: int, d: real, f: int, q: real, t: real, n: int)
    requires Placed(v, e, p, s, m) && Placed(d, f, q, t, n) && d == Units(n, q)
    ensures Distance(Units(m, p), v) <= Distance(d, v)
  {
    if e == f {
      NearestInPlace(v, e, p, s, m, n);
    } else if e < f {
      NextAbove(v, e, p, s, m, d, f, q, t, n);
    } else {
      NextBelow(v, e, p, s, m, d, f, q, t, n);
    }
  }

  lemma NextAbove(v: real, e: int, p: real, s: real, m: int, d: real, f: int, q: real, t: real, n: int)
    requires Placed(v, e, p, s, m) && Placed(d, f, q, t, n) && e < f
    ensures Distance(Units(m, p), v) <= Distance(d, v)
  {
    HigherExponent(v, d, e, f);
    NearestInPlace(v, e, p, s, m, MAX_SIGNIFICAND);
  }

  lemma NextBelow(v: real, e: int, p: real, s: real, m: int, d: real, f: int, q: real, t: real, n: int)
    requires Placed(v, e, p, s, m) && Placed(d, f, q, t, n) && f < e
    ensures Distance(Units(m, p), v) <= Distance(d, v)
  {
    HigherExponent(d, v, f, e);
    NearestInPlace(v, e, p, s, m, MIN_SIGNIFICAND);
  }

  lemma NearestInPlace(v: real, e: int, p: real, s: real, m: int, n: int)
    requires Placed(v, e, p, s, m)
    ensures Distance(Units(m, p), v) <= Distance(Units(n, p), v)
  {
    NearestInteger(s, n);
    UnitsNearer(m, n, s, p, v);
  }

  lemma UnitsNearer(m: int, n: int, s: real, p: real, v: real)
    requires p > 0.0 && s * p == v && Distance(m as real, s) <= Distance(n as real, s)
    ensures Distance(Units(m, p), v) <= Distance(Units(n, p), v)
  {
    UnitsDistance(m, s, p, v);
    UnitsDistance(n, s, p, v);
    NotMore(Distance(m as real, s), Distance(n as real, s), p, Distance(Units(m, p), v), Distance(Units(n, p), v));
  }

  lemma NotMore(a: real, b: real, p: real, x: real, y: real)
    requires p > 0.0 && a <= b && x == a * p && y == b * p
    ensures x <= y
  {
    if a < b { TimesLessOne(a, b, p); }
  }

  lemma UnitsDistance(m: int, s: real, p: real, v: real)
    requires p > 0.0 && s * p == v
    ensures Distance(Units(m, p), v) == Distance(m as real, s) * p
  {
    TimesLess(m as real, s, p);
  }

  lemma NearestInteger(s: real, n: int)
    ensures Distance(NearestEven(s) as real, s) <= Distance(n as real, s)
  {
    NearestBounds(s, n);
  }
}
