/** Logical and device coordinates: LPtoDP and DPtoLP of `src/newgdi/coor.c`. */
module Mapping {
  import opened Basics
  import opened Rects

  datatype MapMode = MmText | MmAnisotropic

  /** The mapping part of a device context. */
  datatype DC = DC(mapmode: MapMode, viewOrig: Point, viewExtent: Point, windowOrig: Point, windowExtent: Point)

  /** What the divisions of the code demand of a device context that maps. */
  predicate Mappable(dc: DC) {
    dc.mapmode != MmText ==>
      dc.viewExtent.x != 0 && dc.viewExtent.y != 0 && dc.windowExtent.x != 0 && dc.windowExtent.y != 0
  }

  /** C division: towards zero. */
  function TruncDiv(a: int, b: int): int
    requires b != 0
  {
    Signed((a < 0) != (b < 0), Abs(a) / Abs(b))
  }

  function Signed(negative: bool, q: int): int { if negative then -q else q }

  /** No remainder. */
  predicate Divides(b: int, a: int)
    requires b != 0
  {
    Abs(a) % Abs(b) == 0
  }

  /** One coordinate, from the side with origin and extent `from` to the side with `to`. */
  function Scaled(v: int, fromOrig: int, fromExtent: int, toOrig: int, toExtent: int): int
    requires fromExtent != 0
  {
    TruncDiv((v - fromOrig) * toExtent, fromExtent) + toOrig
  }

  function ToDevice(dc: DC, p: Point): Point
    requires Mappable(dc)
  {
    if dc.mapmode == MmText then p
    else Point(Scaled(p.x, dc.windowOrig.x, dc.windowExtent.x, dc.viewOrig.x, dc.viewExtent.x),
               Scaled(p.y, dc.windowOrig.y, dc.windowExtent.y, dc.viewOrig.y, dc.viewExtent.y))
  }

  function ToLogical(dc: DC, p: Point): Point
    requires Mappable(dc)
  {
    if dc.mapmode == MmText then p
    else Point(Scaled(p.x, dc.viewOrig.x, dc.viewExtent.x, dc.windowOrig.x, dc.windowExtent.x),
               Scaled(p.y, dc.viewOrig.y, dc.viewExtent.y, dc.windowOrig.y, dc.windowExtent.y))
  }

  lemma TruncDivAbs(a: int, b: int)
    requires b != 0
    ensures Abs(TruncDiv(a, b)) == Abs(a) / Abs(b)
    ensures TruncDiv(a, b) != 0 ==> ((TruncDiv(a, b) < 0) <==> ((a < 0) != (b < 0)))
  {
    QuotientNatural(Abs(a), Abs(b));
  }

  lemma QuotientNatural(a: nat, b: int)
    requires b > 0
    ensures a / b >= 0
  {
  }

  /** `q` is the quotient of `a` by `b` without its fraction. */
  predicate IsTruncated(q: int, a: int, b: int) {
    && Abs(q) * Abs(b) <= Abs(a) < (Abs(q) + 1) * Abs(b)
    && (q != 0 ==> (q < 0 <==> (a < 0) != (b < 0)))
  }

  lemma TruncDivIs(a: int, b: int)
    requires b != 0
    ensures IsTruncated(TruncDiv(a, b), a, b)
  {
    TruncDivAbs(a, b);
    DivisionBounds(Abs(a), Abs(b), Abs(a) / Abs(b));
  }

  lemma DivisionBounds(a: nat, b: int, q: int)
    requires b > 0 && q == a / b
    ensures q * b <= a < (q + 1) * b
  {
  }

  /** A POINT that the functions change through a pointer. */
  class PointVar {
    var x: int
    var y: int

    constructor (p: Point)
      ensures Value() == p
    {
      x, y := p.x, p.y;
    }

    ghost function Value(): Point
      reads this
    {
      Point(x, y)
    }

    method LPtoDP(dc: DC)
      requires Mappable(dc)
      modifies this
      ensures Value() == ToDevice(dc, old(Value()))
      ensures dc.mapmode == MmText ==> x == old(x) && y == old(y)
      ensures dc.mapmode != MmText ==>
        && IsTruncated(x - dc.viewOrig.x, (old(x) - dc.windowOrig.x) * dc.viewExtent.x, dc.windowExtent.x)
        && IsTruncated(y - dc.viewOrig.y, (old(y) - dc.windowOrig.y) * dc.viewExtent.y, dc.windowExtent.y)
    {
      if dc.mapmode != MmText {
        TruncDivIs((x - dc.windowOrig.x) * dc.viewExtent.x, dc.windowExtent.x);
        TruncDivIs((y - dc.windowOrig.y) * dc.viewExtent.y, dc.windowExtent.y);
        x := TruncDiv((x - dc.windowOrig.x) * dc.viewExtent.x, dc.windowExtent.x) + dc.viewOrig.x;
        y := TruncDiv((y - dc.windowOrig.y) * dc.viewExtent.y, dc.windowExtent.y) + dc.viewOrig.y;
      }
    }

    method DPtoLP(dc: DC)
      requires Mappable(dc)
      modifies this
      ensures Value() == ToLogical(dc, old(Value()))
      ensures dc.mapmode == MmText ==> x == old(x) && y == old(y)
      ensures dc.mapmode != MmText ==>
        && IsTruncated(x - dc.windowOrig.x, (old(x) - dc.viewOrig.x) * dc.windowExtent.x, dc.viewExtent.x)
        && IsTruncated(y - dc.windowOrig.y, (old(y) - dc.viewOrig.y) * dc.windowExtent.y, dc.viewExtent.y)
    {
      if dc.mapmode != MmText {
        TruncDivIs((x - dc.viewOrig.x) * dc.windowExtent.x, dc.viewExtent.x);
        TruncDivIs((y - dc.viewOrig.y) * dc.windowExtent.y, dc.viewExtent.y);
        x := TruncDiv((x - dc.viewOrig.x) * dc.windowExtent.x, dc.viewExtent.x) + dc.windowOrig.x;
        y := TruncDiv((y - dc.viewOrig.y) * dc.windowExtent.y, dc.viewExtent.y) + dc.windowOrig.y;
      }
    }
  }

  /** One coordinate is scaled by the ratio of the extents, towards the origin, whatever the signs. */
  lemma ScaledIs(v: int, fromOrig: int, fromExtent: int, toOrig: int, toExtent: int)
    requires fromExtent != 0
    ensures IsTruncated(Scaled(v, fromOrig, fromExtent, toOrig, toExtent) - toOrig,
                        (v - fromOrig) * toExtent, fromExtent)
  {
    TruncDivIs((v - fromOrig) * toExtent, fromExtent);
  }

  /** Both mappings, coordinate by coordinate. */
  lemma MappedCoordinates(dc: DC, p: Point)
    requires Mappable(dc)
    ensures var d, l := ToDevice(dc, p), ToLogical(dc, p);
      if dc.mapmode == MmText then d == p && l == p
      else
        && IsTruncated(d.x - dc.viewOrig.x, (p.x - dc.windowOrig.x) * dc.viewExtent.x, dc.windowExtent.x)
        && IsTruncated(d.y - dc.viewOrig.y, (p.y - dc.windowOrig.y) * dc.viewExtent.y, dc.windowExtent.y)
        && IsTruncated(l.x - dc.windowOrig.x, (p.x - dc.viewOrig.x) * dc.windowExtent.x, dc.viewExtent.x)
        && IsTruncated(l.y - dc.windowOrig.y, (p.y - dc.viewOrig.y) * dc.windowExtent.y, dc.viewExtent.y)
  {
    if dc.mapmode != MmText {
      ScaledIs(p.x, dc.windowOrig.x, dc.windowExtent.x, dc.viewOrig.x, dc.viewExtent.x);
      ScaledIs(p.y, dc.windowOrig.y, dc.windowExtent.y, dc.viewOrig.y, dc.viewExtent.y);
      ScaledIs(p.x, dc.viewOrig.x, dc.viewExtent.x, dc.windowOrig.x, dc.windowExtent.x);
      ScaledIs(p.y, dc.viewOrig.y, dc.viewExtent.y, dc.windowOrig.y, dc.windowExtent.y);
    }
  }

  // ---------------------------------------------------------------- there and back

  /** `back` lies between `orig` and `v`, `off` units short of `v`. */
  predicate ShortBy(v: int, orig: int, back: int, off: nat) {
    if v >= orig then orig <= back && v == back + off else back <= orig && v == back - off
  }

  lemma Remainders(a: nat, v: nat, b: nat, x: nat, r: nat, t: nat)
    requires a * v == x + r && x == v * b + t
    ensures v * (a - b) == r + t
  {
  }

  lemma DivisionOf(a: nat, w: nat) returns (d: nat, r: nat)
    requires w > 0
    ensures d == a / w && r == a % w && a == d * w + r && 0 <= r < w
  {
    d, r := a / w, a % w;
  }

  lemma FloorThereAndBack(a: nat, v: nat, w: nat) returns (d: nat, b: nat)
    requires v > 0 && w > 0
    ensures d == a * v / w && b == d * w / v
    ensures b <= a && v * (a - b) < w + v
    ensures b == a <==> a * v % w == 0
  {
    var r, t;
    d, r := DivisionOf(a * v, w);
    b, t := DivisionOf(d * w, v);
    Remainders(a, v, b, d * w, r, t);
    if b > a { Below(v, a, b); }
    if r == 0 { SmallMultiple(v, a - b, t); }
  }

  lemma Below(v: nat, a: nat, b: nat)
    requires v > 0 && b > a
    ensures v * (a - b) < 0
  {
  }

  lemma SmallMultiple(v: nat, k: int, s: int)
    requires v > 0 && v * k == s && 0 <= s < v
    ensures k == 0
  {
  }

  lemma AbsProduct(a: int, b: int)
    ensures Abs(a * b) == Abs(a) * Abs(b)
    ensures a * b < 0 <==> a != 0 && b != 0 && (a < 0) != (b < 0)
  {
    if a < 0 && b < 0 {
      assert a * b == (-a) * (-b);
    } else if a < 0 {
      assert a * b == -((-a) * b);
    } else if b < 0 {
      assert a * b == -(a * (-b));
    }
  }

  /** Forth and back the sign returns. */
  lemma TruncDivThereAndBack(a: int, v: int, w: int, d: int, b: int)
    requires v != 0 && w != 0 && d == TruncDiv(a * v, w) && b == TruncDiv(d * w, v)
    ensures Abs(d) == Abs(a) * Abs(v) / Abs(w) && Abs(b) == Abs(d) * Abs(w) / Abs(v)
    ensures b != 0 ==> (b < 0 <==> a < 0)
  {
    AbsProduct(a, v);
    TruncDivAbs(a * v, w);
    AbsProduct(d, w);
    TruncDivAbs(d * w, v);
  }

  /** Back in logical coordinates a value is never past the original, less than 1 + |WE| / |VE| units short
      of it, and equal to it exactly when the forward division leaves no remainder: any signs, any extents. */
  lemma ScaledThereAndBack(l: int, wo: int, we: int, vo: int, ve: int) returns (back: int, off: nat)
    requires we != 0 && ve != 0
    ensures back == Scaled(Scaled(l, wo, we, vo, ve), vo, ve, wo, we)
    ensures ShortBy(l, wo, back, off) && Abs(ve) * off < Abs(we) + Abs(ve)
    ensures back == l <==> Divides(we, (l - wo) * ve)
  {
    var a := l - wo;
    var d := TruncDiv(a * ve, we);
    var b := TruncDiv(d * we, ve);
    back := b + wo;
    var x, y := FloorThereAndBack(Abs(a), Abs(ve), Abs(we));
    TruncDivThereAndBack(a, ve, we, d, b);
    assert x == Abs(d) && y == Abs(b);
    AbsProduct(a, ve);
    off := Abs(a) - y;
  }

  predicate Exact(dc: DC, p: Point)
    requires Mappable(dc)
  {
    dc.mapmode != MmText ==>
      && Divides(dc.windowExtent.x, (p.x - dc.windowOrig.x) * dc.viewExtent.x)
      && Divides(dc.windowExtent.y, (p.y - dc.windowOrig.y) * dc.viewExtent.y)
  }

  /** Mapping a point to the device and back is the identity exactly in text mode or when both forward
      divisions leave no remainder. With viewport extents at least as large as the window extents each
      coordinate loses at most one unit, towards the window origin. */
  lemma PointThereAndBack(dc: DC, p: Point)
    requires Mappable(dc)
    ensures var q := ToLogical(dc, ToDevice(dc, p));
      && (q == p <==> Exact(dc, p))
      && (dc.mapmode != MmText && Abs(dc.viewExtent.x) >= Abs(dc.windowExtent.x) ==>
            q.x == p.x || ShortBy(p.x, dc.windowOrig.x, q.x, 1))
      && (dc.mapmode != MmText && Abs(dc.viewExtent.y) >= Abs(dc.windowExtent.y) ==>
            q.y == p.y || ShortBy(p.y, dc.windowOrig.y, q.y, 1))
  {
    if dc.mapmode != MmText {
      var x, i := ScaledThereAndBack(p.x, dc.windowOrig.x, dc.windowExtent.x, dc.viewOrig.x, dc.viewExtent.x);
      var y, j := ScaledThereAndBack(p.y, dc.windowOrig.y, dc.windowExtent.y, dc.viewOrig.y, dc.viewExtent.y);
      AtMostOne(Abs(dc.viewExtent.x), Abs(dc.windowExtent.x), i);
      AtMostOne(Abs(dc.viewExtent.y), Abs(dc.windowExtent.y), j);
    }
  }

  lemma AtMostOne(v: nat, w: nat, off: nat)
    requires v * off < w + v
    ensures v >= w ==> off <= 1
  {
    if off >= 2 {
      Twice(v, off);
    }
  }

  lemma Twice(v: nat, off: nat)
    requires off >= 2
    ensures v * off >= 2 * v
  {
  }
}
