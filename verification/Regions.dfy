/** The values of a CLIPRGN and the region functions of `src/newgdi/region.c` on them. The class in
    ClipRegion carries them out in place. */
module Regions {
  import opened Basics
  import opened Spans
  import opened Bands
  import opened Rects
  import opened Coalescing
  import opened RegionRep
  import opened Sweep

  datatype RegionType = NullRegion | SimpleRegion | ComplexRegion

  datatype Region = Region(kind: RegionType, bound: Rect, rects: seq<Rect>)

  const EMPTY_REGION := Region(NullRegion, Rect(0, 0, 0, 0), [])

  function MinLeft(rs: seq<Rect>): int
    requires rs != []
  {
    if |rs| == 1 then rs[0].left else Min(rs[0].left, MinLeft(rs[1..]))
  }

  function MaxRight(rs: seq<Rect>): int
    requires rs != []
  {
    if |rs| == 1 then rs[0].right else Max(rs[0].right, MaxRight(rs[1..]))
  }

  /** REGION_SetExtents: top and bottom are read off the head and the tail of the list. */
  function Extents(rs: seq<Rect>): Rect {
    if rs == [] then Rect(0, 0, 0, 0)
    else Rect(MinLeft(rs), rs[0].top, MaxRight(rs), rs[|rs| - 1].bottom)
  }

  /** What every region function keeps. */
  predicate Valid(v: Region) {
    && Banded(v.rects)
    && v.bound == Extents(v.rects)
    && (v.kind == NullRegion <==> v.rects == [])
    && (v.kind == SimpleRegion ==> |v.rects| == 1)
  }

  predicate InRegion(v: Region, x: int, y: int) {
    Covers(v.rects, x, y)
  }

  /** A region set to one rectangle. */
  function Single(r: Rect): Region {
    Region(SimpleRegion, r, [r])
  }

  function Copied(v: Region): Region {
    if v.rects == [] then EMPTY_REGION else v
  }

  /** A region is not copied to itself. */
  function CopiedInto(aliased: bool, v: Region): Region {
    if aliased then v else Copied(v)
  }

  /** EXTENTCHECK: the test for overlap of two bounding rectangles. */
  predicate ExtentCheck(r1: Rect, r2: Rect) {
    r1.right > r2.left && r1.left < r2.right && r1.bottom > r2.top && r1.top < r2.bottom
  }

  /** The rectangle list REGION_RegionOp builds. */
  function RegionOp(op: SetOp, v1: Region, v2: Region): seq<Rect> {
    SweepFrom(op, ToBands(v1.rects), ToBands(v2.rects), Min(v1.bound.top, v2.bound.top), NO_OUTPUT)
  }

  /** Bounds and type set after the sweep. */
  function Finished(rs: seq<Rect>): Region {
    Region(if rs == [] then NullRegion else ComplexRegion, Extents(rs), rs)
  }

  /** One region is a single rectangle that contains the bounds of the other. */
  predicate Subsumes(v1: Region, v2: Region) {
    |v1.rects| == 1 && v1.bound.left <= v2.bound.left && v1.bound.top <= v2.bound.top &&
    v1.bound.right >= v2.bound.right && v1.bound.bottom >= v2.bound.bottom
  }

  /** ClipRgnIntersect, SubtractRegion, and UnionRegion with two distinct source regions. */
  function Combined(op: SetOp, v1: Region, v2: Region): Region {
    if op == Union then
      if v1.rects == [] then Copied(v2)
      else if v2.rects == [] || Subsumes(v1, v2) then v1
      else if Subsumes(v2, v1) then v2
      else Finished(RegionOp(op, v1, v2))
    else if v1.rects == [] || v2.rects == [] || !ExtentCheck(v1.bound, v2.bound) then
      if op == Intersect then EMPTY_REGION else Copied(v1)
    else Finished(RegionOp(op, v1, v2))
  }

  /** XorRegion. */
  function XorCombined(v1: Region, v2: Region): Region {
    Combined(Union, Combined(Subtract, v1, v2), Combined(Subtract, v2, v1))
  }

  function Shifted(r: Rect, dx: int, dy: int): Rect {
    Rect(r.left + dx, r.top + dy, r.right + dx, r.bottom + dy)
  }

  function ShiftedAll(rs: seq<Rect>, dx: int, dy: int): (r: seq<Rect>)
    ensures |r| == |rs|
    ensures forall i :: 0 <= i < |r| ==> r[i] == Shifted(rs[i], dx, dy)
  {
    if rs == [] then [] else [Shifted(rs[0], dx, dy)] + ShiftedAll(rs[1..], dx, dy)
  }

  /** OffsetRegion. */
  function Offset(v: Region, dx: int, dy: int): Region {
    if v.rects == [] then v else Region(v.kind, Shifted(v.bound, dx, dy), ShiftedAll(v.rects, dx, dy))
  }

  /** A row of pixels as a generator reports it to its callback, either end first. */
  datatype PixelRow = PixelRow(x1: int, x2: int, y: int)

  function RowRect(row: PixelRow): Rect {
    Rect(Min(row.x1, row.x2), row.y, Max(row.x1, row.x2) + 1, row.y + 1)
  }

  /** The callback of a generator. */
  function RowAdded(v: Region, row: PixelRow): Region {
    Combined(Union, v, Single(RowRect(row)))
  }

  /** The callbacks of a generator, one after the other. */
  function RowsAdded(v: Region, rows: seq<PixelRow>): Region {
    if rows == [] then v
    else RowAdded(RowsAdded(v, rows[..|rows| - 1]), rows[|rows| - 1])
  }

  /** What InitCircleRegion leaves for a radius below 1, and InitEllipseRegion for such a half axis: one
      rectangle, with the type and the bounds of the emptied region. */
  function Dot(x: int, y: int): Region {
    Region(NullRegion, Rect(0, 0, 0, 0), [Rect(x, y, x + 1, y + 1)])
  }

  /** InitCircleRegion and InitEllipseRegion, given the rows their generator reports. */
  function Drawn(dot: bool, x: int, y: int, rows: seq<PixelRow>): Region {
    if dot then Dot(x, y) else RowsAdded(EMPTY_REGION, rows)
  }

  // ---------------------------------------------------------------- bounds

  lemma {:induction false} SideBounds(rs: seq<Rect>, i: nat)
    requires i < |rs|
    ensures MinLeft(rs) <= rs[i].left && rs[i].right <= MaxRight(rs)
  {
    if |rs| == 1 || i == 0 {
    } else {
      SideBounds(rs[1..], i - 1);
    }
  }

  lemma {:induction false} SidesReached(rs: seq<Rect>)
    requires rs != []
    ensures exists i :: 0 <= i < |rs| && rs[i].left == MinLeft(rs)
    ensures exists i :: 0 <= i < |rs| && rs[i].right == MaxRight(rs)
  {
    if |rs| > 1 {
      SidesReached(rs[1..]);
      var i :| 0 <= i < |rs[1..]| && rs[1..][i].left == MinLeft(rs[1..]);
      var j :| 0 <= j < |rs[1..]| && rs[1..][j].right == MaxRight(rs[1..]);
      var i' := if MinLeft(rs) == rs[0].left then 0 else i + 1;
      var j' := if MaxRight(rs) == rs[0].right then 0 else j + 1;
      assert 0 <= i' < |rs| && rs[i'].left == MinLeft(rs);
      assert 0 <= j' < |rs| && rs[j'].right == MaxRight(rs);
    } else {
      assert rs[0].left == MinLeft(rs) && rs[0].right == MaxRight(rs);
    }
  }

  /** Top and bottom of the first and the last rectangle, and the outermost sides of all. */
  ghost predicate Bounds(e: Rect, rs: seq<Rect>)
    requires rs != []
  {
    && e.top == rs[0].top && e.bottom == rs[|rs| - 1].bottom
    && (forall i :: 0 <= i < |rs| ==> e.left <= rs[i].left && rs[i].right <= e.right)
    && (exists i :: 0 <= i < |rs| && rs[i].left == e.left)
    && (exists i :: 0 <= i < |rs| && rs[i].right == e.right)
  }

  /** The bounds of any list, banded or not. */
  lemma ExtentsAre(rs: seq<Rect>)
    ensures rs == [] ==> Extents(rs) == Rect(0, 0, 0, 0)
    ensures rs != [] ==> Bounds(Extents(rs), rs)
  {
    if rs != [] {
      forall i | 0 <= i < |rs| ensures Extents(rs).left <= rs[i].left && rs[i].right <= Extents(rs).right {
        SideBounds(rs, i);
      }
      SidesReached(rs);
    }
  }

  /** The bounds of a banded list hold every rectangle of it ... */
  lemma WithinExtents(rs: seq<Rect>, i: nat)
    requires Banded(rs) && i < |rs|
    ensures var e := Extents(rs);
      e.left <= rs[i].left && e.top <= rs[i].top && rs[i].right <= e.right && rs[i].bottom <= e.bottom
  {
    SideBounds(rs, i);
    assert i > 0 ==> Before(rs[0], rs[i]);
    assert i < |rs| - 1 ==> Before(rs[i], rs[|rs| - 1]);
  }

  /** ... and no smaller rectangle holds all its points, although only the sides are searched for. */
  lemma ExtentsLeast(rs: seq<Rect>, r: Rect)
    requires Banded(rs) && rs != []
    requires forall x, y :: Covers(rs, x, y) ==> PtInRect(r, x, y)
    ensures var e := Extents(rs);
      r.left <= e.left && r.top <= e.top && e.right <= r.right && e.bottom <= r.bottom
  {
    SidesReached(rs);
    var i :| 0 <= i < |rs| && rs[i].left == MinLeft(rs);
    var j :| 0 <= j < |rs| && rs[j].right == MaxRight(rs);
    var n := |rs| - 1;
    assert PtInRect(rs[0], rs[0].left, rs[0].top) && Covers(rs, rs[0].left, rs[0].top);
    assert PtInRect(rs[i], rs[i].left, rs[i].top) && Covers(rs, rs[i].left, rs[i].top);
    assert PtInRect(rs[j], rs[j].right - 1, rs[j].top) && Covers(rs, rs[j].right - 1, rs[j].top);
    assert PtInRect(rs[n], rs[n].left, rs[n].bottom - 1) && Covers(rs, rs[n].left, rs[n].bottom - 1);
  }

  lemma InBound(v: Region, x: int, y: int)
    requires Valid(v) && InRegion(v, x, y)
    ensures PtInRect(v.bound, x, y)
  {
    var i :| 0 <= i < |v.rects| && PtInRect(v.rects[i], x, y);
    WithinExtents(v.rects, i);
  }

  lemma SingleValid(r: Rect)
    ensures Valid(Single(r)) <==> Proper(r)
    ensures forall x, y :: InRegion(Single(r), x, y) <==> PtInRect(r, x, y)
  {
    assert forall x, y :: PtInRect([r][0], x, y) <==> PtInRect(r, x, y);
  }

  // ---------------------------------------------------------------- the set operations

  lemma RegionBands(v: Region, bs: seq<Band>)
    requires Valid(v) && v.rects != [] && bs == ToBands(v.rects)
    ensures ValidBands(bs) && bs != [] && bs[0].top == v.bound.top
  {
    ToBandsValid(v.rects);
  }

  lemma BandsReady(as1: seq<Band>, bs: seq<Band>, y: int)
    requires ValidBands(as1) && as1 != [] && ValidBands(bs) && bs != [] && y == Min(as1[0].top, bs[0].top)
    ensures Ready(as1, bs, y)
  {
    assert ValidBand(as1[0]) && ValidBand(bs[0]);
  }

  /** The sweep may start: nothing of either region lies above the smaller top bound. */
  lemma SweepReady(v1: Region, v2: Region)
    requires Valid(v1) && Valid(v2) && v1.rects != [] && v2.rects != []
    ensures var as1, bs, y := ToBands(v1.rects), ToBands(v2.rects), Min(v1.bound.top, v2.bound.top);
      Ready(as1, bs, y) && as1 != [] && y <= as1[0].top && bs != [] && y <= bs[0].top
  {
    RegionBands(v1, ToBands(v1.rects));
    RegionBands(v2, ToBands(v2.rects));
    BandsReady(ToBands(v1.rects), ToBands(v2.rects), Min(v1.bound.top, v2.bound.top));
  }

  /** From there the sweep leaves the bands that OpBands describes. */
  lemma RegionOpIs(op: SetOp, v1: Region, v2: Region)
    requires Valid(v1) && Valid(v2) && v1.rects != [] && v2.rects != []
    ensures RegionOp(op, v1, v2) ==
      Flatten(OpBands(op, ToBands(v1.rects), ToBands(v2.rects), Min(v1.bound.top, v2.bound.top)))
  {
    SweepReady(v1, v2);
    SlabsValid(op, ToBands(v1.rects), ToBands(v2.rects), Min(v1.bound.top, v2.bound.top));
    SweepIsOpBands(op, ToBands(v1.rects), ToBands(v2.rects), Min(v1.bound.top, v2.bound.top));
  }

  lemma RegionOpBanded(op: SetOp, v1: Region, v2: Region)
    requires Valid(v1) && Valid(v2) && v1.rects != [] && v2.rects != []
    ensures Banded(RegionOp(op, v1, v2))
  {
    SweepReady(v1, v2);
    RegionOpIs(op, v1, v2);
    var as1, bs, y := ToBands(v1.rects), ToBands(v2.rects), Min(v1.bound.top, v2.bound.top);
    OpBandsValid(op, as1, bs, y);
    FlattenBanded(OpBands(op, as1, bs, y));
  }

  lemma RegionOpIn(op: SetOp, v1: Region, v2: Region, x: int, y: int)
    requires Valid(v1) && Valid(v2) && v1.rects != [] && v2.rects != []
    ensures Covers(RegionOp(op, v1, v2), x, y) <==> Holds(op, InRegion(v1, x, y), InRegion(v2, x, y))
  {
    SweepReady(v1, v2);
    RegionOpIs(op, v1, v2);
    var as1, bs, y0 := ToBands(v1.rects), ToBands(v2.rects), Min(v1.bound.top, v2.bound.top);
    OpBandsIn(op, as1, bs, y0, x, y);
    FlattenIn(OpBands(op, as1, bs, y0), x, y);
    ToBandsIn(v1.rects, x, y);
    ToBandsIn(v2.rects, x, y);
  }

  lemma FinishedValid(rs: seq<Rect>)
    requires Banded(rs)
    ensures Valid(Finished(rs))
  {
  }

  /** Union, intersection and difference keep the invariant ... */
  lemma CombinedValid(op: SetOp, v1: Region, v2: Region)
    requires Valid(v1) && Valid(v2)
    ensures Valid(Combined(op, v1, v2))
  {
    if v1.rects == [] || v2.rects == [] {
    } else if op == Union && (Subsumes(v1, v2) || Subsumes(v2, v1)) {
    } else if op != Union && !ExtentCheck(v1.bound, v2.bound) {
    } else {
      RegionOpBanded(op, v1, v2);
      FinishedValid(RegionOp(op, v1, v2));
    }
  }

  /** ... and compute the set operation on every point. */
  lemma CombinedIn(op: SetOp, v1: Region, v2: Region, x: int, y: int)
    requires Valid(v1) && Valid(v2)
    ensures InRegion(Combined(op, v1, v2), x, y) <==> Holds(op, InRegion(v1, x, y), InRegion(v2, x, y))
  {
    if v1.rects == [] || v2.rects == [] {
    } else if op == Union && Subsumes(v1, v2) {
      if InRegion(v2, x, y) { SubsumedIn(v1, v2, x, y); }
    } else if op == Union && Subsumes(v2, v1) {
      if InRegion(v1, x, y) { SubsumedIn(v2, v1, x, y); }
    } else if op != Union && !ExtentCheck(v1.bound, v2.bound) {
      ApartIn(v1, v2, x, y);
    } else {
      RegionOpIn(op, v1, v2, x, y);
    }
  }

  lemma ApartIn(v1: Region, v2: Region, x: int, y: int)
    requires Valid(v1) && Valid(v2) && !ExtentCheck(v1.bound, v2.bound)
    ensures !(InRegion(v1, x, y) && InRegion(v2, x, y))
  {
    if InRegion(v1, x, y) && InRegion(v2, x, y) {
      InBound(v1, x, y);
      InBound(v2, x, y);
    }
  }

  lemma SubsumedIn(v1: Region, v2: Region, x: int, y: int)
    requires Valid(v1) && Valid(v2) && Subsumes(v1, v2) && InRegion(v2, x, y)
    ensures InRegion(v1, x, y)
  {
    InBound(v2, x, y);
    assert PtInRect(v1.rects[0], x, y);
  }

  // ---------------------------------------------------------------- when a source is copied

  /** One region is a single rectangle and holds every point of the other. */
  ghost predicate OneAround(v1: Region, v2: Region) {
    |v1.rects| == 1 && forall x, y :: InRegion(v2, x, y) ==> InRegion(v1, x, y)
  }

  /** The bounds have a point in common. */
  ghost predicate BoundsMeet(v1: Region, v2: Region) {
    exists x, y :: PtInRect(v1.bound, x, y) && PtInRect(v2.bound, x, y)
  }

  /** The code compares bounds to find out. */
  lemma SubsumesIffAround(v1: Region, v2: Region)
    requires Valid(v1) && Valid(v2) && v2.rects != []
    ensures Subsumes(v1, v2) <==> OneAround(v1, v2)
  {
    if Subsumes(v1, v2) {
      forall x, y ensures InRegion(v2, x, y) ==> InRegion(v1, x, y) {
        if InRegion(v2, x, y) { SubsumedIn(v1, v2, x, y); }
      }
    } else if OneAround(v1, v2) {
      forall x, y ensures Covers(v2.rects, x, y) ==> PtInRect(v1.rects[0], x, y) {
        assert Covers(v2.rects, x, y) ==> InRegion(v1, x, y);
      }
      ExtentsLeast(v2.rects, v1.rects[0]);
    }
  }

  lemma ExtentCheckIff(v1: Region, v2: Region)
    requires Valid(v1) && Valid(v2) && v1.rects != [] && v2.rects != []
    ensures ExtentCheck(v1.bound, v2.bound) <==> BoundsMeet(v1, v2)
  {
    WithinExtents(v1.rects, 0);
    WithinExtents(v2.rects, 0);
    if ExtentCheck(v1.bound, v2.bound) {
      var x, y := Max(v1.bound.left, v2.bound.left), Max(v1.bound.top, v2.bound.top);
      assert PtInRect(v1.bound, x, y) && PtInRect(v2.bound, x, y);
    }
  }

  lemma EmptyIs(v: Region)
    requires Valid(v)
    ensures v.rects == [] <==> v == Region(NullRegion, Rect(0, 0, 0, 0), [])
  {
  }

  /** Which value the three operations leave: a copy of a source, type and bounds included, if one rectangle holds the
      points of the other region or the bounds are apart, and the outcome of a sweep otherwise. */
  lemma CombinedIs(op: SetOp, v1: Region, v2: Region)
    requires Valid(v1) && Valid(v2)
    ensures var w := Combined(op, v1, v2);
      if op == Union && (v2.rects == [] || OneAround(v1, v2)) then w == v1
      else if op == Union && (v1.rects == [] || OneAround(v2, v1)) then w == v2
      else if op == Union || BoundsMeet(v1, v2) then
        w.rects == RegionOp(op, v1, v2) && w.kind == if w.rects == [] then NullRegion else ComplexRegion
      else w == if op == Intersect then Region(NullRegion, Rect(0, 0, 0, 0), []) else v1
  {
    EmptyIs(v1);
    EmptyIs(v2);
    if v1.rects != [] && v2.rects != [] {
      if op == Union {
        SubsumesIffAround(v1, v2);
        SubsumesIffAround(v2, v1);
      } else {
        ExtentCheckIff(v1, v2);
      }
    }
  }

  /** In a union, a rectangle that holds every point of the other region is left as it is, from either side. */
  lemma AroundStays(v1: Region, v2: Region)
    requires Valid(v1) && Valid(v2) && OneAround(v1, v2)
    ensures Combined(Union, v1, v2).rects == v1.rects == Combined(Union, v2, v1).rects
  {
    CombinedIs(Union, v1, v2);
    CombinedIs(Union, v2, v1);
    if v2.rects != [] && OneAround(v2, v1) {
      SubsumesIffAround(v1, v2);
      SubsumesIffAround(v2, v1);
    }
  }

  lemma XorCombinedIn(v1: Region, v2: Region, x: int, y: int)
    requires Valid(v1) && Valid(v2)
    ensures Valid(XorCombined(v1, v2))
    ensures InRegion(XorCombined(v1, v2), x, y) <==> InRegion(v1, x, y) != InRegion(v2, x, y)
  {
    CombinedValid(Subtract, v1, v2);
    CombinedValid(Subtract, v2, v1);
    CombinedIn(Subtract, v1, v2, x, y);
    CombinedIn(Subtract, v2, v1, x, y);
    CombinedValid(Union, Combined(Subtract, v1, v2), Combined(Subtract, v2, v1));
    CombinedIn(Union, Combined(Subtract, v1, v2), Combined(Subtract, v2, v1), x, y);
  }

  lemma {:induction false} ShiftedSides(rs: seq<Rect>, dx: int, dy: int)
    requires rs != []
    ensures MinLeft(ShiftedAll(rs, dx, dy)) == MinLeft(rs) + dx
    ensures MaxRight(ShiftedAll(rs, dx, dy)) == MaxRight(rs) + dx
  {
    if |rs| <= 1 {
    } else {
      ShiftedSides(rs[1..], dx, dy);
      assert ShiftedAll(rs, dx, dy)[1..] == ShiftedAll(rs[1..], dx, dy);
    }
  }

  /** OffsetRegion keeps the invariant ... */
  lemma OffsetValid(v: Region, dx: int, dy: int)
    requires Valid(v)
    ensures Valid(Offset(v, dx, dy))
  {
    if v.rects != [] {
      ShiftedSides(v.rects, dx, dy);
      var rs, ss := v.rects, ShiftedAll(v.rects, dx, dy);
      forall i, j | 0 <= i < j < |ss| ensures Before(ss[i], ss[j]) {
        assert Before(rs[i], rs[j]);
      }
    }
  }

  /** ... and moves every point. */
  lemma OffsetIn(v: Region, dx: int, dy: int, x: int, y: int)
    ensures InRegion(Offset(v, dx, dy), x + dx, y + dy) <==> InRegion(v, x, y)
  {
    var rs, ss := v.rects, ShiftedAll(v.rects, dx, dy);
    if i :| 0 <= i < |rs| && PtInRect(rs[i], x, y) {
      assert PtInRect(ss[i], x + dx, y + dy);
    }
    if i :| 0 <= i < |ss| && PtInRect(ss[i], x + dx, y + dy) {
      assert PtInRect(rs[i], x, y);
    }
  }

  // ---------------------------------------------------------------- the full form is not kept

  /** The bands of the list REGION_RegionOp builds. */
  lemma RegionOpBands(op: SetOp, v1: Region, v2: Region)
    requires Valid(v1) && Valid(v2) && v1.rects != [] && v2.rects != []
    ensures var as1, bs, y := ToBands(v1.rects), ToBands(v2.rects), Min(v1.bound.top, v2.bound.top);
      Banded(RegionOp(op, v1, v2)) && ToBands(RegionOp(op, v1, v2)) == OpBands(op, as1, bs, y)
  {
    SweepReady(v1, v2);
    RegionOpIs(op, v1, v2);
    var as1, bs, y := ToBands(v1.rects), ToBands(v2.rects), Min(v1.bound.top, v2.bound.top);
    RegionOpBanded(op, v1, v2);
    OpBandsValid(op, as1, bs, y);
    ToBandsFlatten(OpBands(op, as1, bs, y));
  }

  /** The list REGION_RegionOp builds is in the full documented form exactly when every mergeable pair
      of slabs is among those that its calls of REGION_Coalesce compare. */
  lemma RegionOpCanonicalIff(op: SetOp, v1: Region, v2: Region)
    requires Valid(v1) && Valid(v2) && v1.rects != [] && v2.rects != []
    ensures var as1, bs, y := ToBands(v1.rects), ToBands(v2.rects), Min(v1.bound.top, v2.bound.top);
      var slabs := Slabs(op, as1, bs, y);
      var k := Paired(slabs, MainCount(op, as1, bs, y));
      Canonical(RegionOp(op, v1, v2)) <==> AllCompared(slabs[..k]) && (k > 0 ==> Coalesced(slabs[k - 1..]))
  {
    RegionOpBands(op, v1, v2);
    OpBandsCoalescedIff(op, ToBands(v1.rects), ToBands(v2.rects), Min(v1.bound.top, v2.bound.top));
  }

  /** Of two source regions in the full form, REGION_RegionOp makes another one exactly when every mergeable
      pair of the slabs it pairs up is compared: the merging of the sources alone cannot save it. */
  lemma CanonicalKeptIff(op: SetOp, v1: Region, v2: Region)
    requires Valid(v1) && Valid(v2) && v1.rects != [] && v2.rects != []
    requires Canonical(v1.rects) && Canonical(v2.rects)
    ensures var as1, bs, y := ToBands(v1.rects), ToBands(v2.rects), Min(v1.bound.top, v2.bound.top);
      var slabs := Slabs(op, as1, bs, y);
      Canonical(RegionOp(op, v1, v2)) <==> AllCompared(slabs[..Paired(slabs, MainCount(op, as1, bs, y))])
  {
    SweepReady(v1, v2);
    RegionOpBands(op, v1, v2);
    OpBandsKeptIff(op, ToBands(v1.rects), ToBands(v2.rects), Min(v1.bound.top, v2.bound.top));
  }

  lemma OneBand(r: Rect)
    ensures ToBands([r]) == [Band(r.top, r.bottom, [Span(r.left, r.right)])]
  {
    assert [r][..1] == [r];
    assert SpansOf([r]) == [Span(r.left, r.right)];
    assert ToBands([]) == [];
  }

  /** The union of any two rectangles stacked on each other stays two rectangles, although the region
      comment asks for one. */
  lemma StackedNotMerged(left: int, right: int, top: int, middle: int, bottom: int)
    requires left < right && top < middle < bottom
    ensures var v := Combined(Union, Single(Rect(left, top, right, middle)), Single(Rect(left, middle, right, bottom)));
      && v.rects == [Rect(left, top, right, middle), Rect(left, middle, right, bottom)]
      && Banded(v.rects) && !Canonical(v.rects)
      && Canonical([Rect(left, top, right, bottom)])
      && forall x, y :: InRegion(v, x, y) <==> PtInRect(Rect(left, top, right, bottom), x, y)
  {
    var r1, r2, r := Rect(left, top, right, middle), Rect(left, middle, right, bottom), Rect(left, top, right, bottom);
    var a, b := Band(top, middle, [Span(left, right)]), Band(middle, bottom, [Span(left, right)]);
    StackedUnion(a, b, r1, r2);
    StackedList(a, b, r1, r2);
    OneBand(r);
    StackedCovers(r1, r2, r);
  }

  lemma StackedUnion(a: Band, b: Band, r1: Rect, r2: Rect)
    requires ValidBand(a) && ValidBand(b) && Mergeable(a, b) && |a.spans| == 1
    requires r1 == Rect(a.spans[0].left, a.top, a.spans[0].right, a.bottom)
    requires r2 == Rect(b.spans[0].left, b.top, b.spans[0].right, b.bottom)
    ensures Combined(Union, Single(r1), Single(r2)).rects == Flatten([a, b])
  {
    OneBand(r1);
    OneBand(r2);
    assert a.spans == [Span(r1.left, r1.right)] && b.spans == [Span(r2.left, r2.right)];
    StackedBands(a, b);
    StackedSwept(r1, r2);
    SingleValid(r1);
    SingleValid(r2);
    RegionOpIs(Union, Single(r1), Single(r2));
  }

  /** Neither rectangle subsumes the other, so the sweep runs. */
  lemma StackedSwept(r1: Rect, r2: Rect)
    requires Proper(r1) && Proper(r2) && r1.bottom == r2.top
    ensures Combined(Union, Single(r1), Single(r2)).rects == RegionOp(Union, Single(r1), Single(r2))
  {
  }

  lemma StackedCovers(r1: Rect, r2: Rect, r: Rect)
    requires r1.bottom == r2.top && r1.top < r1.bottom < r2.bottom
    requires r1 == r.(bottom := r1.bottom) && r2 == r.(top := r2.top)
    ensures forall x, y :: Covers([r1, r2], x, y) <==> PtInRect(r, x, y)
  {
    forall x, y ensures Covers([r1, r2], x, y) <==> PtInRect(r, x, y) {
      assert PtInRect([r1, r2][0], x, y) <==> PtInRect(r1, x, y);
      assert PtInRect([r1, r2][1], x, y) <==> PtInRect(r2, x, y);
    }
  }

  lemma StackedList(a: Band, b: Band, r1: Rect, r2: Rect)
    requires ValidBand(a) && ValidBand(b) && Mergeable(a, b) && |a.spans| == 1
    requires r1 == Rect(a.spans[0].left, a.top, a.spans[0].right, a.bottom)
    requires r2 == Rect(b.spans[0].left, b.top, b.spans[0].right, b.bottom)
    ensures Flatten([a, b]) == [r1, r2] && ToBands([r1, r2]) == [a, b] && !Coalesced([a, b])
  {
    FlattenCons(a, [b]);
    FlattenOne(b);
    assert [a] + [b] == [a, b];
    assert BandRects(a) == [r1] && BandRects(b) == [r2];
    ToBandsFlatten([a, b]);
    assert Mergeable([a, b][0], [a, b][1]);
  }

  lemma StackedBands(a: Band, b: Band)
    requires ValidBand(a) && ValidBand(b) && a.bottom == b.top && |a.spans| == 1
    ensures OpBands(Union, [a], [b], a.top) == [a, b]
  {
    var y := a.bottom;
    assert ClipTop([b], y) == [b];
    assert Slabs(Union, [], [b], y) == [b];
    assert AboveSlab(Union, a, b, a.top) == [a] && MeetSlab(Union, a, b) == [];
    assert Advance([a], y) == [] && Advance([b], y) == [b];
    assert Slabs(Union, [a], [b], a.top) == [a, b];
    assert MainCount(Union, [], [b], y) == 0;
    assert MainCount(Union, [a], [b], a.top) == 1;
    assert [a, b][..2] == [a, b] && [a, b][2..] == [];
    assert MergePairs([a, b]) == [a, b];
  }
}
