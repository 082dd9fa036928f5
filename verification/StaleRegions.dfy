/** What InitCircleRegion leaves for a radius below 1, and InitEllipseRegion for such a half axis: one cell in
    a region whose type and bounds are still those of an empty one. When are the region functions of
    `src/newgdi/region.c` right on it? */
module StaleRegions {
  import opened Basics
  import opened Spans
  import opened Bands
  import opened Rects
  import opened RegionRep
  import opened Coalescing
  import opened Sweep
  import opened Regions

  /** A cell with the type of an empty region and bounds that enclose nothing, wherever they are. */
  predicate Stale(v: Region) {
    && v.kind == NullRegion && v.bound.left == v.bound.right && v.bound.top == v.bound.bottom
    && |v.rects| == 1 && v.rects[0].right == v.rects[0].left + 1 && v.rects[0].bottom == v.rects[0].top + 1
  }

  /** What a region variable can hold as long as every call on it is right. */
  predicate Sound(v: Region) {
    Valid(v) || Stale(v)
  }

  /** Whether the cell of a stale region is a point of the other region. */
  predicate CellIn(v: Region, w: Region)
    requires v.rects != []
  {
    InRegion(w, v.rects[0].left, v.rects[0].top)
  }

  function Top(v: Region): int
    requires v.rects != []
  {
    v.rects[0].top
  }

  /** The sweep starts from the smaller top bound. It must not start below the top of a region that the
      operation keeps above the other. */
  predicate StartFits(op: SetOp, v1: Region, v2: Region)
    requires v1.rects != [] && v2.rects != []
  {
    var start := Min(v1.bound.top, v2.bound.top);
    && (Top(v1) < Top(v2) && Keeps1(op) ==> start <= Top(v1))
    && (Top(v2) < Top(v1) && Keeps2(op) ==> start <= Top(v2))
  }

  /** The condition under which an operation is right: what each branch of the code takes for granted. */
  predicate CombineGuard(op: SetOp, v1: Region, v2: Region) {
    if v1.rects == [] || v2.rects == [] then true
    else if op == Union && Subsumes(v1, v2) then Stale(v2) ==> CellIn(v2, v1)
    else if op == Union && Subsumes(v2, v1) then Stale(v1) ==> CellIn(v1, v2)
    else if op != Union && !ExtentCheck(v1.bound, v2.bound) then
      (Stale(v1) ==> !CellIn(v1, v2)) && (Stale(v2) ==> !CellIn(v2, v1))
    else StartFits(op, v1, v2)
  }

  /** The operation is right on every point. */
  ghost predicate CombinesRight(op: SetOp, v1: Region, v2: Region) {
    forall x, y :: InRegion(Combined(op, v1, v2), x, y) <==> Holds(op, InRegion(v1, x, y), InRegion(v2, x, y))
  }

  // ---------------------------------------------------------------- the start of the sweep

  /** The start only matters in the first turn. */
  lemma SameFirstTurn(op: SetOp, as1: seq<Band>, bs: seq<Band>, y: int, z: int)
    requires as1 != [] && bs != [] && AboveSlab(op, as1[0], bs[0], y) == AboveSlab(op, as1[0], bs[0], z)
    ensures SweepFrom(op, as1, bs, y, NO_OUTPUT) == SweepFrom(op, as1, bs, z, NO_OUTPUT)
  {
  }

  /** From a start that fits, the sweep does what it does with the bounds that belong to the lists. */
  lemma FitsTight(op: SetOp, v1: Region, v2: Region)
    requires v1.rects != [] && v2.rects != [] && StartFits(op, v1, v2)
    ensures RegionOp(op, v1, v2) == RegionOp(op, Finished(v1.rects), Finished(v2.rects))
  {
    SameFirstTurn(op, ToBands(v1.rects), ToBands(v2.rects), Min(v1.bound.top, v2.bound.top), Min(Top(v1), Top(v2)));
  }

  lemma FitsRight(op: SetOp, v1: Region, v2: Region)
    requires Banded(v1.rects) && Banded(v2.rects) && v1.rects != [] && v2.rects != [] && StartFits(op, v1, v2)
    ensures Banded(RegionOp(op, v1, v2))
    ensures forall x, y :: Covers(RegionOp(op, v1, v2), x, y) <==>
      Holds(op, InRegion(v1, x, y), InRegion(v2, x, y))
  {
    FitsTight(op, v1, v2);
    var w1, w2 := Finished(v1.rects), Finished(v2.rects);
    RegionOpBanded(op, w1, w2);
    forall x, y ensures Covers(RegionOp(op, v1, v2), x, y) <==> Holds(op, InRegion(v1, x, y), InRegion(v2, x, y)) {
      RegionOpIn(op, w1, w2, x, y);
    }
  }

  /** A first call of REGION_Coalesce compares a band with itself. */
  lemma AddedFirst(rs: seq<Rect>)
    requires |rs| == 1
    ensures Added(NO_OUTPUT, rs) == Output(rs, 0)
  {
  }

  lemma AddedToOne(r: Rect, rs: seq<Rect>)
    ensures Added(Output([r], 0), [r] + rs).rects == [r] + rs
  {
  }

  lemma AddedToNone(rs: seq<Rect>)
    ensures Added(NO_OUTPUT, rs).rects == rs
  {
  }

  /** The first turn appends `above`, and what is left over after it is `rest`. */
  lemma OnlyTurn(above: seq<Rect>, rest: seq<Rect>)
    requires |above| <= 1
    ensures Added(Added(NO_OUTPUT, above), above + rest).rects == above + rest
  {
    if above == [] {
      assert above + rest == rest;
      AddedToNone(rest);
    } else {
      assert above == [above[0]];
      AddedFirst(above);
      AddedToOne(above[0], rest);
    }
  }

  /** A turn on bands that do not meet only appends the upper one. */
  lemma TurnApart(op: SetOp, a: Band, b: Band, y: int)
    requires Min(a.bottom, b.bottom) <= Max(a.top, b.top)
    ensures Turn(op, a, b, y, NO_OUTPUT) == Added(NO_OUTPUT, Flatten(AboveSlab(op, a, b, y)))
  {
    assert [] + Flatten(AboveSlab(op, a, b, y)) == Flatten(AboveSlab(op, a, b, y));
  }

  /** A first band wholly above the other list is used up by the first turn. */
  lemma LoneTurn(op: SetOp, a: Band, bs: seq<Band>, y: int)
    requires bs != [] && ValidBands(bs) && a.bottom <= bs[0].top
    ensures SweepFrom(op, [a], bs, y, NO_OUTPUT) ==
      SweepFrom(op, [], bs, a.bottom, Added(NO_OUTPUT, Flatten(AboveSlab(op, a, bs[0], y))))
  {
    TurnApart(op, a, bs[0], y);
    assert [a][1..] == [];
  }

  lemma LoneTurn2(op: SetOp, as1: seq<Band>, b: Band, y: int)
    requires as1 != [] && ValidBands(as1) && b.bottom <= as1[0].top
    ensures SweepFrom(op, as1, [b], y, NO_OUTPUT) ==
      SweepFrom(op, as1, [], b.bottom, Added(NO_OUTPUT, Flatten(AboveSlab(op, as1[0], b, y))))
  {
    TurnApart(op, as1[0], b, y);
    assert [b][1..] == [];
  }

  /** What the other list then adds. */
  lemma LoneEnd(op: SetOp, bs: seq<Band>, y: int, o: Output)
    requires Reaches(o) && bs != [] && ValidBands(bs) && y <= bs[0].top
    ensures SweepFrom(op, [], bs, y, o) == Added(o, o.rects + if Keeps2(op) then Flatten(bs) else []).rects
    ensures SweepFrom(op, bs, [], y, o) == Added(o, o.rects + if Keeps1(op) then Flatten(bs) else []).rects
  {
    ClipTopBelow(bs, y);
  }

  lemma LoneSwept(op: SetOp, bs: seq<Band>, y: int, above: seq<Rect>)
    requires |above| <= 1 && Added(NO_OUTPUT, above).rects == above && bs != [] && ValidBands(bs) && y <= bs[0].top
    ensures SweepFrom(op, [], bs, y, Added(NO_OUTPUT, above)) == above + if Keeps2(op) then Flatten(bs) else []
    ensures SweepFrom(op, bs, [], y, Added(NO_OUTPUT, above)) == above + if Keeps1(op) then Flatten(bs) else []
  {
    LoneEnd(op, bs, y, Added(NO_OUTPUT, above));
    OnlyTurn(above, if Keeps2(op) then Flatten(bs) else []);
    OnlyTurn(above, if Keeps1(op) then Flatten(bs) else []);
  }

  /** A band of one rectangle wholly above the other list is dealt with in the first turn. */
  lemma LoneUpper(op: SetOp, a: Band, bs: seq<Band>, y: int)
    requires |a.spans| == 1 && bs != [] && ValidBands(bs) && a.bottom <= bs[0].top && a.top <= bs[0].top
    ensures SweepFrom(op, [a], bs, y, NO_OUTPUT) ==
      Flatten(AboveSlab(op, a, bs[0], y)) + if Keeps2(op) then Flatten(bs) else []
  {
    var above := AboveSlab(op, a, bs[0], y);
    UpperTurn(above, a.spans);
    LoneTurn(op, a, bs, y);
    LoneSwept(op, bs, a.bottom, Flatten(above));
  }

  lemma LoneUpper2(op: SetOp, as1: seq<Band>, b: Band, y: int)
    requires |b.spans| == 1 && as1 != [] && ValidBands(as1) && b.bottom <= as1[0].top && b.top <= as1[0].top
    ensures SweepFrom(op, as1, [b], y, NO_OUTPUT) ==
      Flatten(AboveSlab(op, as1[0], b, y)) + if Keeps1(op) then Flatten(as1) else []
  {
    var above := AboveSlab(op, as1[0], b, y);
    UpperTurn(above, b.spans);
    LoneTurn2(op, as1, b, y);
    LoneSwept(op, as1, b.bottom, Flatten(above));
  }

  lemma UpperTurn(above: seq<Band>, spans: seq<Span>)
    requires |above| <= 1 && |spans| == 1 && (above != [] ==> above[0].spans == spans)
    ensures |Flatten(above)| <= 1 && Added(NO_OUTPUT, Flatten(above)).rects == Flatten(above)
    ensures above != [] ==>
      Flatten(above) == [Rect(spans[0].left, above[0].top, spans[0].right, above[0].bottom)]
  {
    if above == [] {
    } else {
      assert above == [above[0]];
      FlattenOne(above[0]);
    }
    AddedToNone(Flatten(above));
  }

  // ---------------------------------------------------------------- a start below the cell

  /** The rectangle a sweep from `start` makes of a cell above the other region: none, or an inverted one. */
  function Clipped(x: int, y: int, start: int): seq<Rect> {
    if start == y + 1 then [] else [Rect(x, start, x + 1, y + 1)]
  }

  function CellBand(x: int, y: int): Band {
    Band(y, y + 1, [Span(x, x + 1)])
  }

  lemma CellBands(v: Region)
    requires Stale(v)
    ensures Banded(v.rects) && ToBands(v.rects) == [CellBand(v.rects[0].left, Top(v))]
  {
    assert v.rects == [v.rects[0]];
    OneBand(v.rects[0]);
  }

  /** A kept cell above the start is lost, and where the start is not the line right below it the result
      holds an inverted rectangle. */
  lemma CellLost(op: SetOp, v1: Region, v2: Region)
    requires Stale(v1) && Banded(v2.rects) && v2.rects != [] && Top(v1) < Top(v2) && Keeps1(op)
    requires Min(v1.bound.top, v2.bound.top) > Top(v1)
    ensures RegionOp(op, v1, v2) ==
      Clipped(v1.rects[0].left, Top(v1), Min(v1.bound.top, v2.bound.top)) + if Keeps2(op) then v2.rects else []
  {
    CellBands(v1);
    ToBandsValid(v2.rects);
    CellBandLost(op, v1.rects[0].left, Top(v1), ToBands(v2.rects), Min(v1.bound.top, v2.bound.top));
  }

  lemma CellBandLost(op: SetOp, x: int, y: int, bs: seq<Band>, start: int)
    requires bs != [] && ValidBands(bs) && y < bs[0].top && Keeps1(op) && start > y
    ensures SweepFrom(op, [CellBand(x, y)], bs, start, NO_OUTPUT) ==
      Clipped(x, y, start) + if Keeps2(op) then Flatten(bs) else []
  {
    CellSlab(op, x, y, bs[0], start);
    LoneUpper(op, CellBand(x, y), bs, start);
  }

  lemma CellBandLost2(op: SetOp, x: int, y: int, as1: seq<Band>, start: int)
    requires as1 != [] && ValidBands(as1) && y < as1[0].top && Keeps2(op) && start > y
    ensures SweepFrom(op, as1, [CellBand(x, y)], start, NO_OUTPUT) ==
      Clipped(x, y, start) + if Keeps1(op) then Flatten(as1) else []
  {
    CellSlab(op, x, y, as1[0], start);
    LoneUpper2(op, as1, CellBand(x, y), start);
  }

  lemma CellLost2(op: SetOp, v1: Region, v2: Region)
    requires Stale(v2) && Banded(v1.rects) && v1.rects != [] && Top(v2) < Top(v1) && Keeps2(op)
    requires Min(v1.bound.top, v2.bound.top) > Top(v2)
    ensures RegionOp(op, v1, v2) ==
      Clipped(v2.rects[0].left, Top(v2), Min(v1.bound.top, v2.bound.top)) + if Keeps1(op) then v1.rects else []
  {
    CellBands(v2);
    ToBandsValid(v1.rects);
    CellBandLost2(op, v2.rects[0].left, Top(v2), ToBands(v1.rects), Min(v1.bound.top, v2.bound.top));
  }

  /** What is left of the cell above a band, on either side of the operation. */
  lemma CellSlab(op: SetOp, x: int, y: int, b: Band, start: int)
    requires y < b.top && start > y
    ensures Keeps1(op) ==> Flatten(AboveSlab(op, CellBand(x, y), b, start)) == Clipped(x, y, start)
    ensures Keeps2(op) ==> Flatten(AboveSlab(op, b, CellBand(x, y), start)) == Clipped(x, y, start)
  {
    FlattenOne(Band(start, y + 1, [Span(x, x + 1)]));
  }

  /** An inverted rectangle covers nothing, and a list below a line covers nothing above it. */
  lemma ClippedIn(x: int, y: int, start: int, rs: seq<Rect>, px: int, py: int)
    requires start > y
    ensures Covers(Clipped(x, y, start) + rs, px, py) <==> Covers(rs, px, py)
  {
    CoversConcat(Clipped(x, y, start), rs, px, py);
  }

  lemma AboveTop(rs: seq<Rect>, x: int, y: int)
    requires Banded(rs) && (rs != [] ==> y < rs[0].top)
    ensures !Covers(rs, x, y)
  {
    forall i | 0 <= i < |rs| ensures !PtInRect(rs[i], x, y) {
      assert i > 0 ==> Before(rs[0], rs[i]);
    }
  }

  // ---------------------------------------------------------------- exactly when an operation is right

  lemma CellOnly(v: Region, x: int, y: int)
    requires Stale(v)
    ensures InRegion(v, x, y) <==> x == v.rects[0].left && y == Top(v)
  {
    assert PtInRect(v.rects[0], v.rects[0].left, Top(v));
  }

  /** Only the cell of a stale region can be a common point that the bounds do not show. */
  lemma ApartIff(v1: Region, v2: Region)
    requires Sound(v1) && Sound(v2) && v1.rects != [] && v2.rects != [] && !ExtentCheck(v1.bound, v2.bound)
    ensures (Stale(v1) ==> !CellIn(v1, v2)) && (Stale(v2) ==> !CellIn(v2, v1)) <==>
      forall x, y :: !(InRegion(v1, x, y) && InRegion(v2, x, y))
  {
    forall x, y ensures InRegion(v1, x, y) && InRegion(v2, x, y) ==>
      (Stale(v1) && CellIn(v1, v2)) || (Stale(v2) && CellIn(v2, v1)) {
      if Stale(v1) { CellOnly(v1, x, y); }
      if Stale(v2) { CellOnly(v2, x, y); }
      if Valid(v1) && Valid(v2) { ApartIn(v1, v2, x, y); }
    }
    if Stale(v1) && CellIn(v1, v2) { CellOnly(v1, v1.rects[0].left, Top(v1)); }
    if Stale(v2) && CellIn(v2, v1) { CellOnly(v2, v2.rects[0].left, Top(v2)); }
  }

  /** The larger of two regions, if one is a single rectangle around the bounds of the other. */
  lemma SubsumesIff(v1: Region, v2: Region)
    requires Sound(v1) && Sound(v2) && v1.rects != [] && v2.rects != [] && Subsumes(v1, v2)
    ensures (Stale(v2) ==> CellIn(v2, v1)) <==>
      forall x, y :: InRegion(v1, x, y) <==> InRegion(v1, x, y) || InRegion(v2, x, y)
  {
    if Valid(v2) {
      WithinExtents(v2.rects, 0);
      assert Valid(v1);
      forall x, y ensures InRegion(v2, x, y) ==> InRegion(v1, x, y) {
        if InRegion(v2, x, y) { SubsumedIn(v1, v2, x, y); }
      }
    } else {
      CellOnly(v2, v2.rects[0].left, Top(v2));
      forall x, y ensures InRegion(v2, x, y) && CellIn(v2, v1) ==> InRegion(v1, x, y) {
        CellOnly(v2, x, y);
      }
    }
  }

  /** A sweep from a start that does not fit loses the cell it starts below. */
  lemma NotFitsWrong(op: SetOp, v1: Region, v2: Region)
    requires Sound(v1) && Sound(v2) && v1.rects != [] && v2.rects != [] && !StartFits(op, v1, v2)
    ensures exists x, y ::
      !Covers(RegionOp(op, v1, v2), x, y) && Holds(op, InRegion(v1, x, y), InRegion(v2, x, y))
  {
    var start := Min(v1.bound.top, v2.bound.top);
    if Top(v1) < Top(v2) && Keeps1(op) && start > Top(v1) {
      var x, y := v1.rects[0].left, Top(v1);
      CellLost(op, v1, v2);
      ClippedIn(x, y, start, if Keeps2(op) then v2.rects else [], x, y);
      AboveTop(v2.rects, x, y);
      CellOnly(v1, x, y);
    } else {
      var x, y := v2.rects[0].left, Top(v2);
      CellLost2(op, v1, v2);
      ClippedIn(x, y, start, if Keeps1(op) then v1.rects else [], x, y);
      AboveTop(v1.rects, x, y);
      CellOnly(v2, x, y);
    }
  }

  /** Union, intersection and difference of sound regions are right on every point exactly under the guard ... */
  lemma CombinedRightIff(op: SetOp, v1: Region, v2: Region)
    requires Sound(v1) && Sound(v2)
    ensures CombinesRight(op, v1, v2) <==> CombineGuard(op, v1, v2)
  {
    if v1.rects == [] || v2.rects == [] {
    } else if op == Union && Subsumes(v1, v2) {
      SubsumesIff(v1, v2);
    } else if op == Union && Subsumes(v2, v1) {
      SubsumesIff(v2, v1);
    } else if op != Union && !ExtentCheck(v1.bound, v2.bound) {
      ApartIff(v1, v2);
    } else if StartFits(op, v1, v2) {
      FitsRight(op, v1, v2);
    } else {
      NotFitsWrong(op, v1, v2);
      var x, y :| !Covers(RegionOp(op, v1, v2), x, y) && Holds(op, InRegion(v1, x, y), InRegion(v2, x, y));
      assert !InRegion(Combined(op, v1, v2), x, y);
    }
  }

  /** ... and then leave a sound region. */
  lemma CombinedSound(op: SetOp, v1: Region, v2: Region)
    requires Sound(v1) && Sound(v2) && CombineGuard(op, v1, v2)
    ensures Sound(Combined(op, v1, v2))
  {
    if v1.rects == [] || v2.rects == [] {
    } else if op == Union && (Subsumes(v1, v2) || Subsumes(v2, v1)) {
    } else if op != Union && !ExtentCheck(v1.bound, v2.bound) {
    } else {
      FitsRight(op, v1, v2);
      FinishedValid(RegionOp(op, v1, v2));
    }
  }

  /** Valid regions meet every guard. */
  lemma ValidMeetsGuard(op: SetOp, v1: Region, v2: Region)
    requires Valid(v1) && Valid(v2)
    ensures CombineGuard(op, v1, v2)
  {
  }

  // ---------------------------------------------------------------- the symmetric difference

  ghost predicate XorRight(v1: Region, v2: Region) {
    forall x, y :: InRegion(XorCombined(v1, v2), x, y) <==> InRegion(v1, x, y) != InRegion(v2, x, y)
  }

  /** Both differences must be right, and where they are mere copies, their union too. */
  predicate XorGuard(v1: Region, v2: Region) {
    && CombineGuard(Subtract, v1, v2) && CombineGuard(Subtract, v2, v1)
    && (ExtentCheck(v1.bound, v2.bound) || CombineGuard(Union, v1, v2))
  }

  /** Where the bounds do not meet, the differences are copies. */
  lemma XorOfCopies(v1: Region, v2: Region)
    requires Sound(v1) && Sound(v2) && v1.rects != [] && v2.rects != [] && !ExtentCheck(v1.bound, v2.bound)
    ensures XorCombined(v1, v2) == Combined(Union, v1, v2)
  {
  }

  /** A point of both regions stays in their union, right or not. */
  lemma CommonStays(v1: Region, v2: Region, x: int, y: int)
    requires Sound(v1) && Sound(v2) && InRegion(v1, x, y) && InRegion(v2, x, y)
    ensures InRegion(Combined(Union, v1, v2), x, y)
  {
    if v1.rects == [] || v2.rects == [] || Subsumes(v1, v2) || Subsumes(v2, v1) {
    } else if StartFits(Union, v1, v2) {
      FitsRight(Union, v1, v2);
    } else if Top(v1) < Top(v2) {
      CellOnly(v1, x, y);
      AboveTop(v2.rects, x, y);
    } else {
      CellOnly(v2, x, y);
      AboveTop(v1.rects, x, y);
    }
  }

  lemma XorApartIff(v1: Region, v2: Region)
    requires Sound(v1) && Sound(v2) && v1.rects != [] && v2.rects != [] && !ExtentCheck(v1.bound, v2.bound)
    ensures XorRight(v1, v2) <==> XorGuard(v1, v2)
  {
    XorOfCopies(v1, v2);
    ApartIff(v1, v2);
    CombinedRightIff(Union, v1, v2);
    if !CombineGuard(Subtract, v1, v2) {
      var x, y :| InRegion(v1, x, y) && InRegion(v2, x, y);
      CommonStays(v1, v2, x, y);
    } else {
      assert XorRight(v1, v2) <==> CombinesRight(Union, v1, v2);
    }
  }

  /** What a lost cell leaves does not bring it back in a union, whichever comes first. */
  lemma LostStaysLost(x: int, y: int, start: int, w: Region)
    requires start > y && Valid(w) && (w.rects != [] ==> Top(w) >= start)
    ensures !InRegion(Combined(Union, Finished(Clipped(x, y, start)), w), x, y)
    ensures !InRegion(Combined(Union, w, Finished(Clipped(x, y, start))), x, y)
  {
    var lost := Finished(Clipped(x, y, start));
    AboveTop(w.rects, x, y);
    assert !InRegion(lost, x, y);
    if lost.rects != [] && w.rects != [] {
      InvertedUnited(x, y, start, lost, w);
    }
  }

  lemma InvertedUnited(x: int, y: int, start: int, lost: Region, w: Region)
    requires start > y + 1 && lost.rects == [Rect(x, start, x + 1, y + 1)]
    requires Banded(w.rects) && w.rects != [] && Top(w) >= start
    ensures !Covers(RegionOp(Union, lost, w), x, y) && !Covers(RegionOp(Union, w, lost), x, y)
  {
    AboveTop(w.rects, x, y);
    ToBandsValid(w.rects);
    var a := Band(start, y + 1, [Span(x, x + 1)]);
    InvertedBands(Rect(x, start, x + 1, y + 1), a, lost.rects);
    InvertedFirst(a, ToBands(w.rects), w.rects, Min(lost.bound.top, w.bound.top), x, y);
    InvertedSecond(a, ToBands(w.rects), w.rects, Min(w.bound.top, lost.bound.top), x, y);
  }

  lemma InvertedBands(r: Rect, a: Band, rs: seq<Rect>)
    requires rs == [r] && a == Band(r.top, r.bottom, [Span(r.left, r.right)])
    ensures ToBands(rs) == [a]
  {
    OneBand(r);
  }

  lemma InvertedFirst(a: Band, bs: seq<Band>, rs: seq<Rect>, from: int, x: int, y: int)
    requires |a.spans| == 1 && a.top > a.bottom && bs != [] && ValidBands(bs) && a.top <= bs[0].top
    requires Flatten(bs) == rs && !Covers(rs, x, y)
    ensures !Covers(SweepFrom(Union, [a], bs, from, NO_OUTPUT), x, y)
  {
    LoneUpper(Union, a, bs, from);
    InvertedIn(AboveSlab(Union, a, bs[0], from), rs, x, y);
  }

  lemma InvertedSecond(a: Band, bs: seq<Band>, rs: seq<Rect>, from: int, x: int, y: int)
    requires |a.spans| == 1 && a.top > a.bottom && bs != [] && ValidBands(bs) && a.top <= bs[0].top
    requires Flatten(bs) == rs && !Covers(rs, x, y)
    ensures !Covers(SweepFrom(Union, bs, [a], from, NO_OUTPUT), x, y)
  {
    LoneUpper2(Union, bs, a, from);
    InvertedIn(AboveSlab(Union, bs[0], a, from), rs, x, y);
  }

  lemma InvertedIn(above: seq<Band>, rs: seq<Rect>, x: int, y: int)
    requires |above| <= 1 && (above != [] ==> above[0].top >= above[0].bottom)
    ensures Covers(Flatten(above) + rs, x, y) <==> Covers(rs, x, y)
  {
    CoversConcat(Flatten(above), rs, x, y);
    if above != [] {
      assert above == [above[0]];
      FlattenOne(above[0]);
      BandRectsIn(above[0], x, y);
    } else {
      assert !Covers([], x, y);
    }
  }

  lemma TopCovered(w: Region)
    requires Banded(w.rects) && w.rects != []
    ensures InRegion(w, w.rects[0].left, Top(w))
  {
    assert PtInRect(w.rects[0], w.rects[0].left, Top(w));
  }

  /** The other difference keeps the valid region below the cell. */
  lemma DifferenceBelow(v: Region, cell: Region)
    requires Valid(v) && Stale(cell) && v.rects != [] && Top(cell) < Top(v) && ExtentCheck(v.bound, cell.bound)
    ensures var w := Combined(Subtract, v, cell); Valid(w) && (w.rects != [] ==> Top(w) >= Top(v))
  {
    CombinedRightIff(Subtract, v, cell);
    CombinedSound(Subtract, v, cell);
    var w := Combined(Subtract, v, cell);
    if w.rects != [] {
      TopCovered(w);
      assert InRegion(v, w.rects[0].left, Top(w));
      if Top(w) < Top(v) { AboveTop(v.rects, w.rects[0].left, Top(w)); }
    }
  }

  lemma XorLost(v1: Region, v2: Region)
    requires Sound(v1) && Sound(v2) && v1.rects != [] && v2.rects != [] && ExtentCheck(v1.bound, v2.bound)
    requires !StartFits(Subtract, v1, v2) || !StartFits(Subtract, v2, v1)
    ensures !XorRight(v1, v2)
  {
    var start := Min(v1.bound.top, v2.bound.top);
    var (cell, v) := if !StartFits(Subtract, v1, v2) then (v1, v2) else (v2, v1);
    var x, y := cell.rects[0].left, Top(cell);
    assert Stale(cell) && Valid(v) && Top(cell) < Top(v) && start > Top(cell) && start <= Top(v);
    CellLost(Subtract, cell, v);
    assert Clipped(x, y, start) + [] == Clipped(x, y, start);
    assert Combined(Subtract, cell, v) == Finished(Clipped(x, y, start));
    DifferenceBelow(v, cell);
    LostStaysLost(x, y, start, Combined(Subtract, v, cell));
    CellOnly(cell, x, y);
    AboveTop(v.rects, x, y);
  }

  /** Right differences are valid, or copies of which one is empty. */
  lemma DifferencesUnite(v1: Region, v2: Region)
    requires Sound(v1) && Sound(v2) && CombineGuard(Subtract, v1, v2) && CombineGuard(Subtract, v2, v1)
    requires v1.rects == [] || v2.rects == [] || ExtentCheck(v1.bound, v2.bound)
    ensures var a, b := Combined(Subtract, v1, v2), Combined(Subtract, v2, v1);
      Sound(a) && Sound(b) && CombineGuard(Union, a, b)
  {
    var a, b := Combined(Subtract, v1, v2), Combined(Subtract, v2, v1);
    CombinedSound(Subtract, v1, v2);
    CombinedSound(Subtract, v2, v1);
    if v1.rects != [] && v2.rects != [] {
      assert Valid(a) && Valid(b);
      ValidMeetsGuard(Union, a, b);
    } else {
      assert a.rects == [] || b.rects == [];
    }
  }

  lemma XorOfPoints(v1: Region, v2: Region, a: Region, b: Region, r: Region)
    requires forall x, y :: InRegion(a, x, y) <==> Holds(Subtract, InRegion(v1, x, y), InRegion(v2, x, y))
    requires forall x, y :: InRegion(b, x, y) <==> Holds(Subtract, InRegion(v2, x, y), InRegion(v1, x, y))
    requires forall x, y :: InRegion(r, x, y) <==> Holds(Union, InRegion(a, x, y), InRegion(b, x, y))
    ensures forall x, y :: InRegion(r, x, y) <==> InRegion(v1, x, y) != InRegion(v2, x, y)
  {
  }

  lemma XorFits(v1: Region, v2: Region)
    requires Sound(v1) && Sound(v2) && XorGuard(v1, v2)
    requires v1.rects == [] || v2.rects == [] || ExtentCheck(v1.bound, v2.bound)
    ensures Sound(XorCombined(v1, v2)) && XorRight(v1, v2)
  {
    var a, b := Combined(Subtract, v1, v2), Combined(Subtract, v2, v1);
    DifferencesUnite(v1, v2);
    CombinedRightIff(Subtract, v1, v2);
    CombinedRightIff(Subtract, v2, v1);
    CombinedRightIff(Union, a, b);
    CombinedSound(Union, a, b);
    XorOfPoints(v1, v2, a, b, Combined(Union, a, b));
  }

  /** XorRegion of sound regions is right on every point exactly under its guard. */
  lemma XorRightIff(v1: Region, v2: Region)
    requires Sound(v1) && Sound(v2)
    ensures XorRight(v1, v2) <==> XorGuard(v1, v2)
    ensures XorGuard(v1, v2) ==> Sound(XorCombined(v1, v2))
  {
    if v1.rects != [] && v2.rects != [] && !ExtentCheck(v1.bound, v2.bound) {
      XorApartIff(v1, v2);
      XorOfCopies(v1, v2);
      if XorGuard(v1, v2) { CombinedSound(Union, v1, v2); }
    } else if XorGuard(v1, v2) {
      XorFits(v1, v2);
    } else {
      XorLost(v1, v2);
    }
  }

  // ---------------------------------------------------------------- the dot with a valid region

  /** Bounds around the origin. */
  predicate AroundOrigin(r: Rect) {
    r.left < 0 < r.right && r.top < 0 < r.bottom
  }

  lemma DotIsStale(x: int, y: int)
    ensures Stale(Dot(x, y)) && !Valid(Dot(x, y))
    ensures forall px, py :: InRegion(Dot(x, y), px, py) <==> px == x && py == y
  {
    forall px, py ensures InRegion(Dot(x, y), px, py) <==> px == x && py == y {
      CellOnly(Dot(x, y), px, py);
    }
  }

  /** Uniting the dot with a valid region is right exactly when the region is empty, or is one rectangle
      around the origin that holds the point, or the sweep starts no lower than the point. */
  lemma DotUnited(x: int, y: int, v: Region)
    requires Valid(v)
    ensures CombinesRight(Union, Dot(x, y), v) <==>
      v.rects == [] || if Subsumes(v, Dot(x, y)) then InRegion(v, x, y) else Min(0, v.bound.top) <= y
    ensures CombinesRight(Union, v, Dot(x, y)) <==>
      v.rects == [] || if Subsumes(v, Dot(x, y)) then InRegion(v, x, y) else Min(0, v.bound.top) <= y
  {
    DotIsStale(x, y);
    CombinedRightIff(Union, Dot(x, y), v);
    CombinedRightIff(Union, v, Dot(x, y));
    if v.rects != [] { WithinExtents(v.rects, 0); }
  }

  /** Where it is wrong for the start, the point is lost; if the start is not right below it, the list holds
      an inverted rectangle. */
  lemma DotUnionLost(x: int, y: int, v: Region)
    requires Valid(v) && v.rects != [] && !Subsumes(v, Dot(x, y)) && Min(0, v.bound.top) > y
    ensures Combined(Union, Dot(x, y), v).rects == Clipped(x, y, Min(0, v.bound.top)) + v.rects
    ensures Valid(Combined(Union, Dot(x, y), v)) <==> Min(0, v.bound.top) == y + 1
  {
    DotIsStale(x, y);
    WithinExtents(v.rects, 0);
    CellLost(Union, Dot(x, y), v);
    ClippedValidIff(x, y, Min(0, v.bound.top), v, Combined(Union, Dot(x, y), v));
  }

  lemma ClippedValidIff(x: int, y: int, start: int, v: Region, r: Region)
    requires Valid(v) && v.rects != [] && r == Finished(Clipped(x, y, start) + v.rects) && start > y
    ensures Valid(r) <==> start == y + 1
  {
    if start == y + 1 {
      assert r.rects == v.rects;
    } else {
      assert !Proper(r.rects[0]);
    }
  }

  /** Taking a valid region from the dot, taking the dot from it, and intersecting them. */
  lemma DotCut(x: int, y: int, v: Region)
    requires Valid(v) && v.rects != []
    ensures CombinesRight(Subtract, Dot(x, y), v) <==>
      if AroundOrigin(v.bound) then v.bound.top <= y else !InRegion(v, x, y)
    ensures CombinesRight(Subtract, v, Dot(x, y)) <==> AroundOrigin(v.bound) || !InRegion(v, x, y)
    ensures CombinesRight(Intersect, Dot(x, y), v) <==> AroundOrigin(v.bound) || !InRegion(v, x, y)
    ensures CombinesRight(Intersect, v, Dot(x, y)) <==> AroundOrigin(v.bound) || !InRegion(v, x, y)
  {
    DotIsStale(x, y);
    CombinedRightIff(Subtract, Dot(x, y), v);
    CombinedRightIff(Subtract, v, Dot(x, y));
    CombinedRightIff(Intersect, Dot(x, y), v);
    CombinedRightIff(Intersect, v, Dot(x, y));
  }

  /** Clipped to a rectangle around its point, the dot keeps the point exactly when the rectangle reaches across
      the origin. */
  lemma DotClipped(x: int, y: int, rect: Rect)
    requires PtInRect(rect, x, y)
    ensures InRegion(Combined(Intersect, Dot(x, y), Single(rect)), x, y) <==> AroundOrigin(rect)
  {
    SingleValid(rect);
    DotIsStale(x, y);
    if AroundOrigin(rect) {
      DotCut(x, y, Single(rect));
    }
  }
}
