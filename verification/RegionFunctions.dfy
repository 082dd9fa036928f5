/** The public region functions of `src/newgdi/region.c`, on CLIPRGN objects that may alias. */
module RegionFunctions {
  import opened Basics
  import opened Spans
  import opened Rects
  import opened RegionRep
  import opened Regions
  import opened StaleRegions
  import opened ClipRegion
  import opened RegionSweep

  lemma {:induction false} SidesSnoc(rs: seq<Rect>, r: Rect)
    requires rs != []
    ensures MinLeft(rs + [r]) == Min(MinLeft(rs), r.left) && MaxRight(rs + [r]) == Max(MaxRight(rs), r.right)
  {
    if |rs| > 1 {
      SidesSnoc(rs[1..], r);
      assert (rs + [r])[1..] == rs[1..] + [r];
    } else {
      assert (rs + [r])[1..] == [r];
    }
  }

  /** REGION_SetExtents. */
  method SetExtents(rgn: ClipRgn)
    modifies rgn`rcBound
    ensures rgn.rcBound == Extents(rgn.rects)
    ensures rgn.rects == [] ==> rgn.rcBound == Rect(0, 0, 0, 0)
    ensures rgn.rects != [] ==> Bounds(rgn.rcBound, rgn.rects)
  {
    ExtentsAre(rgn.rects);
    if rgn.rects == [] {
      rgn.rcBound := Rect(0, 0, 0, 0);
      return;
    }
    var rs := rgn.rects;
    var tail := rs[|rs| - 1];
    rgn.rcBound := Rect(rs[0].left, rs[0].top, tail.right, tail.bottom);
    var i := 0;
    SideBounds(rs, |rs| - 1);
    while i < |rs|
      invariant 0 <= i <= |rs|
      invariant rgn.rcBound.top == rs[0].top && rgn.rcBound.bottom == tail.bottom
      invariant rgn.rcBound.left == if i == 0 then rs[0].left else MinLeft(rs[..i])
      invariant rgn.rcBound.right == if i == 0 then tail.right else Max(tail.right, MaxRight(rs[..i]))
    {
      assert rs[..i + 1] == rs[..i] + [rs[i]];
      if i > 0 { SidesSnoc(rs[..i], rs[i]); }
      if rs[i].left < rgn.rcBound.left {
        rgn.rcBound := rgn.rcBound.(left := rs[i].left);
      }
      if rs[i].right > rgn.rcBound.right {
        rgn.rcBound := rgn.rcBound.(right := rs[i].right);
      }
      i := i + 1;
    }
    assert rs[..i] == rs;
  }

  /** Whether a point is in the region: TRUE is right for any list, FALSE for any banded one, whatever the bounds.
      The code reads `tail` first, so the region must not be empty. */
  method PtInRegion(rgn: ClipRgn, x: int, y: int) returns (inside: bool)
    requires rgn.rects != []
    ensures inside ==> InRegion(rgn.Value(), x, y)
    ensures Banded(rgn.rects) ==> (inside <==> InRegion(rgn.Value(), x, y))
  {
    var rs := rgn.rects;
    if y >= rs[|rs| - 1].bottom || y < rs[0].top {
      if Banded(rs) {
        forall i | 0 <= i < |rs| ensures !PtInRect(rs[i], x, y) {
          WithinExtents(rs, i);
        }
      }
      return false;
    }
    var i := 0;
    while i < |rs| && y >= rs[i].bottom
      invariant 0 <= i <= |rs|
      invariant forall k :: 0 <= k < i ==> !PtInRect(rs[k], x, y)
    {
      i := i + 1;
    }
    if i == |rs| { return false; }
    var top := rs[i].top;
    ghost var b := i;
    while i < |rs| && rs[i].top == top
      invariant b <= i <= |rs|
      invariant forall k :: 0 <= k < i ==> !PtInRect(rs[k], x, y)
    {
      if PtInRect(rs[i], x, y) {
        return true;
      }
      i := i + 1;
    }
    if Banded(rs) {
      forall k | i <= k < |rs| ensures !PtInRect(rs[k], x, y) {
        assert Before(rs[b], rs[i]);
        assert k > i ==> Before(rs[i], rs[k]);
      }
    }
    return false;
  }

  /** Some rectangle of the list overlaps the given one. */
  predicate MeetsSome(rs: seq<Rect>, rect: Rect) {
    exists i :: 0 <= i < |rs| && ExtentCheck(rs[i], rect)
  }

  /** Whether the bounds and some rectangle of the region meet the given one: the loop may stop early, which is
      right for a banded list. */
  method RectInRegion(rgn: ClipRgn, rect: Rect) returns (meets: bool)
    ensures meets ==> rgn.rects != [] && ExtentCheck(rgn.rcBound, rect) && MeetsSome(rgn.rects, rect)
    ensures Banded(rgn.rects) ==>
      (meets <==> rgn.rects != [] && ExtentCheck(rgn.rcBound, rect) && MeetsSome(rgn.rects, rect))
  {
    var rs := rgn.rects;
    if rs != [] && ExtentCheck(rgn.rcBound, rect) {
      var i := 0;
      while i < |rs|
        invariant 0 <= i <= |rs|
        invariant forall k :: 0 <= k < i ==> !ExtentCheck(rs[k], rect)
      {
        if rs[i].bottom <= rect.top {
          i := i + 1;
        } else if rs[i].top >= rect.bottom {
          if Banded(rs) {
            forall k | i < k < |rs| ensures !ExtentCheck(rs[k], rect) {
              assert Before(rs[i], rs[k]);
            }
          }
          return false;
        } else if rs[i].right <= rect.left || rs[i].left >= rect.right {
          i := i + 1;
        } else {
          return true;
        }
      }
    }
    return false;
  }

  /** For a rectangle with points in it, that is to have a point in common with a valid region. */
  lemma MeetsIffCommonPoint(v: Region, rect: Rect)
    requires Valid(v) && Proper(rect)
    ensures v.rects != [] && ExtentCheck(v.bound, rect) && MeetsSome(v.rects, rect) <==>
      exists x, y :: InRegion(v, x, y) && PtInRect(rect, x, y)
  {
    if i :| 0 <= i < |v.rects| && ExtentCheck(v.rects[i], rect) {
      var x, y := Max(v.rects[i].left, rect.left), Max(v.rects[i].top, rect.top);
      assert PtInRect(v.rects[i], x, y);
      assert InRegion(v, x, y) && PtInRect(rect, x, y);
    }
    if x, y :| InRegion(v, x, y) && PtInRect(rect, x, y) {
      var i :| 0 <= i < |v.rects| && PtInRect(v.rects[i], x, y);
      assert ExtentCheck(v.rects[i], rect);
      WithinExtents(v.rects, i);
    }
  }

  method SetClipRgn(rgn: ClipRgn, rect: Rect) returns (ok: bool)
    modifies rgn
    ensures ok <==> rect.left != rect.right && rect.top != rect.bottom
    ensures rgn.Value() == if ok then Single(rect) else old(rgn.Value())
    ensures ok ==> rgn.kind == SimpleRegion && rgn.rcBound == rect && rgn.rects == [rect]
  {
    if IsRectEmpty(rect) {
      return false;
    }
    rgn.EmptyClipRgn();
    rgn.kind, rgn.rects, rgn.rcBound := SimpleRegion, [rect], rect;
    return true;
  }

  method ClipRgnCopy(dst: ClipRgn, src: ClipRgn) returns (ok: bool)
    modifies dst
    ensures ok <==> dst != src
    ensures dst.Value() == CopiedInto(dst == src, old(src.Value()))
    ensures dst.rects == old(src.rects)
    ensures old(src.rects) != [] ==> dst.kind == old(src.kind) && dst.rcBound == old(src.rcBound)
    ensures dst != src && old(src.rects) == [] ==> dst.kind == NullRegion && dst.rcBound == Rect(0, 0, 0, 0)
  {
    if dst == src {
      return false;
    }
    dst.EmptyClipRgn();
    if src.rects == [] {
      return true;
    }
    dst.rects := [src.rects[0]];
    var i := 0;
    while i + 1 < |src.rects|
      invariant 0 <= i < |src.rects| && src.Value() == old(src.Value())
      invariant dst.rects == src.rects[..i + 1]
    {
      i := i + 1;
      dst.rects := dst.rects + [src.rects[i]];
    }
    dst.kind, dst.rcBound := src.kind, src.rcBound;
    return true;
  }

  /** What ClipRgnIntersect, SubtractRegion and UnionRegion end with. */
  method Sweep(dst: ClipRgn, src1: ClipRgn, src2: ClipRgn, op: SetOp)
    requires src1.rects != [] && src2.rects != []
    modifies dst
    ensures dst.Value() == Finished(RegionOp(op, old(src1.Value()), old(src2.Value())))
  {
    RegionOpInto(dst, src1, src2, op);
    SetExtents(dst);
    dst.kind := if dst.rects != [] then ComplexRegion else NullRegion;
  }

  method ClipRgnIntersect(dst: ClipRgn, src1: ClipRgn, src2: ClipRgn) returns (ok: bool)
    modifies dst
    ensures dst.Value() == Combined(Intersect, old(src1.Value()), old(src2.Value()))
    ensures ok <==> old(src1.rects) != [] && old(src2.rects) != [] && ExtentCheck(old(src1.rcBound), old(src2.rcBound))
  {
    if src1.rects == [] || src2.rects == [] || !ExtentCheck(src1.rcBound, src2.rcBound) {
      dst.EmptyClipRgn();
      return false;
    }
    Sweep(dst, src1, src2, Intersect);
    return true;
  }

  method SubtractRegion(rgnD: ClipRgn, rgnM: ClipRgn, rgnS: ClipRgn)
    modifies rgnD
    ensures rgnD.Value() ==
      if old(rgnM.rects) == [] then CopiedInto(rgnD == rgnM, old(rgnM.Value()))
      else Combined(Subtract, old(rgnM.Value()), old(rgnS.Value()))
  {
    if rgnM.rects == [] || rgnS.rects == [] || !ExtentCheck(rgnM.rcBound, rgnS.rcBound) {
      var _ := ClipRgnCopy(rgnD, rgnM);
      return;
    }
    Sweep(rgnD, rgnM, rgnS, Subtract);
  }

  lemma AroundStaysIfValid(v1: Region, v2: Region)
    ensures Valid(v1) && Valid(v2) && OneAround(v1, v2) ==>
      Combined(Union, v1, v2).rects == v1.rects == Combined(Union, v2, v1).rects
  {
    if Valid(v1) && Valid(v2) && OneAround(v1, v2) { AroundStays(v1, v2); }
  }

  method UnionRegion(dst: ClipRgn, src1: ClipRgn, src2: ClipRgn)
    modifies dst
    ensures dst.Value() ==
      if src1 == src2 || old(src1.rects) == [] then CopiedInto(dst == src2, old(src2.Value()))
      else Combined(Union, old(src1.Value()), old(src2.Value()))
    ensures old(Valid(src1.Value()) && Valid(src2.Value()) && OneAround(src1.Value(), src2.Value())) ==>
      dst.rects == old(src1.rects)
    ensures old(Valid(src1.Value()) && Valid(src2.Value()) && OneAround(src2.Value(), src1.Value())) ==>
      dst.rects == old(src2.rects)
  {
    AroundStaysIfValid(src1.Value(), src2.Value());
    AroundStaysIfValid(src2.Value(), src1.Value());
    if src1 == src2 || src1.rects == [] {
      if dst != src2 { var _ := ClipRgnCopy(dst, src2); }
      return;
    }
    if src2.rects == [] {
      if dst != src1 { var _ := ClipRgnCopy(dst, src1); }
      return;
    }
    if |src1.rects| == 1 && src1.rcBound.left <= src2.rcBound.left && src1.rcBound.top <= src2.rcBound.top &&
       src1.rcBound.right >= src2.rcBound.right && src1.rcBound.bottom >= src2.rcBound.bottom {
      if dst != src1 { var _ := ClipRgnCopy(dst, src1); }
      return;
    }
    if |src2.rects| == 1 && src2.rcBound.left <= src1.rcBound.left && src2.rcBound.top <= src1.rcBound.top &&
       src2.rcBound.right >= src1.rcBound.right && src2.rcBound.bottom >= src1.rcBound.bottom {
      if dst != src2 { var _ := ClipRgnCopy(dst, src2); }
      return;
    }
    Sweep(dst, src1, src2, Union);
  }

  method XorRegion(dst: ClipRgn, src1: ClipRgn, src2: ClipRgn)
    modifies dst
    ensures dst.Value() == XorCombined(old(src1.Value()), old(src2.Value()))
    ensures dst.Value() == Combined(Union, Combined(Subtract, old(src1.Value()), old(src2.Value())),
                                    Combined(Subtract, old(src2.Value()), old(src1.Value())))
  {
    var tmpa := new ClipRgn();
    var tmpb := new ClipRgn();
    SubtractRegion(tmpa, src1, src2);
    SubtractRegion(tmpb, src2, src1);
    UnionRegion(dst, tmpa, tmpb);
  }

  /** The temporary one-rectangle region of AddClipRect, IntersectClipRect and SubtractClipRect. */
  method NewSingle(rect: Rect) returns (rgn: ClipRgn)
    ensures fresh(rgn) && rgn.Value() == Single(rect)
  {
    rgn := new ClipRgn();
    rgn.kind, rgn.rcBound, rgn.rects := SimpleRegion, rect, [rect];
  }

  method AddClipRect(rgn: ClipRgn, rect: Rect) returns (ok: bool)
    modifies rgn
    ensures ok <==> rect.left != rect.right && rect.top != rect.bottom
    ensures rgn.Value() ==
      if ok then Combined(Union, old(rgn.Value()), Region(SimpleRegion, rect, [rect])) else old(rgn.Value())
  {
    if IsRectEmpty(rect) {
      return false;
    }
    var my := NewSingle(rect);
    UnionRegion(rgn, rgn, my);
    return true;
  }

  method IntersectClipRect(rgn: ClipRgn, rect: Rect) returns (ok: bool)
    modifies rgn
    ensures ok
    ensures rgn.Value() ==
      if rect.left == rect.right || rect.top == rect.bottom then Region(NullRegion, Rect(0, 0, 0, 0), [])
      else Combined(Intersect, old(rgn.Value()), Region(SimpleRegion, rect, [rect]))
  {
    if IsRectEmpty(rect) {
      rgn.EmptyClipRgn();
      return true;
    }
    var my := NewSingle(rect);
    var _ := ClipRgnIntersect(rgn, rgn, my);
    return true;
  }

  method SubtractClipRect(rgn: ClipRgn, rect: Rect) returns (ok: bool)
    modifies rgn
    ensures ok <==> rect.left != rect.right && rect.top != rect.bottom && DoesIntersect(old(rgn.rcBound), rect)
    ensures rgn.Value() ==
      if ok && old(rgn.rects) != [] then Combined(Subtract, old(rgn.Value()), Region(SimpleRegion, rect, [rect]))
      else old(rgn.Value())
  {
    if IsRectEmpty(rect) || !DoesIntersect(rgn.rcBound, rect) {
      return false;
    }
    var my := NewSingle(rect);
    SubtractRegion(rgn, rgn, my);
    return true;
  }

  method OffsetRegion(rgn: ClipRgn, x: int, y: int)
    modifies rgn
    ensures rgn.Value() == Offset(old(rgn.Value()), x, y)
    ensures rgn.kind == old(rgn.kind) && |rgn.rects| == |old(rgn.rects)|
    ensures forall i :: 0 <= i < |rgn.rects| ==> var r := old(rgn.rects)[i];
      rgn.rects[i] == Rect(r.left + x, r.top + y, r.right + x, r.bottom + y)
    ensures var b := old(rgn.rcBound);
      rgn.rcBound == if rgn.rects == [] then b else Rect(b.left + x, b.top + y, b.right + x, b.bottom + y)
  {
    var i := 0;
    ghost var rs := rgn.rects;
    while i < |rgn.rects|
      invariant 0 <= i <= |rgn.rects| == |rs|
      invariant forall k :: 0 <= k < i ==> rgn.rects[k] == Shifted(rs[k], x, y)
      invariant forall k :: i <= k < |rs| ==> rgn.rects[k] == rs[k]
      invariant rgn.kind == old(rgn.kind) && rgn.rcBound == old(rgn.rcBound)
    {
      rgn.rects := rgn.rects[i := Shifted(rgn.rects[i], x, y)];
      i := i + 1;
    }
    assert rgn.rects == ShiftedAll(rs, x, y);
    if rgn.rects != [] {
      rgn.rcBound := Shifted(rgn.rcBound, x, y);
    }
  }

  /** cb_region: what the circle, ellipse and polygon generators call for every row of pixels. */
  method CbRegion(rgn: ClipRgn, x1: int, x2: int, y: int)
    modifies rgn
    ensures rgn.Value() == RowAdded(old(rgn.Value()), PixelRow(x1, x2, y))
  {
    var rect := if x2 > x1 then Rect(x1, y, x2 + 1, y + 1) else Rect(x2, y, x1 + 1, y + 1);
    assert rect == RowRect(PixelRow(x1, x2, y));
    var newregion := NewSingle(rect);
    if rgn.rects == [] {
      var _ := ClipRgnCopy(rgn, newregion);
    } else {
      UnionRegion(rgn, rgn, newregion);
    }
  }

  lemma RowsNext(v: Region, rows: seq<PixelRow>, i: nat)
    requires i < |rows|
    ensures var row := rows[i];
      RowsAdded(v, rows[..i + 1]) == RowAdded(RowsAdded(v, rows[..i]), PixelRow(row.x1, row.x2, row.y))
  {
    assert rows[..i + 1][..i] == rows[..i];
  }

  /** A generator with cb_region as its callback. */
  method DrawRows(rgn: ClipRgn, rows: seq<PixelRow>)
    modifies rgn
    ensures rgn.Value() == RowsAdded(old(rgn.Value()), rows)
  {
    var i := 0;
    ghost var v := rgn.Value();
    while i < |rows|
      invariant 0 <= i <= |rows| && rgn.Value() == RowsAdded(v, rows[..i])
    {
      RowsNext(v, rows, i);
      CbRegion(rgn, rows[i].x1, rows[i].x2, rows[i].y);
      i := i + 1;
    }
    assert rows[..i] == rows;
  }

  /** The rows are those CircleGenerator reports. For a radius below 1 there are none: the cell is put into the
      list, and the type and the bounds are left as they are in an empty region. */
  method InitCircleRegion(dst: ClipRgn, x: int, y: int, r: int, rows: seq<PixelRow>) returns (ok: bool)
    modifies dst
    ensures ok && dst.Value() == Drawn(r < 1, x, y, rows)
    ensures r < 1 ==>
      dst.rects == [Rect(x, y, x + 1, y + 1)] && dst.kind == NullRegion && dst.rcBound == Rect(0, 0, 0, 0)
  {
    dst.EmptyClipRgn();
    if r < 1 {
      dst.NewClipRect(Rect(x, y, x + 1, y + 1));
      return true;
    }
    DrawRows(dst, rows);
    return true;
  }

  method InitEllipseRegion(dst: ClipRgn, x: int, y: int, rx: int, ry: int, rows: seq<PixelRow>) returns (ok: bool)
    modifies dst
    ensures ok && dst.Value() == Drawn(rx < 1 || ry < 1, x, y, rows)
    ensures rx < 1 || ry < 1 ==>
      dst.rects == [Rect(x, y, x + 1, y + 1)] && dst.kind == NullRegion && dst.rcBound == Rect(0, 0, 0, 0)
  {
    dst.EmptyClipRgn();
    if rx < 1 || ry < 1 {
      dst.NewClipRect(Rect(x, y, x + 1, y + 1));
      return true;
    }
    DrawRows(dst, rows);
    return true;
  }

  /** What the test of the bounds makes of the dot: it is not found unless the rectangle reaches across the
      origin. */
  lemma DotMeetsIff(x: int, y: int, rect: Rect)
    requires Proper(rect)
    ensures ExtentCheck(Dot(x, y).bound, rect) && MeetsSome(Dot(x, y).rects, rect) <==>
      AroundOrigin(rect) && PtInRect(rect, x, y)
  {
    assert ExtentCheck(Dot(x, y).rects[0], rect) <==> PtInRect(rect, x, y);
  }
}
