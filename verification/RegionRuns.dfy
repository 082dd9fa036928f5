/** Whole runs of region functions on one region: when is what the region holds the points that the run means? */
module RegionRuns {
  import opened Basics
  import opened Spans
  import opened Bands
  import opened Rects
  import opened RegionRep
  import opened Sweep
  import opened Regions
  import opened StaleRegions
  import opened InvertedRects
  import opened ClipRegion
  import opened RegionFunctions

  /** A source of an operation on the region `r`: `r` itself or a region with the given value. */
  datatype Operand = Itself | Other(value: Region)

  /** A call that changes the region `r`. UnionRegion (r, s, s) with one object s twice is ClipRgnCopy (r, s). */
  datatype Call =
    | Empty                                                            // EmptyClipRgn (r)
    | Set(rect: Rect)                                                  // SetClipRgn (r, rect)
    | Copy(src: Region)                                                // ClipRgnCopy (r, src)
    | WithRect(op: SetOp, rect: Rect)                                  // AddClipRect etc. (r, rect)
    | Operation(op: SetOp, src1: Operand, src2: Operand)               // UnionRegion etc. (r, src1, src2)
    | Xor(src1: Operand, src2: Operand)                                // XorRegion (r, src1, src2)
    | Move(dx: int, dy: int)                                           // OffsetRegion (r, dx, dy)
    | Draw(row: PixelRow)                                              // cb_region (r, x1, x2, y)
    | Circle(x: int, y: int, radius: int, rows: seq<PixelRow>)         // InitCircleRegion (r, x, y, radius)
    | Ellipse(x: int, y: int, rx: int, ry: int, rows: seq<PixelRow>)   // InitEllipseRegion (r, x, y, rx, ry)

  /** The value of an operand when `r` has the value `v`. */
  function Held(o: Operand, v: Region): Region {
    if o.Itself? then v else o.value
  }

  /** UnionRegion (r, r, r), which returns at once. */
  predicate Idle(op: SetOp, src1: Operand, src2: Operand) {
    op == Union && src1.Itself? && src2.Itself?
  }

  function OperationStep(op: SetOp, v: Region, src1: Operand, src2: Operand): Region {
    if Idle(op, src1, src2) then v else Combined(op, Held(src1, v), Held(src2, v))
  }

  function XorStep(v: Region, src1: Operand, src2: Operand): Region {
    XorCombined(Held(src1, v), Held(src2, v))
  }

  /** AddClipRect, IntersectClipRect or SubtractClipRect. */
  function RectStep(op: SetOp, v: Region, rect: Rect): Region {
    if IsRectEmpty(rect) then (if op == Intersect then EMPTY_REGION else v)
    else if op == Subtract && !DoesIntersect(v.bound, rect) then v
    else Combined(op, v, Single(rect))
  }

  /** The value the call leaves: method Perform makes the call. */
  function Step(v: Region, c: Call): Region {
    match c
    case Empty => EMPTY_REGION
    case Set(rect) => if IsRectEmpty(rect) then v else Single(rect)
    case Copy(src) => Copied(src)
    case WithRect(op, rect) => RectStep(op, v, rect)
    case Operation(op, src1, src2) => OperationStep(op, v, src1, src2)
    case Xor(src1, src2) => XorStep(v, src1, src2)
    case Move(dx, dy) => Offset(v, dx, dy)
    case Draw(row) => RowAdded(v, row)
    case Circle(x, y, radius, rows) => Drawn(radius < 1, x, y, rows)
    case Ellipse(x, y, rx, ry, rows) => Drawn(rx < 1 || ry < 1, x, y, rows)
  }

  function Run(calls: seq<Call>): Region {
    if calls == [] then EMPTY_REGION else Step(Run(calls[..|calls| - 1]), calls[|calls| - 1])
  }

  // ---------------------------------------------------------------- the calls themselves

  /** An empty list comes with the type and the bounds of an empty region, as every function leaves it. */
  predicate Tidy(v: Region) {
    v.rects == [] ==> v == EMPTY_REGION
  }

  lemma CombinedTidy(op: SetOp, v1: Region, v2: Region)
    ensures Tidy(Combined(op, v1, v2))
  {
  }

  lemma XorTidy(v1: Region, v2: Region)
    ensures Tidy(XorCombined(v1, v2))
  {
    CombinedTidy(Union, Combined(Subtract, v1, v2), Combined(Subtract, v2, v1));
  }

  lemma DrawnTidy(dot: bool, x: int, y: int, rows: seq<PixelRow>)
    ensures Tidy(Drawn(dot, x, y, rows))
  {
    if !dot && rows != [] {
      var n := |rows| - 1;
      CombinedTidy(Union, RowsAdded(EMPTY_REGION, rows[..n]), Single(RowRect(rows[n])));
    }
  }

  lemma StepTidy(v: Region, c: Call)
    requires Tidy(v)
    ensures Tidy(Step(v, c))
  {
    match c
    case Empty =>
    case Set(_) =>
    case Copy(_) =>
    case Move(_, _) =>
    case WithRect(op, rect) => CombinedTidy(op, v, Single(rect));
    case Operation(op, src1, src2) => CombinedTidy(op, Held(src1, v), Held(src2, v));
    case Xor(src1, src2) => XorTidy(Held(src1, v), Held(src2, v));
    case Draw(row) => CombinedTidy(Union, v, Single(RowRect(row)));
    case Circle(x, y, radius, rows) => DrawnTidy(radius < 1, x, y, rows);
    case Ellipse(x, y, rx, ry, rows) => DrawnTidy(rx < 1 || ry < 1, x, y, rows);
  }

  /** The operand as an object. */
  method Source(rgn: ClipRgn, o: Operand) returns (src: ClipRgn)
    ensures src.Value() == Held(o, rgn.Value())
    ensures if o.Itself? then src == rgn else fresh(src)
  {
    if o.Itself? {
      src := rgn;
    } else {
      src := new ClipRgn();
      src.kind, src.rcBound, src.rects := o.value.kind, o.value.bound, o.value.rects;
    }
  }

  /** The operation, on two objects or on one object twice. */
  method Combine(op: SetOp, dst: ClipRgn, src1: ClipRgn, src2: ClipRgn)
    requires src1 == src2 ==> op != Union
    requires (dst == src1 ==> Tidy(src1.Value())) && (dst == src2 ==> Tidy(src2.Value()))
    modifies dst
    ensures dst.Value() == Combined(op, old(src1.Value()), old(src2.Value()))
  {
    if op == Union {
      UnionRegion(dst, src1, src2);
    } else if op == Intersect {
      var _ := ClipRgnIntersect(dst, src1, src2);
    } else {
      SubtractRegion(dst, src1, src2);
    }
  }

  method PerformOperation(rgn: ClipRgn, op: SetOp, o1: Operand, o2: Operand)
    requires Tidy(rgn.Value())
    modifies rgn
    ensures rgn.Value() == OperationStep(op, old(rgn.Value()), o1, o2)
  {
    var src1 := Source(rgn, o1);
    var src2 := Source(rgn, o2);
    if Idle(op, o1, o2) {
      UnionRegion(rgn, src1, src2);
    } else {
      Combine(op, rgn, src1, src2);
    }
  }

  method PerformXor(rgn: ClipRgn, o1: Operand, o2: Operand)
    modifies rgn
    ensures rgn.Value() == XorStep(old(rgn.Value()), o1, o2)
  {
    var src1 := Source(rgn, o1);
    var src2 := Source(rgn, o2);
    XorRegion(rgn, src1, src2);
  }

  method PerformRect(rgn: ClipRgn, op: SetOp, rect: Rect)
    requires Tidy(rgn.Value())
    modifies rgn
    ensures rgn.Value() == RectStep(op, old(rgn.Value()), rect)
  {
    if op == Union {
      var _ := AddClipRect(rgn, rect);
    } else if op == Intersect {
      var _ := IntersectClipRect(rgn, rect);
    } else {
      var _ := SubtractClipRect(rgn, rect);
    }
  }

  method PerformOther(rgn: ClipRgn, c: Call)
    requires Tidy(rgn.Value()) && (c.Empty? || c.Set? || c.Copy? || c.Move?)
    modifies rgn
    ensures rgn.Value() == Step(old(rgn.Value()), c)
  {
    if c.Empty? {
      rgn.EmptyClipRgn();
    } else if c.Set? {
      var _ := SetClipRgn(rgn, c.rect);
    } else if c.Copy? {
      var src := Source(rgn, Other(c.src));
      var _ := ClipRgnCopy(rgn, src);
    } else {
      OffsetRegion(rgn, c.dx, c.dy);
    }
  }

  /** The call, on the object in place. */
  method Perform(rgn: ClipRgn, c: Call)
    requires Tidy(rgn.Value())
    modifies rgn
    ensures Tidy(rgn.Value()) && rgn.Value() == Step(old(rgn.Value()), c)
  {
    StepTidy(rgn.Value(), c);
    if c.Operation? {
      PerformOperation(rgn, c.op, c.src1, c.src2);
    } else if c.Xor? {
      PerformXor(rgn, c.src1, c.src2);
    } else if c.WithRect? {
      PerformRect(rgn, c.op, c.rect);
    } else if c.Draw? {
      CbRegion(rgn, c.row.x1, c.row.x2, c.row.y);
    } else if c.Circle? {
      var _ := InitCircleRegion(rgn, c.x, c.y, c.radius, c.rows);
    } else if c.Ellipse? {
      var _ := InitEllipseRegion(rgn, c.x, c.y, c.rx, c.ry, c.rows);
    } else {
      PerformOther(rgn, c);
    }
  }

  // ---------------------------------------------------------------- what a run means

  predicate InRow(row: PixelRow, x: int, y: int) {
    y == row.y && (row.x1 <= x <= row.x2 || row.x2 <= x <= row.x1)
  }

  /** The points drawn by an initialisation. */
  predicate InDrawing(dot: bool, x: int, y: int, rows: seq<PixelRow>, px: int, py: int) {
    if dot then px == x && py == y else InRows(rows, px, py)
  }

  predicate InRows(rows: seq<PixelRow>, x: int, y: int) {
    exists i :: 0 <= i < |rows| && InRow(rows[i], x, y)
  }

  predicate InOperand(o: Operand, was: bool, x: int, y: int) {
    if o.Itself? then was else InRegion(o.value, x, y)
  }

  /** What the call means for the point (x, y), given whether its point of origin was in the region. */
  predicate Effect(c: Call, was: bool, x: int, y: int) {
    match c
    case Empty => false
    case Set(rect) => if IsRectEmpty(rect) then was else PtInRect(rect, x, y)
    case Copy(src) => InRegion(src, x, y)
    case WithRect(op, rect) => Holds(op, was, PtInRect(rect, x, y))
    case Operation(op, src1, src2) => Holds(op, InOperand(src1, was, x, y), InOperand(src2, was, x, y))
    case Xor(src1, src2) => InOperand(src1, was, x, y) != InOperand(src2, was, x, y)
    case Move(_, _) => was
    case Draw(row) => was || InRow(row, x, y)
    case Circle(cx, cy, radius, rows) => InDrawing(radius < 1, cx, cy, rows, x, y)
    case Ellipse(cx, cy, rx, ry, rows) => InDrawing(rx < 1 || ry < 1, cx, cy, rows, x, y)
  }

  function OriginX(c: Call, x: int): int { if c.Move? then x - c.dx else x }

  function OriginY(c: Call, y: int): int { if c.Move? then y - c.dy else y }

  /** What the run means for one point, without any region. */
  predicate Means(calls: seq<Call>, x: int, y: int) {
    calls != [] &&
    var c := calls[|calls| - 1];
    Effect(c, Means(calls[..|calls| - 1], OriginX(c, x), OriginY(c, y)), x, y)
  }

  // ---------------------------------------------------------------- when a call is right

  predicate SoundOperand(o: Operand) {
    o.Other? ==> Sound(o.value)
  }

  /** What the callers owe: sound source regions. */
  predicate Allowed(c: Call) {
    match c
    case Copy(src) => Sound(src)
    case Operation(_, src1, src2) => SoundOperand(src1) && SoundOperand(src2)
    case Xor(src1, src2) => SoundOperand(src1) && SoundOperand(src2)
    case _ => true
  }

  /** The condition under which the call is right. */
  predicate Guard(v: Region, c: Call) {
    match c
    case WithRect(op, rect) =>
      if op == Subtract then Stale(v) ==> !PtInRect(rect, v.rects[0].left, v.rects[0].top)
      else if op == Union && Inverted(rect) then AddGuard(v, rect)
      else Proper(rect) ==> CombineGuard(op, v, Single(rect))
    case Operation(op, src1, src2) => Idle(op, src1, src2) || CombineGuard(op, Held(src1, v), Held(src2, v))
    case Xor(src1, src2) => XorGuard(Held(src1, v), Held(src2, v))
    case Draw(row) => CombineGuard(Union, v, Single(RowRect(row)))
    case _ => true
  }

  /** The condition under which a call that is right leaves a sound region: an inverted rectangle is put into it only
      if it leaves no trace in the list. */
  predicate KeepsSound(v: Region, c: Call) {
    match c
    case Set(rect) => !Inverted(rect)
    case WithRect(op, rect) => op == Union && Inverted(rect) ==> KeepsForm(v, rect)
    case _ => true
  }

  /** `r` holds the points that the call on `v` means. */
  ghost predicate Answers(r: Region, v: Region, c: Call) {
    forall x, y :: InRegion(r, x, y) <==> Effect(c, InRegion(v, OriginX(c, x), OriginY(c, y)), x, y)
  }

  ghost predicate StepRight(v: Region, c: Call) {
    Answers(Step(v, c), v, c)
  }

  /** A call with one proper rectangle. */
  lemma SingleRightIff(op: SetOp, v: Region, rect: Rect)
    requires Sound(v) && Proper(rect)
    ensures CombineGuard(op, v, Single(rect)) <==> forall x, y ::
      InRegion(Combined(op, v, Single(rect)), x, y) <==> Holds(op, InRegion(v, x, y), PtInRect(rect, x, y))
    ensures CombineGuard(op, v, Single(rect)) ==> Sound(Combined(op, v, Single(rect)))
  {
    SingleValid(rect);
    CombinedRightIff(op, v, Single(rect));
    if CombineGuard(op, v, Single(rect)) { CombinedSound(op, v, Single(rect)); }
    if CombinesRight(op, v, Single(rect)) {
      forall x, y ensures InRegion(Combined(op, v, Single(rect)), x, y) <==>
        Holds(op, InRegion(v, x, y), PtInRect(rect, x, y)) {
      }
    }
  }

  /** The bounds of a stale region meet nothing, so nothing is cut from it. */
  lemma CutNotMade(v: Region, rect: Rect)
    requires Stale(v)
    ensures var c := WithRect(Subtract, rect); Step(v, c) == v && (Guard(v, c) <==> StepRight(v, c))
  {
    assert !DoesIntersect(v.bound, rect);
    var c, cx, cy := WithRect(Subtract, rect), v.rects[0].left, Top(v);
    CellOnly(v, cx, cy);
    if PtInRect(rect, cx, cy) {
      assert InRegion(v, cx, cy) && !Effect(c, InRegion(v, OriginX(c, cx), OriginY(c, cy)), cx, cy);
    } else {
      forall x, y ensures InRegion(v, x, y) ==> !PtInRect(rect, x, y) {
        CellOnly(v, x, y);
      }
    }
  }

  lemma CutRightIff(v: Region, rect: Rect)
    requires Sound(v)
    ensures Guard(v, WithRect(Subtract, rect)) <==> StepRight(v, WithRect(Subtract, rect))
    ensures Guard(v, WithRect(Subtract, rect)) ==> Sound(Step(v, WithRect(Subtract, rect)))
  {
    if Stale(v) {
      CutNotMade(v, rect);
    } else if IsRectEmpty(rect) || !DoesIntersect(v.bound, rect) {
      forall x, y ensures !(InRegion(v, x, y) && PtInRect(rect, x, y)) {
        if InRegion(v, x, y) { InBound(v, x, y); }
      }
    } else {
      SingleValid(rect);
      ValidMeetsGuard(Subtract, v, Single(rect));
      SingleRightIff(Subtract, v, rect);
    }
  }

  lemma {:induction false} NothingCommon(a: seq<Span>, s: Span)
    requires s.left >= s.right
    ensures IntersectSpans(a, [s]) == []
    decreases |a|
  {
    if a == [] {
    } else {
      var a', b', rest := IntersectUnfold(a, [s]);
      if a' != a && b' != [] { NothingCommon(a', s); }
    }
  }

  /** A band that covers nothing, right to left or bottom to top. */
  predicate NoPoints(b: Band) {
    |b.spans| == 1 && (b.top >= b.bottom || b.spans[0].left >= b.spans[0].right)
  }

  lemma NothingMet(a: Band, b: Band)
    requires NoPoints(b)
    ensures MeetInto(Intersect, [], a, b) == []
  {
    assert b.spans == [b.spans[0]];
    if b.spans[0].left >= b.spans[0].right { NothingCommon(a.spans, b.spans[0]); }
  }

  lemma {:induction false} NothingSwept(as1: seq<Band>, b: Band, y: int)
    requires NoPoints(b)
    ensures SweepFrom(Intersect, as1, [b], y, NO_OUTPUT) == []
    decreases |as1|
  {
    if as1 == [] {
    } else {
      var ybot := Min(as1[0].bottom, b.bottom);
      NothingMet(as1[0], b);
      assert Turn(Intersect, as1[0], b, y, NO_OUTPUT) == NO_OUTPUT;
      assert [b][1..] == [];
      if b.bottom != ybot { NothingSwept(as1[1..], b, ybot); }
    }
  }

  /** Clipping to an inverted rectangle leaves nothing. */
  lemma ClipToInverted(v: Region, rect: Rect)
    requires Inverted(rect)
    ensures Combined(Intersect, v, Single(rect)) == EMPTY_REGION
  {
    OneBand(rect);
    NothingSwept(ToBands(v.rects), Band(rect.top, rect.bottom, [Span(rect.left, rect.right)]),
                 Min(v.bound.top, rect.top));
  }

  lemma RowRight(v: Region, row: PixelRow, x: int, y: int)
    requires Valid(v)
    ensures var w := Combined(Union, v, Single(RowRect(row)));
      Valid(w) && (InRegion(w, x, y) <==> InRegion(v, x, y) || InRow(row, x, y))
  {
    SingleValid(RowRect(row));
    CombinedValid(Union, v, Single(RowRect(row)));
    CombinedIn(Union, v, Single(RowRect(row)), x, y);
  }

  lemma InRowsSnoc(rows: seq<PixelRow>, x: int, y: int)
    requires rows != []
    ensures InRows(rows, x, y) <==> InRows(rows[..|rows| - 1], x, y) || InRow(rows[|rows| - 1], x, y)
  {
    var n := |rows| - 1;
    if i :| 0 <= i < n && InRow(rows[..n][i], x, y) { assert InRow(rows[i], x, y); }
    if i :| 0 <= i <= n && InRow(rows[i], x, y) {
      if i < n { assert InRow(rows[..n][i], x, y); }
    }
  }

  /** What the rows of a generator leave. */
  lemma {:induction false} RowsRight(rows: seq<PixelRow>, x: int, y: int)
    ensures Valid(RowsAdded(EMPTY_REGION, rows))
    ensures InRegion(RowsAdded(EMPTY_REGION, rows), x, y) <==> InRows(rows, x, y)
    decreases |rows|
  {
    if rows == [] {
    } else {
      var n := |rows| - 1;
      RowsRight(rows[..n], x, y);
      RowRight(RowsAdded(EMPTY_REGION, rows[..n]), rows[n], x, y);
      InRowsSnoc(rows, x, y);
    }
  }

  lemma DrawnRight(dot: bool, cx: int, cy: int, rows: seq<PixelRow>)
    ensures Sound(Drawn(dot, cx, cy, rows)) && (!dot ==> Valid(Drawn(dot, cx, cy, rows)))
    ensures forall x, y :: InRegion(Drawn(dot, cx, cy, rows), x, y) <==> InDrawing(dot, cx, cy, rows, x, y)
  {
    DotIsStale(cx, cy);
    RowsRight(rows, 0, 0);
    if !dot {
      forall x, y ensures InRegion(Drawn(dot, cx, cy, rows), x, y) <==> InDrawing(dot, cx, cy, rows, x, y) {
        RowsRight(rows, x, y);
      }
    }
  }

  lemma MoveRight(v: Region, dx: int, dy: int)
    requires Sound(v)
    ensures Sound(Offset(v, dx, dy)) && StepRight(v, Move(dx, dy))
  {
    if Valid(v) { OffsetValid(v, dx, dy); } else { MovedStale(v, dx, dy); }
    var c := Move(dx, dy);
    forall x, y ensures InRegion(Step(v, c), x, y) <==> Effect(c, InRegion(v, OriginX(c, x), OriginY(c, y)), x, y) {
      MovedPoint(v, dx, dy, x, y);
    }
  }

  lemma MovedStale(v: Region, dx: int, dy: int)
    requires Stale(v)
    ensures Stale(Offset(v, dx, dy))
  {
  }

  lemma MovedPoint(v: Region, dx: int, dy: int, x: int, y: int)
    ensures InRegion(Offset(v, dx, dy), x, y) <==> InRegion(v, x - dx, y - dy)
  {
    OffsetIn(v, dx, dy, x - dx, y - dy);
  }

  /** A call that combines the region with one proper rectangle. */
  lemma OneRectRightIff(op: SetOp, v: Region, rect: Rect, c: Call)
    requires Sound(v) && Proper(rect) && !c.Move?
    requires Step(v, c) == Combined(op, v, Single(rect)) && (Guard(v, c) <==> CombineGuard(op, v, Single(rect)))
    requires forall was, x, y :: Effect(c, was, x, y) <==> Holds(op, was, PtInRect(rect, x, y))
    ensures StepRight(v, c) <==> Guard(v, c)
    ensures Guard(v, c) ==> Sound(Step(v, c))
  {
    SingleRightIff(op, v, rect);
    var r := Combined(op, v, Single(rect));
    if StepRight(v, c) {
      forall x, y ensures InRegion(r, x, y) <==> Holds(op, InRegion(v, x, y), PtInRect(rect, x, y)) {
        assert InRegion(Step(v, c), x, y) <==> Effect(c, InRegion(v, OriginX(c, x), OriginY(c, y)), x, y);
      }
    }
    if Guard(v, c) {
      forall x, y ensures InRegion(Step(v, c), x, y) <==> Effect(c, InRegion(v, OriginX(c, x), OriginY(c, y)), x, y) {
        assert InRegion(r, x, y) <==> Holds(op, InRegion(v, x, y), PtInRect(rect, x, y));
      }
    }
  }

  /** AddClipRect with an inverted rectangle. */
  lemma InvertedRightIff(v: Region, rect: Rect)
    requires Sound(v) && Inverted(rect)
    ensures var c := WithRect(Union, rect);
      (StepRight(v, c) <==> Guard(v, c)) && (Guard(v, c) ==> (Sound(Step(v, c)) <==> KeepsSound(v, c)))
  {
    InvertedAdded(v, rect);
    var c, w := WithRect(Union, rect), Combined(Union, v, Single(rect));
    if Answers(w, v, c) {
      forall x, y ensures InRegion(w, x, y) <==> InRegion(v, x, y) {
        assert InRegion(w, x, y) <==> Effect(c, InRegion(v, OriginX(c, x), OriginY(c, y)), x, y);
      }
    }
  }

  lemma RectRightIff(v: Region, c: Call)
    requires Sound(v) && (c.Set? || c.WithRect? || c.Draw?)
    ensures StepRight(v, c) <==> Guard(v, c)
    ensures Guard(v, c) ==> (Sound(Step(v, c)) <==> KeepsSound(v, c))
  {
    match c
    case Set(rect) => SingleValid(rect);
    case WithRect(op, rect) =>
      if op == Subtract {
        CutRightIff(v, rect);
      } else if Proper(rect) {
        OneRectRightIff(op, v, rect, c);
      } else if op == Union && Inverted(rect) {
        InvertedRightIff(v, rect);
      } else if Inverted(rect) {
        ClipToInverted(v, rect);
      }
    case Draw(row) => OneRectRightIff(Union, v, RowRect(row), c);
  }

  lemma OperationMeans(r: Region, v: Region, c: Call, v1: Region, v2: Region)
    requires c.Operation? && v1 == Held(c.src1, v) && v2 == Held(c.src2, v)
    ensures Answers(r, v, c) <==>
      forall x, y :: InRegion(r, x, y) <==> Holds(c.op, InRegion(v1, x, y), InRegion(v2, x, y))
  {
    forall x, y ensures Effect(c, InRegion(v, OriginX(c, x), OriginY(c, y)), x, y) <==>
      Holds(c.op, InRegion(v1, x, y), InRegion(v2, x, y)) {
    }
  }

  lemma OperationRightIff(v: Region, c: Call, v1: Region, v2: Region)
    requires c.Operation? && !Idle(c.op, c.src1, c.src2) && v1 == Held(c.src1, v) && v2 == Held(c.src2, v)
    requires Sound(v1) && Sound(v2)
    ensures StepRight(v, c) <==> Guard(v, c)
    ensures Guard(v, c) ==> Sound(Step(v, c))
  {
    CombinedRightIff(c.op, v1, v2);
    if Guard(v, c) { CombinedSound(c.op, v1, v2); }
    OperationMeans(Combined(c.op, v1, v2), v, c, v1, v2);
  }

  /** `r` holds the points that are in one of the two regions only. */
  ghost predicate HoldsXor(r: Region, v1: Region, v2: Region) {
    forall x, y :: InRegion(r, x, y) <==> InRegion(v1, x, y) != InRegion(v2, x, y)
  }

  lemma XorMeans(r: Region, v: Region, c: Call, v1: Region, v2: Region)
    requires c.Xor? && v1 == Held(c.src1, v) && v2 == Held(c.src2, v)
    ensures Answers(r, v, c) <==> HoldsXor(r, v1, v2)
  {
    forall x, y ensures Effect(c, InRegion(v, OriginX(c, x), OriginY(c, y)), x, y) <==>
      InRegion(v1, x, y) != InRegion(v2, x, y) {
    }
  }

  lemma XorResult(r: Region, v1: Region, v2: Region)
    requires Sound(v1) && Sound(v2) && r == XorCombined(v1, v2)
    ensures HoldsXor(r, v1, v2) <==> XorGuard(v1, v2)
    ensures XorGuard(v1, v2) ==> Sound(r)
  {
    XorRightIff(v1, v2);
  }

  lemma XorStepGuard(v: Region, c: Call)
    requires c.Xor?
    ensures Guard(v, c) == XorGuard(Held(c.src1, v), Held(c.src2, v))
  {
  }

  lemma XorStepRightIff(v: Region, c: Call, v1: Region, v2: Region)
    requires c.Xor? && v1 == Held(c.src1, v) && v2 == Held(c.src2, v)
    requires Sound(v1) && Sound(v2)
    ensures StepRight(v, c) <==> Guard(v, c)
    ensures Guard(v, c) ==> Sound(Step(v, c))
  {
    var r := XorCombined(v1, v2);
    XorStepGuard(v, c);
    XorResult(r, v1, v2);
    XorMeans(r, v, c, v1, v2);
  }

  /** A call on a sound region is right on every point exactly if its guard is met, and then leaves a sound
      region, except that an inverted rectangle may stay in the list. */
  lemma StepRightIff(v: Region, c: Call)
    requires Sound(v) && Allowed(c)
    ensures StepRight(v, c) <==> Guard(v, c)
    ensures Guard(v, c) ==> (Sound(Step(v, c)) <==> KeepsSound(v, c))
  {
    match c
    case Empty =>
    case Move(dx, dy) => MoveRight(v, dx, dy);
    case Circle(x, y, radius, rows) => DrawnRight(radius < 1, x, y, rows);
    case Ellipse(x, y, rx, ry, rows) => DrawnRight(rx < 1 || ry < 1, x, y, rows);
    case Copy(_) =>
    case Operation(op, src1, src2) =>
      if !Idle(op, src1, src2) { OperationRightIff(v, c, Held(src1, v), Held(src2, v)); }
    case Xor(src1, src2) => XorStepRightIff(v, c, Held(src1, v), Held(src2, v));
    case _ => RectRightIff(v, c);
  }

  // ---------------------------------------------------------------- when a run is right

  ghost predicate AllAllowed(calls: seq<Call>) {
    forall i :: 0 <= i < |calls| ==> Allowed(calls[i])
  }

  /** The region holds exactly the points that the run means. */
  ghost predicate EndsRight(calls: seq<Call>) {
    forall x, y :: InRegion(Run(calls), x, y) <==> Means(calls, x, y)
  }

  /** So it does after every call of the run. */
  ghost predicate RunRight(calls: seq<Call>) {
    EndsRight(calls) && (calls != [] ==> RunRight(calls[..|calls| - 1]))
  }

  /** Every call meets its guard. */
  predicate GuardsHold(calls: seq<Call>) {
    calls != [] ==>
      GuardsHold(calls[..|calls| - 1]) && Guard(Run(calls[..|calls| - 1]), calls[|calls| - 1])
  }

  /** Every call keeps the region sound. */
  predicate FormKept(calls: seq<Call>) {
    calls != [] ==>
      FormKept(calls[..|calls| - 1]) && KeepsSound(Run(calls[..|calls| - 1]), calls[|calls| - 1])
  }

  /** Every call but the last. */
  predicate FormKeptUntil(calls: seq<Call>) {
    calls != [] ==> FormKept(calls[..|calls| - 1])
  }

  /** Whether `r` holds what `calls` mean, given that `v` holds what all but the last call mean. */
  lemma PointsAgree(calls: seq<Call>, before: seq<Call>, c: Call, v: Region, r: Region)
    requires calls != [] && before == calls[..|calls| - 1] && c == calls[|calls| - 1]
    requires forall x, y :: InRegion(v, x, y) <==> Means(before, x, y)
    ensures (forall x, y :: InRegion(r, x, y) <==> Means(calls, x, y)) <==>
      forall x, y :: InRegion(r, x, y) <==> Effect(c, InRegion(v, OriginX(c, x), OriginY(c, y)), x, y)
  {
    forall x, y ensures Means(calls, x, y) <==> Effect(c, InRegion(v, OriginX(c, x), OriginY(c, y)), x, y) {
      assert InRegion(v, OriginX(c, x), OriginY(c, y)) <==> Means(before, OriginX(c, x), OriginY(c, y));
    }
  }

  lemma EndsRightStep(calls: seq<Call>)
    requires calls != [] && EndsRight(calls[..|calls| - 1])
    ensures EndsRight(calls) <==> StepRight(Run(calls[..|calls| - 1]), calls[|calls| - 1])
  {
    var before, c := calls[..|calls| - 1], calls[|calls| - 1];
    PointsAgree(calls, before, c, Run(before), Run(calls));
  }

  /** A run is right, after every call, exactly if every call meets its guard, as long as every call finds a sound
      region. */
  lemma {:induction false} RunRightIff(calls: seq<Call>)
    requires AllAllowed(calls) && FormKeptUntil(calls)
    ensures RunRight(calls) <==> GuardsHold(calls)
    ensures GuardsHold(calls) ==> (Sound(Run(calls)) <==> FormKept(calls))
    decreases |calls|
  {
    if calls == [] {
      assert EndsRight(calls);
    } else {
      var before, c := calls[..|calls| - 1], calls[|calls| - 1];
      RunRightIff(before);
      if GuardsHold(before) {
        EndsRightStep(calls);
        StepRightIff(Run(before), c);
      }
    }
  }

  predicate ValidOperand(o: Operand) {
    o.Other? ==> Valid(o.value)
  }

  /** A call with valid sources and, if it draws a circle or an ellipse, with a radius or half axes of at least 1. */
  predicate Plain(c: Call) {
    && Allowed(c)
    && match c {
         case Copy(src) => Valid(src)
         case Operation(_, src1, src2) => ValidOperand(src1) && ValidOperand(src2)
         case Xor(src1, src2) => ValidOperand(src1) && ValidOperand(src2)
         case Circle(_, _, radius, _) => radius >= 1
         case Ellipse(_, _, rx, ry, _) => rx >= 1 && ry >= 1
         case _ => true
       }
  }

  ghost predicate AllPlain(calls: seq<Call>) {
    forall i :: 0 <= i < |calls| ==> Plain(calls[i])
  }

  lemma PlainCombine(op: SetOp, v1: Region, v2: Region)
    requires Valid(v1) && Valid(v2)
    ensures CombineGuard(op, v1, v2) && Valid(Combined(op, v1, v2))
  {
    ValidMeetsGuard(op, v1, v2);
    CombinedValid(op, v1, v2);
  }

  lemma PlainXor(v: Region, src: Region)
    requires Valid(v) && Valid(src)
    ensures XorGuard(v, src) && Valid(XorCombined(v, src))
  {
    ValidMeetsGuard(Subtract, v, src);
    ValidMeetsGuard(Subtract, src, v);
    ValidMeetsGuard(Union, v, src);
    XorCombinedIn(v, src, 0, 0);
  }

  lemma PlainOneRect(op: SetOp, v: Region, rect: Rect)
    requires Valid(v) && Proper(rect)
    ensures CombineGuard(op, v, Single(rect)) && Valid(Combined(op, v, Single(rect)))
  {
    SingleValid(rect);
    PlainCombine(op, v, Single(rect));
  }

  lemma PlainRect(v: Region, c: Call)
    requires Valid(v) && (c.Set? || c.WithRect? || c.Draw?)
    ensures Guard(v, c) && (Valid(Step(v, c)) <==> KeepsSound(v, c))
  {
    match c
    case Set(rect) => SingleValid(rect);
    case WithRect(op, rect) =>
      if op == Subtract {
        if DoesIntersect(v.bound, rect) { PlainOneRect(op, v, rect); }
      } else if Proper(rect) {
        PlainOneRect(op, v, rect);
      } else if op == Union && Inverted(rect) {
        InvertedAdded(v, rect);
      } else if Inverted(rect) {
        ClipToInverted(v, rect);
      }
    case Draw(row) => PlainOneRect(Union, v, RowRect(row));
  }

  lemma PlainStep(v: Region, c: Call)
    requires Valid(v) && Plain(c)
    ensures Guard(v, c) && (Valid(Step(v, c)) <==> KeepsSound(v, c))
  {
    match c
    case Empty =>
    case Copy(src) =>
    case Operation(op, src1, src2) => PlainCombine(op, Held(src1, v), Held(src2, v));
    case Xor(src1, src2) => PlainXor(Held(src1, v), Held(src2, v));
    case Move(dx, dy) => OffsetValid(v, dx, dy);
    case Circle(x, y, radius, rows) => DrawnRight(false, x, y, rows);
    case Ellipse(x, y, rx, ry, rows) => DrawnRight(false, x, y, rows);
    case _ => PlainRect(v, c);
  }

  /** Over any run without radii below 1 the region holds exactly the points the run means, and it stays valid unless
      an inverted rectangle is left in the list. */
  lemma {:induction false} RunCorrect(calls: seq<Call>)
    requires AllPlain(calls) && FormKeptUntil(calls)
    ensures GuardsHold(calls) && RunRight(calls) && (Valid(Run(calls)) <==> FormKept(calls))
    decreases |calls|
  {
    if calls == [] {
    } else {
      var before, c := calls[..|calls| - 1], calls[|calls| - 1];
      RunCorrect(before);
      PlainStep(Run(before), c);
    }
    RunRightIff(calls);
  }

  /** A call that puts no inverted rectangle into the region. */
  predicate Upright(c: Call) {
    c.Set? || (c.WithRect? && c.op == Union) ==> !Inverted(c.rect)
  }

  /** Without inverted rectangles the form is always kept. */
  lemma {:induction false} UprightKeepsForm(calls: seq<Call>)
    requires forall i :: 0 <= i < |calls| ==> Upright(calls[i])
    ensures FormKept(calls)
    decreases |calls|
  {
    if calls == [] {
    } else {
      UprightKeepsForm(calls[..|calls| - 1]);
    }
  }

  ghost predicate SameMeaning(calls1: seq<Call>, calls2: seq<Call>) {
    forall x, y :: Means(calls1, x, y) <==> Means(calls2, x, y)
  }

  /** Two runs that mean the same points and leave lists with nothing to merge leave the same list, small radii
      or not. */
  lemma RunsAgree(calls1: seq<Call>, calls2: seq<Call>)
    requires AllAllowed(calls1) && AllAllowed(calls2) && GuardsHold(calls1) && GuardsHold(calls2)
    requires FormKeptUntil(calls1) && FormKeptUntil(calls2)
    ensures Canonical(Run(calls1).rects) && Canonical(Run(calls2).rects) && SameMeaning(calls1, calls2) ==>
      Run(calls1).rects == Run(calls2).rects &&
      (Valid(Run(calls1)) && Valid(Run(calls2)) ==> Run(calls1).bound == Run(calls2).bound)
  {
    if Canonical(Run(calls1).rects) && Canonical(Run(calls2).rects) && SameMeaning(calls1, calls2) {
      RunRightIff(calls1);
      RunRightIff(calls2);
      forall x, y ensures Covers(Run(calls1).rects, x, y) <==> Covers(Run(calls2).rects, x, y) {
        assert InRegion(Run(calls1), x, y) <==> Means(calls1, x, y);
        assert InRegion(Run(calls2), x, y) <==> Means(calls2, x, y);
      }
      CanonicalUnique(Run(calls1).rects, Run(calls2).rects);
    }
  }

  lemma RunSays(calls: seq<Call>)
    ensures AllAllowed(calls) && FormKeptUntil(calls) && GuardsHold(calls) ==>
      forall x, y :: InRegion(Run(calls), x, y) <==> Means(calls, x, y)
    ensures AllPlain(calls) && FormKeptUntil(calls) ==> GuardsHold(calls) && (Valid(Run(calls)) <==> FormKept(calls))
  {
    if AllAllowed(calls) && FormKeptUntil(calls) { RunRightIff(calls); }
    if AllPlain(calls) && FormKeptUntil(calls) { RunCorrect(calls); }
  }

  /** A whole run, on the object in place: the region holds the points that the run means if the guard of every
      call was met. */
  method PerformAll(rgn: ClipRgn, calls: seq<Call>)
    requires rgn.Value() == EMPTY_REGION
    modifies rgn
    ensures rgn.Value() == Run(calls)
    ensures AllAllowed(calls) && FormKeptUntil(calls) && GuardsHold(calls) ==>
      forall x, y :: InRegion(rgn.Value(), x, y) <==> Means(calls, x, y)
    ensures AllPlain(calls) && FormKeptUntil(calls) ==> GuardsHold(calls) && (Valid(rgn.Value()) <==> FormKept(calls))
  {
    var i := 0;
    while i < |calls|
      invariant 0 <= i <= |calls| && Tidy(rgn.Value()) && rgn.Value() == Run(calls[..i])
    {
      assert calls[..i + 1][..i] == calls[..i];
      Perform(rgn, calls[i]);
      i := i + 1;
    }
    assert calls[..i] == calls;
    RunSays(calls);
  }
}
