/** Regions as lists of bands, and the scan-line sweep REGION_RegionOp of `src/newgdi/region.c`
    up to (not including) the merging of bands, which is in module Coalescing. */
module Bands {
  import opened Basics
  import opened Spans

  /** All rectangles of a region with one top and bottom. */
  datatype Band = Band(top: int, bottom: int, spans: seq<Span>)

  predicate InBand(b: Band, x: int, y: int) {
    b.top <= y < b.bottom && InSpans(b.spans, x)
  }

  predicate InBands(bs: seq<Band>, x: int, y: int) {
    bs != [] && (InBand(bs[0], x, y) || InBands(bs[1..], x, y))
  }

  predicate ValidBand(b: Band) {
    b.top < b.bottom && b.spans != [] && Separated(b.spans)
  }

  /** y-x-banded: valid bands in order, not overlapping vertically. */
  predicate ValidBands(bs: seq<Band>) {
    && (forall i :: 0 <= i < |bs| ==> ValidBand(bs[i]))
    && (forall i :: 0 <= i < |bs| - 1 ==> bs[i].bottom <= bs[i + 1].top)
  }

  /** In order and not overlapping vertically; the rectangles within a band may be anything. */
  predicate Layered(bs: seq<Band>) {
    && (forall i :: 0 <= i < |bs| ==> bs[i].top < bs[i].bottom && bs[i].spans != [])
    && (forall i :: 0 <= i < |bs| - 1 ==> bs[i].bottom <= bs[i + 1].top)
  }

  /** The rectangles on one scanline. */
  function RowSpans(bs: seq<Band>, y: int): seq<Span> {
    if bs == [] then []
    else if bs[0].top <= y < bs[0].bottom then bs[0].spans
    else RowSpans(bs[1..], y)
  }

  /** Every band has rectangles and starts below the start of the one before. The bottoms may be anywhere. */
  predicate Ordered(bs: seq<Band>) {
    && (forall i :: 0 <= i < |bs| ==> bs[i].spans != [])
    && (forall i :: 0 <= i < |bs| - 1 ==> bs[i].top < bs[i + 1].top)
  }

  /** All that REGION_Coalesce relies on in the slabs: they are in order, and none begins and ends on one line. */
  predicate Stacked(bs: seq<Band>) {
    Ordered(bs) && forall i :: 0 <= i < |bs| ==> bs[i].top != bs[i].bottom
  }

  // ---------------------------------------------------------------- the sweep

  /** Whether the operation has a nonOverlapFunc for points of the first region only. */
  predicate Keeps1(op: SetOp) { op != Intersect }

  /** ... and of the second region only. */
  predicate Keeps2(op: SetOp) { op == Union }

  /** The part of the upper band above the other band. */
  function AboveSlab(op: SetOp, a: Band, b: Band, y: int): seq<Band> {
    if a.top < b.top then
      var top, bot := Max(a.top, y), Min(a.bottom, b.top);
      if top != bot && Keeps1(op) then [Band(top, bot, a.spans)] else []
    else if b.top < a.top then
      var top, bot := Max(b.top, y), Min(b.bottom, a.top);
      if top != bot && Keeps2(op) then [Band(top, bot, b.spans)] else []
    else []
  }

  /** The part where the two bands meet. */
  function MeetSlab(op: SetOp, a: Band, b: Band): seq<Band> {
    var ytop, ybot := Max(a.top, b.top), Min(a.bottom, b.bottom);
    if ybot > ytop then
      var spans := Overlap(op, a.spans, b.spans);
      if spans == [] then [] else [Band(ytop, ybot, spans)]
    else []
  }

  /** Skip the head band once the sweep line has reached its bottom. */
  function Advance(bs: seq<Band>, ybot: int): seq<Band>
    requires bs != []
  {
    if bs[0].bottom == ybot then bs[1..] else bs
  }

  /** The bands of the region that is left over, clipped at the sweep line. */
  function ClipTop(bs: seq<Band>, y: int): seq<Band> {
    if bs == [] then []
    else [Band(Max(bs[0].top, y), bs[0].bottom, bs[0].spans)] + ClipTop(bs[1..], y)
  }

  function LeftOver(op: SetOp, as1: seq<Band>, bs: seq<Band>, y: int): seq<Band> {
    if as1 != [] then (if Keeps1(op) then ClipTop(as1, y) else [])
    else if Keeps2(op) then ClipTop(bs, y) else []
  }

  /** Every slab the sweep appends to the new region, top to bottom, with the sweep line at `y`. */
  function Slabs(op: SetOp, as1: seq<Band>, bs: seq<Band>, y: int): seq<Band>
    decreases |as1| + |bs|
  {
    if as1 == [] || bs == [] then LeftOver(op, as1, bs, y)
    else
      var ybot := Min(as1[0].bottom, bs[0].bottom);
      AboveSlab(op, as1[0], bs[0], y) + MeetSlab(op, as1[0], bs[0]) +
      Slabs(op, Advance(as1, ybot), Advance(bs, ybot), ybot)
  }

  /** How many of them the main loop appends; the rest come from the region left over. */
  function MainCount(op: SetOp, as1: seq<Band>, bs: seq<Band>, y: int): (n: nat)
    ensures n <= |Slabs(op, as1, bs, y)|
    decreases |as1| + |bs|
  {
    if as1 == [] || bs == [] then 0
    else
      var ybot := Min(as1[0].bottom, bs[0].bottom);
      |AboveSlab(op, as1[0], bs[0], y)| + |MeetSlab(op, as1[0], bs[0])| +
      MainCount(op, Advance(as1, ybot), Advance(bs, ybot), ybot)
  }

  // ---------------------------------------------------------------- lists of bands

  lemma ValidIff(bs: seq<Band>)
    ensures ValidBands(bs) <==> Layered(bs) && forall i :: 0 <= i < |bs| ==> Separated(bs[i].spans)
  {
    if Layered(bs) && forall i :: 0 <= i < |bs| ==> Separated(bs[i].spans) {
      forall i | 0 <= i < |bs| ensures ValidBand(bs[i]) {
      }
    }
  }

  lemma LayeredIsStacked(bs: seq<Band>)
    requires Layered(bs)
    ensures Stacked(bs)
  {
    forall i | 0 <= i < |bs| - 1 ensures bs[i].top < bs[i + 1].top {
      assert bs[i].bottom <= bs[i + 1].top;
    }
  }

  lemma {:induction false} AboveAll(bs: seq<Band>, x: int, y: int)
    requires Layered(bs)
    requires bs != [] ==> y < bs[0].top
    ensures !InBands(bs, x, y) && RowSpans(bs, y) == []
  {
    if bs == [] {
    } else {
      AboveAll(bs[1..], x, y);
    }
  }

  /** A scanline lies in one band at most. */
  lemma {:induction false} RowIn(bs: seq<Band>, x: int, y: int)
    requires Layered(bs)
    ensures InBands(bs, x, y) <==> InSpans(RowSpans(bs, y), x)
  {
    if bs == [] {
    } else if y < bs[0].bottom {
      AboveAll(bs[1..], x, y);
    } else {
      RowIn(bs[1..], x, y);
    }
  }

  lemma {:induction false} RowOf(bs: seq<Band>, i: nat, y: int)
    requires Layered(bs) && i < |bs| && bs[i].top <= y < bs[i].bottom
    ensures RowSpans(bs, y) == bs[i].spans
  {
    if i == 0 {
    } else {
      assert bs[1..][i - 1] == bs[i];
      RowOf(bs[1..], i - 1, y);
      RowOrder(bs, 0, i);
    }
  }

  lemma {:induction false} RowOrder(bs: seq<Band>, i: nat, j: nat)
    requires Layered(bs) && i < j < |bs|
    ensures bs[i].bottom <= bs[j].top
    decreases j
  {
    if j == i + 1 {
    } else {
      RowOrder(bs, i, j - 1);
    }
  }

  lemma {:induction false} RowBand(bs: seq<Band>, y: int) returns (i: nat)
    requires RowSpans(bs, y) != []
    ensures i < |bs| && bs[i].top <= y < bs[i].bottom && bs[i].spans == RowSpans(bs, y)
  {
    if bs[0].top <= y < bs[0].bottom {
      i := 0;
    } else {
      var j := RowBand(bs[1..], y);
      i := j + 1;
    }
  }

  lemma {:induction false} RowConcat(as1: seq<Band>, bs: seq<Band>, y: int)
    requires Layered(as1)
    ensures RowSpans(as1 + bs, y) == if RowSpans(as1, y) != [] then RowSpans(as1, y) else RowSpans(bs, y)
  {
    if as1 == [] {
      assert as1 + bs == bs;
    } else {
      RowConcat(as1[1..], bs, y);
      assert (as1 + bs)[1..] == as1[1..] + bs;
    }
  }

  lemma RowValid(bs: seq<Band>, y: int)
    requires ValidBands(bs)
    ensures Separated(RowSpans(bs, y))
  {
    if RowSpans(bs, y) != [] {
      var i := RowBand(bs, y);
      assert ValidBand(bs[i]);
    }
  }

  lemma ConsBands(b: Band, bs: seq<Band>)
    requires ValidBand(b) && ValidBands(bs)
    requires bs != [] ==> b.bottom <= bs[0].top
    ensures ValidBands([b] + bs)
  {
  }

  lemma {:induction false} InConcat(as1: seq<Band>, bs: seq<Band>, x: int, y: int)
    ensures InBands(as1 + bs, x, y) <==> InBands(as1, x, y) || InBands(bs, x, y)
  {
    if as1 == [] {
      assert as1 + bs == bs;
    } else {
      InConcat(as1[1..], bs, x, y);
      assert (as1 + bs)[1..] == as1[1..] + bs;
    }
  }

  lemma ConcatValid(as1: seq<Band>, bs: seq<Band>)
    requires ValidBands(as1) && ValidBands(bs)
    requires as1 != [] && bs != [] ==> as1[|as1| - 1].bottom <= bs[0].top
    ensures ValidBands(as1 + bs)
  {
  }

  lemma ConcatLayered(as1: seq<Band>, bs: seq<Band>)
    requires Layered(as1) && Layered(bs)
    requires as1 != [] && bs != [] ==> as1[|as1| - 1].bottom <= bs[0].top
    ensures Layered(as1 + bs)
  {
  }

  lemma ConcatOrdered(as1: seq<Band>, bs: seq<Band>)
    requires Ordered(as1) && Ordered(bs)
    requires as1 != [] && bs != [] ==> as1[|as1| - 1].top < bs[0].top
    ensures Ordered(as1 + bs)
  {
  }

  // ---------------------------------------------------------------- what the sweep computes

  /** The state of the main loop: nothing below the sweep line is consumed, and at most one of the two
      current bands starts above it. */
  ghost predicate Aligned(as1: seq<Band>, bs: seq<Band>, y: int) {
    && Layered(as1) && Layered(bs)
    && (as1 != [] ==> as1[0].bottom > y)
    && (bs != [] ==> bs[0].bottom > y)
    && (as1 != [] && bs != [] ==> as1[0].top >= y || bs[0].top >= y)
  }

  /** The same with valid bands. */
  ghost predicate Ready(as1: seq<Band>, bs: seq<Band>, y: int) {
    ValidBands(as1) && ValidBands(bs) && Aligned(as1, bs, y)
  }

  lemma AdvanceAligned(as1: seq<Band>, bs: seq<Band>, y: int)
    requires Aligned(as1, bs, y) && as1 != [] && bs != []
    ensures var ybot := Min(as1[0].bottom, bs[0].bottom);
      Aligned(Advance(as1, ybot), Advance(bs, ybot), ybot) && ybot > y
  {
  }

  lemma AdvanceReady(as1: seq<Band>, bs: seq<Band>, y: int)
    requires Ready(as1, bs, y) && as1 != [] && bs != []
    ensures var ybot := Min(as1[0].bottom, bs[0].bottom);
      Ready(Advance(as1, ybot), Advance(bs, ybot), ybot) && ybot > y
  {
    AdvanceAligned(as1, bs, y);
  }

  lemma {:induction false} ClipTopLayered(bs: seq<Band>, y: int)
    requires Layered(bs)
    requires bs != [] ==> bs[0].bottom > y
    ensures var r := ClipTop(bs, y); Layered(r) && (r != [] ==> r[0].top >= y && r[0].top == Max(bs[0].top, y))
  {
    if bs == [] {
    } else {
      ClipTopLayered(bs[1..], y);
      ConcatLayered([Band(Max(bs[0].top, y), bs[0].bottom, bs[0].spans)], ClipTop(bs[1..], y));
    }
  }

  lemma {:induction false} ClipTopRow(bs: seq<Band>, y: int, yy: int)
    requires Layered(bs)
    ensures RowSpans(ClipTop(bs, y), yy) == if yy >= y then RowSpans(bs, yy) else []
  {
    if bs == [] {
    } else {
      ClipTopRow(bs[1..], y, yy);
      assert ClipTop(bs, y)[1..] == ClipTop(bs[1..], y);
    }
  }

  lemma AboveLayered(op: SetOp, a: Band, b: Band, y: int)
    requires a.top < a.bottom && a.spans != [] && b.top < b.bottom && b.spans != []
    requires y < a.bottom && y < b.bottom && (a.top >= y || b.top >= y)
    ensures var above := AboveSlab(op, a, b, y);
      |above| <= 1 && Layered(above) && (above != [] ==>
        above[0].top >= y && above[0].bottom <= Max(a.top, b.top) && above[0].bottom <= Min(a.bottom, b.bottom))
  {
  }

  lemma MeetLayered(op: SetOp, a: Band, b: Band)
    ensures var meet := MeetSlab(op, a, b);
      |meet| <= 1 && Layered(meet) && (meet != [] ==>
        meet[0].top == Max(a.top, b.top) && meet[0].bottom == Min(a.bottom, b.bottom))
  {
  }

  lemma StepLayered(op: SetOp, as1: seq<Band>, bs: seq<Band>, y: int)
    requires Aligned(as1, bs, y) && as1 != [] && bs != []
    ensures var step := AboveSlab(op, as1[0], bs[0], y) + MeetSlab(op, as1[0], bs[0]);
      && Layered(step)
      && (step != [] ==> step[0].top >= y && step[|step| - 1].bottom <= Min(as1[0].bottom, bs[0].bottom))
  {
    AboveLayered(op, as1[0], bs[0], y);
    MeetLayered(op, as1[0], bs[0]);
    ConcatLayered(AboveSlab(op, as1[0], bs[0], y), MeetSlab(op, as1[0], bs[0]));
  }

  /** The slabs are in order and below the sweep line. */
  lemma {:induction false} SlabsLayered(op: SetOp, as1: seq<Band>, bs: seq<Band>, y: int)
    requires Aligned(as1, bs, y)
    ensures var r := Slabs(op, as1, bs, y); Layered(r) && (r != [] ==> r[0].top >= y)
    decreases |as1| + |bs|
  {
    if as1 == [] || bs == [] {
      ClipTopLayered(as1, y);
      ClipTopLayered(bs, y);
    } else {
      var ybot := Min(as1[0].bottom, bs[0].bottom);
      AdvanceAligned(as1, bs, y);
      SlabsLayered(op, Advance(as1, ybot), Advance(bs, ybot), ybot);
      StepLayered(op, as1, bs, y);
      ConcatLayered(AboveSlab(op, as1[0], bs[0], y) + MeetSlab(op, as1[0], bs[0]),
                    Slabs(op, Advance(as1, ybot), Advance(bs, ybot), ybot));
    }
  }

  /** What the operation leaves on one scanline: where only one region has rectangles, they are copied or dropped. */
  function OverlapRow(op: SetOp, a: seq<Span>, b: seq<Span>): seq<Span> {
    if a == [] then (if Keeps2(op) then b else [])
    else if b == [] then (if Keeps1(op) then a else [])
    else Overlap(op, a, b)
  }

  lemma RowOne(b: Band, y: int)
    ensures RowSpans([b], y) == if b.top <= y < b.bottom then b.spans else []
  {
  }

  lemma AboveRow(op: SetOp, a: Band, b: Band, y: int, yy: int)
    ensures RowSpans(AboveSlab(op, a, b, y), yy) ==
      if a.top <= yy < a.bottom && yy < b.top && y <= yy && Keeps1(op) then a.spans
      else if b.top <= yy < b.bottom && yy < a.top && y <= yy && Keeps2(op) then b.spans
      else []
  {
    if a.top < b.top {
      RowOne(Band(Max(a.top, y), Min(a.bottom, b.top), a.spans), yy);
    } else if b.top < a.top {
      RowOne(Band(Max(b.top, y), Min(b.bottom, a.top), b.spans), yy);
    }
  }

  lemma MeetRow(op: SetOp, a: Band, b: Band, yy: int)
    ensures RowSpans(MeetSlab(op, a, b), yy) ==
      if a.top <= yy < a.bottom && b.top <= yy < b.bottom then Overlap(op, a.spans, b.spans) else []
  {
    RowOne(Band(Max(a.top, b.top), Min(a.bottom, b.bottom), Overlap(op, a.spans, b.spans)), yy);
  }

  lemma HeadRow(bs: seq<Band>, yy: int)
    requires Layered(bs) && bs != [] && yy < bs[0].bottom
    ensures RowSpans(bs, yy) == if bs[0].top <= yy then bs[0].spans else []
  {
    AboveAll(bs[1..], 0, yy);
  }

  /** One turn of the main loop settles every scanline from the sweep line to its next position. */
  lemma StepRow(op: SetOp, as1: seq<Band>, bs: seq<Band>, y: int, yy: int)
    requires Aligned(as1, bs, y) && as1 != [] && bs != []
    ensures RowSpans(AboveSlab(op, as1[0], bs[0], y) + MeetSlab(op, as1[0], bs[0]), yy) ==
      if y <= yy < Min(as1[0].bottom, bs[0].bottom) then OverlapRow(op, RowSpans(as1, yy), RowSpans(bs, yy)) else []
  {
    AboveRow(op, as1[0], bs[0], y, yy);
    MeetRow(op, as1[0], bs[0], yy);
    assert Layered(AboveSlab(op, as1[0], bs[0], y));
    RowConcat(AboveSlab(op, as1[0], bs[0], y), MeetSlab(op, as1[0], bs[0]), yy);
    if yy < Min(as1[0].bottom, bs[0].bottom) {
      HeadRow(as1, yy);
      HeadRow(bs, yy);
    }
  }

  lemma AdvanceRow(bs: seq<Band>, ybot: int, yy: int)
    requires bs != [] && ybot <= yy && bs[0].bottom >= ybot
    ensures RowSpans(Advance(bs, ybot), yy) == RowSpans(bs, yy)
  {
  }

  /** On every scanline from the sweep line on, the slabs hold what the operation leaves of the two regions there. */
  lemma {:induction false} SlabsRow(op: SetOp, as1: seq<Band>, bs: seq<Band>, y: int, yy: int)
    requires Aligned(as1, bs, y)
    ensures RowSpans(Slabs(op, as1, bs, y), yy) ==
      if yy >= y then OverlapRow(op, RowSpans(as1, yy), RowSpans(bs, yy)) else []
    decreases |as1| + |bs|
  {
    if as1 == [] || bs == [] {
      ClipTopRow(as1, y, yy);
      ClipTopRow(bs, y, yy);
    } else {
      var ybot := Min(as1[0].bottom, bs[0].bottom);
      AdvanceAligned(as1, bs, y);
      SlabsRow(op, Advance(as1, ybot), Advance(bs, ybot), ybot, yy);
      StepRow(op, as1, bs, y, yy);
      StepLayered(op, as1, bs, y);
      RowConcat(AboveSlab(op, as1[0], bs[0], y) + MeetSlab(op, as1[0], bs[0]),
                Slabs(op, Advance(as1, ybot), Advance(bs, ybot), ybot), yy);
      if yy >= ybot {
        AdvanceRow(as1, ybot, yy);
        AdvanceRow(bs, ybot, yy);
      }
    }
  }

  lemma OverlapRowSeparated(op: SetOp, a: seq<Span>, b: seq<Span>)
    requires Separated(a) && Separated(b)
    ensures Separated(OverlapRow(op, a, b))
  {
    if a != [] && b != [] { OverlapSeparated(op, a, b); }
  }

  /** From valid bands, the slabs are valid bands. */
  lemma SlabsValid(op: SetOp, as1: seq<Band>, bs: seq<Band>, y: int)
    requires Ready(as1, bs, y)
    ensures var r := Slabs(op, as1, bs, y); ValidBands(r) && (r != [] ==> r[0].top >= y)
  {
    var r := Slabs(op, as1, bs, y);
    SlabsLayered(op, as1, bs, y);
    forall i | 0 <= i < |r| ensures Separated(r[i].spans) {
      var yy := r[i].top;
      RowOf(r, i, yy);
      SlabsRow(op, as1, bs, y, yy);
      RowValid(as1, yy);
      RowValid(bs, yy);
      OverlapRowSeparated(op, RowSpans(as1, yy), RowSpans(bs, yy));
    }
    ValidIff(r);
  }

  lemma OverlapRowIn(op: SetOp, a: seq<Span>, b: seq<Span>, x: int)
    requires Separated(a) && Separated(b)
    ensures InSpans(OverlapRow(op, a, b), x) <==> Holds(op, InSpans(a, x), InSpans(b, x))
  {
    if a != [] && b != [] { OverlapIn(op, a, b, x); }
  }

  /** The slabs cover exactly the points of the set operation at and below the sweep line. */
  lemma SlabsIn(op: SetOp, as1: seq<Band>, bs: seq<Band>, y: int, x: int, yy: int)
    requires Ready(as1, bs, y)
    ensures InBands(Slabs(op, as1, bs, y), x, yy) <==>
      yy >= y && Holds(op, InBands(as1, x, yy), InBands(bs, x, yy))
  {
    SlabsLayered(op, as1, bs, y);
    RowIn(Slabs(op, as1, bs, y), x, yy);
    RowIn(as1, x, yy);
    RowIn(bs, x, yy);
    SlabsRow(op, as1, bs, y, yy);
    RowValid(as1, yy);
    RowValid(bs, yy);
    OverlapRowIn(op, RowSpans(as1, yy), RowSpans(bs, yy), x);
  }
}
