/** REGION_RegionOp of `src/newgdi/region.c` as a function of the bands of its sources and the line it starts
    from, for any lists and any start; and what it amounts to when every slab starts below the one before. */
module Sweep {
  import opened Basics
  import opened Spans
  import opened Bands
  import opened Rects
  import opened Coalescing
  import opened RegionRep
  import opened Pointers

  /** The list under construction and `prevBand`. */
  datatype Output = Output(rects: seq<Rect>, prev: int)

  const NO_OUTPUT := Output([], -1)

  /** `prevBand` is NULL or a node up to the tail. */
  predicate Reaches(o: Output) {
    -1 <= o.prev && PrevIndex(o.prev) <= TailIndex(o.rects)
  }

  lemma CoalesceRange(rs: seq<Rect>, prev: nat, cur: nat)
    requires prev <= cur < |rs|
    ensures var r := CoalesceAt(rs, prev, cur); 0 <= r.1 < |r.0|
  {
  }

  /** The list has become `rs`: a call of REGION_Coalesce if it grew, none otherwise. */
  function Added(o: Output, rs: seq<Rect>): (r: Output)
    requires Reaches(o) && |o.rects| <= |rs|
    ensures Reaches(r)
  {
    if |rs| == |o.rects| then Output(rs, o.prev)
    else
      CoalesceRange(rs, PrevIndex(o.prev), TailIndex(o.rects));
      var list := CoalesceAt(rs, PrevIndex(o.prev), TailIndex(o.rects));
      Output(list.0, list.1)
  }

  /** MERGERECT: stretch the tail if it is in the band and reached, or append. */
  function Merged(rs: seq<Rect>, s: Span, top: int, bottom: int): (r: seq<Rect>)
    ensures |rs| <= |r|
  {
    var n := |rs| - 1;
    if n >= 0 && rs[n].top == top && rs[n].bottom == bottom && rs[n].right >= s.left then
      rs[n := rs[n].(right := Max(rs[n].right, s.right))]
    else rs + [Rect(s.left, top, s.right, bottom)]
  }

  /** REGION_UnionO on any list. */
  function UnionInto(rs: seq<Rect>, a: seq<Span>, b: seq<Span>, top: int, bottom: int): (r: seq<Rect>)
    ensures |rs| <= |r|
    decreases |a| + |b|
  {
    if a == [] && b == [] then rs
    else if b == [] || (a != [] && a[0].left < b[0].left) then
      UnionInto(Merged(rs, a[0], top, bottom), a[1..], b, top, bottom)
    else UnionInto(Merged(rs, b[0], top, bottom), a, b[1..], top, bottom)
  }

  /** The overlapFunc of each operation on any list. */
  function OverlapInto(op: SetOp, rs: seq<Rect>, a: seq<Span>, b: seq<Span>, top: int, bottom: int): (r: seq<Rect>)
    ensures |rs| <= |r|
  {
    if op == Union then UnionInto(rs, a, b, top, bottom) else rs + BandRects(Band(top, bottom, Overlap(op, a, b)))
  }

  function MeetInto(op: SetOp, rs: seq<Rect>, a: Band, b: Band): (r: seq<Rect>)
    ensures |rs| <= |r|
  {
    var ytop, ybot := Max(a.top, b.top), Min(a.bottom, b.bottom);
    if ybot > ytop then OverlapInto(op, rs, a.spans, b.spans, ytop, ybot) else rs
  }

  /** One turn of the main loop. */
  function Turn(op: SetOp, a: Band, b: Band, y: int, o: Output): (r: Output)
    requires Reaches(o)
    ensures Reaches(r)
  {
    var above := Added(o, o.rects + Flatten(AboveSlab(op, a, b, y)));
    Added(above, MeetInto(op, above.rects, a, b))
  }

  /** The rest of REGION_RegionOp from the current bands on, with the sweep line at `y`. */
  function SweepFrom(op: SetOp, as1: seq<Band>, bs: seq<Band>, y: int, o: Output): seq<Rect>
    requires Reaches(o)
    decreases |as1| + |bs|
  {
    if as1 == [] || bs == [] then Added(o, o.rects + Flatten(LeftOver(op, as1, bs, y))).rects
    else
      var ybot := Min(as1[0].bottom, bs[0].bottom);
      SweepFrom(op, Advance(as1, ybot), Advance(bs, ybot), ybot, Turn(op, as1[0], bs[0], y, o))
  }

  // ---------------------------------------------------------------- REGION_UnionO into a new band

  lemma BandRectsSnoc(top: int, bottom: int, out: seq<Span>, s: Span)
    ensures BandRects(Band(top, bottom, out + [s])) ==
      BandRects(Band(top, bottom, out)) + [Rect(s.left, top, s.right, bottom)]
  {
  }

  /** MERGERECT on a list whose tail is `last`. */
  lemma MergedTail(pre: seq<Rect>, top: int, bottom: int, out: seq<Span>, last: Span, s: Span)
    ensures var tail := Rect(last.left, top, last.right, bottom);
      Merged(pre + BandRects(Band(top, bottom, out)) + [tail], s, top, bottom) ==
        if last.right >= s.left then
          pre + BandRects(Band(top, bottom, out)) + [Rect(last.left, top, Max(last.right, s.right), bottom)]
        else pre + BandRects(Band(top, bottom, out + [last])) + [Rect(s.left, top, s.right, bottom)]
  {
    BandRectsSnoc(top, bottom, out, last);
    var tail := Rect(last.left, top, last.right, bottom);
    var rs := pre + BandRects(Band(top, bottom, out)) + [tail];
    assert rs[|rs| - 1] == tail;
    assert rs[..|rs| - 1] == pre + BandRects(Band(top, bottom, out));
  }

  lemma Regroup(out: seq<Span>, s: Span, rest: seq<Span>)
    ensures out + ([s] + rest) == out + [s] + rest
  {
  }

  /** Once the band has a tail, REGION_UnionO completes it. */
  lemma {:induction false} UnionIntoTail(pre: seq<Rect>, out: seq<Span>, last: Span, a: seq<Span>, b: seq<Span>,
                                         top: int, bottom: int)
    ensures UnionInto(pre + BandRects(Band(top, bottom, out)) + [Rect(last.left, top, last.right, bottom)],
                      a, b, top, bottom) ==
      pre + BandRects(Band(top, bottom, out + UnionFrom(last, a, b)))
    decreases |a| + |b|
  {
    if a == [] && b == [] {
      BandRectsSnoc(top, bottom, out, last);
      assert pre + BandRects(Band(top, bottom, out)) + [Rect(last.left, top, last.right, bottom)] ==
        pre + BandRects(Band(top, bottom, out + [last]));
    } else {
      var first := b == [] || (a != [] && a[0].left < b[0].left);
      var s, a', b' := if first then a[0] else b[0], if first then a[1..] else a, if first then b else b[1..];
      UnionIntoStep(pre, out, last, s, a', b', top, bottom);
      assert UnionFrom(last, a, b) == MergeSpan(last, s, a', b');
    }
  }

  lemma {:induction false} UnionIntoStep(pre: seq<Rect>, out: seq<Span>, last: Span, s: Span,
                                         a: seq<Span>, b: seq<Span>, top: int, bottom: int)
    ensures var rs := pre + BandRects(Band(top, bottom, out)) + [Rect(last.left, top, last.right, bottom)];
      UnionInto(Merged(rs, s, top, bottom), a, b, top, bottom) ==
        pre + BandRects(Band(top, bottom, out + MergeSpan(last, s, a, b)))
    decreases |a| + |b| + 1, 0
  {
    MergedTail(pre, top, bottom, out, last, s);
    if last.right >= s.left {
      UnionIntoTail(pre, out, Span(last.left, Max(last.right, s.right)), a, b, top, bottom);
    } else {
      UnionIntoTail(pre, out + [last], s, a, b, top, bottom);
      Regroup(out, last, UnionFrom(s, a, b));
    }
  }

  /** Whether MERGERECT would take the tail of the list for a rectangle of the band. */
  predicate TailInBand(rs: seq<Rect>, top: int, bottom: int) {
    rs != [] && rs[|rs| - 1].top == top && rs[|rs| - 1].bottom == bottom
  }

  /** Onto a list whose tail is in another band, REGION_UnionO appends the union. */
  lemma UnionIntoIs(rs: seq<Rect>, a: seq<Span>, b: seq<Span>, top: int, bottom: int)
    requires !TailInBand(rs, top, bottom)
    ensures UnionInto(rs, a, b, top, bottom) == rs + BandRects(Band(top, bottom, UnionSpans(a, b)))
  {
    assert BandRects(Band(top, bottom, [])) == [];
    if a != [] || b != [] {
      var first := b == [] || (a != [] && a[0].left < b[0].left);
      var s, a', b' := if first then a[0] else b[0], if first then a[1..] else a, if first then b else b[1..];
      assert Merged(rs, s, top, bottom) == rs + [] + [Rect(s.left, top, s.right, bottom)];
      UnionIntoTail(rs, [], s, a', b', top, bottom);
      assert [] + UnionFrom(s, a', b') == UnionFrom(s, a', b');
    }
  }

  lemma {:induction false} UnionFromNotEmpty(last: Span, a: seq<Span>, b: seq<Span>)
    ensures UnionFrom(last, a, b) != []
    decreases |a| + |b|
  {
    if a == [] && b == [] {
    } else {
      var first := b == [] || (a != [] && a[0].left < b[0].left);
      var s, a', b' := if first then a[0] else b[0], if first then a[1..] else a, if first then b else b[1..];
      assert UnionFrom(last, a, b) == MergeSpan(last, s, a', b');
      UnionFromNotEmpty(Span(last.left, Max(last.right, s.right)), a', b');
    }
  }

  lemma UnionNotEmpty(a: seq<Span>, b: seq<Span>)
    ensures UnionSpans(a, b) == [] <==> a == [] && b == []
  {
    if b != [] { UnionFromNotEmpty(b[0], a, b[1..]); }
    if a != [] { UnionFromNotEmpty(a[0], a[1..], b); }
  }

  lemma NothingMet(op: SetOp, rs: seq<Rect>, a: seq<Span>, b: seq<Span>, top: int, bottom: int)
    requires Overlap(op, a, b) == []
    ensures OverlapInto(op, rs, a, b, top, bottom) == rs
  {
    assert rs + BandRects(Band(top, bottom, [])) == rs;
    if op == Union { UnionNotEmpty(a, b); }
  }

  /** The overlap function appends the slab where the bands meet, onto a list whose tail is in another band. */
  lemma MeetIntoIs(op: SetOp, rs: seq<Rect>, a: Band, b: Band)
    requires MeetSlab(op, a, b) != [] ==> !TailInBand(rs, Max(a.top, b.top), Min(a.bottom, b.bottom))
    ensures MeetInto(op, rs, a, b) == rs + Flatten(MeetSlab(op, a, b))
  {
    var ytop, ybot := Max(a.top, b.top), Min(a.bottom, b.bottom);
    if MeetSlab(op, a, b) == [] {
      if ybot > ytop { NothingMet(op, rs, a.spans, b.spans, ytop, ybot); }
      assert rs + Flatten([]) == rs;
    } else {
      if op == Union { UnionIntoIs(rs, a.spans, b.spans, ytop, ybot); }
      FlattenOne(Band(ytop, ybot, Overlap(op, a.spans, b.spans)));
    }
  }

  // ---------------------------------------------------------------- the output of the sweep

  /** The bands of the output: those that no later call changes, and those that may still be compared. */
  datatype Settling = Settling(done: seq<Band>, pend: seq<Band>)

  /** The bands after at most one more slab was appended and coalesced. */
  function After(s: Settling, news: seq<Band>): Settling {
    if news == [] then s else Settling(NextDone(s.done, s.pend), NextPend(s.pend, news[0]))
  }

  /** The bands after all of `slabs`, one by one. */
  function Folded(slabs: seq<Band>): Settling
    decreases |slabs|
  {
    if slabs == [] then Settling([], [])
    else After(Folded(slabs[..|slabs| - 1]), [slabs[|slabs| - 1]])
  }

  lemma FoldedAppend(slabs: seq<Band>, news: seq<Band>)
    requires |news| <= 1
    ensures Folded(slabs + news) == After(Folded(slabs), news)
  {
    if news == [] {
      assert slabs + news == slabs;
    } else {
      assert news == [news[0]];
      assert (slabs + news)[..|slabs|] == slabs;
    }
  }

  /** At most two bands are pending, and of two the first is a single rectangle. */
  predicate FewPending(pend: seq<Band>) {
    |pend| <= 2 && (pend != [] ==> |pend[0].spans| >= 1) && (|pend| == 2 ==> |pend[0].spans| == 1)
  }

  lemma NoneSettled(slabs: seq<Band>)
    ensures slabs[..0] == [] && Settled(slabs, 0, [], [])
  {
    assert [] + slabs[0..] == slabs && [] + MergePairs(slabs) == MergePairs(slabs);
  }

  lemma FoldedNext(slabs: seq<Band>, n: nat, t: Settling) returns (s: Settling)
    requires 0 < n <= |slabs| && t == Folded(slabs[..n - 1])
    ensures s == Folded(slabs[..n]) && s == After(t, [slabs[n - 1]])
  {
    assert slabs[..n] == slabs[..n - 1] + [slabs[n - 1]];
    FoldedAppend(slabs[..n - 1], [slabs[n - 1]]);
    s := After(t, [slabs[n - 1]]);
  }

  lemma FewNext(s: Settling, slab: Band)
    requires slab.spans != [] && FewPending(s.pend)
    ensures FewPending(After(s, [slab]).pend)
  {
  }

  lemma AfterSettled(slabs: seq<Band>, n: nat, t: Settling, s: Settling)
    requires Stacked(slabs) && 0 < n <= |slabs| && s == After(t, [slabs[n - 1]])
    requires FewPending(t.pend) && Settled(slabs, n - 1, t.done, t.pend)
    ensures FewPending(s.pend) && Settled(slabs, n, s.done, s.pend)
  {
    NextSettled(slabs, n - 1, t.done, t.pend);
    FewNext(t, slabs[n - 1]);
  }

  lemma {:induction false} FoldedSettled(slabs: seq<Band>, n: nat) returns (s: Settling)
    requires Stacked(slabs) && n <= |slabs|
    ensures s == Folded(slabs[..n]) && FewPending(s.pend) && Settled(slabs, n, s.done, s.pend)
    decreases n
  {
    if n == 0 {
      s := Settling([], []);
      NoneSettled(slabs);
    } else {
      var t := FoldedSettled(slabs, n - 1);
      s := FoldedNext(slabs, n, t);
      AfterSettled(slabs, n, t, s);
    }
  }

  lemma PairsOfPending(pend: seq<Band>)
    requires |pend| <= 2 && (|pend| == 2 ==> |pend[0].spans| == 1)
    ensures MergePairs(pend) == pend
  {
  }

  /** One slab after the other amounts to MergePairs. */
  lemma FoldedPairs(slabs: seq<Band>)
    requires Stacked(slabs)
    ensures MergePairs(slabs) == Folded(slabs).done + Folded(slabs).pend
  {
    var s := FoldedSettled(slabs, |slabs|);
    assert slabs[..|slabs|] == slabs;
    assert s.pend + slabs[|slabs|..] == s.pend;
    PairsOfPending(s.pend);
  }

  /** The last of them is the slab appended last. */
  lemma FoldedLast(slabs: seq<Band>, n: nat)
    requires n <= |slabs|
    ensures var s := Folded(slabs[..n]);
      if n == 0 then s == Settling([], []) else s.pend != [] && s.pend[|s.pend| - 1] == slabs[n - 1]
  {
    if n > 0 { assert slabs[..n] == slabs[..n - 1] + [slabs[n - 1]]; }
  }

  /** The bands so far start above a band with the given top. */
  ghost predicate StartAbove(pend: seq<Band>, top: int) {
    pend != [] ==> pend[|pend| - 1].top < top
  }

  /** The output consists of the bands `s`. */
  ghost predicate AtOutput(o: Output, s: Settling) {
    Pending(o.rects, s.done, s.pend, o.prev)
  }

  lemma TailTop(rs: seq<Rect>, done: seq<Band>, pend: seq<Band>, prevBand: int, top: int)
    requires Pending(rs, done, pend, prevBand) && StartAbove(pend, top) && rs != []
    ensures rs[|rs| - 1].top < top
  {
    var all := done + pend;
    assert Flatten([]) == [];
    LastRectTop(all);
    assert all[|all| - 1] == pend[|pend| - 1];
  }

  lemma AddSlabs(done: seq<Band>, pend: seq<Band>, news: seq<Band>)
    requires Ordered(done + pend) && Ordered(news) && news != [] && StartAbove(pend, news[0].top)
    requires pend == [] ==> done == []
    ensures Ordered(done + pend + news)
  {
    if pend != [] {
      assert (done + pend)[|done + pend| - 1] == pend[|pend| - 1];
    }
    ConcatOrdered(done + pend, news);
  }

  lemma NewsSize(news: seq<Band>)
    requires |news| <= 1 && (|news| == 1 ==> news[0].spans != [])
    ensures Flatten(news) == [] <==> news == []
    ensures news != [] ==> news == [news[0]]
  {
    if news != [] { FlattenCons(news[0], []); }
  }

  lemma AddedOne(rs0: seq<Rect>, prevBand: int, slab: Band, done: seq<Band>, pend: seq<Band>)
    requires Pending(rs0, done, pend, prevBand) && slab.spans != [] && slab.top != slab.bottom
    requires StartAbove(pend, slab.top)
    ensures Flatten([slab]) != [] && -1 <= prevBand
    ensures 0 <= PrevIndex(prevBand) <= TailIndex(rs0) < |rs0 + Flatten([slab])|
    ensures var (rs', start) := CoalesceAt(rs0 + Flatten([slab]), PrevIndex(prevBand), TailIndex(rs0));
      Pending(rs', NextDone(done, pend), NextPend(pend, slab), start)
  {
    FlattenOne(slab);
    AddSlabs(done, pend, [slab]);
    CallStep(rs0, done, pend, prevBand, [slab]);
    CallPending(CoalesceAt(rs0 + Flatten([slab]), PrevIndex(prevBand), TailIndex(rs0)), done, pend, slab);
  }

  lemma PendingReaches(o: Output, done: seq<Band>, pend: seq<Band>)
    requires Pending(o.rects, done, pend, o.prev)
    ensures Reaches(o)
  {
    if pend != [] {
      OrderedPart(done, pend);
      FlattenConcat(done, pend);
      LastRectTop(pend);
    }
  }

  /** Half a turn: at most one slab is appended and coalesced. */
  lemma HalfTurn(o: Output, s: Settling, news: seq<Band>) returns (o': Output)
    requires AtOutput(o, s) && |news| <= 1
    requires news != [] ==> Stacked([news[0]]) && StartAbove(s.pend, news[0].top)
    ensures Reaches(o) && o' == Added(o, o.rects + Flatten(news)) && AtOutput(o', After(s, news))
  {
    PendingReaches(o, s.done, s.pend);
    o' := Added(o, o.rects + Flatten(news));
    if news == [] {
      assert o.rects + Flatten([]) == o.rects;
    } else {
      assert [news[0]][0].spans != [] && [news[0]][0].top != [news[0]][0].bottom;
      NewsSize(news);
      AddedOne(o.rects, o.prev, news[0], s.done, s.pend);
    }
  }

  /** The second half settles the slab where the bands meet. */
  lemma MeetSettles(op: SetOp, a: Band, b: Band, o: Output, s: Settling, meet: seq<Band>) returns (o': Output)
    requires meet == MeetSlab(op, a, b) && AtOutput(o, s) && (meet != [] ==> StartAbove(s.pend, meet[0].top))
    ensures Reaches(o) && o' == Added(o, MeetInto(op, o.rects, a, b)) && AtOutput(o', After(s, meet))
  {
    if o.rects != [] && meet != [] { TailTop(o.rects, s.done, s.pend, o.prev, meet[0].top); }
    MeetIntoIs(op, o.rects, a, b);
    o' := HalfTurn(o, s, meet);
  }

  lemma StartAfter(s: Settling, news: seq<Band>, top: int)
    requires |news| <= 1 && StartAbove(s.pend, top) && (news != [] ==> news[0].top < top)
    ensures StartAbove(After(s, news).pend, top)
  {
  }

  /** One turn settles its slabs, provided that each starts below the band before. */
  lemma TurnSettles(op: SetOp, a: Band, b: Band, y: int, o: Output, s: Settling) returns (o': Output)
    requires AtOutput(o, s) && Stacked(AboveSlab(op, a, b, y) + MeetSlab(op, a, b))
    requires forall t :: t in AboveSlab(op, a, b, y) + MeetSlab(op, a, b) ==> StartAbove(s.pend, t.top)
    ensures Reaches(o) && o' == Turn(op, a, b, y, o)
    ensures AtOutput(o', After(After(s, AboveSlab(op, a, b, y)), MeetSlab(op, a, b)))
  {
    var above: seq<Band>, meet: seq<Band> := AboveSlab(op, a, b, y), MeetSlab(op, a, b);
    OrderedPart(above, meet);
    if above != [] { assert above[0] in above + meet; }
    if meet != [] {
      assert meet[0] in above + meet;
      StartAfter(s, above, meet[0].top);
    }
    var o1 := HalfTurn(o, s, above);
    o' := MeetSettles(op, a, b, o1, After(s, above), meet);
  }

  // ---------------------------------------------------------------- the whole sweep

  /** Where the main loop is in its input: the slabs still to come. */
  ghost predicate AtInput(op: SetOp, as1: seq<Band>, bs: seq<Band>, y: int, slabs: seq<Band>, main: nat, n: nat) {
    && n <= main <= |slabs|
    && slabs[n..] == Slabs(op, as1, bs, y) && main - n == MainCount(op, as1, bs, y)
  }

  lemma SplitSlabs(slabs: seq<Band>, main: nat, n: nat, above: seq<Band>, meet: seq<Band>, rest: seq<Band>, count: nat)
    returns (n2: nat)
    requires n <= main <= |slabs| && slabs[n..] == above + meet + rest && main - n == |above| + |meet| + count
    requires |above| <= 1 && |meet| <= 1
    ensures n <= n2 <= main && slabs[n..n2] == above + meet && slabs[n2..] == rest && main - n2 == count
    ensures Folded(slabs[..n2]) == After(After(Folded(slabs[..n]), above), meet)
  {
    n2 := SliceSlabs(slabs, n, above + meet, rest);
    assert slabs[..n] + (above + meet) == slabs[..n] + above + meet;
    FoldedTwo(slabs[..n], above, meet, slabs[..n] + above, slabs[..n2]);
  }

  /** The slabs of a turn come next. */
  lemma InputStep(op: SetOp, as1: seq<Band>, bs: seq<Band>, y: int, slabs: seq<Band>, main: nat, n: nat)
    returns (n2: nat)
    requires AtInput(op, as1, bs, y, slabs, main, n) && as1 != [] && bs != []
    ensures n <= n2 <= main && slabs[n..n2] == AboveSlab(op, as1[0], bs[0], y) + MeetSlab(op, as1[0], bs[0])
    ensures Folded(slabs[..n2]) ==
      After(After(Folded(slabs[..n]), AboveSlab(op, as1[0], bs[0], y)), MeetSlab(op, as1[0], bs[0]))
    ensures var ybot := Min(as1[0].bottom, bs[0].bottom);
      AtInput(op, Advance(as1, ybot), Advance(bs, ybot), ybot, slabs, main, n2)
  {
    var ybot := Min(as1[0].bottom, bs[0].bottom);
    n2 := SplitSlabs(slabs, main, n, AboveSlab(op, as1[0], bs[0], y), MeetSlab(op, as1[0], bs[0]),
                     Slabs(op, Advance(as1, ybot), Advance(bs, ybot), ybot),
                     MainCount(op, Advance(as1, ybot), Advance(bs, ybot), ybot));
  }

  lemma FoldedNews(pre: seq<Band>, news: seq<Band>, all: seq<Band>)
    requires |news| <= 1 && all == pre + news
    ensures Folded(all) == After(Folded(pre), news)
  {
    FoldedAppend(pre, news);
  }

  lemma FoldedTwo(pre: seq<Band>, above: seq<Band>, meet: seq<Band>, mid: seq<Band>, all: seq<Band>)
    requires |above| <= 1 && |meet| <= 1 && mid == pre + above && all == mid + meet
    ensures Folded(all) == After(After(Folded(pre), above), meet)
  {
    FoldedNews(pre, above, mid);
    FoldedNews(mid, meet, all);
  }

  lemma SliceSlabs(slabs: seq<Band>, n: nat, news: seq<Band>, rest: seq<Band>) returns (n2: nat)
    requires n <= |slabs| && slabs[n..] == news + rest
    ensures n2 == n + |news| <= |slabs| && slabs[n..n2] == news && slabs[n2..] == rest
    ensures slabs[..n2] == slabs[..n] + news
  {
    n2 := n + |news|;
    var tail := slabs[n..];
    assert tail[..|news|] == news && tail[|news|..] == rest;
  }

  /** The slabs from `n` on start below those before. */
  lemma NextStartsBelow(slabs: seq<Band>, n: nat, i: nat)
    requires Stacked(slabs) && n <= i < |slabs|
    ensures StartAbove(Folded(slabs[..n]).pend, slabs[i].top)
  {
    FoldedLast(slabs, n);
    if n > 0 { TopsIncrease(slabs, n - 1, i); }
  }

  lemma {:induction false} TopsIncrease(slabs: seq<Band>, i: nat, j: nat)
    requires Stacked(slabs) && i < j < |slabs|
    ensures slabs[i].top < slabs[j].top
    decreases j
  {
    if j == i + 1 {
    } else {
      TopsIncrease(slabs, i, j - 1);
    }
  }

  lemma StackedRange(slabs: seq<Band>, i: nat, j: nat)
    requires Stacked(slabs) && i <= j <= |slabs|
    ensures Stacked(slabs[i..j])
  {
    var r := slabs[i..j];
    forall k | 0 <= k < |r| ensures r[k].spans != [] && (k < |r| - 1 ==> r[k].top < r[k + 1].top) {
      assert r[k] == slabs[i + k] && (k < |r| - 1 ==> r[k + 1] == slabs[i + k + 1]);
    }
  }

  /** The slabs left over and the last call of REGION_Coalesce complete the list. */
  lemma LastCall(slabs: seq<Band>, main: nat, o: Output)
    requires main <= |slabs| && Stacked(slabs) && AtOutput(o, Folded(slabs[..main]))
    ensures Reaches(o)
    ensures var k := Paired(slabs, main);
      Added(o, o.rects + Flatten(slabs[main..])).rects == Flatten(MergePairs(slabs[..k]) + slabs[k..])
  {
    var s := Folded(slabs[..main]);
    PendingReaches(o, s.done, s.pend);
    if main == |slabs| {
      assert slabs[..main] == slabs && slabs[main..] == [];
      FoldedPairs(slabs);
      assert o.rects + [] == o.rects && MergePairs(slabs) + [] == MergePairs(slabs);
    } else {
      SomeLeft(slabs, main, o, s);
    }
  }

  lemma SomeLeft(slabs: seq<Band>, main: nat, o: Output, s: Settling)
    requires main < |slabs| && Stacked(slabs) && Reaches(o) && s == Folded(slabs[..main]) && AtOutput(o, s)
    ensures Added(o, o.rects + Flatten(slabs[main..])).rects ==
      Flatten(MergePairs(slabs[..main + 1]) + slabs[main + 1..])
  {
    var news := slabs[main..];
    StackedRange(slabs, main, |slabs|);
    assert slabs[main..|slabs|] == news;
    NextStartsBelow(slabs, main, main);
    AddSlabs(s.done, s.pend, news);
    LastRectTop(news);
    CallStep(o.rects, s.done, s.pend, o.prev, news);
    AddedCall(o, Flatten(news));
    PairsWithNext(slabs, main, s);
    assert news[1..] == slabs[main + 1..];
  }

  lemma PairsWithNext(slabs: seq<Band>, main: nat, s: Settling)
    requires main < |slabs| && Stacked(slabs) && s == Folded(slabs[..main])
    ensures MergePairs(slabs[..main + 1]) == NextDone(s.done, s.pend) + NextPend(s.pend, slabs[main])
  {
    assert slabs[..main + 1] == slabs[..main] + [slabs[main]];
    FoldedAppend(slabs[..main], [slabs[main]]);
    StackedRange(slabs, 0, main + 1);
    FoldedPairs(slabs[..main + 1]);
  }

  lemma AddedCall(o: Output, news: seq<Rect>)
    requires Reaches(o) && news != []
    ensures Added(o, o.rects + news).rects == CoalesceAt(o.rects + news, PrevIndex(o.prev), TailIndex(o.rects)).0
  {
  }

  /** One turn on the way through the slabs. */
  lemma TurnStep(op: SetOp, a: Band, b: Band, y: int, slabs: seq<Band>, n: nat, n2: nat, o: Output)
    returns (o': Output)
    requires Stacked(slabs) && n <= n2 <= |slabs| && AtOutput(o, Folded(slabs[..n]))
    requires slabs[n..n2] == AboveSlab(op, a, b, y) + MeetSlab(op, a, b)
    requires Folded(slabs[..n2]) == After(After(Folded(slabs[..n]), AboveSlab(op, a, b, y)), MeetSlab(op, a, b))
    ensures Reaches(o) && o' == Turn(op, a, b, y, o) && AtOutput(o', Folded(slabs[..n2]))
  {
    StackedRange(slabs, n, n2);
    forall t | t in slabs[n..n2] ensures StartAbove(Folded(slabs[..n]).pend, t.top) {
      var i :| n <= i < n2 && slabs[i] == t;
      NextStartsBelow(slabs, n, i);
    }
    o' := TurnSettles(op, a, b, y, o, Folded(slabs[..n]));
  }

  /** The state after the main loop, from any state of it. */
  lemma {:induction false} SweepMain(op: SetOp, as1: seq<Band>, bs: seq<Band>, y: int, slabs: seq<Band>, main: nat,
                                     n: nat, o: Output) returns (last: Output)
    requires AtInput(op, as1, bs, y, slabs, main, n) && Stacked(slabs[..main]) && AtOutput(o, Folded(slabs[..n]))
    ensures Reaches(o) && Reaches(last) && AtOutput(last, Folded(slabs[..main]))
    ensures SweepFrom(op, as1, bs, y, o) == Added(last, last.rects + Flatten(slabs[main..])).rects
    decreases |as1| + |bs|
  {
    PendingReaches(o, Folded(slabs[..n]).done, Folded(slabs[..n]).pend);
    if as1 == [] || bs == [] {
      assert n == main && slabs[main..] == LeftOver(op, as1, bs, y);
      last := o;
    } else {
      var ybot := Min(as1[0].bottom, bs[0].bottom);
      var n2 := InputStep(op, as1, bs, y, slabs, main, n);
      InMain(slabs, main, n, n2);
      var o' := TurnStep(op, as1[0], bs[0], y, slabs[..main], n, n2, o);
      last := SweepMain(op, Advance(as1, ybot), Advance(bs, ybot), ybot, slabs, main, n2, o');
    }
  }

  lemma InMain(slabs: seq<Band>, main: nat, n: nat, n2: nat)
    requires n <= n2 <= main <= |slabs|
    ensures slabs[..main][..n] == slabs[..n] && slabs[..main][..n2] == slabs[..n2]
    ensures slabs[..main][n..n2] == slabs[n..n2]
  {
  }

  /** From any state of the main loop, the rest of the sweep leaves the paired slabs. */
  lemma SweepPairs(op: SetOp, as1: seq<Band>, bs: seq<Band>, y: int, slabs: seq<Band>, main: nat, n: nat, o: Output)
    requires Stacked(slabs) && AtInput(op, as1, bs, y, slabs, main, n) && AtOutput(o, Folded(slabs[..n]))
    ensures Reaches(o)
    ensures var k := Paired(slabs, main);
      SweepFrom(op, as1, bs, y, o) == Flatten(MergePairs(slabs[..k]) + slabs[k..])
  {
    StackedRange(slabs, 0, main);
    var last := SweepMain(op, as1, bs, y, slabs, main, n, o);
    LastCall(slabs, main, last);
  }

  /** For any bands and any start, if every slab starts below the one before, the sweep leaves exactly the bands
      OpBands. */
  lemma SweepIsOpBands(op: SetOp, as1: seq<Band>, bs: seq<Band>, y: int)
    requires Stacked(Slabs(op, as1, bs, y))
    ensures SweepFrom(op, as1, bs, y, NO_OUTPUT) == Flatten(OpBands(op, as1, bs, y))
  {
    var slabs, main := Slabs(op, as1, bs, y), MainCount(op, as1, bs, y);
    assert slabs[0..] == slabs && slabs[..0] == [];
    SweepPairs(op, as1, bs, y, slabs, main, 0, NO_OUTPUT);
  }
}
