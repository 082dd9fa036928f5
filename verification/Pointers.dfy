/** REGION_Coalesce of `src/newgdi/region.c` on the rectangle list itself, with list nodes as indices, and
    what its calls from REGION_RegionOp do to the bands: one step of MergePairs each. */
module Pointers {
  import opened Bands
  import opened Rects
  import opened Coalescing
  import opened RegionRep

  /** The first rectangle of the last run of equal tops. */
  function LastRun(rs: seq<Rect>, i: nat): (t: nat)
    requires i < |rs|
    ensures t <= i
    ensures forall j :: t <= j <= i ==> rs[j].top == rs[i].top
    ensures t > 0 ==> rs[t - 1].top != rs[i].top
    decreases i
  {
    if i > 0 && rs[i - 1].top == rs[i].top then LastRun(rs, i - 1) else i
  }

  /** Whether the call merges: as many rectangles in the run from `cur` up to `e` as from `prev` up to
      `cur`, touching and with equal sides. */
  predicate Merges(rs: seq<Rect>, prev: nat, cur: nat, e: nat)
    requires prev <= cur < e <= |rs|
  {
    && prev < cur && e - cur == cur - prev
    && rs[prev].bottom == rs[cur].top && SpansOf(rs[prev..cur]) == SpansOf(rs[cur..e])
  }

  function Stretched(rs: seq<Rect>, prev: nat, cur: nat): (r: seq<Rect>)
    requires prev <= cur && cur + (cur - prev) <= |rs|
    ensures |r| == cur - prev
    ensures forall k :: 0 <= k < |r| ==> r[k] == rs[prev + k].(bottom := rs[cur + k].bottom)
  {
    seq(cur - prev, k requires 0 <= k < cur - prev => rs[prev + k].(bottom := rs[cur + k].bottom))
  }

  /** The list after the call and the start of the band that the next call compares. */
  function CoalesceAt(rs: seq<Rect>, prev: nat, cur: nat): (seq<Rect>, int)
    requires prev <= cur < |rs|
  {
    var e := BandEnd(rs, cur);
    var start := if prev == cur then prev else if e < |rs| then LastRun(rs, |rs| - 1) else cur;
    if Merges(rs, prev, cur, e) then
      (rs[..prev] + Stretched(rs, prev, cur) + rs[e..], if e == |rs| then prev else start - (cur - prev))
    else (rs, start)
  }

  // ---------------------------------------------------------------- what the call is meant to do

  /** A band on the list is one run. */
  lemma RunOfBand(head: seq<Rect>, b: Band, more: seq<Rect>, rs: seq<Rect>)
    requires b.spans != [] && rs == head + BandRects(b) + more && (more != [] ==> more[0].top != b.top)
    ensures BandEnd(rs, |head|) == |head| + |b.spans|
  {
    var n := |b.spans|;
    assert forall k :: |head| <= k < |head| + n ==> rs[k] == BandRects(b)[k - |head|];
    assert more != [] ==> rs[|head| + n] == more[0];
  }

  lemma SidesOfBands(head: seq<Rect>, p: Band, q: Band, more: seq<Rect>, rs: seq<Rect>, prev: nat, cur: nat, e: nat)
    requires p.spans != [] && q.spans != [] && rs == head + BandRects(p) + BandRects(q) + more
    requires prev == |head| && cur == prev + |p.spans| && e == cur + |q.spans|
    ensures e <= |rs| && rs[prev].bottom == p.bottom && rs[cur].top == q.top
    ensures SpansOf(rs[prev..cur]) == p.spans && SpansOf(rs[cur..e]) == q.spans
  {
    assert rs[prev..cur] == BandRects(p) && rs[cur..e] == BandRects(q);
  }

  lemma MergesIff(rs: seq<Rect>, p: Band, q: Band, prev: nat, cur: nat, e: nat)
    requires prev < cur < e <= |rs| && cur == prev + |p.spans| && e == cur + |q.spans|
    requires rs[prev].bottom == p.bottom && rs[cur].top == q.top
    requires SpansOf(rs[prev..cur]) == p.spans && SpansOf(rs[cur..e]) == q.spans
    ensures Merges(rs, prev, cur, e) <==> p.bottom == q.top && p.spans == q.spans
  {
  }

  lemma StretchedBand(head: seq<Rect>, p: Band, q: Band, more: seq<Rect>, rs: seq<Rect>, prev: nat, cur: nat, e: nat,
                      list: seq<Rect>)
    requires rs == head + BandRects(p) + BandRects(q) + more && p.spans == q.spans
    requires prev == |head| && cur == prev + |p.spans| && e == cur + |q.spans|
    requires list == head + BandRects(Band(p.top, q.bottom, p.spans)) + more
    ensures rs[..prev] + Stretched(rs, prev, cur) + rs[e..] == list
  {
    assert rs[..prev] == head && rs[e..] == more;
    assert Stretched(rs, prev, cur) == BandRects(Band(p.top, q.bottom, p.spans));
  }

  /** What the call compares. */
  lemma NeighboursSeen(head: seq<Rect>, p: Band, q: Band, more: seq<Rect>, rs: seq<Rect>, prev: nat, cur: nat)
    returns (e: nat)
    requires p.spans != [] && q.spans != [] && (more != [] ==> more[0].top != q.top)
    requires rs == head + BandRects(p) + BandRects(q) + more && prev == |head| && cur == prev + |p.spans|
    ensures prev < cur < e <= |rs| && e == cur + |q.spans| && BandEnd(rs, cur) == e && (e == |rs| <==> more == [])
    ensures Merges(rs, prev, cur, e) <==> p.bottom == q.top && p.spans == q.spans
  {
    e := cur + |q.spans|;
    RunOfBand(head + BandRects(p), q, more, rs);
    SidesOfBands(head, p, q, more, rs, prev, cur, e);
    MergesIff(rs, p, q, prev, cur, e);
  }

  lemma CallMerges(rs: seq<Rect>, prev: nat, cur: nat, e: nat, list: seq<Rect>)
    requires prev < cur < |rs| && BandEnd(rs, cur) == e && Merges(rs, prev, cur, e)
    requires list == rs[..prev] + Stretched(rs, prev, cur) + rs[e..]
    ensures CoalesceAt(rs, prev, cur).0 == list
    ensures e == |rs| ==> CoalesceAt(rs, prev, cur).1 == prev
  {
  }

  lemma CallKeeps(rs: seq<Rect>, prev: nat, cur: nat, e: nat)
    requires prev < cur < |rs| && BandEnd(rs, cur) == e && !Merges(rs, prev, cur, e)
    ensures CoalesceAt(rs, prev, cur).0 == rs
    ensures e == |rs| ==> CoalesceAt(rs, prev, cur).1 == cur
  {
  }

  /** Called on two neighbouring bands of any sizes that touch and have equal sides, it merges them. If they are the
      last ones, the next call starts at the merged band. */
  lemma NeighboursMerged(head: seq<Rect>, p: Band, q: Band, more: seq<Rect>, rs: seq<Rect>, prev: nat, cur: nat,
                         list: seq<Rect>)
    requires p.spans == q.spans != [] && p.bottom == q.top && (more != [] ==> more[0].top != q.top)
    requires rs == head + BandRects(p) + BandRects(q) + more && prev == |head| && cur == prev + |p.spans|
    requires list == head + BandRects(Band(p.top, q.bottom, p.spans)) + more
    ensures cur < |rs| && CoalesceAt(rs, prev, cur).0 == list
    ensures more == [] ==> CoalesceAt(rs, prev, cur).1 == prev
  {
    var e := NeighboursSeen(head, p, q, more, rs, prev, cur);
    StretchedBand(head, p, q, more, rs, prev, cur, e, list);
    CallMerges(rs, prev, cur, e, list);
  }

  /** Any others it leaves alone. If they are the last ones, the next call starts at the second. */
  lemma NeighboursKept(head: seq<Rect>, p: Band, q: Band, more: seq<Rect>, rs: seq<Rect>, prev: nat, cur: nat)
    requires p.spans != [] && q.spans != [] && !(p.bottom == q.top && p.spans == q.spans)
    requires rs == head + BandRects(p) + BandRects(q) + more && (more != [] ==> more[0].top != q.top)
    requires prev == |head| && cur == prev + |p.spans|
    ensures cur < |rs| && CoalesceAt(rs, prev, cur).0 == rs
    ensures more == [] ==> CoalesceAt(rs, prev, cur).1 == cur
  {
    var e := NeighboursSeen(head, p, q, more, rs, prev, cur);
    CallKeeps(rs, prev, cur, e);
  }

  // ---------------------------------------------------------------- one call is one step of MergePairs

  /** Between calls: `pend` are the bands that later calls may still change, the first of them at `prevBand`. */
  ghost predicate Pending(rs: seq<Rect>, done: seq<Band>, pend: seq<Band>, prevBand: int) {
    && Ordered(done + pend) && rs == Flatten(done + pend)
    && |pend| <= 2 && (|pend| == 2 ==> |pend[0].spans| == 1) && (forall p :: p in pend ==> p.top != p.bottom)
    && if pend == [] then done == [] && prevBand == -1 else prevBand == |Flatten(done)|
  }

  /** With `n` of the slabs appended, `done` and the pairing of `pend` and what follows give the result. */
  ghost predicate Settled(slabs: seq<Band>, n: nat, done: seq<Band>, pend: seq<Band>)
    requires n <= |slabs|
  {
    MergePairs(slabs) == done + MergePairs(pend + slabs[n..])
  }

  function NextDone(done: seq<Band>, pend: seq<Band>): seq<Band> {
    if pend == [] then done
    else if |pend| == 1 then (if |pend[0].spans| == 1 then done else done + pend)
    else done + (if Mergeable(pend[0], pend[1]) then [Join(pend[0], pend[1])] else pend[..2])
  }

  function NextPend(pend: seq<Band>, slab: Band): seq<Band> {
    if |pend| == 1 && |pend[0].spans| == 1 then pend + [slab] else [slab]
  }

  lemma NextSettled(slabs: seq<Band>, n: nat, done: seq<Band>, pend: seq<Band>)
    requires n < |slabs| && Settled(slabs, n, done, pend)
    requires |pend| <= 2
    requires |pend| >= 1 ==> |pend[0].spans| >= 1
    requires |pend| == 2 ==> |pend[0].spans| == 1
    ensures Settled(slabs, n + 1, NextDone(done, pend), NextPend(pend, slabs[n]))
  {
    NextStep(done, pend, slabs[n], slabs[n + 1..]);
    assert slabs[n..] == [slabs[n]] + slabs[n + 1..];
  }

  lemma NextStep(done: seq<Band>, pend: seq<Band>, slab: Band, rest: seq<Band>)
    requires |pend| <= 2
    requires |pend| >= 1 ==> |pend[0].spans| >= 1
    requires |pend| == 2 ==> |pend[0].spans| == 1
    ensures done + MergePairs(pend + ([slab] + rest)) == NextDone(done, pend) + MergePairs(NextPend(pend, slab) + rest)
  {
    NextSequences(done, pend, slab, rest);
    var more := [slab] + rest;
    if pend != [] && (|pend| == 2 || |pend[0].spans| > 1) {
      var head := SettleHead(pend, more);
      Associative(done, head, MergePairs(more));
    }
  }

  lemma Associative(a: seq<Band>, b: seq<Band>, c: seq<Band>)
    ensures a + (b + c) == a + b + c
  {
  }

  lemma NextSequences(done: seq<Band>, pend: seq<Band>, slab: Band, rest: seq<Band>)
    requires |pend| <= 2
    requires |pend| >= 1 ==> |pend[0].spans| >= 1
    requires |pend| == 2 ==> |pend[0].spans| == 1
    ensures var more, head := [slab] + rest,
        if |pend| == 2 && Mergeable(pend[0], pend[1]) then [Join(pend[0], pend[1])] else pend[..|pend|];
      if pend == [] || (|pend| == 1 && |pend[0].spans| == 1) then
        NextPend(pend, slab) + rest == pend + more && NextDone(done, pend) == done
      else NextPend(pend, slab) + rest == more && NextDone(done, pend) == done + head
  {
    assert pend[..|pend|] == pend;
  }

  /** The pending bands that the next slab settles. */
  lemma SettleHead(pend: seq<Band>, more: seq<Band>) returns (head: seq<Band>)
    requires more != [] && 1 <= |pend| <= 2 && (|pend[0].spans| > 1 <==> |pend| == 1)
    ensures head == if |pend| == 2 && Mergeable(pend[0], pend[1]) then [Join(pend[0], pend[1])] else pend[..|pend|]
    ensures MergePairs(pend + more) == head + MergePairs(more)
  {
    var all := pend + more;
    assert all[|pend|..] == more && all[..|pend|] == pend;
    head := if |pend| == 2 && Mergeable(pend[0], pend[1]) then [Join(pend[0], pend[1])] else pend[..|pend|];
    assert |pend| == 1 ==> [all[0]] == pend;
  }

  // ---------------------------------------------------------------- the call on the list

  lemma BandEndShift(rs: seq<Rect>, i: nat)
    requires i < |rs|
    ensures BandEnd(rs[i..], 0) == BandEnd(rs, i) - i
  {
    var ss := rs[i..];
    var e, f := BandEnd(rs, i), BandEnd(ss, 0);
    assert forall j :: 0 <= j < f ==> rs[i + j] == ss[j];
    assert i + f < |rs| ==> rs[i + f] == ss[f];
    assert e < |rs| ==> rs[e] == ss[e - i];
    assert e - i < |ss| ==> ss[e - i].top != ss[0].top;
  }

  /** The tail of the list before the call is the last rectangle of its band; it runs to the end. */
  lemma LastOfBand(head: seq<Rect>, b: Band, more: seq<Rect>)
    requires b.spans != []
    requires more != [] ==> more[0].top > b.top
    ensures var rs := head + BandRects(b) + more;
      var cur := |head| + |b.spans| - 1;
      BandEnd(rs, cur) == cur + 1 && rs[cur] == BandRects(b)[|b.spans| - 1]
  {
    var rs := head + BandRects(b) + more;
    var cur := |head| + |b.spans| - 1;
    assert rs[cur] == BandRects(b)[|b.spans| - 1];
    assert more != [] ==> rs[cur + 1] == more[0];
  }

  lemma LastRunIs(head: seq<Rect>, b: Band)
    requires b.spans != []
    requires head != [] ==> head[|head| - 1].top < b.top
    ensures var rs := head + BandRects(b); LastRun(rs, |rs| - 1) == |head|
  {
    var rs := head + BandRects(b);
    var t := LastRun(rs, |rs| - 1);
    assert forall j :: |head| <= j < |rs| ==> rs[j].top == b.top;
    assert head != [] ==> rs[|head| - 1] == head[|head| - 1];
  }

  /** A band of several rectangles is the previous band: nothing happens to it. */
  lemma CallOnWide(head: seq<Rect>, p: Band, more: seq<Rect>, rs: seq<Rect>, cur: int)
    requires p.top != p.bottom && |p.spans| > 1 && more != [] && more[0].top > p.top
    requires rs == head + BandRects(p) + more && cur == |head| + |p.spans| - 1
    ensures CoalesceAt(rs, |head|, cur) == (rs, LastRun(rs, |rs| - 1))
  {
    LastOfBand(head, p, more);
    assert rs[|head|] == BandRects(p)[0];
  }

  /** What the call sees of a band of one rectangle and the next band. */
  lemma TwoBandsSeen(head: seq<Rect>, p: Band, q: Band, more: seq<Rect>, rs: seq<Rect>, cur: int)
    requires p.spans != [] && |p.spans| == 1 && q.spans != [] && more != [] && more[0].top > q.top
    requires rs == head + BandRects(p) + BandRects(q) + more && cur == |head| + |q.spans|
    ensures |head| < cur < |rs| - 1 && BandEnd(rs, cur) == cur + 1
    ensures rs[|head|].bottom == p.bottom && rs[cur].top == q.top
    ensures |q.spans| == 1 ==> SpansOf(rs[|head|..cur]) == p.spans && SpansOf(rs[cur..cur + 1]) == q.spans
  {
    LastOfBand(head + BandRects(p), q, more);
    assert rs[|head|] == BandRects(p)[0];
    assert rs[cur] == BandRects(q)[|q.spans| - 1];
  }

  /** A band of one rectangle and the next band are compared, and merged if they fit. */
  lemma CallOnTwo(head: seq<Rect>, p: Band, q: Band, more: seq<Rect>, rs: seq<Rect>, cur: int)
    requires p.spans != [] && |p.spans| == 1 && q.spans != [] && p.top < q.top
    requires more != [] && more[0].top > q.top
    requires rs == head + BandRects(p) + BandRects(q) + more && cur == |head| + |q.spans|
    ensures var last := LastRun(rs, |rs| - 1);
      CoalesceAt(rs, |head|, cur) ==
        if Mergeable(p, q) then (head + BandRects(Join(p, q)) + more, last - 1) else (rs, last)
  {
    TwoBandsSeen(head, p, q, more, rs, cur);
    if Mergeable(p, q) {
      MergedList(head, p, q, more, rs);
      MergingCall(rs, |head|, cur);
    } else {
      IdleCall(rs, |head|, cur, cur + 1);
    }
  }

  /** A call that finds one rectangle to merge with one. */
  lemma MergingCall(rs: seq<Rect>, prev: nat, cur: nat)
    requires cur == prev + 1 && cur + 1 < |rs| && BandEnd(rs, cur) == cur + 1 && Merges(rs, prev, cur, cur + 1)
    ensures CoalesceAt(rs, prev, cur) ==
      (rs[..prev] + Stretched(rs, prev, cur) + rs[cur + 1..], LastRun(rs, |rs| - 1) - 1)
  {
  }

  /** A call that compares and does not merge. */
  lemma IdleCall(rs: seq<Rect>, prev: nat, cur: nat, e: nat)
    requires prev < cur < e < |rs| && BandEnd(rs, cur) == e && !Merges(rs, prev, cur, e)
    ensures CoalesceAt(rs, prev, cur) == (rs, LastRun(rs, |rs| - 1))
  {
  }

  lemma MergedList(head: seq<Rect>, p: Band, q: Band, more: seq<Rect>, rs: seq<Rect>)
    requires |p.spans| == 1 && Mergeable(p, q) && rs == head + BandRects(p) + BandRects(q) + more
    ensures var prev, cur := |head|, |head| + 1;
      rs[..prev] + Stretched(rs, prev, cur) + rs[cur + 1..] == head + BandRects(Join(p, q)) + more
  {
    var prev, cur := |head|, |head| + 1;
    assert rs[..prev] == head && rs[cur + 1..] == more;
    assert rs[prev] == BandRects(p)[0] && rs[cur] == BandRects(q)[0];
    assert Stretched(rs, prev, cur) == BandRects(Join(p, q));
  }

  lemma OrderedPart(as1: seq<Band>, bs: seq<Band>)
    requires Ordered(as1 + bs)
    ensures Ordered(as1) && Ordered(bs)
    ensures as1 != [] && bs != [] ==> as1[|as1| - 1].top < bs[0].top
  {
    var c := as1 + bs;
    forall i | 0 <= i < |as1| ensures as1[i].spans != [] && (i < |as1| - 1 ==> as1[i].top < as1[i + 1].top) {
      assert c[i] == as1[i] && (i < |as1| - 1 ==> c[i + 1] == as1[i + 1]);
    }
    forall i | 0 <= i < |bs| ensures bs[i].spans != [] && (i < |bs| - 1 ==> bs[i].top < bs[i + 1].top) {
      assert c[|as1| + i] == bs[i] && (i < |bs| - 1 ==> c[|as1| + i + 1] == bs[i + 1]);
    }
    if as1 != [] && bs != [] {
      assert c[|as1| - 1].top < c[|as1|].top;
    }
  }

  lemma {:induction false} LastRectTop(bs: seq<Band>)
    requires Ordered(bs) && bs != []
    ensures Flatten(bs) != [] && Flatten(bs)[|Flatten(bs)| - 1].top == bs[|bs| - 1].top
  {
    if |bs| <= 1 {
    } else {
      LastRectTop(bs[1..]);
    }
  }

  lemma TopAbove(bs: seq<Band>, b: Band)
    requires Ordered(bs + [b])
    ensures b.spans != []
    ensures Flatten(bs) != [] ==> Flatten(bs)[|Flatten(bs)| - 1].top < b.top
  {
    OrderedPart(bs, [b]);
    assert [b][0].spans != [];
    if bs != [] { LastRectTop(bs); }
  }

  /** The last run of a list of bands is its last band. */
  lemma LastRunOfBands(bs: seq<Band>, b: Band)
    requires Ordered(bs + [b])
    ensures Flatten(bs + [b]) != []
    ensures LastRun(Flatten(bs + [b]), |Flatten(bs + [b])| - 1) == |Flatten(bs)|
  {
    TopAbove(bs, b);
    FlattenSnoc(bs, b);
    LastRunIs(Flatten(bs), b);
  }

  function PrevIndex(prevBand: int): int { if prevBand == -1 then 0 else prevBand }

  function TailIndex(rs: seq<Rect>): int { if rs == [] then 0 else |rs| - 1 }

  /** What a call after `news` were appended has to return: the settled bands, the pending ones and the
      further new ones, and where the pending ones start. */
  ghost predicate CallGives(result: (seq<Rect>, int), done: seq<Band>, pend: seq<Band>, news: seq<Band>)
    requires news != []
  {
    && result.0 == Flatten(NextDone(done, pend) + NextPend(pend, news[0]) + news[1..])
    && (|news| == 1 ==> result.1 == |Flatten(NextDone(done, pend))|)
  }

  lemma FlattenSnoc(as1: seq<Band>, b: Band)
    ensures Flatten(as1 + [b]) == Flatten(as1) + BandRects(b)
  {
    FlattenConcat(as1, [b]);
    FlattenOne(b);
  }

  /** Without merging, all bands stay. */
  lemma KeptBands(done: seq<Band>, pend: seq<Band>, news: seq<Band>)
    requires news != [] && |pend| <= 2 && (pend == [] ==> done == [])
    requires |pend| == 2 ==> |pend[0].spans| == 1 && !Mergeable(pend[0], pend[1])
    ensures Flatten(NextDone(done, pend) + NextPend(pend, news[0]) + news[1..]) == Flatten(done + pend) + Flatten(news)
    ensures |pend| != 1 || |pend[0].spans| != 1 ==> NextDone(done, pend) == done + pend
  {
    KeptTogether(done, pend, news[0]);
    HeadAndTail(done + pend, news);
    FlattenConcat(done + pend, news);
  }

  lemma HeadAndTail(before: seq<Band>, news: seq<Band>)
    requires news != []
    ensures before + [news[0]] + news[1..] == before + news
  {
  }

  lemma KeptTogether(done: seq<Band>, pend: seq<Band>, slab: Band)
    requires |pend| <= 2 && (pend == [] ==> done == [])
    requires |pend| == 2 ==> |pend[0].spans| == 1 && !Mergeable(pend[0], pend[1])
    ensures NextDone(done, pend) + NextPend(pend, slab) == done + pend + [slab]
    ensures |pend| != 1 || |pend[0].spans| != 1 ==> NextDone(done, pend) == done + pend
  {
    assert |pend| == 2 ==> pend[..2] == pend;
  }

  lemma StartOfNews(d: seq<Band>, news: seq<Band>, all: seq<Rect>)
    requires |news| == 1 && Ordered(d + news) && all == Flatten(d) + Flatten(news)
    ensures all != [] && LastRun(all, |all| - 1) == |Flatten(d)|
  {
    assert news == [news[0]];
    FlattenConcat(d, news);
    LastRunOfBands(d, news[0]);
  }

  lemma NewsBelow(done: seq<Band>, p: Band, news: seq<Band>)
    requires Ordered(done + [p] + news) && news != []
    ensures p.spans != [] && Flatten(news) != [] && Flatten(news)[0].top > p.top
  {
    OrderedPart(done + [p], news);
    OrderedPart(done, [p]);
    assert [p][0].spans != [] && (done + [p])[|done|] == p;
    LastRectTop(news);
    assert Flatten(news)[0] == BandRects(news[0])[0];
  }

  lemma CallFirst(news: seq<Band>)
    requires news != []
    ensures CallGives((Flatten(news), 0), [], [], news)
  {
    KeptBands([], [], news);
    assert [] + Flatten(news) == Flatten(news);
  }

  lemma CallNarrow(rs: seq<Rect>, done: seq<Band>, p: Band, news: seq<Band>)
    requires rs == Flatten(done + [p]) && news != [] && |p.spans| == 1
    ensures CallGives((rs + Flatten(news), |Flatten(done)|), done, [p], news)
  {
    KeptBands(done, [p], news);
  }

  /** Nothing merged, and the last band is the new pending one. */
  lemma CallKept(rs: seq<Rect>, done: seq<Band>, pend: seq<Band>, news: seq<Band>, all: seq<Rect>)
    requires rs == Flatten(done + pend) && news != [] && Ordered(done + pend + news) && all == rs + Flatten(news)
    requires 1 <= |pend| <= 2 && (|pend| == 1 <==> |pend[0].spans| != 1)
    requires |pend| == 2 ==> !Mergeable(pend[0], pend[1])
    ensures all != [] && CallGives((all, LastRun(all, |all| - 1)), done, pend, news)
  {
    KeptBands(done, pend, news);
    NewsNotEmpty(done + pend, news);
    if |news| == 1 { StartOfNews(done + pend, news, all); }
  }

  lemma NewsNotEmpty(d: seq<Band>, news: seq<Band>)
    requires Ordered(d + news) && news != []
    ensures Flatten(news) != []
  {
    OrderedPart(d, news);
    LastRectTop(news);
  }

  lemma WideIs(rs: seq<Rect>, done: seq<Band>, p: Band, news: seq<Band>, all: seq<Rect>)
    requires rs == Flatten(done + [p]) && news != [] && Ordered(done + [p] + news)
    requires |p.spans| > 1 && p.top != p.bottom
    requires all == rs + Flatten(news)
    ensures |Flatten(done)| <= |rs| - 1 < |all|
    ensures CoalesceAt(all, |Flatten(done)|, |rs| - 1) == (all, LastRun(all, |all| - 1))
  {
    FlattenSnoc(done, p);
    NewsBelow(done, p, news);
    CallOnWide(Flatten(done), p, Flatten(news), all, |rs| - 1);
  }

  lemma TwoFlat(rs: seq<Rect>, done: seq<Band>, p: Band, q: Band)
    requires rs == Flatten(done + [p, q])
    ensures rs == Flatten(done) + BandRects(p) + BandRects(q)
  {
    assert done + [p] + [q] == done + [p, q];
    FlattenSnoc(done + [p], q);
    FlattenSnoc(done, p);
  }

  lemma TwoValid(done: seq<Band>, p: Band, q: Band, news: seq<Band>)
    requires Ordered(done + [p, q] + news) && news != []
    ensures p.spans != [] && q.spans != [] && p.top < q.top
    ensures Flatten(news) != [] && Flatten(news)[0].top > q.top
  {
    OrderedPart(done + [p, q], news);
    OrderedPart(done, [p, q]);
    assert [p, q][0].spans != [] && [p, q][1].spans != [] && [p, q][0].top < [p, q][1].top;
    assert done + [p] + [q] == done + [p, q];
    NewsBelow(done + [p], q, news);
  }

  /** The flat form of the call on two pending bands. */
  lemma TwoIs(rs: seq<Rect>, done: seq<Band>, p: Band, q: Band, news: seq<Band>, all: seq<Rect>)
    requires rs == Flatten(done + [p, q]) && news != [] && Ordered(done + [p, q] + news) && |p.spans| == 1
    requires all == rs + Flatten(news)
    ensures |Flatten(done)| <= |rs| - 1 < |all| && |rs| == |Flatten(done)| + 1 + |q.spans|
    ensures var last := LastRun(all, |all| - 1);
      CoalesceAt(all, |Flatten(done)|, |rs| - 1) ==
        if Mergeable(p, q) then (Flatten(done) + BandRects(Join(p, q)) + Flatten(news), last - 1) else (all, last)
  {
    TwoFlat(rs, done, p, q);
    TwoValid(done, p, q, news);
    CallOnTwo(Flatten(done), p, q, Flatten(news), all, |rs| - 1);
  }

  lemma CallMerged(rs: seq<Rect>, done: seq<Band>, p: Band, q: Band, news: seq<Band>, all: seq<Rect>)
    requires rs == Flatten(done + [p, q]) && news != [] && Ordered(done + [p, q] + news) && Mergeable(p, q)
    requires all == rs + Flatten(news) && |rs| == |Flatten(done)| + 2 && |q.spans| == 1
    ensures all != []
    ensures CallGives((Flatten(done) + BandRects(Join(p, q)) + Flatten(news), LastRun(all, |all| - 1) - 1),
                      done, [p, q], news)
  {
    MergedBands(done, p, q, news);
    if |news| == 1 { StartOfNews(done + [p, q], news, all); }
  }

  lemma MergedBands(done: seq<Band>, p: Band, q: Band, news: seq<Band>)
    requires news != [] && Mergeable(p, q)
    ensures var d := NextDone(done, [p, q]);
      && Flatten(d) == Flatten(done) + BandRects(Join(p, q))
      && Flatten(d + NextPend([p, q], news[0]) + news[1..]) == Flatten(done) + BandRects(Join(p, q)) + Flatten(news)
  {
    var d := done + [Join(p, q)];
    FlattenSnoc(done, Join(p, q));
    assert d + [news[0]] + news[1..] == d + news;
    FlattenConcat(d, news);
  }

  /** A call whose two pointers are the same leaves the list alone. */
  lemma CallSame(all: seq<Rect>, at: nat)
    requires at < |all|
    ensures CoalesceAt(all, at, at) == (all, at)
  {
  }

  lemma {:induction false} CallOnOnePending(rs: seq<Rect>, done: seq<Band>, pend: seq<Band>, news: seq<Band>,
                                            all: seq<Rect>, prev: int, cur: int)
    requires |pend| == 1 && pend[0].top != pend[0].bottom
    requires rs == Flatten(done + pend) && news != [] && Ordered(done + pend + news)
    requires all == rs + Flatten(news) && prev == |Flatten(done)| && cur == |rs| - 1
    ensures prev <= cur < |all| && CallGives(CoalesceAt(all, prev, cur), done, pend, news)
  {
    var p := pend[0];
    assert pend == [p];
    if |p.spans| == 1 {
      FlattenSnoc(done, p);
      NewsNotEmpty(done + [p], news);
      CallSame(all, prev);
      CallNarrow(rs, done, p, news);
    } else {
      PendNotEmpty(done, [p], news);
      WideIs(rs, done, p, news, all);
      CallKept(rs, done, [p], news, all);
    }
  }

  lemma {:induction false} CallOnTwoPending(rs: seq<Rect>, done: seq<Band>, pend: seq<Band>, news: seq<Band>,
                                            all: seq<Rect>, prev: int, cur: int)
    requires |pend| == 2 && |pend[0].spans| == 1 && rs == Flatten(done + pend) && news != []
    requires Ordered(done + pend + news)
    requires all == rs + Flatten(news) && prev == |Flatten(done)| && cur == |rs| - 1
    ensures prev <= cur < |all| && CallGives(CoalesceAt(all, prev, cur), done, pend, news)
  {
    var p, q := pend[0], pend[1];
    assert pend == [p, q];
    TwoIs(rs, done, p, q, news, all);
    if Mergeable(p, q) {
      CallMerged(rs, done, p, q, news, all);
    } else {
      CallKept(rs, done, [p, q], news, all);
    }
  }

  lemma CallOnNonePending(news: seq<Band>, all: seq<Rect>)
    requires news != [] && Ordered(news) && all == Flatten(news)
    ensures 0 < |all| && CallGives(CoalesceAt(all, 0, 0), [], [], news)
  {
    LastRectTop(news);
    CallSame(all, 0);
    CallFirst(news);
  }

  /** One call of REGION_Coalesce after slabs were appended is one step of MergePairs. */
  lemma CallStep(rs: seq<Rect>, done: seq<Band>, pend: seq<Band>, prevBand: int, news: seq<Band>)
    requires Pending(rs, done, pend, prevBand) && news != [] && Ordered(done + pend + news)
    ensures 0 <= PrevIndex(prevBand) <= TailIndex(rs) < |rs + Flatten(news)|
    ensures CallGives(CoalesceAt(rs + Flatten(news), PrevIndex(prevBand), TailIndex(rs)), done, pend, news)
  {
    if pend == [] {
      assert done + pend + news == news && rs + Flatten(news) == Flatten(news);
      CallOnNonePending(news, rs + Flatten(news));
    } else {
      PendFlat(done, pend);
      if |pend| == 1 {
        CallOnOnePending(rs, done, pend, news, rs + Flatten(news), PrevIndex(prevBand), TailIndex(rs));
      } else {
        CallOnTwoPending(rs, done, pend, news, rs + Flatten(news), PrevIndex(prevBand), TailIndex(rs));
      }
    }
  }

  lemma PendFlat(done: seq<Band>, pend: seq<Band>)
    requires Ordered(done + pend) && pend != []
    ensures Flatten(done + pend) != []
  {
    LastRectTop(done + pend);
  }

  lemma PendNotEmpty(done: seq<Band>, pend: seq<Band>, news: seq<Band>)
    requires Ordered(done + pend + news) && pend != []
    ensures |pend[0].spans| >= 1
  {
    OrderedPart(done + pend, news);
    OrderedPart(done, pend);
  }

  lemma StepBands(done: seq<Band>, pend: seq<Band>, slab: Band)
    requires Ordered(done + pend + [slab]) && |pend| <= 2
    ensures Ordered(NextDone(done, pend) + NextPend(pend, slab))
  {
    OrderedPart(done + pend, [slab]);
    OrderedPart(done, pend);
    assert [slab][0].spans != [];
    if |pend| == 1 && |pend[0].spans| == 1 {
      assert done + (pend + [slab]) == done + pend + [slab];
    } else if |pend| == 2 && Mergeable(pend[0], pend[1]) {
      ConcatOrdered(done, [Join(pend[0], pend[1])]);
      ConcatOrdered(done + [Join(pend[0], pend[1])], [slab]);
    } else if |pend| == 2 {
      assert pend[..2] == pend;
    } else {
      assert done + [] == done;
    }
  }

  /** The state the loop of REGION_RegionOp is in after the call. */
  lemma CallPending(result: (seq<Rect>, int), done: seq<Band>, pend: seq<Band>, slab: Band)
    requires Ordered(done + pend + [slab]) && |pend| <= 2 && (|pend| == 2 ==> |pend[0].spans| == 1)
    requires CallGives(result, done, pend, [slab])
    requires slab.top != slab.bottom && forall p :: p in pend ==> p.top != p.bottom
    ensures Pending(result.0, NextDone(done, pend), NextPend(pend, slab), result.1)
  {
    StepBands(done, pend, slab);
    var d, p := NextDone(done, pend), NextPend(pend, slab);
    assert [slab][1..] == [] && d + p + [] == d + p;
  }
}
