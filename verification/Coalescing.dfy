/** Merging of bands: REGION_Coalesce as REGION_RegionOp calls it in `src/newgdi/region.c`.

    Every call passes `curBand`, the tail of the list before a slab was appended. That is the last
    rectangle of the band before the slab, not the first rectangle of the slab, so the band just
    appended is never compared. Module Pointers proves that the calls amount to MergePairs. */
module Coalescing {
  import opened Basics
  import opened Spans
  import opened Bands

  /** Two bands that the region comment in `include/gdi.h` wants merged. */
  predicate Mergeable(a: Band, b: Band) {
    a.bottom == b.top && a.spans == b.spans
  }

  function Join(a: Band, b: Band): Band {
    Band(a.top, b.bottom, a.spans)
  }

  /** No two neighbouring bands can be merged. */
  predicate Coalesced(bs: seq<Band>) {
    forall i :: 0 <= i < |bs| - 1 ==> !Mergeable(bs[i], bs[i + 1])
  }

  /** What the successive calls do to the slabs `bs`. A band of several rectangles is never merged with
      the next one. A band of one rectangle is compared with the next one, but only when a third
      slab arrives, and then the comparison starts afresh at that third slab. */
  function MergePairs(bs: seq<Band>): seq<Band>
    decreases |bs|
  {
    if |bs| <= 1 then bs
    else if |bs[0].spans| > 1 then [bs[0]] + MergePairs(bs[1..])
    else if |bs| == 2 then bs
    else (if Mergeable(bs[0], bs[1]) then [Join(bs[0], bs[1])] else bs[..2]) + MergePairs(bs[2..])
  }

  /** Slabs taken from the region left over are appended together and coalesced by one call, so only
      the first of them takes part in the pairing. */
  function Paired(slabs: seq<Band>, main: nat): nat {
    if main < |slabs| then main + 1 else |slabs|
  }

  /** The bands REGION_RegionOp leaves in the new region. */
  function OpBands(op: SetOp, as1: seq<Band>, bs: seq<Band>, y: int): seq<Band> {
    var slabs := Slabs(op, as1, bs, y);
    var k := Paired(slabs, MainCount(op, as1, bs, y));
    MergePairs(slabs[..k]) + slabs[k..]
  }

  // ---------------------------------------------------------------- merging is sound

  /** The bands that one step of the pairing settles. */
  ghost predicate SettledFirst(bs: seq<Band>, n: nat, head: seq<Band>) {
    && 1 <= n <= 2 && n < |bs|
    && head == if n == 2 && Mergeable(bs[0], bs[1]) then [Join(bs[0], bs[1])] else bs[..n]
  }

  lemma PairsSplit(bs: seq<Band>) returns (n: nat, head: seq<Band>)
    requires |bs| > 2 || (|bs| == 2 && |bs[0].spans| > 1)
    ensures SettledFirst(bs, n, head) && MergePairs(bs) == head + MergePairs(bs[n..])
  {
    n := if |bs[0].spans| > 1 then 1 else 2;
    head := if n == 2 && Mergeable(bs[0], bs[1]) then [Join(bs[0], bs[1])] else bs[..n];
    assert bs[..1] == [bs[0]];
  }

  /** The list begins and ends as the other does. */
  predicate SameEnds(r: seq<Band>, bs: seq<Band>) {
    && r != [] && bs != [] && r[0].top == bs[0].top && r[0].spans == bs[0].spans
    && r[|r| - 1].bottom == bs[|bs| - 1].bottom && r[|r| - 1].spans == bs[|bs| - 1].spans
  }

  lemma EndsBehind(bs: seq<Band>, n: nat, head: seq<Band>, rest: seq<Band>, all: seq<Band>)
    requires SettledFirst(bs, n, head) && SameEnds(rest, bs[n..]) && all == head + rest
    ensures SameEnds(all, bs)
  {
  }

  lemma {:induction false} MergePairsEnds(bs: seq<Band>)
    requires bs != []
    ensures SameEnds(MergePairs(bs), bs)
    decreases |bs|
  {
    if |bs| <= 1 || (|bs| == 2 && |bs[0].spans| <= 1) {
    } else {
      var n, head := PairsSplit(bs);
      MergePairsEnds(bs[n..]);
      EndsBehind(bs, n, head, MergePairs(bs[n..]), MergePairs(bs));
    }
  }

  lemma PairHead(bs: seq<Band>) returns (head: seq<Band>)
    requires ValidBands(bs) && |bs| > 2
    ensures head == (if Mergeable(bs[0], bs[1]) then [Join(bs[0], bs[1])] else bs[..2])
    ensures ValidBands(head) && head != [] && head[|head| - 1].bottom <= bs[2].top
  {
    head := if Mergeable(bs[0], bs[1]) then [Join(bs[0], bs[1])] else bs[..2];
  }

  lemma {:induction false} MergePairsValid(bs: seq<Band>)
    requires ValidBands(bs)
    ensures ValidBands(MergePairs(bs))
    decreases |bs|
  {
    if |bs| <= 1 {
    } else {
      if |bs[0].spans| > 1 {
        MergePairsValid(bs[1..]);
        MergePairsEnds(bs[1..]);
        ConcatValid([bs[0]], MergePairs(bs[1..]));
      } else if |bs| > 2 {
        MergePairsValid(bs[2..]);
        MergePairsEnds(bs[2..]);
        var head := PairHead(bs);
        ConcatValid(head, MergePairs(bs[2..]));
      }
    }
  }

  /** Where two bands can be merged, they stand on each other. */
  predicate MergesUpright(bs: seq<Band>) {
    forall i :: 0 <= i < |bs| - 1 && Mergeable(bs[i], bs[i + 1]) ==> bs[i].top <= bs[i].bottom <= bs[i + 1].bottom
  }

  lemma LayeredUpright(bs: seq<Band>)
    requires Layered(bs)
    ensures MergesUpright(bs)
  {
  }

  lemma UprightPart(bs: seq<Band>, i: nat, j: nat)
    requires MergesUpright(bs) && i <= j <= |bs|
    ensures MergesUpright(bs[i..j])
  {
    var r := bs[i..j];
    forall k | 0 <= k < |r| - 1 && Mergeable(r[k], r[k + 1]) ensures r[k].top <= r[k].bottom <= r[k + 1].bottom {
      assert r[k] == bs[i + k] && r[k + 1] == bs[i + k + 1];
    }
  }

  lemma {:induction false} MergePairsIn(bs: seq<Band>, x: int, y: int)
    requires MergesUpright(bs)
    ensures InBands(MergePairs(bs), x, y) <==> InBands(bs, x, y)
    decreases |bs|
  {
    if |bs| <= 1 {
    } else {
      if |bs[0].spans| > 1 {
        UprightPart(bs, 1, |bs|);
        MergePairsIn(bs[1..], x, y);
        assert ([bs[0]] + MergePairs(bs[1..]))[1..] == MergePairs(bs[1..]);
      } else if |bs| > 2 {
        UprightPart(bs, 2, |bs|);
        MergePairsIn(bs[2..], x, y);
        var head := if Mergeable(bs[0], bs[1]) then [Join(bs[0], bs[1])] else bs[..2];
        InConcat(head, MergePairs(bs[2..]), x, y);
        InConcat(bs[..2], bs[2..], x, y);
        assert bs == bs[..2] + bs[2..];
        TwoIn(bs[0], bs[1], x, y);
        assert bs[..2] == [bs[0], bs[1]];
      }
    }
  }

  lemma TwoIn(a: Band, b: Band, x: int, y: int)
    requires Mergeable(a, b) ==> a.top <= a.bottom <= b.bottom
    ensures InBands([a, b], x, y) <==> InBand(a, x, y) || InBand(b, x, y)
    ensures Mergeable(a, b) ==> (InBands([Join(a, b)], x, y) <==> InBands([a, b], x, y))
  {
    assert [a, b][1..] == [b];
    assert InBands([b], x, y) <==> InBand(b, x, y);
    assert InBands([Join(a, b)], x, y) <==> InBand(Join(a, b), x, y);
  }

  /** OpBands in terms of the slabs and the number of them that are paired. */
  lemma OpBandsAre(op: SetOp, as1: seq<Band>, bs: seq<Band>, y: int) returns (slabs: seq<Band>, k: nat)
    ensures slabs == Slabs(op, as1, bs, y) && k == Paired(slabs, MainCount(op, as1, bs, y))
    ensures k <= |slabs| && (k == 0 ==> slabs == [])
    ensures OpBands(op, as1, bs, y) == MergePairs(slabs[..k]) + slabs[k..]
  {
    slabs := Slabs(op, as1, bs, y);
    k := Paired(slabs, MainCount(op, as1, bs, y));
  }

  lemma PairedValid(slabs: seq<Band>, k: nat)
    requires ValidBands(slabs) && k <= |slabs|
    ensures ValidBands(MergePairs(slabs[..k]) + slabs[k..])
  {
    MergePairsValid(slabs[..k]);
    if k > 0 {
      MergePairsEnds(slabs[..k]);
    }
    ConcatValid(MergePairs(slabs[..k]), slabs[k..]);
  }

  lemma PairedIn(slabs: seq<Band>, k: nat, x: int, y: int)
    requires MergesUpright(slabs) && k <= |slabs|
    ensures InBands(MergePairs(slabs[..k]) + slabs[k..], x, y) <==> InBands(slabs, x, y)
  {
    UprightPart(slabs, 0, k);
    MergePairsIn(slabs[..k], x, y);
    InConcat(MergePairs(slabs[..k]), slabs[k..], x, y);
    InConcat(slabs[..k], slabs[k..], x, y);
    assert slabs == slabs[..k] + slabs[k..];
  }

  /** REGION_RegionOp keeps the y-x-banded form ... */
  lemma OpBandsValid(op: SetOp, as1: seq<Band>, bs: seq<Band>, y: int)
    requires Ready(as1, bs, y)
    ensures ValidBands(OpBands(op, as1, bs, y))
  {
    SlabsValid(op, as1, bs, y);
    var slabs, k := OpBandsAre(op, as1, bs, y);
    PairedValid(slabs, k);
  }

  /** ... and computes the set operation on every point. */
  lemma OpBandsIn(op: SetOp, as1: seq<Band>, bs: seq<Band>, y: int, x: int, yy: int)
    requires Ready(as1, bs, y)
    requires as1 != [] && y <= as1[0].top && bs != [] && y <= bs[0].top
    ensures InBands(OpBands(op, as1, bs, y), x, yy) <==> Holds(op, InBands(as1, x, yy), InBands(bs, x, yy))
  {
    SlabsValid(op, as1, bs, y);
    SlabsIn(op, as1, bs, y, x, yy);
    var slabs, k := OpBandsAre(op, as1, bs, y);
    PairedIn(slabs, k, x, yy);
    if yy < y {
      AboveAll(as1, x, yy);
      AboveAll(bs, x, yy);
    }
  }

  // ---------------------------------------------------------------- merging is incomplete

  /** Whether the calls ever compare slab `i` with slab `i + 1`. */
  predicate Compared(bs: seq<Band>, i: int)
    decreases |bs|
  {
    |bs| >= 3 &&
    if |bs[0].spans| > 1 then i > 0 && Compared(bs[1..], i - 1)
    else i == 0 || (i >= 2 && Compared(bs[2..], i - 2))
  }

  lemma CoalescedCons(bs: seq<Band>)
    requires bs != []
    ensures Coalesced(bs) <==> (|bs| > 1 ==> !Mergeable(bs[0], bs[1])) && Coalesced(bs[1..])
  {
    if Coalesced(bs[1..]) && (|bs| > 1 ==> !Mergeable(bs[0], bs[1])) {
      forall i | 0 <= i < |bs| - 1 ensures !Mergeable(bs[i], bs[i + 1]) {
        if i > 0 { assert bs[i] == bs[1..][i - 1]; }
      }
    }
    if Coalesced(bs) {
      forall i | 0 <= i < |bs[1..]| - 1 ensures !Mergeable(bs[1..][i], bs[1..][i + 1]) {
        assert !Mergeable(bs[i + 1], bs[i + 2]);
      }
    }
  }

  /** The condition on the slabs: every mergeable pair is compared. */
  predicate AllCompared(bs: seq<Band>) {
    forall i :: 0 <= i < |bs| - 1 && Mergeable(bs[i], bs[i + 1]) ==> Compared(bs, i)
  }

  lemma AllComparedSkip(bs: seq<Band>, n: nat)
    requires |bs| > n && n == if |bs[0].spans| > 1 then 1 else 2
    ensures AllCompared(bs) <==> !Mergeable(bs[n - 1], bs[n]) && AllCompared(bs[n..])
  {
    assert !Compared(bs, n - 1);
    var rest := bs[n..];
    if AllCompared(bs) {
      forall i | 0 <= i < |rest| - 1 && Mergeable(rest[i], rest[i + 1]) ensures Compared(rest, i) {
        assert Mergeable(bs[i + n], bs[i + n + 1]);
        assert Compared(bs, i + n);
      }
    }
    if !Mergeable(bs[n - 1], bs[n]) && AllCompared(rest) {
      forall i | 0 <= i < |bs| - 1 && Mergeable(bs[i], bs[i + 1]) ensures Compared(bs, i) {
        if i >= n {
          assert Mergeable(rest[i - n], rest[i - n + 1]);
          assert Compared(rest, i - n);
        }
      }
    }
  }

  /** Prepending a band only matters at the seam, and only the top and spans there count. */
  lemma CoalescedPrepend(b: Band, rest: seq<Band>, like: Band)
    requires rest != [] && rest[0].top == like.top && rest[0].spans == like.spans
    ensures Coalesced([b] + rest) <==> !Mergeable(b, like) && Coalesced(rest)
  {
    assert ([b] + rest)[1..] == rest;
    CoalescedCons([b] + rest);
  }

  lemma CoalescedPair(bs: seq<Band>, rest: seq<Band>)
    requires |bs| > 2 && rest != [] && rest[0].top == bs[2].top && rest[0].spans == bs[2].spans
    ensures var head := if Mergeable(bs[0], bs[1]) then [Join(bs[0], bs[1])] else bs[..2];
      Coalesced(head + rest) <==> !Mergeable(bs[1], bs[2]) && Coalesced(rest)
  {
    if Mergeable(bs[0], bs[1]) {
      CoalescedPrepend(Join(bs[0], bs[1]), rest, bs[2]);
    } else {
      CoalescedPrepend(bs[1], rest, bs[2]);
      CoalescedPrepend(bs[0], [bs[1]] + rest, bs[1]);
      assert bs[..2] + rest == [bs[0]] + ([bs[1]] + rest);
    }
  }

  /** Exactly when the calls leave nothing to merge: every mergeable pair is compared. */
  lemma {:induction false} MergePairsCoalescedIff(bs: seq<Band>)
    ensures Coalesced(MergePairs(bs)) <==> AllCompared(bs)
    decreases |bs|
  {
    if |bs| <= 1 {
    } else {
      if |bs[0].spans| > 1 {
        MergePairsCoalescedIff(bs[1..]);
        MergePairsEnds(bs[1..]);
        AllComparedSkip(bs, 1);
        CoalescedPrepend(bs[0], MergePairs(bs[1..]), bs[1]);
      } else if |bs| > 2 {
        MergePairsCoalescedIff(bs[2..]);
        MergePairsEnds(bs[2..]);
        AllComparedSkip(bs, 2);
        CoalescedPair(bs, MergePairs(bs[2..]));
      } else {
        assert !Compared(bs, 0);
      }
    }
  }

  lemma CoalescedConcat(as1: seq<Band>, bs: seq<Band>)
    requires as1 != [] && bs != []
    ensures Coalesced(as1 + bs) <==> Coalesced(as1) && !Mergeable(as1[|as1| - 1], bs[0]) && Coalesced(bs)
  {
    var c := as1 + bs;
    if Coalesced(c) {
      forall i | 0 <= i < |as1| - 1 ensures !Mergeable(as1[i], as1[i + 1]) { assert !Mergeable(c[i], c[i + 1]); }
      forall i | 0 <= i < |bs| - 1 ensures !Mergeable(bs[i], bs[i + 1]) {
        assert !Mergeable(c[i + |as1|], c[i + |as1| + 1]);
      }
      assert !Mergeable(c[|as1| - 1], c[|as1|]);
    }
  }

  /** REGION_RegionOp leaves nothing to merge exactly when, among the slabs of the sweep, every
      mergeable pair lies in the part that the calls pair up and is compared there. */
  lemma OpBandsCoalescedIff(op: SetOp, as1: seq<Band>, bs: seq<Band>, y: int)
    ensures var slabs := Slabs(op, as1, bs, y);
      var k := Paired(slabs, MainCount(op, as1, bs, y));
      Coalesced(OpBands(op, as1, bs, y)) <==>
        AllCompared(slabs[..k]) && (k > 0 ==> Coalesced(slabs[k - 1..]))
  {
    var slabs, k := OpBandsAre(op, as1, bs, y);
    TailCoalescedIff(slabs, k);
  }

  lemma TailCoalescedIff(slabs: seq<Band>, k: nat)
    requires k <= |slabs| && (k == 0 ==> slabs == [])
    ensures Coalesced(MergePairs(slabs[..k]) + slabs[k..]) <==>
      AllCompared(slabs[..k]) && (k > 0 ==> Coalesced(slabs[k - 1..]))
  {
    MergePairsCoalescedIff(slabs[..k]);
    if k > 0 {
      var head := MergePairs(slabs[..k]);
      MergePairsEnds(slabs[..k]);
      assert slabs[k - 1..][1..] == slabs[k..];
      CoalescedCons(slabs[k - 1..]);
      if k < |slabs| {
        CoalescedConcat(head, slabs[k..]);
      } else {
        assert head + slabs[k..] == head;
      }
    }
  }

  // ---------------------------------------------------------------- sources with nothing to merge

  lemma {:induction false} ClipTopBelow(bs: seq<Band>, y: int)
    requires ValidBands(bs) && (bs != [] ==> bs[0].top >= y)
    ensures ClipTop(bs, y) == bs
  {
    if bs == [] {
    } else {
      ClipTopBelow(bs[1..], y);
    }
  }

  lemma ClipTopCoalesced(bs: seq<Band>, y: int)
    requires ValidBands(bs) && Coalesced(bs) && (bs != [] ==> bs[0].bottom > y)
    ensures Coalesced(ClipTop(bs, y))
  {
    if |bs| > 1 {
      ClipTopBelow(bs[1..], y);
      CoalescedCons(bs);
      CoalescedPrepend(Band(Max(bs[0].top, y), bs[0].bottom, bs[0].spans), bs[1..], bs[1]);
    }
  }

  /** The slabs after those of the main loop. */
  ghost function SlabsLeft(op: SetOp, as1: seq<Band>, bs: seq<Band>, y: int): seq<Band> {
    Slabs(op, as1, bs, y)[MainCount(op, as1, bs, y)..]
  }

  lemma SlabsLeftEnd(op: SetOp, as1: seq<Band>, bs: seq<Band>, y: int)
    requires as1 == [] || bs == []
    ensures SlabsLeft(op, as1, bs, y) == LeftOver(op, as1, bs, y)
  {
  }

  lemma SlabsLeftStep(op: SetOp, as1: seq<Band>, bs: seq<Band>, y: int)
    requires as1 != [] && bs != []
    ensures var ybot := Min(as1[0].bottom, bs[0].bottom);
      SlabsLeft(op, as1, bs, y) == SlabsLeft(op, Advance(as1, ybot), Advance(bs, ybot), ybot)
  {
    var ybot := Min(as1[0].bottom, bs[0].bottom);
    SkipSlabs(op, as1, bs, y, Advance(as1, ybot), Advance(bs, ybot), ybot,
              AboveSlab(op, as1[0], bs[0], y) + MeetSlab(op, as1[0], bs[0]));
  }

  lemma SkipSlabs(op: SetOp, as1: seq<Band>, bs: seq<Band>, y: int, as2: seq<Band>, bs2: seq<Band>, y2: int,
                  head: seq<Band>)
    requires Slabs(op, as1, bs, y) == head + Slabs(op, as2, bs2, y2)
    requires MainCount(op, as1, bs, y) == |head| + MainCount(op, as2, bs2, y2)
    ensures SlabsLeft(op, as1, bs, y) == SlabsLeft(op, as2, bs2, y2)
  {
    SkipPrefix(head, Slabs(op, as2, bs2, y2), MainCount(op, as2, bs2, y2),
               Slabs(op, as1, bs, y), MainCount(op, as1, bs, y));
  }

  lemma AdvanceCoalesced(bs: seq<Band>, ybot: int)
    requires Coalesced(bs) && bs != []
    ensures Coalesced(Advance(bs, ybot))
  {
    CoalescedCons(bs);
  }

  /** They are as well merged as the region left over. */
  lemma {:induction false} LeftOverCoalesced(op: SetOp, as1: seq<Band>, bs: seq<Band>, y: int)
    requires Ready(as1, bs, y) && Coalesced(as1) && Coalesced(bs)
    ensures Coalesced(SlabsLeft(op, as1, bs, y))
    decreases |as1| + |bs|
  {
    if as1 == [] || bs == [] {
      SlabsLeftEnd(op, as1, bs, y);
      ClipTopCoalesced(as1, y);
      ClipTopCoalesced(bs, y);
    } else {
      var ybot := Min(as1[0].bottom, bs[0].bottom);
      AdvanceReady(as1, bs, y);
      AdvanceCoalesced(as1, ybot);
      AdvanceCoalesced(bs, ybot);
      SlabsLeftStep(op, as1, bs, y);
      LeftOverCoalesced(op, Advance(as1, ybot), Advance(bs, ybot), ybot);
    }
  }

  lemma SkipPrefix(head: seq<Band>, rest: seq<Band>, n: nat, all: seq<Band>, m: nat)
    requires n <= |rest| && all == head + rest && m == |head| + n
    ensures all[m..] == rest[n..]
  {
  }

  lemma TailCoalesced(slabs: seq<Band>, main: nat)
    requires main <= |slabs| && Coalesced(slabs[main..])
    ensures Paired(slabs, main) > 0 ==> Coalesced(slabs[Paired(slabs, main) - 1..])
  {
  }

  /** Of two sources with nothing to merge, REGION_RegionOp leaves nothing to merge exactly when every
      mergeable pair of slabs is compared. */
  lemma OpBandsKeptIff(op: SetOp, as1: seq<Band>, bs: seq<Band>, y: int)
    requires Ready(as1, bs, y) && Coalesced(as1) && Coalesced(bs)
    ensures var slabs := Slabs(op, as1, bs, y);
      Coalesced(OpBands(op, as1, bs, y)) <==> AllCompared(slabs[..Paired(slabs, MainCount(op, as1, bs, y))])
  {
    OpBandsCoalescedIff(op, as1, bs, y);
    LeftOverCoalesced(op, as1, bs, y);
    TailCoalesced(Slabs(op, as1, bs, y), MainCount(op, as1, bs, y));
  }
}
