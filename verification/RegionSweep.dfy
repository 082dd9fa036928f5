/** REGION_RegionOp of `src/newgdi/region.c`: the sweep over two rectangle lists, in place. */
module RegionSweep {
  import opened Basics
  import opened Spans
  import opened Bands
  import opened Rects
  import opened RegionRep
  import opened Pointers
  import opened Sweep
  import opened Regions
  import opened ClipRegion

  /** The bands from node `i` of a list on. */
  ghost function BandsFrom(l: seq<Rect>, i: nat): seq<Band>
    requires i <= |l|
  {
    ToBands(l[i..])
  }

  /** The band that starts at a node. */
  ghost function BandAt(l: seq<Rect>, i: nat): Band
    requires i < |l|
  {
    Band(l[i].top, l[i].bottom, SpansOf(l[i..BandEnd(l, i)]))
  }

  lemma BandsFromStep(l: seq<Rect>, i: nat)
    requires i < |l|
    ensures var bs := BandsFrom(l, i); bs != [] && bs[0] == BandAt(l, i) && bs[1..] == BandsFrom(l, BandEnd(l, i))
  {
    BandEndShift(l, i);
    var e := BandEnd(l, i);
    assert l[i..][..e - i] == l[i..e];
    assert l[i..][e - i..] == l[e..];
  }

  /** The part of the upper band that does not meet the other region. */
  method AddAbove(pdst: ClipRgn, op: SetOp, l1: seq<Rect>, i1: nat, e1: nat, l2: seq<Rect>, i2: nat, e2: nat, ybot: int)
    requires i1 < |l1| && e1 == BandEnd(l1, i1) && i2 < |l2| && e2 == BandEnd(l2, i2)
    modifies pdst`rects
    ensures pdst.rects == old(pdst.rects) + Flatten(AboveSlab(op, BandAt(l1, i1), BandAt(l2, i2), ybot))
  {
    if l1[i1].top < l2[i2].top {
      var top, bot := Max(l1[i1].top, ybot), Min(l1[i1].bottom, l2[i2].top);
      if top != bot && Keeps1(op) {
        FlattenOne(Band(top, bot, SpansOf(l1[i1..e1])));
        pdst.NonOverlap(l1[i1..e1], top, bot);
      }
    } else if l2[i2].top < l1[i1].top {
      var top, bot := Max(l2[i2].top, ybot), Min(l2[i2].bottom, l1[i1].top);
      if top != bot && Keeps2(op) {
        FlattenOne(Band(top, bot, SpansOf(l2[i2..e2])));
        pdst.NonOverlap(l2[i2..e2], top, bot);
      }
    }
  }

  /** The part where the bands meet. */
  method AddMeet(pdst: ClipRgn, op: SetOp, l1: seq<Rect>, i1: nat, e1: nat, l2: seq<Rect>, i2: nat, e2: nat)
    requires i1 < |l1| && e1 == BandEnd(l1, i1) && i2 < |l2| && e2 == BandEnd(l2, i2)
    modifies pdst`rects
    ensures pdst.rects == MeetInto(op, old(pdst.rects), BandAt(l1, i1), BandAt(l2, i2))
  {
    var ytop, ybot := Max(l1[i1].top, l2[i2].top), Min(l1[i1].bottom, l2[i2].bottom);
    if ybot > ytop {
      pdst.OverlapFunc(op, l1[i1..e1], l2[i2..e2], ytop, ybot);
    }
  }

  /** Calls REGION_Coalesce if the tail is no longer node `curBand`. */
  method CoalesceAdded(pdst: ClipRgn, prevBand: int, curBand: int, ghost o: Output) returns (newPrev: int)
    requires Reaches(o) && o.prev == prevBand && curBand == |o.rects| - 1 && |o.rects| <= |pdst.rects|
    modifies pdst`rects
    ensures Output(pdst.rects, newPrev) == Added(o, old(pdst.rects))
  {
    newPrev := prevBand;
    if |pdst.rects| - 1 != curBand {
      newPrev := pdst.Coalesce(prevBand, curBand);
    }
  }

  /** One turn of the main loop. */
  method SweepTurn(pdst: ClipRgn, op: SetOp, l1: seq<Rect>, r1: nat, l2: seq<Rect>, r2: nat, ybot: int, prevBand: int)
    returns (r1': nat, r2': nat, ybot': int, prevBand': int)
    requires r1 < |l1| && r2 < |l2| && Reaches(Output(pdst.rects, prevBand))
    modifies pdst`rects
    ensures ybot' == Min(l1[r1].bottom, l2[r2].bottom)
    ensures r1' == (if l1[r1].bottom == ybot' then BandEnd(l1, r1) else r1)
    ensures r2' == (if l2[r2].bottom == ybot' then BandEnd(l2, r2) else r2)
    ensures Output(pdst.rects, prevBand') ==
      Turn(op, BandAt(l1, r1), BandAt(l2, r2), ybot, Output(old(pdst.rects), prevBand))
  {
    var curBand := |pdst.rects| - 1;
    ghost var o := Output(pdst.rects, prevBand);
    var r1BandEnd := FindBandEnd(l1, r1);
    var r2BandEnd := FindBandEnd(l2, r2);
    AddAbove(pdst, op, l1, r1, r1BandEnd, l2, r2, r2BandEnd, ybot);
    prevBand' := CoalesceAdded(pdst, prevBand, curBand, o);

    ybot' := Min(l1[r1].bottom, l2[r2].bottom);
    curBand := |pdst.rects| - 1;
    o := Output(pdst.rects, prevBand');
    AddMeet(pdst, op, l1, r1, r1BandEnd, l2, r2, r2BandEnd);
    prevBand' := CoalesceAdded(pdst, prevBand', curBand, o);
    r1' := if l1[r1].bottom == ybot' then r1BandEnd else r1;
    r2' := if l2[r2].bottom == ybot' then r2BandEnd else r2;
  }

  /** The bands from node `i` on, none of them higher than the sweep line. */
  method AddLeftOver(pdst: ClipRgn, l: seq<Rect>, i: nat, ybot: int)
    requires i <= |l|
    modifies pdst`rects
    ensures pdst.rects == old(pdst.rects) + Flatten(ClipTop(BandsFrom(l, i), ybot))
  {
    var r := i;
    ghost var total := old(pdst.rects) + Flatten(ClipTop(BandsFrom(l, i), ybot));
    while r < |l|
      invariant i <= r <= |l|
      invariant pdst.rects + Flatten(ClipTop(BandsFrom(l, r), ybot)) == total
    {
      LeftOverStep(pdst.rects, l, r, ybot);
      var e := FindBandEnd(l, r);
      pdst.NonOverlap(l[r..e], Max(l[r].top, ybot), l[r].bottom);
      r := e;
    }
    assert l[|l|..] == [];
    assert pdst.rects + [] == pdst.rects;
  }

  lemma LeftOverStep(rs: seq<Rect>, l: seq<Rect>, r: nat, ybot: int)
    requires r < |l|
    ensures var b := Band(Max(l[r].top, ybot), l[r].bottom, SpansOf(l[r..BandEnd(l, r)]));
      rs + Flatten(ClipTop(BandsFrom(l, r), ybot)) ==
      rs + BandRects(b) + Flatten(ClipTop(BandsFrom(l, BandEnd(l, r)), ybot))
  {
    BandsFromStep(l, r);
    var b := Band(Max(l[r].top, ybot), l[r].bottom, SpansOf(l[r..BandEnd(l, r)]));
    var rest := ClipTop(BandsFrom(l, BandEnd(l, r)), ybot);
    FlattenCons(b, rest);
    ThreeLists(rs, BandRects(b), Flatten(rest));
  }

  /** The rest of the sweep from two nodes on. */
  ghost function SweepRest(op: SetOp, l1: seq<Rect>, r1: nat, l2: seq<Rect>, r2: nat, ybot: int, o: Output): seq<Rect>
    requires r1 <= |l1| && r2 <= |l2| && Reaches(o)
  {
    SweepFrom(op, BandsFrom(l1, r1), BandsFrom(l2, r2), ybot, o)
  }

  lemma RestStep(op: SetOp, l1: seq<Rect>, r1: nat, l2: seq<Rect>, r2: nat, ybot: int, o: Output)
    requires r1 < |l1| && r2 < |l2| && Reaches(o)
    ensures var ybot' := Min(l1[r1].bottom, l2[r2].bottom);
      SweepRest(op, l1, r1, l2, r2, ybot, o) ==
        SweepRest(op, l1, if l1[r1].bottom == ybot' then BandEnd(l1, r1) else r1,
                  l2, if l2[r2].bottom == ybot' then BandEnd(l2, r2) else r2, ybot',
                  Turn(op, BandAt(l1, r1), BandAt(l2, r2), ybot, o))
  {
    BandsFromStep(l1, r1);
    BandsFromStep(l2, r2);
  }

  lemma RestEnd(op: SetOp, l1: seq<Rect>, r1: nat, l2: seq<Rect>, r2: nat, ybot: int, o: Output)
    requires r1 <= |l1| && r2 <= |l2| && Reaches(o) && (r1 == |l1| || r2 == |l2|)
    ensures var left :=
        if r1 < |l1| then (if Keeps1(op) then ClipTop(BandsFrom(l1, r1), ybot) else [])
        else if Keeps2(op) then ClipTop(BandsFrom(l2, r2), ybot) else [];
      SweepRest(op, l1, r1, l2, r2, ybot, o) == Added(o, o.rects + Flatten(left)).rects
  {
    if r1 < |l1| { BandsFromStep(l1, r1); }
    if r2 < |l2| { BandsFromStep(l2, r2); }
  }

  /** The loops of REGION_RegionOp, on an empty region. */
  method SweepLists(pdst: ClipRgn, l1: seq<Rect>, l2: seq<Rect>, op: SetOp, ytop: int)
    requires pdst.rects == []
    modifies pdst`rects
    ensures pdst.rects == SweepFrom(op, ToBands(l1), ToBands(l2), ytop, NO_OUTPUT)
  {
    var r1, r2, ybot, prevBand := 0, 0, ytop, -1;
    assert l1[0..] == l1 && l2[0..] == l2;
    ghost var total := SweepFrom(op, ToBands(l1), ToBands(l2), ytop, NO_OUTPUT);
    while r1 < |l1| && r2 < |l2|
      invariant 0 <= r1 <= |l1| && 0 <= r2 <= |l2|
      invariant Reaches(Output(pdst.rects, prevBand))
      invariant SweepRest(op, l1, r1, l2, r2, ybot, Output(pdst.rects, prevBand)) == total
      decreases |l1| + |l2| - r1 - r2
    {
      RestStep(op, l1, r1, l2, r2, ybot, Output(pdst.rects, prevBand));
      r1, r2, ybot, prevBand := SweepTurn(pdst, op, l1, r1, l2, r2, ybot, prevBand);
    }
    RestEnd(op, l1, r1, l2, r2, ybot, Output(pdst.rects, prevBand));
    var curBand := |pdst.rects| - 1;
    ghost var o := Output(pdst.rects, prevBand);
    assert o.rects + Flatten([]) == o.rects;
    if r1 < |l1| {
      if Keeps1(op) { AddLeftOver(pdst, l1, r1, ybot); }
    } else if Keeps2(op) {
      AddLeftOver(pdst, l2, r2, ybot);
    }
    var _ := CoalesceAdded(pdst, prevBand, curBand, o);
  }

  /** REGION_RegionOp. The new region may be one of the two sources: then a fresh region is built and
      copied over it at the end. */
  method RegionOpInto(newReg: ClipRgn, reg1: ClipRgn, reg2: ClipRgn, op: SetOp)
    requires reg1.rects != [] && reg2.rects != []
    modifies newReg
    ensures newReg.rects == RegionOp(op, old(reg1.Value()), old(reg2.Value()))
  {
    var l1, l2 := reg1.rects, reg2.rects;
    var ybot := if reg1.rcBound.top < reg2.rcBound.top then reg1.rcBound.top else reg2.rcBound.top;
    var pdst := newReg;
    if newReg == reg1 || newReg == reg2 {
      pdst := new ClipRgn();
    } else {
      newReg.EmptyClipRgn();
    }
    SweepLists(pdst, l1, l2, op, ybot);
    if pdst != newReg {
      newReg.EmptyClipRgn();
      newReg.kind, newReg.rcBound, newReg.rects := pdst.kind, pdst.rcBound, pdst.rects;
    }
  }
}
