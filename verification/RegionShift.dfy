/** OffsetRegion of `src/newgdi/region.c` and the full form: what has nothing to merge before has nothing
    to merge after. */
module RegionShift {
  import opened Spans
  import opened Bands
  import opened Rects
  import opened Coalescing
  import opened RegionRep
  import opened Regions

  function ShiftedSpans(ss: seq<Span>, dx: int): (r: seq<Span>)
    ensures |r| == |ss|
    ensures forall i :: 0 <= i < |r| ==> r[i] == Span(ss[i].left + dx, ss[i].right + dx)
  {
    seq(|ss|, i requires 0 <= i < |ss| => Span(ss[i].left + dx, ss[i].right + dx))
  }

  function ShiftedBand(b: Band, dx: int, dy: int): Band {
    Band(b.top + dy, b.bottom + dy, ShiftedSpans(b.spans, dx))
  }

  function ShiftedBands(bs: seq<Band>, dx: int, dy: int): (r: seq<Band>)
    ensures |r| == |bs|
    ensures forall i :: 0 <= i < |r| ==> r[i] == ShiftedBand(bs[i], dx, dy)
  {
    seq(|bs|, i requires 0 <= i < |bs| => ShiftedBand(bs[i], dx, dy))
  }

  lemma ShiftedSpansEqual(ss: seq<Span>, ts: seq<Span>, dx: int)
    ensures ShiftedSpans(ss, dx) == ShiftedSpans(ts, dx) <==> ss == ts
  {
    if ShiftedSpans(ss, dx) == ShiftedSpans(ts, dx) {
      forall i | 0 <= i < |ss| ensures ss[i] == ts[i] {
        assert ShiftedSpans(ss, dx)[i] == ShiftedSpans(ts, dx)[i];
      }
    }
  }

  lemma ShiftedMergeable(a: Band, b: Band, dx: int, dy: int)
    ensures Mergeable(ShiftedBand(a, dx, dy), ShiftedBand(b, dx, dy)) <==> Mergeable(a, b)
  {
    ShiftedSpansEqual(a.spans, b.spans, dx);
  }

  lemma ShiftedCoalesced(bs: seq<Band>, dx: int, dy: int)
    ensures Coalesced(ShiftedBands(bs, dx, dy)) <==> Coalesced(bs)
  {
    var r := ShiftedBands(bs, dx, dy);
    forall i | 0 <= i < |bs| - 1 ensures Mergeable(r[i], r[i + 1]) <==> Mergeable(bs[i], bs[i + 1]) {
      ShiftedMergeable(bs[i], bs[i + 1], dx, dy);
    }
  }

  lemma ShiftedBandsValid(bs: seq<Band>, dx: int, dy: int)
    requires ValidBands(bs)
    ensures ValidBands(ShiftedBands(bs, dx, dy))
  {
    forall i | 0 <= i < |bs| ensures ValidBand(ShiftedBand(bs[i], dx, dy)) {
      assert ValidBand(bs[i]);
    }
  }

  lemma ShiftedConcat(rs: seq<Rect>, ss: seq<Rect>, dx: int, dy: int)
    ensures ShiftedAll(rs + ss, dx, dy) == ShiftedAll(rs, dx, dy) + ShiftedAll(ss, dx, dy)
  {
  }

  lemma {:induction false} FlattenShifted(bs: seq<Band>, dx: int, dy: int)
    ensures Flatten(ShiftedBands(bs, dx, dy)) == ShiftedAll(Flatten(bs), dx, dy)
  {
    if bs == [] {
    } else {
      FlattenShifted(bs[1..], dx, dy);
      ShiftedTail(bs, dx, dy);
      BandRectsShifted(bs[0], dx, dy);
      ShiftedConcat(BandRects(bs[0]), Flatten(bs[1..]), dx, dy);
    }
  }

  lemma ShiftedTail(bs: seq<Band>, dx: int, dy: int)
    requires bs != []
    ensures ShiftedBands(bs, dx, dy)[1..] == ShiftedBands(bs[1..], dx, dy)
  {
  }

  lemma BandRectsShifted(b: Band, dx: int, dy: int)
    ensures BandRects(ShiftedBand(b, dx, dy)) == ShiftedAll(BandRects(b), dx, dy)
  {
  }

  /** Moving a region keeps the full documented form, and does not bring it about either. */
  lemma OffsetCanonical(v: Region, dx: int, dy: int)
    requires Valid(v)
    ensures Canonical(Offset(v, dx, dy).rects) <==> Canonical(v.rects)
  {
    var bs := ToBands(v.rects);
    ToBandsValid(v.rects);
    OffsetValid(v, dx, dy);
    ShiftedBandsValid(bs, dx, dy);
    FlattenShifted(bs, dx, dy);
    ToBandsFlatten(ShiftedBands(bs, dx, dy));
    ShiftedCoalesced(bs, dx, dy);
    assert Offset(v, dx, dy).rects == ShiftedAll(v.rects, dx, dy);
  }
}
