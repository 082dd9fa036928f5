/** The rectangle list of a CLIPRGN and its bands. */
module RegionRep {
  import opened Spans
  import opened Bands
  import opened Rects
  import opened Coalescing

  /** `a` comes before `b`: left of it in the same band with a gap between, or in a higher band. */
  predicate Before(a: Rect, b: Rect) {
    || (a.top == b.top && a.bottom == b.bottom && a.right < b.left)
    || a.bottom <= b.top
  }

  /** The y-x-banded form that the region comments describe, except for the merging of bands. */
  predicate Banded(rs: seq<Rect>) {
    && (forall i :: 0 <= i < |rs| ==> Proper(rs[i]))
    && (forall i, j :: 0 <= i < j < |rs| ==> Before(rs[i], rs[j]))
  }

  /** The full form, with neighbouring bands merged wherever that is possible. */
  predicate Canonical(rs: seq<Rect>) {
    Banded(rs) && Coalesced(ToBands(rs))
  }

  // ---------------------------------------------------------------- lists to bands and back

  function SpanOf(r: Rect): Span {
    Span(r.left, r.right)
  }

  function SpansOf(rs: seq<Rect>): (ss: seq<Span>)
    ensures |ss| == |rs|
    ensures forall i :: 0 <= i < |rs| ==> ss[i] == SpanOf(rs[i])
  {
    if rs == [] then [] else [SpanOf(rs[0])] + SpansOf(rs[1..])
  }

  /** The end of the run of rectangles from `i` on that have the top of `rs[i]`. */
  function BandEnd(rs: seq<Rect>, i: nat): (e: nat)
    requires i < |rs|
    ensures i < e <= |rs|
    ensures forall j :: i <= j < e ==> rs[j].top == rs[i].top
    ensures e < |rs| ==> rs[e].top != rs[i].top
  {
    RunEnd(rs, i + 1, rs[i].top)
  }

  function RunEnd(rs: seq<Rect>, i: nat, top: int): (e: nat)
    requires i <= |rs|
    ensures i <= e <= |rs|
    ensures forall j :: i <= j < e ==> rs[j].top == top
    ensures e < |rs| ==> rs[e].top != top
    decreases |rs| - i
  {
    if i < |rs| && rs[i].top == top then RunEnd(rs, i + 1, top) else i
  }

  function HeadBand(rs: seq<Rect>): Band
    requires rs != []
  {
    Band(rs[0].top, rs[0].bottom, SpansOf(rs[..BandEnd(rs, 0)]))
  }

  function ToBands(rs: seq<Rect>): seq<Band>
    decreases |rs|
  {
    if rs == [] then [] else [HeadBand(rs)] + ToBands(rs[BandEnd(rs, 0)..])
  }

  function BandRects(b: Band): (rs: seq<Rect>)
    ensures |rs| == |b.spans|
    ensures forall i :: 0 <= i < |rs| ==> rs[i] == Rect(b.spans[i].left, b.top, b.spans[i].right, b.bottom)
  {
    seq(|b.spans|, i requires 0 <= i < |b.spans| => Rect(b.spans[i].left, b.top, b.spans[i].right, b.bottom))
  }

  function Flatten(bs: seq<Band>): seq<Rect> {
    if bs == [] then [] else BandRects(bs[0]) + Flatten(bs[1..])
  }

  lemma FlattenCons(b: Band, bs: seq<Band>)
    ensures Flatten([b] + bs) == BandRects(b) + Flatten(bs)
  {
    assert ([b] + bs)[1..] == bs;
  }

  lemma ThreeLists(a: seq<Rect>, b: seq<Rect>, c: seq<Rect>)
    ensures a + (b + c) == a + b + c
  {
  }

  lemma {:induction false} FlattenConcat(as1: seq<Band>, bs: seq<Band>)
    ensures Flatten(as1 + bs) == Flatten(as1) + Flatten(bs)
  {
    if as1 == [] {
      assert as1 + bs == bs;
    } else {
      var rest := as1[1..];
      FlattenConcat(rest, bs);
      assert as1 + bs == [as1[0]] + (rest + bs);
      FlattenCons(as1[0], rest + bs);
      ThreeLists(BandRects(as1[0]), Flatten(rest), Flatten(bs));
    }
  }

  lemma FlattenOne(b: Band)
    ensures Flatten([b]) == BandRects(b)
  {
    assert Flatten([b]) == BandRects(b) + Flatten([]);
  }

  lemma BandedSuffix(rs: seq<Rect>, i: nat)
    requires Banded(rs) && i <= |rs|
    ensures Banded(rs[i..])
  {
  }

  /** All rectangles of a run share the bottom as well, and their spans are separated. */
  lemma HeadBandValid(rs: seq<Rect>)
    requires Banded(rs) && rs != []
    ensures ValidBand(HeadBand(rs)) && BandRects(HeadBand(rs)) == rs[..BandEnd(rs, 0)]
    ensures BandEnd(rs, 0) < |rs| ==> rs[0].bottom <= rs[BandEnd(rs, 0)].top
  {
    var e := BandEnd(rs, 0);
    forall i | 0 <= i < e ensures rs[i].bottom == rs[0].bottom {
      if i > 0 { assert Before(rs[0], rs[i]); }
    }
    forall i | 0 <= i < e - 1 ensures rs[i].right < rs[i + 1].left {
      assert Before(rs[i], rs[i + 1]);
    }
    if e < |rs| { assert Before(rs[0], rs[e]); }
  }

  lemma ConsRects(b: Band, bs: seq<Band>, rs: seq<Rect>, rest: seq<Rect>)
    requires ValidBand(b) && BandRects(b) == rs
    requires ValidBands(bs) && Flatten(bs) == rest && (bs != [] ==> b.bottom <= bs[0].top)
    ensures ValidBands([b] + bs) && Flatten([b] + bs) == rs + rest
  {
    ConsBands(b, bs);
    FlattenCons(b, bs);
  }

  lemma ToBandsCons(rs: seq<Rect>)
    requires rs != []
    ensures ToBands(rs) == [HeadBand(rs)] + ToBands(rs[BandEnd(rs, 0)..])
  {
  }

  lemma SplitList(rs: seq<Rect>, e: nat)
    requires e <= |rs|
    ensures rs == rs[..e] + rs[e..]
  {
  }

  lemma ConsHeadBand(rs: seq<Rect>, e: nat)
    requires rs != [] && e == BandEnd(rs, 0) && ValidBand(HeadBand(rs)) && BandRects(HeadBand(rs)) == rs[..e]
    requires var bs := ToBands(rs[e..]);
      ValidBands(bs) && Flatten(bs) == rs[e..] && (bs != [] ==> rs[0].bottom <= bs[0].top)
    ensures ValidBands(ToBands(rs)) && Flatten(ToBands(rs)) == rs
  {
    ToBandsCons(rs);
    ConsRects(HeadBand(rs), ToBands(rs[e..]), rs[..e], rs[e..]);
    SplitList(rs, e);
  }

  /** A banded list is its bands written out. */
  lemma {:induction false} ToBandsValid(rs: seq<Rect>)
    requires Banded(rs)
    ensures ValidBands(ToBands(rs)) && Flatten(ToBands(rs)) == rs
    ensures rs != [] ==> ToBands(rs) != [] && ToBands(rs)[0] == HeadBand(rs)
    decreases |rs|
  {
    if rs == [] {
    } else {
      var e := BandEnd(rs, 0);
      var rest := rs[e..];
      HeadBandValid(rs);
      BandedSuffix(rs, e);
      ToBandsValid(rest);
      assert rest != [] ==> rest[0] == rs[e];
      ConsHeadBand(rs, e);
    }
  }

  lemma {:induction false} TopsFrom(bs: seq<Band>, j: nat)
    requires ValidBands(bs) && j < |Flatten(bs)|
    ensures var r := Flatten(bs)[j];
      Proper(r) && r.top >= bs[0].top && (j >= |bs[0].spans| ==> r.top >= bs[0].bottom)
    decreases |bs|
  {
    var n := |bs[0].spans|;
    if j < n {
    } else {
      TopsFrom(bs[1..], j - n);
    }
  }

  lemma {:induction false} FlattenBanded(bs: seq<Band>)
    requires ValidBands(bs)
    ensures Banded(Flatten(bs))
  {
    if bs == [] {
    } else {
      FlattenBanded(bs[1..]);
      var n, f := |bs[0].spans|, Flatten(bs);
      assert f[n..] == Flatten(bs[1..]);
      forall i, j | 0 <= i < j < |f| ensures Before(f[i], f[j]) {
        if j < n {
          SeparatedOrder(bs[0].spans, i, j);
        } else if i < n {
          TopsFrom(bs, j);
        } else {
          assert Before(f[n..][i - n], f[n..][j - n]);
        }
      }
      forall i | 0 <= i < |f| ensures Proper(f[i]) {
        TopsFrom(bs, i);
      }
    }
  }

  lemma {:induction false} SeparatedOrder(ss: seq<Span>, i: nat, j: nat)
    requires Separated(ss) && i < j < |ss|
    ensures ss[i].right < ss[j].left
    decreases j
  {
    if i == j - 1 {
    } else {
      SeparatedOrder(ss, i, j - 1);
    }
  }

  lemma HeadOfFlatten(bs: seq<Band>)
    requires ValidBands(bs) && bs != []
    ensures BandEnd(Flatten(bs), 0) == |bs[0].spans| && HeadBand(Flatten(bs)) == bs[0]
  {
    var n, f := |bs[0].spans|, Flatten(bs);
    assert f[..n] == BandRects(bs[0]);
    if n < |f| { TopsFrom(bs, n); }
    assert forall j :: 0 <= j < n ==> f[j].top == bs[0].top;
    assert BandEnd(f, 0) == n;
    assert SpansOf(f[..n]) == bs[0].spans;
  }

  lemma {:induction false} ToBandsFlatten(bs: seq<Band>)
    requires ValidBands(bs)
    ensures ToBands(Flatten(bs)) == bs
  {
    if bs == [] {
    } else {
      ToBandsFlatten(bs[1..]);
      HeadOfFlatten(bs);
      var f := Flatten(bs);
      assert f[BandEnd(f, 0)..] == Flatten(bs[1..]);
    }
  }

  lemma {:induction false} BandRectsIn(b: Band, x: int, y: int)
    ensures Covers(BandRects(b), x, y) <==> InBand(b, x, y)
    decreases |b.spans|
  {
    if b.spans == [] {
    } else {
      var rest := b.(spans := b.spans[1..]);
      BandRectsIn(rest, x, y);
      var rs := BandRects(b);
      assert rs[1..] == BandRects(rest);
      CoversCons(rs, x, y);
    }
  }

  lemma CoversCons(rs: seq<Rect>, x: int, y: int)
    requires rs != []
    ensures Covers(rs, x, y) <==> PtInRect(rs[0], x, y) || Covers(rs[1..], x, y)
  {
    if i :| 0 <= i < |rs| && PtInRect(rs[i], x, y) {
      if i > 0 { assert PtInRect(rs[1..][i - 1], x, y); }
    }
    if i :| 0 <= i < |rs[1..]| && PtInRect(rs[1..][i], x, y) {
      assert PtInRect(rs[i + 1], x, y);
    }
  }

  lemma CoversConcat(a: seq<Rect>, b: seq<Rect>, x: int, y: int)
    ensures Covers(a + b, x, y) <==> Covers(a, x, y) || Covers(b, x, y)
  {
    var c := a + b;
    if i :| 0 <= i < |a| && PtInRect(a[i], x, y) { assert PtInRect(c[i], x, y); }
    if i :| 0 <= i < |b| && PtInRect(b[i], x, y) { assert PtInRect(c[|a| + i], x, y); }
    if i :| 0 <= i < |c| && PtInRect(c[i], x, y) {
      if i >= |a| { assert PtInRect(b[i - |a|], x, y); }
    }
  }

  lemma {:induction false} FlattenIn(bs: seq<Band>, x: int, y: int)
    ensures Covers(Flatten(bs), x, y) <==> InBands(bs, x, y)
  {
    if bs == [] {
    } else {
      FlattenIn(bs[1..], x, y);
      BandRectsIn(bs[0], x, y);
      CoversConcat(BandRects(bs[0]), Flatten(bs[1..]), x, y);
    }
  }

  /** The bands of a banded list cover the points of its rectangles. */
  lemma ToBandsIn(rs: seq<Rect>, x: int, y: int)
    requires Banded(rs)
    ensures InBands(ToBands(rs), x, y) <==> Covers(rs, x, y)
  {
    ToBandsValid(rs);
    FlattenIn(ToBands(rs), x, y);
  }

  // ---------------------------------------------------------------- the full form is canonical

  ghost predicate SamePoints(as1: seq<Band>, bs: seq<Band>) {
    forall x, y :: InBands(as1, x, y) <==> InBands(bs, x, y)
  }

  /** The points of the first scanline of a non-empty list are the spans of its first band. */
  lemma TopRow(bs: seq<Band>, x: int, y: int)
    requires ValidBands(bs) && bs != [] && bs[0].top <= y < bs[0].bottom
    ensures InBands(bs, x, y) <==> InSpans(bs[0].spans, x)
  {
    AboveAll(bs[1..], x, y);
  }

  lemma HeadPoint(bs: seq<Band>)
    requires ValidBands(bs) && bs != []
    ensures InBands(bs, bs[0].spans[0].left, bs[0].top)
  {
    FirstSpanIn(bs[0].spans);
  }

  lemma HeadNotLower(as1: seq<Band>, bs: seq<Band>)
    requires ValidBands(as1) && ValidBands(bs) && as1 != [] && SamePoints(as1, bs)
    ensures bs != [] && bs[0].top <= as1[0].top
  {
    HeadPoint(as1);
    if bs != [] && as1[0].top < bs[0].top {
      AboveAll(bs, as1[0].spans[0].left, as1[0].top);
    }
  }

  lemma HeadSpansEqual(as1: seq<Band>, bs: seq<Band>)
    requires ValidBands(as1) && ValidBands(bs) && SamePoints(as1, bs)
    requires as1 != [] && bs != [] && as1[0].top == bs[0].top
    ensures as1[0].spans == bs[0].spans
  {
    forall x ensures InSpans(as1[0].spans, x) <==> InSpans(bs[0].spans, x) {
      TopRow(as1, x, as1[0].top);
      TopRow(bs, x, as1[0].top);
      assert InBands(as1, x, as1[0].top) <==> InBands(bs, x, as1[0].top);
    }
    SpansUnique(as1[0].spans, bs[0].spans);
  }

  /** With equal heads so far, a head that ends first would have to be followed by a band to merge with. */
  lemma HeadNotShorter(as1: seq<Band>, bs: seq<Band>)
    requires ValidBands(as1) && ValidBands(bs) && Coalesced(as1) && SamePoints(as1, bs)
    requires as1 != [] && bs != [] && as1[0].top == bs[0].top && as1[0].spans == bs[0].spans
    ensures as1[0].bottom >= bs[0].bottom
  {
    var y := as1[0].bottom;
    if y < bs[0].bottom {
      var rest := as1[1..];
      assert rest == [] || !Mergeable(as1[0], as1[1]);
      forall x ensures InBands(rest, x, y) <==> InSpans(as1[0].spans, x) {
        TopRow(bs, x, y);
        assert InBands(as1, x, y) <==> InBands(bs, x, y);
      }
      var x0 := as1[0].spans[0].left;
      FirstSpanIn(as1[0].spans);
      assert InBands(rest, x0, y);
      if rest[0].top > y { AboveAll(rest, x0, y); }
      forall x ensures InSpans(rest[0].spans, x) <==> InSpans(as1[0].spans, x) {
        TopRow(rest, x, y);
        assert InBands(rest, x, y) <==> InSpans(as1[0].spans, x);
      }
      SpansUnique(rest[0].spans, as1[0].spans);
    }
  }

  lemma {:induction false} BandsUnique(as1: seq<Band>, bs: seq<Band>)
    requires ValidBands(as1) && ValidBands(bs) && Coalesced(as1) && Coalesced(bs)
    requires SamePoints(as1, bs)
    ensures as1 == bs
    decreases |as1|
  {
    if as1 != [] {
      HeadNotLower(as1, bs);
      HeadNotLower(bs, as1);
      HeadSpansEqual(as1, bs);
      HeadNotShorter(as1, bs);
      HeadNotShorter(bs, as1);
      var y := as1[0].bottom;
      forall x, yy ensures InBands(as1[1..], x, yy) <==> InBands(bs[1..], x, yy) {
        assert InBands(as1, x, yy) <==> InBands(bs, x, yy);
        if yy < y {
          AboveAll(as1[1..], x, yy);
          AboveAll(bs[1..], x, yy);
        }
      }
      CoalescedCons(as1);
      CoalescedCons(bs);
      BandsUnique(as1[1..], bs[1..]);
      assert as1 == [as1[0]] + as1[1..] && bs == [bs[0]] + bs[1..];
    } else if bs != [] {
      HeadNotLower(bs, as1);
    }
  }

  /** Two lists in the full documented form that cover the same points are the same list. */
  lemma CanonicalUnique(rs: seq<Rect>, ss: seq<Rect>)
    requires Canonical(rs) && Canonical(ss)
    requires forall x, y :: Covers(rs, x, y) <==> Covers(ss, x, y)
    ensures rs == ss
  {
    ToBandsValid(rs);
    ToBandsValid(ss);
    forall x, y ensures InBands(ToBands(rs), x, y) <==> InBands(ToBands(ss), x, y) {
      ToBandsIn(rs, x, y);
      ToBandsIn(ss, x, y);
    }
    BandsUnique(ToBands(rs), ToBands(ss));
  }
}
