/** What adding an inverted rectangle does to a region: IsRectEmpty of `src/newgdi/rect.c` lets it pass, so
    AddClipRect of `src/newgdi/region.c` sweeps with it. No point is gained or lost, but the list may lose its form. */
module InvertedRects {
  import opened Basics
  import opened Spans
  import opened Bands
  import opened Rects
  import opened Coalescing
  import opened RegionRep
  import opened Pointers
  import opened Sweep
  import opened Regions
  import opened StaleRegions

  predicate Inverted(rect: Rect) {
    !IsRectEmpty(rect) && !Proper(rect)
  }

  // ---------------------------------------------------------------- one scanline, right to left

  /** REGION_UnionO with a span that runs from right to left: swallowed if a span reaches it, put in between
      otherwise. */
  function Inserted(a: seq<Span>, s: Span): seq<Span> {
    if a == [] || a[0].left >= s.left then [s] + a
    else if a[0].right >= s.left then a
    else [a[0]] + Inserted(a[1..], s)
  }

  lemma {:induction false} UnionFromNone(last: Span, a: seq<Span>)
    requires Separated(a) && (a != [] ==> last.right < a[0].left)
    ensures UnionFrom(last, a, []) == [last] + a
    decreases |a|
  {
    if a == [] {
    } else {
      SeparatedTail(a);
      UnionFromNone(a[0], a[1..]);
      assert UnionFrom(last, a, []) == MergeSpan(last, a[0], a[1..], []);
      assert a == [a[0]] + a[1..];
    }
  }

  lemma {:induction false} UnionFromInserted(last: Span, a: seq<Span>, s: Span)
    requires Separated([last] + a) && last.left < s.left && s.right < s.left
    ensures UnionFrom(last, a, [s]) == Inserted([last] + a, s)
    decreases |a|
  {
    SeparatedTail([last] + a);
    assert ([last] + a)[1..] == a && ([last] + a)[0] == last;
    assert a != [] ==> last.right < a[0].left by { assert a != [] ==> ([last] + a)[1] == a[0]; }
    if a != [] && a[0].left < s.left {
      assert [a[0]] + a[1..] == a;
      UnionFromInserted(a[0], a[1..], s);
      assert UnionFrom(last, a, [s]) == MergeSpan(last, a[0], a[1..], [s]);
    } else {
      assert [s][1..] == [];
      assert UnionFrom(last, a, [s]) == MergeSpan(last, s, a, []);
      if last.right >= s.left { UnionFromNone(last, a); } else { UnionFromNone(s, a); }
    }
  }

  lemma UnionInserted(a: seq<Span>, s: Span)
    requires Separated(a) && s.right < s.left
    ensures UnionSpans(a, [s]) == Inserted(a, s)
  {
    assert [s][1..] == [];
    if a == [] || a[0].left >= s.left {
      UnionFromNone(s, a);
    } else {
      assert a == [a[0]] + a[1..];
      UnionFromInserted(a[0], a[1..], s);
    }
  }

  /** It covers nothing of its own ... */
  lemma {:induction false} InsertedIn(a: seq<Span>, s: Span, x: int)
    requires s.right < s.left
    ensures InSpans(Inserted(a, s), x) <==> InSpans(a, x)
  {
    if a == [] || a[0].left >= s.left {
      assert ([s] + a)[1..] == a;
    } else if a[0].right < s.left {
      InsertedIn(a[1..], s, x);
      assert Inserted(a, s)[1..] == Inserted(a[1..], s);
    }
  }

  /** ... and is swallowed exactly if the point on its left is covered. */
  lemma {:induction false} InsertedIff(a: seq<Span>, s: Span)
    requires Separated(a) && s.right < s.left
    ensures InSpans(a, s.left - 1) ==> Inserted(a, s) == a
    ensures !InSpans(a, s.left - 1) ==> s in Inserted(a, s)
  {
    if a == [] || a[0].left >= s.left {
      RightOf(a, s.left - 1);
    } else if a[0].right < s.left {
      SeparatedTail(a);
      InsertedIff(a[1..], s);
      assert a == [a[0]] + a[1..];
    }
  }

  // ---------------------------------------------------------------- what the calls of REGION_Coalesce keep

  /** Slab `i` is band `j` of `r`, except for a side on which it is merged with a neighbour. */
  predicate KeptAt(bs: seq<Band>, i: nat, r: seq<Band>, j: nat)
    requires i < |bs|
  {
    && j < |r| && r[j].spans == bs[i].spans
    && (i == 0 || !Mergeable(bs[i - 1], bs[i]) ==> r[j].top == bs[i].top)
    && (i + 1 == |bs| || !Mergeable(bs[i], bs[i + 1]) ==> r[j].bottom == bs[i].bottom)
    && (i + 1 < |bs| && !Mergeable(bs[i], bs[i + 1]) ==>
          j + 1 < |r| && r[j + 1].top == bs[i + 1].top && r[j + 1].spans == bs[i + 1].spans)
  }

  lemma KeptBehind(bs: seq<Band>, i: nat, n: nat, head: seq<Band>, rest: seq<Band>, k: nat, all: seq<Band>)
    requires 0 < n <= i < |bs| && |head| > 0 && KeptAt(bs[n..], i - n, rest, k) && all == head + rest
    ensures KeptAt(bs, i, all, |head| + k)
  {
    assert bs[n..][i - n] == bs[i];
    assert i + 1 < |bs| ==> bs[n..][i - n + 1] == bs[i + 1];
    assert i > n ==> bs[n..][i - n - 1] == bs[i - 1];
  }

  lemma KeptInHead(bs: seq<Band>, i: nat, n: nat, head: seq<Band>, rest: seq<Band>, all: seq<Band>) returns (j: nat)
    requires SettledFirst(bs, n, head) && all == head + rest && i < n && SameEnds(rest, bs[n..])
    ensures KeptAt(bs, i, all, j)
  {
    j := if |head| == 1 then 0 else i;
  }

  lemma AllKept(bs: seq<Band>, i: nat)
    requires i < |bs| && (|bs| <= 1 || (|bs| == 2 && |bs[0].spans| <= 1))
    ensures KeptAt(bs, i, MergePairs(bs), i)
  {
  }

  lemma {:induction false} Kept(bs: seq<Band>, i: nat) returns (j: nat)
    requires i < |bs|
    ensures KeptAt(bs, i, MergePairs(bs), j)
    decreases |bs|
  {
    if |bs| <= 1 || (|bs| == 2 && |bs[0].spans| <= 1) {
      AllKept(bs, i);
      j := i;
    } else {
      var n, head := PairsSplit(bs);
      MergePairsEnds(bs[n..]);
      if i >= n {
        var k := Kept(bs[n..], i - n);
        KeptBehind(bs, i, n, head, MergePairs(bs[n..]), k, MergePairs(bs));
        j := |head| + k;
      } else {
        j := KeptInHead(bs, i, n, head, MergePairs(bs[n..]), MergePairs(bs));
      }
    }
  }

  /** A slab that can be merged with no neighbour. */
  predicate Alone(slabs: seq<Band>, i: nat)
    requires i < |slabs|
  {
    && (i > 0 ==> !Mergeable(slabs[i - 1], slabs[i]))
    && (i + 1 < |slabs| ==> !Mergeable(slabs[i], slabs[i + 1]))
  }

  /** So with slabs behind that no call pairs. */
  lemma PairedKept(slabs: seq<Band>, k: nat, i: nat, r: seq<Band>) returns (j: nat)
    requires k <= |slabs| && i < |slabs| && r == MergePairs(slabs[..k]) + slabs[k..]
    ensures j < |r| && r[j].spans == slabs[i].spans
    ensures Alone(slabs, i) ==> r[j] == slabs[i]
  {
    var head := MergePairs(slabs[..k]);
    if i < k {
      j := Kept(slabs[..k], i);
    } else {
      j := |head| + (i - k);
    }
  }

  // ---------------------------------------------------------------- lists that are not banded

  lemma {:induction false} FlattenAt(bs: seq<Band>, j: nat, m: nat) returns (i: nat)
    requires j < |bs| && m < |bs[j].spans|
    ensures i < |Flatten(bs)| && Flatten(bs)[i] == BandRects(bs[j])[m]
  {
    if j == 0 {
      i := m;
    } else {
      assert bs[1..][j - 1] == bs[j];
      var k := FlattenAt(bs[1..], j - 1, m);
      i := |bs[0].spans| + k;
    }
  }

  /** A band that is no proper band shows in the list. */
  lemma ImproperNotBanded(bs: seq<Band>, j: nat, m: nat)
    requires j < |bs| && m < |bs[j].spans|
    requires bs[j].top >= bs[j].bottom || bs[j].spans[m].left >= bs[j].spans[m].right
    ensures !Banded(Flatten(bs))
  {
    var i := FlattenAt(bs, j, m);
    assert !Proper(Flatten(bs)[i]);
  }

  lemma {:induction false} FlattenSeam(bs: seq<Band>, j: nat) returns (i: nat)
    requires j + 1 < |bs| && bs[j].spans != [] && bs[j + 1].spans != []
    ensures i + 1 < |Flatten(bs)| && Flatten(bs)[i + 1] == BandRects(bs[j + 1])[0]
    ensures Flatten(bs)[i] == BandRects(bs[j])[|bs[j].spans| - 1]
    decreases j
  {
    var n := |bs[0].spans|;
    if j == 0 {
      assert Flatten(bs[1..])[0] == BandRects(bs[1])[0];
      i := n - 1;
    } else {
      assert bs[1..][j - 1] == bs[j] && bs[1..][j] == bs[j + 1];
      var k := FlattenSeam(bs[1..], j - 1);
      i := n + k;
    }
  }

  /** Two neighbouring bands that overlap vertically, not one beside the other. */
  lemma OverlapNotBanded(bs: seq<Band>, j: nat)
    requires j + 1 < |bs| && bs[j].spans != [] && bs[j + 1].spans != []
    requires bs[j].bottom > bs[j + 1].top && bs[j].spans[|bs[j].spans| - 1].right >= bs[j + 1].spans[0].left
    ensures !Banded(Flatten(bs))
  {
    var i := FlattenSeam(bs, j);
    assert !Before(Flatten(bs)[i], Flatten(bs)[i + 1]);
  }

  // ---------------------------------------------------------------- from right to left

  /** The rows of the slabs: the span is inserted on the scanlines of the rectangle. */
  lemma WideRow(as1: seq<Band>, b: Band, s: Span, y: int, yy: int)
    requires ValidBands(as1) && b.spans == [s] && s.right < s.left && Aligned(as1, [b], y) && y <= yy
    ensures var a := RowSpans(as1, yy);
      RowSpans(Slabs(Union, as1, [b], y), yy) == if b.top <= yy < b.bottom then Inserted(a, s) else a
  {
    var a := RowSpans(as1, yy);
    SlabsRow(Union, as1, [b], y, yy);
    RowOne(b, yy);
    RowValid(as1, yy);
    if a != [] { UnionInserted(a, s); }
  }

  lemma WideIn(as1: seq<Band>, b: Band, s: Span, y: int, x: int, yy: int)
    requires ValidBands(as1) && b.spans == [s] && s.right < s.left && Aligned(as1, [b], y)
    requires as1 != [] ==> y <= as1[0].top
    ensures InBands(OpBands(Union, as1, [b], y), x, yy) <==> InBands(as1, x, yy)
  {
    var slabs, k := OpBandsAre(Union, as1, [b], y);
    SlabsLayered(Union, as1, [b], y);
    LayeredUpright(slabs);
    PairedIn(slabs, k, x, yy);
    RowIn(slabs, x, yy);
    RowIn(as1, x, yy);
    if yy < y {
      SlabsRow(Union, as1, [b], y, yy);
      AboveAll(as1, x, yy);
    } else {
      WideRow(as1, b, s, y, yy);
      InsertedIn(RowSpans(as1, yy), s, x);
    }
  }

  /** Column `x` is covered over the height of the band. */
  predicate ColumnCovered(as1: seq<Band>, b: Band, x: int) {
    forall yy :: b.top <= yy < b.bottom ==> InBands(as1, x, yy)
  }

  lemma WideSlab(as1: seq<Band>, b: Band, s: Span, y: int, slabs: seq<Band>, i: nat)
    requires ValidBands(as1) && b.spans == [s] && s.right < s.left && Aligned(as1, [b], y)
    requires ColumnCovered(as1, b, s.left - 1) && slabs == Slabs(Union, as1, [b], y) && i < |slabs|
    ensures Separated(slabs[i].spans)
  {
    var yy := slabs[i].top;
    SlabsLayered(Union, as1, [b], y);
    if i > 0 { RowOrder(slabs, 0, i); }
    RowOf(slabs, i, yy);
    WideRow(as1, b, s, y, yy);
    RowValid(as1, yy);
    RowIn(as1, s.left - 1, yy);
    InsertedIff(RowSpans(as1, yy), s);
  }

  lemma WideStaysValid(as1: seq<Band>, b: Band, s: Span, y: int)
    requires ValidBands(as1) && b.spans == [s] && s.right < s.left && Aligned(as1, [b], y)
    requires ColumnCovered(as1, b, s.left - 1)
    ensures ValidBands(OpBands(Union, as1, [b], y))
  {
    var slabs, k := OpBandsAre(Union, as1, [b], y);
    SlabsLayered(Union, as1, [b], y);
    forall i | 0 <= i < |slabs| ensures Separated(slabs[i].spans) {
      WideSlab(as1, b, s, y, slabs, i);
    }
    ValidIff(slabs);
    PairedValid(slabs, k);
  }

  lemma WideLosesForm(as1: seq<Band>, b: Band, s: Span, y: int, yy: int)
    requires ValidBands(as1) && b.spans == [s] && s.right < s.left && Aligned(as1, [b], y)
    requires y <= b.top <= yy < b.bottom && !InBands(as1, s.left - 1, yy)
    ensures !Banded(Flatten(OpBands(Union, as1, [b], y)))
  {
    var slabs, k := OpBandsAre(Union, as1, [b], y);
    WideRow(as1, b, s, y, yy);
    RowValid(as1, yy);
    RowIn(as1, s.left - 1, yy);
    InsertedIff(RowSpans(as1, yy), s);
    var i := RowBand(slabs, yy);
    var m :| 0 <= m < |slabs[i].spans| && slabs[i].spans[m] == s;
    var r := OpBands(Union, as1, [b], y);
    var j := PairedKept(slabs, k, i, r);
    ImproperNotBanded(r, j, m);
  }

  // ---------------------------------------------------------------- from the bottom to the top

  /** The part of the band above the line of the upper end, and the part that is appended again as left over. */
  function UpperPart(a: Band, b: Band): Band {
    Band(a.top, Min(a.bottom, b.top), a.spans)
  }

  function LeftPart(a: Band, b: Band): Band {
    Band(Max(a.top, b.bottom), a.bottom, a.spans)
  }

  /** The slabs from the first band on that reaches the lower end. */
  function TallTail(rest: seq<Band>, b: Band): seq<Band> {
    if rest == [] then [b]
    else if rest[0].top == b.top || rest[0].bottom == b.bottom then rest
    else if rest[0].top > b.top then [b] + rest
    else [UpperPart(rest[0], b), LeftPart(rest[0], b)] + rest[1..]
  }

  /** `k` bands end above the lower end, and the next one does not. */
  ghost predicate ReachesAt(as1: seq<Band>, b: Band, k: nat) {
    && k <= |as1| && (forall i :: 0 <= i < k ==> as1[i].bottom < b.bottom)
    && (k < |as1| ==> as1[k].bottom >= b.bottom)
  }

  /** The bands left over once the lower end is reached. */
  lemma TallLeft(as1: seq<Band>, b: Band)
    requires ValidBands(as1) && b.bottom < b.top && as1 != [] && as1[0].bottom >= b.bottom
    ensures ClipTop(Advance(as1, b.bottom), b.bottom) ==
      if as1[0].bottom == b.bottom then as1[1..] else [LeftPart(as1[0], b)] + as1[1..]
  {
    ClipTopBelow(as1[1..], b.bottom);
  }

  lemma TallAbove(a: Band, b: Band, y: int)
    requires a.top < a.bottom && b.bottom < b.top && y <= b.top && y <= a.top
    ensures AboveSlab(Union, a, b, y) ==
      if a.top == b.top then [] else if a.top > b.top then [b] else [UpperPart(a, b)]
  {
  }

  lemma TallTurn(as1: seq<Band>, b: Band, y: int)
    requires b.bottom < b.top && as1 != [] && as1[0].bottom >= b.bottom
    ensures Slabs(Union, as1, [b], y) == AboveSlab(Union, as1[0], b, y) + ClipTop(Advance(as1, b.bottom), b.bottom)
    ensures MainCount(Union, as1, [b], y) == |AboveSlab(Union, as1[0], b, y)|
  {
    assert Min(as1[0].bottom, b.bottom) == b.bottom;
    assert Advance([b], b.bottom) == [] && MeetSlab(Union, as1[0], b) == [];
    LastTurn(Union, as1, [b], y, b.bottom);
  }

  lemma LastTurn(op: SetOp, as1: seq<Band>, bs: seq<Band>, y: int, ybot: int)
    requires as1 != [] && bs != [] && ybot == Min(as1[0].bottom, bs[0].bottom) && Advance(bs, ybot) == []
    requires MeetSlab(op, as1[0], bs[0]) == [] && Keeps1(op)
    ensures Slabs(op, as1, bs, y) == AboveSlab(op, as1[0], bs[0], y) + ClipTop(Advance(as1, ybot), ybot)
    ensures MainCount(op, as1, bs, y) == |AboveSlab(op, as1[0], bs[0], y)|
  {
    var above := AboveSlab(op, as1[0], bs[0], y);
    assert above + [] == above;
    assert Slabs(op, Advance(as1, ybot), [], ybot) == ClipTop(Advance(as1, ybot), ybot);
  }

  /** A part that is the whole band. */
  lemma PartsWhole(a: Band, b: Band)
    requires a.top < a.bottom && b.bottom < b.top && a.bottom >= b.bottom
    ensures a.top >= b.top ==> LeftPart(a, b) == a && a.bottom > b.bottom
    ensures a.bottom == b.bottom ==> UpperPart(a, b) == a && a.top < b.top
  {
  }

  lemma HeadAgain(bs: seq<Band>, a: Band, rest: seq<Band>, all: seq<Band>)
    requires bs != [] && a == bs[0] && rest == bs[1..]
    ensures all == [] + ([a] + rest) || all == [a] + rest ==> all == bs
  {
  }

  lemma TwoHeads(p: Band, q: Band, rest: seq<Band>)
    ensures [p] + ([q] + rest) == [p, q] + rest
  {
  }

  lemma TallPieces(as1: seq<Band>, b: Band, above: seq<Band>, left: seq<Band>)
    requires b.bottom < b.top && as1 != [] && as1[0].top < as1[0].bottom && as1[0].bottom >= b.bottom
    requires above ==
      if as1[0].top == b.top then [] else if as1[0].top > b.top then [b] else [UpperPart(as1[0], b)]
    requires left == if as1[0].bottom == b.bottom then as1[1..] else [LeftPart(as1[0], b)] + as1[1..]
    ensures above + left == TallTail(as1, b)
  {
    PartsWhole(as1[0], b);
    HeadAgain(as1, as1[0], as1[1..], above + left);
    TwoHeads(UpperPart(as1[0], b), LeftPart(as1[0], b), as1[1..]);
  }

  lemma TallEnd(as1: seq<Band>, b: Band, y: int)
    requires ValidBands(as1) && b.bottom < b.top && y <= b.top && (as1 != [] ==> y <= as1[0].top)
    requires as1 != [] ==> as1[0].bottom >= b.bottom
    ensures Slabs(Union, as1, [b], y) == TallTail(as1, b)
    ensures as1 != [] ==> MainCount(Union, as1, [b], y) == if as1[0].top == b.top then 0 else 1
  {
    if as1 == [] {
      TallAlone(b, y);
    } else {
      TallTurn(as1, b, y);
      TallAbove(as1[0], b, y);
      TallLeft(as1, b);
      TallPieces(as1, b, AboveSlab(Union, as1[0], b, y), ClipTop(Advance(as1, b.bottom), b.bottom));
    }
  }

  lemma TallAlone(b: Band, y: int)
    requires y <= b.top
    ensures Slabs(Union, [], [b], y) == [b]
  {
    assert [b][1..] == [] && ClipTop([], y) == [];
    assert ClipTop([b], y) == [b];
  }

  lemma ReachesNext(as1: seq<Band>, b: Band, j: nat)
    requires as1 != [] && as1[0].bottom < b.bottom && ReachesAt(as1[1..], b, j)
    ensures ReachesAt(as1, b, j + 1)
  {
    forall i | 0 <= i < j + 1 ensures as1[i].bottom < b.bottom {
      if i > 0 { assert as1[i] == as1[1..][i - 1]; }
    }
  }

  lemma OneMoreSlab(as1: seq<Band>, j: nat, k: nat, tail: seq<Band>, slabs: seq<Band>, rest: seq<Band>)
    requires k == j + 1 <= |as1| && rest == as1[1..][..j] + tail && slabs == [as1[0]] + rest
    ensures as1[1..][j..] == as1[k..] && slabs == as1[..k] + tail
    ensures k < |as1| ==> as1[1..][j] == as1[k]
  {
  }

  lemma TallStep(as1: seq<Band>, b: Band, y: int)
    requires ValidBands(as1) && b.bottom < b.top && as1 != [] && as1[0].bottom < b.bottom && y <= as1[0].top
    ensures Slabs(Union, as1, [b], y) == [as1[0]] + Slabs(Union, as1[1..], [b], as1[0].bottom)
    ensures MainCount(Union, as1, [b], y) == 1 + MainCount(Union, as1[1..], [b], as1[0].bottom)
  {
    assert AboveSlab(Union, as1[0], b, y) == [as1[0]] && MeetSlab(Union, as1[0], b) == [];
    assert Advance([b], as1[0].bottom) == [b];
    assert [as1[0]] + [] == [as1[0]];
  }

  lemma {:induction false} TallSlabs(as1: seq<Band>, b: Band, y: int) returns (k: nat)
    requires ValidBands(as1) && b.bottom < b.top && y <= b.top && (as1 != [] ==> y <= as1[0].top)
    ensures ReachesAt(as1, b, k) && Slabs(Union, as1, [b], y) == as1[..k] + TallTail(as1[k..], b)
    ensures k < |as1| ==> MainCount(Union, as1, [b], y) == k + if as1[k].top == b.top then 0 else 1
    decreases |as1|
  {
    if as1 == [] || as1[0].bottom >= b.bottom {
      k := 0;
      TallEnd(as1, b, y);
      assert as1[0..] == as1 && as1[..0] + TallTail(as1, b) == TallTail(as1, b);
    } else {
      var a := as1[0];
      var j := TallSlabs(as1[1..], b, a.bottom);
      k := j + 1;
      TallStep(as1, b, y);
      ReachesNext(as1, b, j);
      OneMoreSlab(as1, j, k, TallTail(as1[1..][j..], b), Slabs(Union, as1, [b], y),
                  Slabs(Union, as1[1..], [b], a.bottom));
    }
  }

  /** The slabs of a sweep with a band that runs from the bottom to the top. */
  ghost predicate TallAt(as1: seq<Band>, b: Band, k: nat, slabs: seq<Band>) {
    && ValidBands(as1) && b.bottom < b.top && |b.spans| == 1
    && ReachesAt(as1, b, k) && slabs == as1[..k] + TallTail(as1[k..], b)
  }

  /** The band that reaches the lower end ends there, or begins at the upper end. */
  predicate LandsAt(as1: seq<Band>, b: Band, k: nat) {
    k < |as1| && (as1[k].top == b.top || as1[k].bottom == b.bottom)
  }

  /** ... or begins below the upper end, if there is any: then the band itself is appended. */
  predicate PassesAt(as1: seq<Band>, b: Band, k: nat) {
    k <= |as1| && (k < |as1| ==> as1[k].top > b.top)
  }

  lemma TailIn(rest: seq<Band>, b: Band, x: int, y: int)
    requires ValidBands(rest) && b.bottom < b.top && (rest != [] ==> rest[0].bottom >= b.bottom)
    ensures InBands(TallTail(rest, b), x, y) <==> InBands(rest, x, y)
  {
    if rest == [] || rest[0].top > b.top {
      assert ([b] + rest)[1..] == rest;
    } else if !LandsAt(rest, b, 0) {
      var tail := TallTail(rest, b);
      assert tail[1..] == [LeftPart(rest[0], b)] + rest[1..] && tail[1..][1..] == rest[1..];
    }
  }

  lemma ValidSuffix(as1: seq<Band>, k: nat)
    requires ValidBands(as1) && k <= |as1|
    ensures ValidBands(as1[k..])
  {
    forall i | 0 <= i < |as1[k..]| ensures ValidBand(as1[k..][i]) {
      assert as1[k..][i] == as1[k + i];
    }
  }

  lemma SameTailIn(pre: seq<Band>, tail1: seq<Band>, tail2: seq<Band>, all1: seq<Band>, all2: seq<Band>, x: int, y: int)
    requires all1 == pre + tail1 && all2 == pre + tail2 && (InBands(tail1, x, y) <==> InBands(tail2, x, y))
    ensures InBands(all1, x, y) <==> InBands(all2, x, y)
  {
    InConcat(pre, tail1, x, y);
    InConcat(pre, tail2, x, y);
  }

  lemma SplitBands(bs: seq<Band>, k: nat)
    requires k <= |bs|
    ensures bs == bs[..k] + bs[k..]
  {
  }

  lemma TallIn(as1: seq<Band>, b: Band, k: nat, slabs: seq<Band>, x: int, y: int)
    requires TallAt(as1, b, k, slabs)
    ensures InBands(slabs, x, y) <==> InBands(as1, x, y)
  {
    ValidSuffix(as1, k);
    TailIn(as1[k..], b, x, y);
    SplitBands(as1, k);
    SameTailIn(as1[..k], TallTail(as1[k..], b), as1[k..], slabs, as1, x, y);
  }

  /** Slab by slab: the band itself in between, or the band at `k` in two parts. */
  ghost predicate WithBand(as1: seq<Band>, b: Band, k: nat, slabs: seq<Band>) {
    && k <= |as1| && |slabs| == |as1| + 1 && slabs[k] == b
    && (forall i :: 0 <= i < k ==> slabs[i] == as1[i])
    && (forall i :: k < i < |slabs| ==> slabs[i] == as1[i - 1])
  }

  ghost predicate WithParts(as1: seq<Band>, b: Band, k: nat, slabs: seq<Band>) {
    && k < |as1| && |slabs| == |as1| + 1 && slabs[k] == UpperPart(as1[k], b) && slabs[k + 1] == LeftPart(as1[k], b)
    && (forall i :: 0 <= i < k ==> slabs[i] == as1[i])
    && (forall i :: k + 1 < i < |slabs| ==> slabs[i] == as1[i - 1])
  }

  lemma TailPasses(rest: seq<Band>, b: Band)
    requires PassesAt(rest, b, 0) && (rest != [] ==> rest[0].bottom != b.bottom)
    ensures TallTail(rest, b) == [b] + rest
  {
  }

  lemma TailTears(rest: seq<Band>, b: Band)
    requires !PassesAt(rest, b, 0) && !LandsAt(rest, b, 0)
    ensures rest != [] && TallTail(rest, b) == [UpperPart(rest[0], b), LeftPart(rest[0], b)] + rest[1..]
  {
  }

  lemma BandBetween(as1: seq<Band>, b: Band, k: nat, slabs: seq<Band>)
    requires k <= |as1| && slabs == as1[..k] + ([b] + as1[k..])
    ensures WithBand(as1, b, k, slabs)
  {
  }

  lemma PartsBetween(as1: seq<Band>, b: Band, k: nat, slabs: seq<Band>)
    requires k < |as1|
    requires slabs == as1[..k] + ([UpperPart(as1[k..][0], b), LeftPart(as1[k..][0], b)] + as1[k..][1..])
    ensures WithParts(as1, b, k, slabs)
  {
  }

  lemma PassedAre(as1: seq<Band>, b: Band, k: nat, slabs: seq<Band>)
    requires TallAt(as1, b, k, slabs) && PassesAt(as1, b, k)
    ensures WithBand(as1, b, k, slabs)
  {
    TailPasses(as1[k..], b);
    BandBetween(as1, b, k, slabs);
  }

  lemma TornAre(as1: seq<Band>, b: Band, k: nat, slabs: seq<Band>)
    requires TallAt(as1, b, k, slabs) && !PassesAt(as1, b, k) && !LandsAt(as1, b, k)
    ensures WithParts(as1, b, k, slabs)
  {
    TailTears(as1[k..], b);
    PartsBetween(as1, b, k, slabs);
  }

  lemma ValidAt(as1: seq<Band>, i: nat)
    requires ValidBands(as1) && i < |as1|
    ensures as1[i].top < as1[i].bottom && as1[i].spans != []
    ensures i + 1 < |as1| ==> as1[i].bottom <= as1[i + 1].top
  {
    assert ValidBand(as1[i]);
  }

  lemma WithBandPair(as1: seq<Band>, b: Band, k: nat, slabs: seq<Band>, i: nat)
    requires ValidBands(as1) && b.bottom < b.top && |b.spans| == 1 && ReachesAt(as1, b, k) && PassesAt(as1, b, k)
    requires WithBand(as1, b, k, slabs) && i < |slabs|
    ensures slabs[i].spans != [] && slabs[i].top != slabs[i].bottom
    ensures i + 1 < |slabs| ==> slabs[i].top < slabs[i + 1].top
    ensures i + 1 < |slabs| && Mergeable(slabs[i], slabs[i + 1]) ==>
      i != k && i + 1 != k && slabs[i].top <= slabs[i].bottom <= slabs[i + 1].bottom
  {
    if i < k { ValidAt(as1, i); }
    if i > k { ValidAt(as1, i - 1); }
    if k <= i < |as1| { ValidAt(as1, i); }
    if i + 1 < k { ValidAt(as1, i + 1); }
  }

  lemma PassedSlabs(as1: seq<Band>, b: Band, k: nat, slabs: seq<Band>)
    requires TallAt(as1, b, k, slabs) && PassesAt(as1, b, k)
    ensures k < |slabs| && slabs[k] == b && Stacked(slabs) && MergesUpright(slabs)
    ensures k > 0 ==> !Mergeable(slabs[k - 1], slabs[k])
    ensures k + 1 < |slabs| ==> !Mergeable(slabs[k], slabs[k + 1])
  {
    PassedAre(as1, b, k, slabs);
    forall i | 0 <= i < |slabs|
      ensures slabs[i].spans != [] && slabs[i].top != slabs[i].bottom
      ensures i + 1 < |slabs| ==> slabs[i].top < slabs[i + 1].top
      ensures i + 1 < |slabs| && Mergeable(slabs[i], slabs[i + 1]) ==>
        i != k && i + 1 != k && slabs[i].top <= slabs[i].bottom <= slabs[i + 1].bottom {
      WithBandPair(as1, b, k, slabs, i);
    }
  }

  lemma WithPartsPair(as1: seq<Band>, b: Band, k: nat, slabs: seq<Band>, i: nat)
    requires ValidBands(as1) && b.bottom < b.top && ReachesAt(as1, b, k)
    requires !PassesAt(as1, b, k) && !LandsAt(as1, b, k) && WithParts(as1, b, k, slabs) && i < |slabs|
    ensures slabs[i].spans != [] && slabs[i].top < slabs[i].bottom
    ensures i + 1 < |slabs| && (i != k || as1[k].top < b.bottom) ==> slabs[i].top < slabs[i + 1].top
    ensures i == k ==> slabs[i].bottom > slabs[i + 1].top
  {
    ValidAt(as1, k);
    if i < k { ValidAt(as1, i); }
    if i > k { ValidAt(as1, i - 1); }
    if k < i < |as1| { ValidAt(as1, i); }
  }

  lemma StackedUpTo(slabs: seq<Band>, n: nat)
    requires n <= |slabs| && forall i :: 0 <= i < n ==> slabs[i].spans != [] && slabs[i].top != slabs[i].bottom
    requires forall i :: 0 <= i < n - 1 ==> slabs[i].top < slabs[i + 1].top
    ensures Stacked(slabs[..n])
  {
  }

  lemma TornSlabs(as1: seq<Band>, b: Band, k: nat, slabs: seq<Band>)
    requires TallAt(as1, b, k, slabs) && !PassesAt(as1, b, k) && !LandsAt(as1, b, k)
    ensures WithParts(as1, b, k, slabs) && slabs[k].bottom > slabs[k + 1].top && MergesUpright(slabs)
    ensures Stacked(slabs[..k + 1]) && (as1[k].top < b.bottom ==> Stacked(slabs))
  {
    TornAre(as1, b, k, slabs);
    forall i | 0 <= i < |slabs|
      ensures slabs[i].spans != [] && slabs[i].top < slabs[i].bottom
      ensures i + 1 < |slabs| && (i != k || as1[k].top < b.bottom) ==> slabs[i].top < slabs[i + 1].top
      ensures i == k ==> slabs[i].bottom > slabs[i + 1].top {
      WithPartsPair(as1, b, k, slabs, i);
    }
    StackedUpTo(slabs, k + 1);
  }

  // ---------------------------------------------------------------- the list after the sweep

  /** The rectangles of a band do not stand on the left of themselves. */
  lemma NotBesideItself(ss: seq<Span>)
    requires Separated(ss) && ss != []
    ensures ss[|ss| - 1].right >= ss[0].left
  {
    if |ss| > 1 { SeparatedOrder(ss, 0, |ss| - 1); }
  }

  ghost predicate SamePlaces(r: seq<Band>, as1: seq<Band>) {
    forall x, y :: InBands(r, x, y) <==> InBands(as1, x, y)
  }

  lemma TallPairedIn(as1: seq<Band>, b: Band, k: nat, slabs: seq<Band>, m: nat, r: seq<Band>)
    requires TallAt(as1, b, k, slabs) && MergesUpright(slabs)
    requires m <= |slabs| && r == MergePairs(slabs[..m]) + slabs[m..]
    ensures SamePlaces(r, as1)
  {
    forall x, y ensures InBands(r, x, y) <==> InBands(as1, x, y) {
      PairedIn(slabs, m, x, y);
      TallIn(as1, b, k, slabs, x, y);
    }
  }

  lemma LandedResult(as1: seq<Band>, b: Band, y: int, k: nat, slabs: seq<Band>) returns (r: seq<Band>)
    requires TallAt(as1, b, k, slabs) && LandsAt(as1, b, k) && slabs == Slabs(Union, as1, [b], y)
    ensures SweepFrom(Union, as1, [b], y, NO_OUTPUT) == Flatten(r) && ValidBands(r) && SamePlaces(r, as1)
  {
    SplitBands(as1, k);
    ValidIff(as1);
    LayeredIsStacked(as1);
    SweepIsOpBands(Union, as1, [b], y);
    var slabs', m := OpBandsAre(Union, as1, [b], y);
    r := OpBands(Union, as1, [b], y);
    PairedValid(slabs, m);
    LayeredUpright(as1);
    TallPairedIn(as1, b, k, slabs, m, r);
  }

  lemma PassedResult(as1: seq<Band>, b: Band, y: int, k: nat, slabs: seq<Band>) returns (r: seq<Band>)
    requires TallAt(as1, b, k, slabs) && PassesAt(as1, b, k) && slabs == Slabs(Union, as1, [b], y)
    ensures SweepFrom(Union, as1, [b], y, NO_OUTPUT) == Flatten(r) && !Banded(Flatten(r)) && SamePlaces(r, as1)
  {
    PassedSlabs(as1, b, k, slabs);
    SweepIsOpBands(Union, as1, [b], y);
    var slabs', m := OpBandsAre(Union, as1, [b], y);
    r := OpBands(Union, as1, [b], y);
    var j := PairedKept(slabs, m, k, r);
    ImproperNotBanded(r, j, 0);
    TallPairedIn(as1, b, k, slabs, m, r);
  }

  lemma TornResult(as1: seq<Band>, b: Band, y: int, k: nat, slabs: seq<Band>) returns (r: seq<Band>)
    requires TallAt(as1, b, k, slabs) && !PassesAt(as1, b, k) && !LandsAt(as1, b, k) && as1[k].top < b.bottom
    requires slabs == Slabs(Union, as1, [b], y) && MainCount(Union, as1, [b], y) == k + 1
    ensures SweepFrom(Union, as1, [b], y, NO_OUTPUT) == Flatten(r) && !Banded(Flatten(r)) && SamePlaces(r, as1)
  {
    TornSlabs(as1, b, k, slabs);
    SweepIsOpBands(Union, as1, [b], y);
    var slabs', m := OpBandsAre(Union, as1, [b], y);
    r := OpBands(Union, as1, [b], y);
    var j := Kept(slabs[..m], k);
    assert ValidBand(as1[k]);
    NotBesideItself(as1[k].spans);
    OverlapNotBanded(r, j);
    TallPairedIn(as1, b, k, slabs, m, r);
  }

  lemma PendSizes(rs: seq<Rect>, done: seq<Band>, pend: seq<Band>)
    requires Ordered(done + pend) && 1 <= |pend| <= 2 && (|pend| == 2 ==> |pend[0].spans| == 1)
    requires rs == Flatten(done + pend)
    ensures var last := pend[|pend| - 1];
      && last.spans != [] && |rs| == |Flatten(done)| + (if |pend| == 2 then 1 else 0) + |last.spans|
      && rs[|rs| - 1].top == last.top
  {
    OrderedPart(done, pend);
    LastRectTop(done + pend);
    FlattenConcat(done, pend);
    if |pend| == 1 {
      assert pend == [pend[0]];
      FlattenOne(pend[0]);
    } else {
      assert pend == [pend[0]] + [pend[1]];
      FlattenSnoc([pend[0]], pend[1]);
      FlattenOne(pend[0]);
    }
  }

  lemma HeadRun(news: seq<Band>)
    requires news != [] && Ordered(news)
    ensures var f, n := Flatten(news), |news[0].spans|;
      && n <= |f| && (forall i :: 0 <= i < n ==> f[i].top == news[0].top)
      && (n < |f| ==> f[n].top != news[0].top)
  {
    if |news| > 1 { assert Flatten(news[1..])[0] == BandRects(news[1])[0]; }
  }

  lemma RunOn(rs: seq<Rect>, more: seq<Rect>, n: nat, top: int)
    requires rs != [] && rs[|rs| - 1].top == top && n <= |more|
    requires (forall i :: 0 <= i < n ==> more[i].top == top) && (n < |more| ==> more[n].top != top)
    ensures BandEnd(rs + more, |rs| - 1) == |rs| + n
  {
    var all, cur := rs + more, |rs| - 1;
    var e := BandEnd(all, cur);
    assert all[cur].top == top;
    assert forall i :: |rs| <= i < |rs| + n ==> all[i] == more[i - |rs|];
    assert n < |more| ==> all[|rs| + n] == more[n];
  }

  /** The last call finds the left over part of the tail band in the same run of tops, and merges nothing. */
  lemma FlushCall(o: Output, done: seq<Band>, pend: seq<Band>, news: seq<Band>)
    requires Pending(o.rects, done, pend, o.prev) && Reaches(o) && pend != [] && news != [] && Ordered(news)
    requires news[0].top == pend[|pend| - 1].top && |news[0].spans| == |pend[|pend| - 1].spans|
    ensures Added(o, o.rects + Flatten(news)).rects == o.rects + Flatten(news)
  {
    var rs, more := o.rects, Flatten(news);
    var all := rs + more;
    var last := pend[|pend| - 1];
    var n := |last.spans|;
    var cur := |rs| - 1;
    PendSizes(rs, done, pend);
    HeadRun(news);
    RunOn(rs, more, n, last.top);
    assert !Merges(all, o.prev, cur, BandEnd(all, cur));
  }

  /** A band behind the pairing that starts above the end of the last one. */
  lemma {:induction false} FlushSeam(head: seq<Band>, news: seq<Band>, ss: seq<Span>)
    requires head != [] && news != [] && head[|head| - 1].spans == ss && news[0].spans == ss
    requires Separated(ss) && ss != [] && head[|head| - 1].bottom > news[0].top
    ensures !Banded(Flatten(MergePairs(head) + news))
  {
    MergePairsEnds(head);
    NotBesideItself(ss);
    OverlapNotBanded(MergePairs(head) + news, |MergePairs(head)| - 1);
  }

  lemma PartsBehind(as1: seq<Band>, b: Band, k: nat, slabs: seq<Band>)
    requires TallAt(as1, b, k, slabs) && !PassesAt(as1, b, k) && !LandsAt(as1, b, k)
    ensures k + 1 < |slabs| && Ordered(slabs[k + 1..])
  {
    TornSlabs(as1, b, k, slabs);
    var news := slabs[k + 1..];
    forall i | 0 <= i < |news| ensures news[i].spans != [] && (i + 1 < |news| ==> news[i].top < news[i + 1].top) {
      WithPartsPair(as1, b, k, slabs, k + 1 + i);
    }
  }

  lemma FlushEnd(o: Output, slabs: seq<Band>, n: nat, head: seq<Band>, news: seq<Band>)
    requires 0 < n < |slabs| && head == slabs[..n] && news == slabs[n..] && Stacked(head) && Ordered(news)
    requires slabs[n].top == slabs[n - 1].top && |slabs[n].spans| == |slabs[n - 1].spans|
    requires Reaches(o) && AtOutput(o, Folded(head))
    ensures Added(o, o.rects + Flatten(news)).rects == Flatten(MergePairs(head) + news)
  {
    var s := Folded(head);
    FoldedLast(slabs, n);
    FlushCall(o, s.done, s.pend, news);
    FoldedPairs(head);
    FlattenConcat(MergePairs(head), news);
  }

  lemma FlushList(as1: seq<Band>, b: Band, y: int, k: nat, slabs: seq<Band>, head: seq<Band>, news: seq<Band>)
    requires TallAt(as1, b, k, slabs) && !PassesAt(as1, b, k) && !LandsAt(as1, b, k) && as1[k].top >= b.bottom
    requires slabs == Slabs(Union, as1, [b], y) && MainCount(Union, as1, [b], y) == k + 1
    requires k + 1 <= |slabs| && head == slabs[..k + 1] && news == slabs[k + 1..]
    ensures SweepFrom(Union, as1, [b], y, NO_OUTPUT) == Flatten(MergePairs(head) + news)
  {
    TornSlabs(as1, b, k, slabs);
    PartsBehind(as1, b, k, slabs);
    assert slabs[0..] == slabs && slabs[..0] == [];
    var o := SweepMain(Union, as1, [b], y, slabs, k + 1, 0, NO_OUTPUT);
    FlushEnd(o, slabs, k + 1, head, news);
  }

  lemma FlushResult(as1: seq<Band>, b: Band, y: int, k: nat, slabs: seq<Band>) returns (r: seq<Band>)
    requires TallAt(as1, b, k, slabs) && !PassesAt(as1, b, k) && !LandsAt(as1, b, k) && as1[k].top >= b.bottom
    requires slabs == Slabs(Union, as1, [b], y) && MainCount(Union, as1, [b], y) == k + 1
    ensures SweepFrom(Union, as1, [b], y, NO_OUTPUT) == Flatten(r) && !Banded(Flatten(r)) && SamePlaces(r, as1)
  {
    TornSlabs(as1, b, k, slabs);
    var head, news := slabs[..k + 1], slabs[k + 1..];
    r := MergePairs(head) + news;
    FlushList(as1, b, y, k, slabs, head, news);
    assert ValidBand(as1[k]);
    FlushSeam(head, news, as1[k].spans);
    TallPairedIn(as1, b, k, slabs, k + 1, r);
  }

  /** What a sweep with a band from the bottom to the top leaves. */
  lemma TallResult(as1: seq<Band>, b: Band, y: int) returns (r: seq<Band>, k: nat)
    requires ValidBands(as1) && b.bottom < b.top && |b.spans| == 1 && y <= b.top && (as1 != [] ==> y <= as1[0].top)
    ensures ReachesAt(as1, b, k)
    ensures SweepFrom(Union, as1, [b], y, NO_OUTPUT) == Flatten(r) && SamePlaces(r, as1)
    ensures if LandsAt(as1, b, k) then ValidBands(r) else !Banded(Flatten(r))
  {
    k := TallSlabs(as1, b, y);
    var slabs := Slabs(Union, as1, [b], y);
    if LandsAt(as1, b, k) {
      r := LandedResult(as1, b, y, k, slabs);
    } else if PassesAt(as1, b, k) {
      r := PassedResult(as1, b, y, k, slabs);
    } else if as1[k].top < b.bottom {
      r := TornResult(as1, b, y, k, slabs);
    } else {
      r := FlushResult(as1, b, y, k, slabs);
    }
  }

  // ---------------------------------------------------------------- AddClipRect

  /** The first rectangle that ends at the line `bottom` or below ends there, or begins at the line `top`. */
  predicate Lands(rs: seq<Rect>, top: int, bottom: int) {
    exists i :: 0 <= i < |rs| && LandsOn(rs, i, top, bottom)
  }

  predicate LandsOn(rs: seq<Rect>, i: nat, top: int, bottom: int)
    requires i < |rs|
  {
    && (rs[i].top == top || rs[i].bottom == bottom) && rs[i].bottom >= bottom
    && forall j :: 0 <= j < i ==> rs[j].bottom < bottom
  }

  lemma LandsBehind(head: seq<Rect>, rest: seq<Rect>, top: int, bottom: int)
    requires forall i :: 0 <= i < |head| ==> head[i].bottom < bottom
    ensures Lands(head + rest, top, bottom) <==> Lands(rest, top, bottom)
  {
    var rs, n := head + rest, |head|;
    if i :| 0 <= i < |rs| && LandsOn(rs, i, top, bottom) {
      assert i >= n;
      assert forall j :: 0 <= j < i - n ==> rest[j] == rs[n + j];
      assert LandsOn(rest, i - n, top, bottom);
    }
    if i :| 0 <= i < |rest| && LandsOn(rest, i, top, bottom) {
      assert LandsOn(rs, n + i, top, bottom);
    }
  }

  lemma {:induction false} LandsIff(bs: seq<Band>, b: Band, k: nat)
    requires ValidBands(bs) && ReachesAt(bs, b, k)
    ensures LandsAt(bs, b, k) <==> Lands(Flatten(bs), b.top, b.bottom)
    decreases |bs|
  {
    if bs == [] {
    } else if k == 0 {
      var f := Flatten(bs);
      assert ValidBand(bs[0]) && f[0] == BandRects(bs[0])[0];
      if Lands(f, b.top, b.bottom) {
        var i :| 0 <= i < |f| && LandsOn(f, i, b.top, b.bottom);
        assert i == 0;
      } else {
        assert !LandsOn(f, 0, b.top, b.bottom);
      }
    } else {
      assert forall i :: 0 <= i < k - 1 ==> bs[1..][i] == bs[i + 1];
      LandsIff(bs[1..], b, k - 1);
      LandsBehind(BandRects(bs[0]), Flatten(bs[1..]), b.top, b.bottom);
    }
  }

  /** Column `x` of the region is covered from the line `top` to the line `bottom`. */
  predicate ColumnIn(v: Region, x: int, top: int, bottom: int) {
    forall y :: top <= y < bottom ==> InRegion(v, x, y)
  }

  /** Where the sweep starts. */
  function Start(v: Region, rect: Rect): int {
    Min(v.bound.top, rect.top)
  }

  /** When no point is lost: always, but for a stale region whose cell lies above the start, and for that if the
      rectangle runs up to the cell or farther. */
  predicate AddGuard(v: Region, rect: Rect) {
    v.rects == [] || Subsumes(v, Single(rect)) || Start(v, rect) <= Top(v) || rect.bottom <= Top(v)
  }

  /** For a sweep that starts above the region: a rectangle from the bottom to the top lands on the sides of a band,
      or a rectangle from right to left has the region on its left. */
  predicate Fits(v: Region, rect: Rect) {
    if rect.top > rect.bottom then Lands(v.rects, rect.top, rect.bottom)
    else ColumnIn(v, rect.left - 1, rect.top, rect.bottom)
  }

  /** When the list is still banded: the region is one rectangle that seems to contain the new one, or the new one
      fits, or the sweep starts on the line below a stale cell. */
  predicate KeepsForm(v: Region, rect: Rect) {
    v.rects != [] &&
    (|| Subsumes(v, Single(rect))
     || (Start(v, rect) <= Top(v) && Fits(v, rect))
     || (Start(v, rect) == Top(v) + 1 && rect.bottom <= Top(v)))
  }

  /** The list `rs` holds the points of `v` and is banded exactly if the form is kept. */
  ghost predicate SweptRight(rs: seq<Rect>, v: Region, kept: bool) {
    (forall x, y :: Covers(rs, x, y) <==> InRegion(v, x, y)) && (Banded(rs) <==> kept)
  }

  lemma PlacesCover(r: seq<Band>, as1: seq<Band>, v: Region)
    requires Banded(v.rects) && as1 == ToBands(v.rects) && SamePlaces(r, as1)
    ensures forall x, y :: Covers(Flatten(r), x, y) <==> InRegion(v, x, y)
  {
    forall x, y ensures Covers(Flatten(r), x, y) <==> InRegion(v, x, y) {
      FlattenIn(r, x, y);
      ToBandsIn(v.rects, x, y);
      assert InBands(r, x, y) <==> InBands(as1, x, y);
    }
  }

  lemma SweptIs(rs: seq<Rect>, r: seq<Band>, as1: seq<Band>, v: Region, kept: bool)
    requires Banded(v.rects) && as1 == ToBands(v.rects) && SamePlaces(r, as1)
    requires rs == Flatten(r) && (Banded(Flatten(r)) <==> kept)
    ensures SweptRight(rs, v, kept)
  {
    PlacesCover(r, as1, v);
  }

  lemma TallSwept(v: Region, rect: Rect, as1: seq<Band>, b: Band, y: int)
    requires Banded(v.rects) && v.rects != [] && as1 == ToBands(v.rects) && ValidBands(as1) && Flatten(as1) == v.rects
    requires b == Band(rect.top, rect.bottom, [Span(rect.left, rect.right)]) && rect.top > rect.bottom
    requires y <= b.top && (as1 != [] ==> y <= as1[0].top)
    ensures SweptRight(SweepFrom(Union, as1, [b], y, NO_OUTPUT), v, Fits(v, rect))
  {
    var r, k := TallResult(as1, b, y);
    LandsIff(as1, b, k);
    if LandsAt(as1, b, k) { FlattenBanded(r); }
    SweptIs(SweepFrom(Union, as1, [b], y, NO_OUTPUT), r, as1, v, Fits(v, rect));
  }

  lemma WideBanded(as1: seq<Band>, b: Band, s: Span, y: int)
    requires ValidBands(as1) && b.spans == [s] && s.right < s.left && Aligned(as1, [b], y) && y <= b.top
    ensures Banded(Flatten(OpBands(Union, as1, [b], y))) <==> ColumnCovered(as1, b, s.left - 1)
  {
    if ColumnCovered(as1, b, s.left - 1) {
      WideStaysValid(as1, b, s, y);
      FlattenBanded(OpBands(Union, as1, [b], y));
    } else {
      var yy :| b.top <= yy < b.bottom && !InBands(as1, s.left - 1, yy);
      WideLosesForm(as1, b, s, y, yy);
    }
  }

  lemma ColumnIs(v: Region, as1: seq<Band>, b: Band, x: int, top: int, bottom: int)
    requires Banded(v.rects) && as1 == ToBands(v.rects) && b.top == top && b.bottom == bottom
    ensures ColumnCovered(as1, b, x) <==> ColumnIn(v, x, top, bottom)
  {
    forall y ensures InBands(as1, x, y) <==> InRegion(v, x, y) {
      ToBandsIn(v.rects, x, y);
    }
  }

  lemma WideAligned(as1: seq<Band>, b: Band, y: int)
    requires ValidBands(as1) && as1 != [] && b.top < b.bottom && b.spans != []
    requires y <= b.top && y <= as1[0].top
    ensures Aligned(as1, [b], y)
  {
    ValidIff(as1);
  }

  lemma WideSweep(as1: seq<Band>, b: Band, y: int)
    requires Aligned(as1, [b], y)
    ensures SweepFrom(Union, as1, [b], y, NO_OUTPUT) == Flatten(OpBands(Union, as1, [b], y))
  {
    SlabsLayered(Union, as1, [b], y);
    LayeredIsStacked(Slabs(Union, as1, [b], y));
    SweepIsOpBands(Union, as1, [b], y);
  }

  lemma WideResult(as1: seq<Band>, b: Band, s: Span, y: int, x: int) returns (r: seq<Band>)
    requires ValidBands(as1) && as1 != [] && b.spans == [s] && s.right < s.left && Aligned(as1, [b], y)
    requires y <= b.top && y <= as1[0].top && x == s.left - 1
    ensures SweepFrom(Union, as1, [b], y, NO_OUTPUT) == Flatten(r) && SamePlaces(r, as1)
    ensures Banded(Flatten(r)) <==> ColumnCovered(as1, b, x)
  {
    WideSweep(as1, b, y);
    WideBanded(as1, b, s, y);
    r := OpBands(Union, as1, [b], y);
    forall xx, yy ensures InBands(r, xx, yy) <==> InBands(as1, xx, yy) {
      WideIn(as1, b, s, y, xx, yy);
    }
  }

  lemma WideFits(v: Region, rect: Rect, as1: seq<Band>, b: Band, x: int)
    requires Banded(v.rects) && as1 == ToBands(v.rects) && rect.top < rect.bottom
    requires b.top == rect.top && b.bottom == rect.bottom && x == rect.left - 1
    ensures ColumnCovered(as1, b, x) <==> Fits(v, rect)
  {
    ColumnIs(v, as1, b, x, rect.top, rect.bottom);
  }

  lemma WideSwept(v: Region, rect: Rect, as1: seq<Band>, b: Band, s: Span, y: int)
    requires Banded(v.rects) && v.rects != [] && as1 == ToBands(v.rects) && ValidBands(as1) && as1 != []
    requires s == Span(rect.left, rect.right) && b == Band(rect.top, rect.bottom, [s]) && rect.top < rect.bottom
    requires rect.right < rect.left && y <= b.top && y <= as1[0].top
    ensures SweptRight(SweepFrom(Union, as1, [b], y, NO_OUTPUT), v, Fits(v, rect))
  {
    WideAligned(as1, b, y);
    var x := rect.left - 1;
    var r := WideResult(as1, b, s, y, x);
    WideFits(v, rect, as1, b, x);
    SweptIs(SweepFrom(Union, as1, [b], y, NO_OUTPUT), r, as1, v, Fits(v, rect));
  }

  lemma SweptFits(v: Region, rect: Rect, as1: seq<Band>, b: Band, s: Span, y: int)
    requires Banded(v.rects) && v.rects != [] && as1 == ToBands(v.rects) && ValidBands(as1) && Flatten(as1) == v.rects
    requires s == Span(rect.left, rect.right) && b == Band(rect.top, rect.bottom, [s]) && Inverted(rect)
    requires as1 != [] && y <= b.top && y <= as1[0].top
    ensures SweptRight(SweepFrom(Union, as1, [b], y, NO_OUTPUT), v, Fits(v, rect))
  {
    if rect.top > rect.bottom { TallSwept(v, rect, as1, b, y); } else { WideSwept(v, rect, as1, b, s, y); }
  }

  lemma RegionOpSwept(v: Region, rect: Rect)
    requires Banded(v.rects) && v.rects != [] && Inverted(rect) && Start(v, rect) <= Top(v)
    ensures SweptRight(RegionOp(Union, v, Single(rect)), v, Fits(v, rect))
  {
    OneBand(rect);
    ToBandsValid(v.rects);
    var s := Span(rect.left, rect.right);
    SweptFits(v, rect, ToBands(v.rects), Band(rect.top, rect.bottom, [s]), s, Start(v, rect));
  }

  // ---------------------------------------------------------------- a stale cell above the start

  /** Two bands of one rectangle that do not meet: the first turn appends the upper part, and what is left over is
      appended after it. */
  lemma TwoLoneBands(a: Band, b: Band, y: int, ybot: int, above: seq<Rect>)
    requires |a.spans| == 1 && |b.spans| == 1 && ybot == Min(a.bottom, b.bottom) && ybot <= Max(a.top, b.top)
    requires above == Flatten(AboveSlab(Union, a, b, y)) && |above| <= 1
    ensures SweepFrom(Union, [a], [b], y, NO_OUTPUT) ==
      above + Flatten(LeftOver(Union, Advance([a], ybot), Advance([b], ybot), ybot))
  {
    TurnApart(Union, a, b, y);
    AddedToNone(above);
    OnlyTurn(above, Flatten(LeftOver(Union, Advance([a], ybot), Advance([b], ybot), ybot)));
    assert [a][1..] == [] && [b][1..] == [];
  }

  /** What is then left over of a cell and a rectangle. */
  function Behind(q: Rect, rect: Rect): seq<Rect> {
    if rect.bottom <= q.top then [q] else if rect.bottom == q.bottom then [] else [rect]
  }

  lemma CellBehind(x: int, y: int, rect: Rect)
    requires y < rect.top
    ensures var a, b := CellBand(x, y), Band(rect.top, rect.bottom, [Span(rect.left, rect.right)]);
      var ybot := Min(a.bottom, b.bottom);
      Flatten(LeftOver(Union, Advance([a], ybot), Advance([b], ybot), ybot)) == Behind(Rect(x, y, x + 1, y + 1), rect)
  {
    var a, b := CellBand(x, y), Band(rect.top, rect.bottom, [Span(rect.left, rect.right)]);
    assert [a][1..] == [] && [b][1..] == [];
    if rect.bottom <= y {
      assert ClipTop([a], rect.bottom) == [a];
      FlattenOne(a);
      assert BandRects(a) == [Rect(x, y, x + 1, y + 1)];
    } else if rect.bottom > y + 1 {
      assert ClipTop([b], y + 1) == [b];
      FlattenOne(b);
      assert BandRects(b) == [rect];
    }
  }

  lemma CellSwept(v: Region, rect: Rect)
    requires Stale(v) && Inverted(rect) && Start(v, rect) > Top(v)
    ensures RegionOp(Union, v, Single(rect)) ==
      Clipped(v.rects[0].left, Top(v), Start(v, rect)) + Behind(v.rects[0], rect)
  {
    var x, y := v.rects[0].left, Top(v);
    var b := Band(rect.top, rect.bottom, [Span(rect.left, rect.right)]);
    CellBands(v);
    OneBand(rect);
    CellSlab(Union, x, y, b, Start(v, rect));
    TwoLoneBands(CellBand(x, y), b, Start(v, rect), Min(y + 1, rect.bottom), Clipped(x, y, Start(v, rect)));
    CellBehind(x, y, rect);
  }

  lemma OneCovers(r: Rect, x: int, y: int)
    ensures Covers([r], x, y) <==> PtInRect(r, x, y)
  {
    assert PtInRect([r][0], x, y) <==> PtInRect(r, x, y);
  }

  /** The cell stays if the rectangle runs up to it, and is lost otherwise. */
  lemma CellStaysIff(v: Region, rect: Rect, rs: seq<Rect>)
    requires Stale(v) && Inverted(rect) && Start(v, rect) > Top(v)
    requires rs == Clipped(v.rects[0].left, Top(v), Start(v, rect)) + Behind(v.rects[0], rect)
    ensures if rect.bottom <= Top(v) then SweptRight(rs, v, Start(v, rect) == Top(v) + 1)
            else !Covers(rs, v.rects[0].left, Top(v))
  {
    var x, y, start, left := v.rects[0].left, Top(v), Start(v, rect), Behind(v.rects[0], rect);
    forall px, py ensures Covers(rs, px, py) <==> Covers(left, px, py) {
      ClippedIn(x, y, start, left, px, py);
    }
    OneCovers(rect, x, y);
    if rect.bottom <= y {
      assert v.rects == left;
      if start != y + 1 { assert rs[0] == Rect(x, start, x + 1, y + 1); }
    }
  }

  lemma CellAdded(v: Region, rect: Rect)
    requires Stale(v) && Inverted(rect) && !Subsumes(v, Single(rect)) && Start(v, rect) > Top(v)
    ensures var rs := RegionOp(Union, v, Single(rect));
      && ((forall x, y :: Covers(rs, x, y) <==> InRegion(v, x, y)) <==> AddGuard(v, rect))
      && (AddGuard(v, rect) ==> (Banded(rs) <==> KeepsForm(v, rect)))
  {
    CellSwept(v, rect);
    CellStaysIff(v, rect, RegionOp(Union, v, Single(rect)));
    CellOnly(v, v.rects[0].left, Top(v));
  }

  /** An inverted rectangle seems to contain no region. */
  lemma NotSubsumed(v: Region, rect: Rect)
    requires Sound(v) && v.rects != [] && Inverted(rect)
    ensures !Subsumes(Single(rect), v)
  {
    if Valid(v) { WithinExtents(v.rects, 0); }
  }

  lemma FinishedSoundIff(rs: seq<Rect>)
    ensures (Sound(Finished(rs)) <==> Banded(rs)) && !Stale(Finished(rs))
  {
    if Banded(rs) { FinishedValid(rs); }
  }

  /** Adding an inverted rectangle to a valid or a stale region changes no point exactly if the guard holds, and then
      leaves a valid or a stale region exactly under the condition KeepsForm. For a valid region the guard always
      holds. */
  lemma InvertedAdded(v: Region, rect: Rect)
    requires Sound(v) && Inverted(rect)
    ensures var w := Combined(Union, v, Single(rect));
      && ((forall x, y :: InRegion(w, x, y) <==> InRegion(v, x, y)) <==> AddGuard(v, rect))
      && (AddGuard(v, rect) ==> (Sound(w) <==> KeepsForm(v, rect)))
      && (Valid(v) ==> AddGuard(v, rect) && !Stale(w))
  {
    if v.rects == [] {
      SingleValid(rect);
    } else if !Subsumes(v, Single(rect)) {
      NotSubsumed(v, rect);
      FinishedSoundIff(RegionOp(Union, v, Single(rect)));
      if Start(v, rect) <= Top(v) {
        if Stale(v) { CellBands(v); }
        RegionOpSwept(v, rect);
      } else {
        CellAdded(v, rect);
      }
    }
  }
}
