/** What the incomplete merging of REGION_RegionOp (`src/newgdi/region.c`) means in terms of the sources: for the
    union of two rectangles, and for the rows of a rectangle drawn one by one. */
module RegionMerging {
  import opened Basics
  import opened Spans
  import opened Bands
  import opened Rects
  import opened Coalescing
  import opened RegionRep
  import opened Regions

  // ---------------------------------------------------------------- two rectangles

  /** A band of one rectangle. */
  function BandOf(r: Rect): Band {
    Band(r.top, r.bottom, [Span(r.left, r.right)])
  }

  function UpperSlab(a: Band, b: Band): seq<Band> {
    if a.top < b.top then [Band(a.top, Min(a.bottom, b.top), a.spans)]
    else if b.top < a.top then [Band(b.top, Min(b.bottom, a.top), b.spans)]
    else []
  }

  function LowerSlab(a: Band, b: Band): seq<Band> {
    if a.bottom > b.bottom then [Band(Max(a.top, b.bottom), a.bottom, a.spans)]
    else if b.bottom > a.bottom then [Band(Max(b.top, a.bottom), b.bottom, b.spans)]
    else []
  }

  lemma UnionNotEmpty(a: Rect, b: Rect)
    requires Proper(a) && Proper(b)
    ensures UnionSpans(BandOf(a).spans, BandOf(b).spans) != []
    ensures UnionSpans(BandOf(a).spans, BandOf(b).spans) == BandOf(a).spans <==> a.left <= b.left && b.right <= a.right
    ensures UnionSpans(BandOf(a).spans, BandOf(b).spans) == BandOf(b).spans <==> b.left <= a.left && a.right <= b.right
  {
    var s, t := Span(a.left, a.right), Span(b.left, b.right);
    assert [s][1..] == [] && [t][1..] == [];
    if s.left < t.left {
      assert UnionSpans([s], [t]) == UnionFrom(s, [], [t]) == MergeSpan(s, t, [], []);
    } else {
      assert UnionSpans([s], [t]) == UnionFrom(t, [s], []) == MergeSpan(t, s, [], []);
    }
  }

  /** The slabs of two bands: the upper end, the part where they meet, the lower end. */
  lemma SlabsOfTwo(a: Rect, b: Rect, y: int)
    requires Proper(a) && Proper(b) && y <= a.top && y <= b.top
    ensures Slabs(Union, [BandOf(a)], [BandOf(b)], y) ==
      UpperSlab(BandOf(a), BandOf(b)) + MeetSlab(Union, BandOf(a), BandOf(b)) + LowerSlab(BandOf(a), BandOf(b))
    ensures Paired(Slabs(Union, [BandOf(a)], [BandOf(b)], y), MainCount(Union, [BandOf(a)], [BandOf(b)], y)) ==
      |Slabs(Union, [BandOf(a)], [BandOf(b)], y)|
  {
    var p, q := BandOf(a), BandOf(b);
    var ybot := Min(p.bottom, q.bottom);
    assert [p][1..] == [] && [q][1..] == [];
    assert ClipTop([p], ybot) == [Band(Max(p.top, ybot), p.bottom, p.spans)];
    assert ClipTop([q], ybot) == [Band(Max(q.top, ybot), q.bottom, q.spans)];
    assert AboveSlab(Union, p, q, y) == UpperSlab(p, q);
    assert Slabs(Union, Advance([p], ybot), Advance([q], ybot), ybot) == LowerSlab(p, q);
  }

  lemma PairsOfTwo(s: Band, t: Band)
    ensures Coalesced(MergePairs([s, t])) <==> !Mergeable(s, t)
  {
    assert [s, t][1..] == [t] && MergePairs([t]) == [t] && [s] + [t] == [s, t];
    assert [s, t][0] == s && [s, t][1] == t;
  }

  lemma PairsOfThree(s: Band, t: Band, u: Band)
    requires |s.spans| == 1
    ensures Coalesced(MergePairs([s, t, u])) <==> !Mergeable(t, u)
  {
    var bs := [s, t, u];
    assert bs[2..] == [u] && bs[..2] == [s, t] && MergePairs([u]) == [u];
    CoalescedPair(bs, [u]);
  }

  /** The lower rectangle is not merged with what is above it: it goes deeper and is as wide at both sides, or
      just touches and has equal sides. */
  predicate LeftUnmerged(upper: Rect, lower: Rect) {
    && upper.top < lower.top && upper.bottom < lower.bottom
    && if lower.top < upper.bottom then lower.left <= upper.left && upper.right <= lower.right
       else lower.top == upper.bottom && lower.left == upper.left && upper.right == lower.right
  }

  /** The part where two rectangles meet and what goes deeper. */
  lemma MeetAndLower(a: Rect, b: Rect)
    requires Proper(a) && Proper(b) && !IsCovered(a, b) && !IsCovered(b, a)
    requires MeetSlab(Union, BandOf(a), BandOf(b)) != [] && LowerSlab(BandOf(a), BandOf(b)) != []
    ensures Mergeable(MeetSlab(Union, BandOf(a), BandOf(b))[0], LowerSlab(BandOf(a), BandOf(b))[0]) <==>
      LeftUnmerged(a, b) || LeftUnmerged(b, a)
  {
    UnionNotEmpty(a, b);
  }

  lemma UpperAndMeet(a: Rect, b: Rect)
    requires Proper(a) && Proper(b) && !IsCovered(a, b) && !IsCovered(b, a)
    requires MeetSlab(Union, BandOf(a), BandOf(b)) != [] && UpperSlab(BandOf(a), BandOf(b)) != []
    requires LowerSlab(BandOf(a), BandOf(b)) == []
    ensures !Mergeable(UpperSlab(BandOf(a), BandOf(b))[0], MeetSlab(Union, BandOf(a), BandOf(b))[0])
    ensures !LeftUnmerged(a, b) && !LeftUnmerged(b, a)
  {
    UnionNotEmpty(a, b);
  }

  lemma UpperAndLower(a: Rect, b: Rect)
    requires Proper(a) && Proper(b) && MeetSlab(Union, BandOf(a), BandOf(b)) == []
    ensures var upper, lower := UpperSlab(BandOf(a), BandOf(b)), LowerSlab(BandOf(a), BandOf(b));
      |upper| == 1 && |lower| == 1 && (Mergeable(upper[0], lower[0]) <==> LeftUnmerged(a, b) || LeftUnmerged(b, a))
  {
    UnionNotEmpty(a, b);
  }

  /** What the calls make of at most three slabs. */
  lemma PairsOfSlabs(upper: seq<Band>, meet: seq<Band>, lower: seq<Band>)
    requires |upper| <= 1 && |meet| <= 1 && |lower| <= 1 && (upper != [] ==> |upper[0].spans| == 1)
    ensures Coalesced(MergePairs(upper + meet + lower)) <==>
      if lower == [] then upper == [] || meet == [] || !Mergeable(upper[0], meet[0])
      else if meet == [] then upper == [] || !Mergeable(upper[0], lower[0])
      else !Mergeable(meet[0], lower[0])
  {
    var slabs := upper + meet + lower;
    if upper != [] && meet != [] && lower != [] {
      assert slabs == [upper[0], meet[0], lower[0]];
      PairsOfThree(upper[0], meet[0], lower[0]);
    } else if upper != [] && meet != [] {
      assert slabs == [upper[0], meet[0]];
      PairsOfTwo(upper[0], meet[0]);
    } else if upper != [] && lower != [] {
      assert slabs == [upper[0], lower[0]];
      PairsOfTwo(upper[0], lower[0]);
    } else if meet != [] && lower != [] {
      assert slabs == [meet[0], lower[0]];
      PairsOfTwo(meet[0], lower[0]);
    } else {
      PairsOfOne(slabs);
    }
  }

  lemma PairsOfOne(slabs: seq<Band>)
    requires |slabs| <= 1
    ensures Coalesced(MergePairs(slabs))
  {
  }

  lemma TwoBandsCoalesced(a: Rect, b: Rect, y: int)
    requires Proper(a) && Proper(b) && y <= a.top && y <= b.top && !IsCovered(a, b) && !IsCovered(b, a)
    ensures Coalesced(OpBands(Union, [BandOf(a)], [BandOf(b)], y)) <==> !LeftUnmerged(a, b) && !LeftUnmerged(b, a)
  {
    SlabsOfTwo(a, b, y);
    var p, q := BandOf(a), BandOf(b);
    var upper, meet, lower := UpperSlab(p, q), MeetSlab(Union, p, q), LowerSlab(p, q);
    var slabs := upper + meet + lower;
    assert slabs[..|slabs|] == slabs && slabs[|slabs|..] == [];
    assert OpBands(Union, [p], [q], y) == MergePairs(slabs) + [] == MergePairs(slabs);
    PairsOfSlabs(upper, meet, lower);
    if meet == [] {
      UpperAndLower(a, b);
    } else if lower != [] {
      MeetAndLower(a, b);
    } else if upper != [] {
      UpperAndMeet(a, b);
    }
  }

  /** The union of two rectangles is in the full documented form exactly when neither is left unmerged below the
      other. */
  lemma TwoRectsCanonicalIff(a: Rect, b: Rect)
    requires Proper(a) && Proper(b)
    ensures Canonical(Combined(Union, Single(a), Single(b)).rects) <==> !LeftUnmerged(a, b) && !LeftUnmerged(b, a)
  {
    SingleValid(a);
    SingleValid(b);
    OneBand(a);
    OneBand(b);
    if IsCovered(a, b) || IsCovered(b, a) {
      assert Combined(Union, Single(a), Single(b)).rects == if IsCovered(b, a) then [a] else [b];
    } else {
      RegionOpBands(Union, Single(a), Single(b));
      TwoBandsCoalesced(a, b, Min(a.top, b.top));
    }
  }

  // ---------------------------------------------------------------- equal rows one by one

  /** `n` rows of pixels between the same ends, from `y` down. */
  function EqualRows(left: int, right: int, y: int, n: nat): (rows: seq<PixelRow>)
    ensures |rows| == n
    ensures forall i :: 0 <= i < n ==> rows[i] == PixelRow(left, right, y + i)
  {
    seq(n, i requires 0 <= i < n => PixelRow(left, right, y + i))
  }

  /** Two bands and a third one below them, all with the same span: the first two are merged. */
  lemma ThreeStacked(a: Rect, b: Rect, c: Rect)
    requires Proper(a) && Proper(b) && Proper(c) && a.bottom == b.top && b.bottom == c.top
    requires a.left == b.left == c.left && a.right == b.right == c.right
    ensures OpBands(Union, [BandOf(a), BandOf(b)], [BandOf(c)], a.top) == [BandOf(a.(bottom := b.bottom)), BandOf(c)]
  {
    var p, q, r := BandOf(a), BandOf(b), BandOf(c);
    assert [p, q][1..] == [q] && [q][1..] == [] && ClipTop([r], q.bottom) == [r];
    assert Slabs(Union, [], [r], q.bottom) == [r];
    assert AboveSlab(Union, q, r, p.bottom) == [q] && MeetSlab(Union, q, r) == [];
    assert Slabs(Union, [q], [r], p.bottom) == [q, r] && MainCount(Union, [q], [r], p.bottom) == 1;
    assert AboveSlab(Union, p, r, p.top) == [p] && MeetSlab(Union, p, r) == [];
    var slabs := [p, q, r];
    assert Slabs(Union, [p, q], [r], p.top) == slabs && MainCount(Union, [p, q], [r], p.top) == 2;
    assert slabs[..3] == slabs && slabs[3..] == [] && slabs[2..] == [r];
    assert MergePairs(slabs) == [Join(p, q)] + MergePairs([r]) == [Join(p, q), r];
  }

  /** One more equal row below two stacked rectangles. */
  lemma OneMoreRow(a: Rect, b: Rect, c: Rect)
    requires Proper(a) && Proper(b) && Proper(c) && a.bottom == b.top && b.bottom == c.top
    requires a.left == b.left == c.left && a.right == b.right == c.right
    ensures Combined(Union, Finished([a, b]), Single(c)) == Finished([a.(bottom := b.bottom), c])
  {
    var v, ab := Finished([a, b]), a.(bottom := b.bottom);
    StackedValid(a, b);
    SingleValid(c);
    OneBand(c);
    StackedList(BandOf(a), BandOf(b), a, b);
    StackedList(BandOf(ab), BandOf(c), ab, c);
    RegionOpIs(Union, v, Single(c));
    ThreeStacked(a, b, c);
    RowSwept(v, c);
  }

  lemma StackedValid(a: Rect, b: Rect)
    requires Proper(a) && Proper(b) && a.bottom == b.top
    ensures Valid(Finished([a, b]))
  {
    assert Before(a, b);
  }

  lemma RowSwept(v: Region, c: Rect)
    requires |v.rects| == 2 && Proper(c) && v.bound.bottom == c.top && v.bound.top < c.top
    ensures Combined(Union, v, Single(c)) == Finished(RegionOp(Union, v, Single(c)))
  {
  }

  /** The rows of a rectangle as they end up: all but the last one, and the last one. */
  function TwoParts(left: int, right: int, y: int, n: nat): Region {
    Finished([Rect(left, y, right + 1, y + n - 1), Rect(left, y + n - 1, right + 1, y + n)])
  }

  /** Drawing the rows of a rectangle of at least two rows one by one leaves two rectangles, the last row by
      itself, whatever the number of rows. */
  lemma {:induction false} EqualRowsLeave(left: int, right: int, y: int, n: nat)
    requires left <= right && n >= 2
    ensures RowsAdded(EMPTY_REGION, EqualRows(left, right, y, n)) == TwoParts(left, right, y, n)
    decreases n
  {
    if n == 2 {
      TwoRowsLeave(left, right, y);
    } else {
      EqualRowsLeave(left, right, y, n - 1);
      NextRow(left, right, y, n);
    }
  }

  lemma NextRow(left: int, right: int, y: int, n: nat)
    requires left <= right && n >= 3
    requires RowsAdded(EMPTY_REGION, EqualRows(left, right, y, n - 1)) == TwoParts(left, right, y, n - 1)
    ensures RowsAdded(EMPTY_REGION, EqualRows(left, right, y, n)) == TwoParts(left, right, y, n)
  {
    LastRow(left, right, y, n);
    PartsGrow(left, right, y, n, Rect(left, y, right + 1, y + n - 2), Rect(left, y + n - 2, right + 1, y + n - 1),
              Rect(left, y + n - 1, right + 1, y + n));
  }

  lemma PartsGrow(left: int, right: int, y: int, n: nat, a: Rect, b: Rect, c: Rect)
    requires left <= right && n >= 3
    requires a == Rect(left, y, right + 1, y + n - 2) && b == Rect(left, y + n - 2, right + 1, y + n - 1)
    requires c == Rect(left, y + n - 1, right + 1, y + n)
    ensures Combined(Union, TwoParts(left, right, y, n - 1), Single(c)) == TwoParts(left, right, y, n)
  {
    assert TwoParts(left, right, y, n - 1) == Finished([a, b]);
    assert TwoParts(left, right, y, n) == Finished([a.(bottom := b.bottom), c]);
    OneMoreRow(a, b, c);
  }

  lemma LastRow(left: int, right: int, y: int, n: nat)
    requires left <= right && n >= 1
    ensures RowsAdded(EMPTY_REGION, EqualRows(left, right, y, n)) ==
      Combined(Union, RowsAdded(EMPTY_REGION, EqualRows(left, right, y, n - 1)),
               Single(Rect(left, y + n - 1, right + 1, y + n)))
  {
    var row := PixelRow(left, right, y + n - 1);
    assert EqualRows(left, right, y, n) == EqualRows(left, right, y, n - 1) + [row];
    RowsSnoc(EMPTY_REGION, EqualRows(left, right, y, n - 1), row);
    assert RowRect(row) == Rect(left, y + n - 1, right + 1, y + n);
  }

  /** Rows are united in the order in which they are drawn. */
  lemma RowsSnoc(v: Region, rows: seq<PixelRow>, row: PixelRow)
    ensures RowsAdded(v, rows + [row]) == Combined(Union, RowsAdded(v, rows), Single(RowRect(row)))
  {
    assert (rows + [row])[..|rows|] == rows;
  }

  lemma TwoRowsLeave(left: int, right: int, y: int)
    requires left <= right
    ensures RowsAdded(EMPTY_REGION, EqualRows(left, right, y, 2)) == TwoParts(left, right, y, 2)
  {
    var first, last := Rect(left, y, right + 1, y + 1), Rect(left, y + 1, right + 1, y + 2);
    LastRow(left, right, y, 1);
    LastRow(left, right, y, 2);
    assert EqualRows(left, right, y, 0) == [];
    TwoStacked(first, last);
  }

  lemma TwoStacked(a: Rect, b: Rect)
    requires Proper(a) && Proper(b) && a.bottom == b.top && a.left == b.left && a.right == b.right
    ensures Combined(Union, Single(a), Single(b)) == Finished([a, b])
  {
    StackedUnion(BandOf(a), BandOf(b), a, b);
    StackedList(BandOf(a), BandOf(b), a, b);
    StackedSwept(a, b);
  }
}
