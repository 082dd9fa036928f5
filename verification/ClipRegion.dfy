/** CLIPRGN and the functions of `src/newgdi/region.c` that change it in place. The linked list of
    CLIPRECTs is the field `rects`; a pointer into a list is an index, and NULL is -1 or the length. */
module ClipRegion {
  import opened Basics
  import opened Spans
  import opened Bands
  import opened Rects
  import opened RegionRep
  import opened Regions
  import opened Pointers
  import opened Sweep

  lemma SpansStep(a: seq<Rect>, i: nat)
    requires i < |a|
    ensures var ss := SpansOf(a[i..]); ss != [] && ss[0] == SpanOf(a[i]) && ss[1..] == SpansOf(a[i + 1..])
  {
    assert a[i..][1..] == a[i + 1..];
  }

  /** What REGION_IntersectO has left to do with its pointers at `i` and `j`. */
  ghost function IntersectRest(a: seq<Rect>, i: nat, b: seq<Rect>, j: nat): seq<Span>
    requires i <= |a| && j <= |b|
  {
    IntersectSpans(SpansOf(a[i..]), SpansOf(b[j..]))
  }

  lemma IntersectStep(a: seq<Rect>, i: nat, b: seq<Rect>, j: nat)
    requires i < |a| && j < |b|
    ensures var left, right := Max(a[i].left, b[j].left), Min(a[i].right, b[j].right);
      var i', j' := if a[i].right <= b[j].right then i + 1 else i, if b[j].right <= a[i].right then j + 1 else j;
      IntersectRest(a, i, b, j) ==
        (if left < right then [Span(left, right)] else []) + IntersectRest(a, i', b, j')
  {
    SpansStep(a, i);
    SpansStep(b, j);
  }

  lemma IntersectKeeps(total: seq<Span>, out: seq<Span>, a: seq<Rect>, i: nat, b: seq<Rect>, j: nat)
    requires i < |a| && j < |b| && out + IntersectRest(a, i, b, j) == total
    ensures var left, right := Max(a[i].left, b[j].left), Min(a[i].right, b[j].right);
      var i', j' := if a[i].right <= b[j].right then i + 1 else i, if b[j].right <= a[i].right then j + 1 else j;
      (if left < right then out + [Span(left, right)] else out) + IntersectRest(a, i', b, j') == total
  {
    IntersectStep(a, i, b, j);
    var left, right := Max(a[i].left, b[j].left), Min(a[i].right, b[j].right);
    var i', j' := if a[i].right <= b[j].right then i + 1 else i, if b[j].right <= a[i].right then j + 1 else j;
    var rest := IntersectRest(a, i', b, j');
    Regroup(out, Span(left, right), rest);
    assert [] + rest == rest;
  }

  /** What REGION_UnionO has left to do, on the list it has built so far. */
  ghost function UnionRest(rs: seq<Rect>, a: seq<Rect>, i: nat, b: seq<Rect>, j: nat, top: int, bottom: int): seq<Rect>
    requires i <= |a| && j <= |b|
  {
    UnionInto(rs, SpansOf(a[i..]), SpansOf(b[j..]), top, bottom)
  }

  lemma UnionStep(rs: seq<Rect>, a: seq<Rect>, i: nat, b: seq<Rect>, j: nat, top: int, bottom: int)
    requires i <= |a| && j <= |b| && (i < |a| || j < |b|)
    ensures UnionRest(rs, a, i, b, j, top, bottom) ==
      if j == |b| || (i < |a| && a[i].left < b[j].left) then
        UnionRest(Merged(rs, SpanOf(a[i]), top, bottom), a, i + 1, b, j, top, bottom)
      else UnionRest(Merged(rs, SpanOf(b[j]), top, bottom), a, i, b, j + 1, top, bottom)
  {
    if i < |a| { SpansStep(a, i); }
    if j < |b| { SpansStep(b, j); }
  }

  ghost function SubtractRest(left: int, a: seq<Rect>, i: nat, b: seq<Rect>, j: nat): seq<Span>
    requires i <= |a| && j <= |b|
  {
    SubtractFrom(left, SpansOf(a[i..]), SpansOf(b[j..]))
  }

  ghost function LeftAt(a: seq<Rect>, i: nat, left: int): int {
    if i < |a| then a[i].left else left
  }

  /** The span one turn of REGION_SubtractO emits, if any. */
  ghost function SubtractPiece(left: int, a: Rect, b: Rect): seq<Span> {
    if b.right <= left || b.left <= left then []
    else if b.left < a.right then [Span(left, b.left)]
    else if a.right > left then [Span(left, a.right)] else []
  }

  /** What it has left to do after the turn. */
  ghost function SubtractNext(left: int, a: seq<Rect>, i: nat, b: seq<Rect>, j: nat): seq<Span>
    requires i < |a| && j < |b|
  {
    if b[j].right <= left then SubtractRest(left, a, i, b, j + 1)
    else if b[j].left <= left || b[j].left < a[i].right then
      if b[j].right >= a[i].right then SubtractRest(LeftAt(a, i + 1, b[j].right), a, i + 1, b, j)
      else SubtractRest(b[j].right, a, i, b, j + 1)
    else SubtractRest(LeftAt(a, i + 1, left), a, i + 1, b, j)
  }

  lemma SubtractStep(left: int, a: seq<Rect>, i: nat, b: seq<Rect>, j: nat)
    requires i < |a| && j < |b|
    ensures SubtractRest(left, a, i, b, j) == SubtractPiece(left, a[i], b[j]) + SubtractNext(left, a, i, b, j)
  {
    SpansStep(a, i);
    SpansStep(b, j);
    if i + 1 < |a| { SpansStep(a, i + 1); }
    var next := SubtractNext(left, a, i, b, j);
    assert [] + next == next;
  }

  lemma SubtractStart(a: seq<Rect>, b: seq<Rect>)
    requires a != []
    ensures [] + SubtractRest(a[0].left, a, 0, b, 0) == Overlap(Subtract, SpansOf(a), SpansOf(b))
  {
    assert a[0..] == a && b[0..] == b;
  }

  lemma SubtractEnd(left: int, a: seq<Rect>, b: seq<Rect>, j: nat)
    requires j <= |b|
    ensures SubtractRest(left, a, |a|, b, j) == []
  {
  }

  lemma SubtractStepRest(left: int, a: seq<Rect>, i: nat, b: seq<Rect>)
    requires i < |a|
    ensures SubtractRest(left, a, i, b, |b|) ==
      [Span(left, a[i].right)] + SubtractRest(LeftAt(a, i + 1, left), a, i + 1, b, |b|)
  {
    SpansStep(a, i);
    if i + 1 < |a| { SpansStep(a, i + 1); }
  }

  lemma SubtractKeeps(total: seq<Span>, out: seq<Span>, left: int, a: seq<Rect>, i: nat, b: seq<Rect>, j: nat)
    requires i < |a| && j < |b| && out + SubtractRest(left, a, i, b, j) == total
    ensures out + SubtractPiece(left, a[i], b[j]) + SubtractNext(left, a, i, b, j) == total
  {
    SubtractStep(left, a, i, b, j);
    var piece, next := SubtractPiece(left, a[i], b[j]), SubtractNext(left, a, i, b, j);
    assert out + (piece + next) == out + piece + next;
  }

  lemma SubtractKeepsRest(total: seq<Span>, out: seq<Span>, left: int, a: seq<Rect>, i: nat, b: seq<Rect>)
    requires i < |a| && out + SubtractRest(left, a, i, b, |b|) == total
    ensures out + [Span(left, a[i].right)] + SubtractRest(LeftAt(a, i + 1, left), a, i + 1, b, |b|) == total
  {
    SubtractStepRest(left, a, i, b);
    Regroup(out, Span(left, a[i].right), SubtractRest(LeftAt(a, i + 1, left), a, i + 1, b, |b|));
  }

  class ClipRgn {
    var kind: RegionType
    var rcBound: Rect
    var rects: seq<Rect>

    ghost function Value(): Region
      reads this
    {
      Region(kind, rcBound, rects)
    }

    /** InitClipRgn. */
    constructor ()
      ensures Value() == EMPTY_REGION
    {
      kind, rcBound, rects := NullRegion, Rect(0, 0, 0, 0), [];
    }

    /** NEWCLIPRECT. */
    method NewClipRect(rc: Rect)
      modifies this`rects
      ensures rects == old(rects) + [rc]
    {
      rects := rects + [rc];
    }

    method EmptyClipRgn()
      modifies this
      ensures Value() == EMPTY_REGION
      ensures kind == NullRegion && rcBound == Rect(0, 0, 0, 0) && rects == []
    {
      kind, rcBound, rects := NullRegion, Rect(0, 0, 0, 0), [];
    }

    // -------------------------------------------------------------- the scans of one band

    /** REGION_IntersectO. */
    method IntersectO(a: seq<Rect>, b: seq<Rect>, top: int, bottom: int)
      modifies this`rects
      ensures rects == old(rects) + BandRects(Band(top, bottom, Overlap(Intersect, SpansOf(a), SpansOf(b))))
    {
      var i, j := 0, 0;
      ghost var total := IntersectSpans(SpansOf(a), SpansOf(b));
      ghost var out: seq<Span> := [];
      assert a[0..] == a && b[0..] == b;
      while i < |a| && j < |b|
        invariant 0 <= i <= |a| && 0 <= j <= |b|
        invariant rects == old(rects) + BandRects(Band(top, bottom, out))
        invariant out + IntersectRest(a, i, b, j) == total
        decreases |a| - i + |b| - j
      {
        IntersectKeeps(total, out, a, i, b, j);
        var left, right := Max(a[i].left, b[j].left), Min(a[i].right, b[j].right);
        if left < right {
          NewSpan(Span(left, right), top, bottom, old(rects), out);
          out := out + [Span(left, right)];
        }
        if a[i].right < b[j].right {
          i := i + 1;
        } else if b[j].right < a[i].right {
          j := j + 1;
        } else {
          i, j := i + 1, j + 1;
        }
      }
      assert out == total;
    }

    /** MERGERECT. */
    method MergeRect(r: Rect, top: int, bottom: int)
      modifies this`rects
      ensures rects == Merged(old(rects), SpanOf(r), top, bottom)
    {
      var n := |rects| - 1;
      if n >= 0 && rects[n].top == top && rects[n].bottom == bottom && rects[n].right >= r.left {
        if rects[n].right < r.right {
          rects := rects[n := rects[n].(right := r.right)];
        }
      } else {
        NewClipRect(Rect(r.left, top, r.right, bottom));
      }
    }

    /** REGION_UnionO. */
    method UnionO(a: seq<Rect>, b: seq<Rect>, top: int, bottom: int)
      modifies this`rects
      ensures rects == UnionInto(old(rects), SpansOf(a), SpansOf(b), top, bottom)
    {
      var i, j := 0, 0;
      assert a[0..] == a && b[0..] == b;
      while i < |a| || j < |b|
        invariant 0 <= i <= |a| && 0 <= j <= |b|
        invariant UnionRest(rects, a, i, b, j, top, bottom) ==
          UnionInto(old(rects), SpansOf(a), SpansOf(b), top, bottom)
        decreases |a| - i + |b| - j
      {
        UnionStep(rects, a, i, b, j, top, bottom);
        if j == |b| || (i < |a| && a[i].left < b[j].left) {
          MergeRect(a[i], top, bottom);
          i := i + 1;
        } else {
          MergeRect(b[j], top, bottom);
          j := j + 1;
        }
      }
    }

    /** NEWCLIPRECT for one more span of a band. */
    method NewSpan(s: Span, top: int, bottom: int, ghost pre: seq<Rect>, ghost out: seq<Span>)
      requires rects == pre + BandRects(Band(top, bottom, out))
      modifies this`rects
      ensures rects == pre + BandRects(Band(top, bottom, out + [s]))
    {
      NewClipRect(Rect(s.left, top, s.right, bottom));
      BandRectsSnoc(top, bottom, out, s);
    }

    /** REGION_SubtractO. */
    method SubtractO(a: seq<Rect>, b: seq<Rect>, top: int, bottom: int)
      requires a != []
      modifies this`rects
      ensures rects == old(rects) + BandRects(Band(top, bottom, Overlap(Subtract, SpansOf(a), SpansOf(b))))
    {
      var i, j := 0, 0;
      var left := a[0].left;
      ghost var total := Overlap(Subtract, SpansOf(a), SpansOf(b));
      ghost var out: seq<Span> := [];
      SubtractStart(a, b);
      while i < |a| && j < |b|
        invariant 0 <= i <= |a| && 0 <= j <= |b|
        invariant rects == old(rects) + BandRects(Band(top, bottom, out))
        invariant out + SubtractRest(left, a, i, b, j) == total
        decreases |a| - i + |b| - j
      {
        i, j, left, out := SubtractTurn(a, i, b, j, left, top, bottom, old(rects), out, total);
      }
      SubtractTail(a, i, b, j, left, top, bottom, old(rects), out, total);
    }

    /** The second loop of REGION_SubtractO. */
    method SubtractTail(a: seq<Rect>, i0: nat, b: seq<Rect>, j: nat, left0: int, top: int, bottom: int,
                        ghost pre: seq<Rect>, ghost out0: seq<Span>, ghost total: seq<Span>)
      requires i0 <= |a| && j <= |b| && (i0 < |a| ==> j == |b|)
      requires rects == pre + BandRects(Band(top, bottom, out0)) && out0 + SubtractRest(left0, a, i0, b, j) == total
      modifies this`rects
      ensures rects == pre + BandRects(Band(top, bottom, total))
    {
      var i, left := i0, left0;
      ghost var out := out0;
      while i < |a|
        invariant i0 <= i <= |a| && (i < |a| ==> j == |b|)
        invariant rects == pre + BandRects(Band(top, bottom, out))
        invariant out + SubtractRest(left, a, i, b, j) == total
      {
        SubtractKeepsRest(total, out, left, a, i, b);
        NewSpan(Span(left, a[i].right), top, bottom, pre, out);
        out := out + [Span(left, a[i].right)];
        i := i + 1;
        if i != |a| { left := a[i].left; }
      }
      SubtractEnd(left, a, b, j);
      assert out == total;
    }

    /** One turn of the first loop of REGION_SubtractO. */
    method SubtractTurn(a: seq<Rect>, i: nat, b: seq<Rect>, j: nat, left: int, top: int, bottom: int,
                        ghost pre: seq<Rect>, ghost out: seq<Span>, ghost total: seq<Span>)
      returns (i': nat, j': nat, left': int, ghost out': seq<Span>)
      requires i < |a| && j < |b| && rects == pre + BandRects(Band(top, bottom, out))
      requires out + SubtractRest(left, a, i, b, j) == total
      modifies this`rects
      ensures i <= i' <= |a| && j <= j' <= |b| && i + j < i' + j'
      ensures rects == pre + BandRects(Band(top, bottom, out')) && out' + SubtractRest(left', a, i', b, j') == total
    {
      SubtractKeeps(total, out, left, a, i, b, j);
      ghost var piece := SubtractPiece(left, a[i], b[j]);
      assert out + [] == out;
      i', j', left', out' := i, j, left, out + piece;
      if b[j].right <= left {
        j' := j + 1;
      } else if b[j].left < a[i].right || b[j].left <= left {
        if b[j].left > left {
          NewSpan(Span(left, b[j].left), top, bottom, pre, out);
        }
        left' := b[j].right;
        if left' >= a[i].right {
          i' := i + 1;
          if i' != |a| { left' := a[i'].left; }
        } else {
          j' := j + 1;
        }
      } else {
        if a[i].right > left {
          NewSpan(Span(left, a[i].right), top, bottom, pre, out);
        }
        i' := i + 1;
        if i' != |a| { left' := a[i'].left; }
      }
    }

    /** REGION_UnionNonO and REGION_SubtractNonO1. */
    method NonOverlap(a: seq<Rect>, top: int, bottom: int)
      modifies this`rects
      ensures rects == old(rects) + BandRects(Band(top, bottom, SpansOf(a)))
    {
      var i := 0;
      ghost var out: seq<Span> := [];
      while i < |a|
        invariant 0 <= i <= |a| && out == SpansOf(a)[..i]
        invariant rects == old(rects) + BandRects(Band(top, bottom, out))
      {
        NewSpan(SpanOf(a[i]), top, bottom, old(rects), out);
        out := out + [SpanOf(a[i])];
        i := i + 1;
      }
      assert out == SpansOf(a);
    }

    /** The overlapFunc of an operation. */
    method OverlapFunc(op: SetOp, a: seq<Rect>, b: seq<Rect>, top: int, bottom: int)
      requires a != []
      modifies this`rects
      ensures rects == OverlapInto(op, old(rects), SpansOf(a), SpansOf(b), top, bottom)
    {
      match op
      case Union => UnionO(a, b, top, bottom);
      case Intersect => IntersectO(a, b, top, bottom);
      case Subtract => SubtractO(a, b, top, bottom);
    }

    // -------------------------------------------------------------- REGION_Coalesce

    method Coalesce(prevBand: int, curBand: int) returns (newStart: int)
      requires rects != [] && -1 <= prevBand && -1 <= curBand < |rects|
      requires PrevIndex(prevBand) <= PrevIndex(curBand)
      modifies this`rects
      ensures (rects, newStart) == CoalesceAt(old(rects), PrevIndex(prevBand), PrevIndex(curBand))
    {
      var prevStart := if prevBand == -1 then 0 else prevBand;
      var curStart := if curBand == -1 then 0 else curBand;
      if prevStart == curStart {
        return prevStart;
      }
      newStart := curStart;
      var prevNumRects := curStart - prevStart;
      var e := FindBandEnd(rects, curStart);
      var curNumRects := e - curStart;
      if e < |rects| {
        newStart := FindLastRun(rects, e);
      }
      if curNumRects == prevNumRects && rects[prevStart].bottom == rects[curStart].top {
        var same := SameSides(rects[prevStart..curStart], rects[curStart..e]);
        if !same {
          return;
        }
        newStart := if e == |rects| then prevStart else newStart - curNumRects;
        MergeBands(prevStart, curStart, curNumRects);
      }
    }

    /** The loop of REGION_Coalesce that stretches the previous band and unlinks the current one. */
    method MergeBands(prevStart: nat, curStart: nat, n: nat)
      requires prevStart + n == curStart && curStart + n <= |rects|
      modifies this`rects
      ensures rects == old(rects)[..prevStart] + Stretched(old(rects), prevStart, curStart) + old(rects)[curStart + n..]
    {
      var k := 0;
      ghost var rs := rects;
      assert rs == PartMerged(rs, prevStart, curStart, 0);
      while k < n
        invariant 0 <= k <= n
        invariant rects == PartMerged(rs, prevStart, curStart, k)
      {
        PartMergedStep(rs, prevStart, curStart, k);
        rects := rects[prevStart + k := rects[prevStart + k].(bottom := rects[curStart].bottom)];
        rects := rects[..curStart] + rects[curStart + 1..];
        k := k + 1;
      }
    }
  }

  /** The list with the first `k` rectangles of the current band merged. */
  ghost function PartMerged(rs: seq<Rect>, prev: nat, cur: nat, k: nat): seq<Rect>
    requires prev <= cur && cur + (cur - prev) <= |rs| && k <= cur - prev
  {
    rs[..prev] + Stretched(rs, prev, cur)[..k] + rs[prev + k..cur] + rs[cur + k..]
  }

  lemma PartMergedStep(rs: seq<Rect>, prev: nat, cur: nat, k: nat)
    requires prev <= cur && cur + (cur - prev) <= |rs| && k < cur - prev
    ensures var part := PartMerged(rs, prev, cur, k);
      && |part| == |rs| - k
      && var one := part[prev + k := part[prev + k].(bottom := part[cur].bottom)];
      one[..cur] + one[cur + 1..] == PartMerged(rs, prev, cur, k + 1)
  {
    var part := PartMerged(rs, prev, cur, k);
    assert part[prev + k] == rs[prev + k] && part[cur] == rs[cur + k];
    var str := Stretched(rs, prev, cur);
    assert str[..k + 1] == str[..k] + [rs[prev + k].(bottom := rs[cur + k].bottom)];
  }

  /** The loops of REGION_Coalesce and REGION_RegionOp that look for the end of a band. */
  method FindBandEnd(rs: seq<Rect>, start: nat) returns (e: nat)
    requires start < |rs|
    ensures e == BandEnd(rs, start)
  {
    e := start;
    while e < |rs| && rs[e].top == rs[start].top
      invariant start <= e <= |rs|
      invariant forall k :: start <= k < e ==> rs[k].top == rs[start].top
    {
      e := e + 1;
    }
  }

  /** The loop of REGION_Coalesce that looks for the start of the last band. */
  method FindLastRun(rs: seq<Rect>, e: nat) returns (temp: nat)
    requires 0 < e < |rs| && rs[e].top != rs[e - 1].top
    ensures temp == LastRun(rs, |rs| - 1)
  {
    temp := |rs| - 1;
    while rs[temp - 1].top == rs[temp].top
      invariant e <= temp < |rs|
      invariant forall k :: temp <= k < |rs| ==> rs[k].top == rs[|rs| - 1].top
      decreases temp
    {
      temp := temp - 1;
    }
  }

  /** The loop of REGION_Coalesce that compares the sides of the two bands. */
  method SameSides(p: seq<Rect>, c: seq<Rect>) returns (same: bool)
    requires |p| == |c|
    ensures same <==> SpansOf(p) == SpansOf(c)
  {
    var k := 0;
    while k < |p|
      invariant 0 <= k <= |p|
      invariant forall i :: 0 <= i < k ==> SpanOf(p[i]) == SpanOf(c[i])
    {
      if p[k].left != c[k].left || p[k].right != c[k].right {
        assert SpansOf(p)[k] != SpansOf(c)[k];
        return false;
      }
      k := k + 1;
    }
    return true;
  }
}
