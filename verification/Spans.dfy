/** Horizontal spans: one scanline of a region, as `src/newgdi/region.c` keeps it inside a band.

    The three `overlapFunc`s of region.c (REGION_UnionO, REGION_IntersectO, REGION_SubtractO) walk two
    span lists of one band from left to right. Here each is a function; the lemmas say what it computes:
    the set operation, point by point, as a list in which no two spans touch. */
module Spans {
  import opened Basics

  datatype SetOp = Union | Intersect | Subtract

  /** What the operation does to one point. */
  predicate Holds(op: SetOp, in1: bool, in2: bool) {
    match op
    case Union => in1 || in2
    case Intersect => in1 && in2
    case Subtract => in1 && !in2
  }

  datatype Span = Span(left: int, right: int)

  predicate InSpan(s: Span, x: int) {
    s.left <= x < s.right
  }

  predicate InSpans(ss: seq<Span>, x: int) {
    ss != [] && (InSpan(ss[0], x) || InSpans(ss[1..], x))
  }

  /** Non-empty spans, sorted, with a gap between neighbours ("no two rectangles in a band touch"). */
  predicate Separated(ss: seq<Span>) {
    && (forall i :: 0 <= i < |ss| ==> ss[i].left < ss[i].right)
    && (forall i :: 0 <= i < |ss| - 1 ==> ss[i].right < ss[i + 1].left)
  }

  // ---------------------------------------------------------------- the three scans

  /** REGION_IntersectO: advance whichever span ends first. */
  function IntersectSpans(a: seq<Span>, b: seq<Span>): seq<Span>
    decreases |a| + |b|
  {
    if a == [] || b == [] then []
    else
      var left, right := Max(a[0].left, b[0].left), Min(a[0].right, b[0].right);
      (if left < right then [Span(left, right)] else []) +
      if a[0].right < b[0].right then IntersectSpans(a[1..], b)
      else if b[0].right < a[0].right then IntersectSpans(a, b[1..])
      else IntersectSpans(a[1..], b[1..])
  }

  /** The loop of REGION_UnionO once `last` is the tail of the output: take the leftmost span and
      merge it into `last` or start a new output span (MERGERECT). */
  function UnionFrom(last: Span, a: seq<Span>, b: seq<Span>): seq<Span>
    decreases |a| + |b|
  {
    if a == [] && b == [] then [last]
    else if b == [] || (a != [] && a[0].left < b[0].left) then MergeSpan(last, a[0], a[1..], b)
    else MergeSpan(last, b[0], a, b[1..])
  }

  function MergeSpan(last: Span, r: Span, a: seq<Span>, b: seq<Span>): seq<Span>
    decreases |a| + |b| + 1, 0
  {
    if last.right >= r.left then UnionFrom(Span(last.left, Max(last.right, r.right)), a, b)
    else [last] + UnionFrom(r, a, b)
  }

  /** REGION_UnionO. */
  function UnionSpans(a: seq<Span>, b: seq<Span>): seq<Span> {
    if a == [] && b == [] then []
    else if b == [] || (a != [] && a[0].left < b[0].left) then UnionFrom(a[0], a[1..], b)
    else UnionFrom(b[0], a, b[1..])
  }

  /** The left fence after a minuend span is used up. */
  function NextLeft(a: seq<Span>, left: int): int {
    if a == [] then left else a[0].left
  }

  /** REGION_SubtractO with `left` the leftmost point of `a[0]` not yet checked. */
  function SubtractFrom(left: int, a: seq<Span>, b: seq<Span>): seq<Span>
    decreases |a| + |b|
  {
    if a == [] then []
    else if b == [] then [Span(left, a[0].right)] + SubtractFrom(NextLeft(a[1..], left), a[1..], b)
    else if b[0].right <= left then SubtractFrom(left, a, b[1..])
    else if b[0].left <= left then
      if b[0].right >= a[0].right then SubtractFrom(NextLeft(a[1..], b[0].right), a[1..], b)
      else SubtractFrom(b[0].right, a, b[1..])
    else if b[0].left < a[0].right then
      [Span(left, b[0].left)] +
      if b[0].right >= a[0].right then SubtractFrom(NextLeft(a[1..], b[0].right), a[1..], b)
      else SubtractFrom(b[0].right, a, b[1..])
    else
      (if a[0].right > left then [Span(left, a[0].right)] else []) +
      SubtractFrom(NextLeft(a[1..], left), a[1..], b)
  }

  /** The `overlapFunc` of each set operation. */
  function Overlap(op: SetOp, a: seq<Span>, b: seq<Span>): seq<Span> {
    match op
    case Union => UnionSpans(a, b)
    case Intersect => IntersectSpans(a, b)
    case Subtract => SubtractFrom(NextLeft(a, 0), a, b)
  }

  // ---------------------------------------------------------------- what they compute

  lemma SeparatedTail(ss: seq<Span>)
    requires Separated(ss) && ss != []
    ensures Separated(ss[1..])
  {
  }

  lemma {:induction false} RightOf(ss: seq<Span>, x: int)
    requires Separated(ss)
    requires ss != [] ==> x < ss[0].left
    ensures !InSpans(ss, x)
  {
    if ss == [] {
    } else {
      SeparatedTail(ss);
      RightOf(ss[1..], x);
    }
  }

  lemma ConsSeparated(s: Span, ss: seq<Span>)
    requires s.left < s.right && Separated(ss)
    requires ss != [] ==> s.right < ss[0].left
    ensures Separated([s] + ss)
  {
  }

  lemma ConsIn(s: Span, ss: seq<Span>, x: int)
    ensures InSpans([s] + ss, x) <==> InSpan(s, x) || InSpans(ss, x)
  {
    assert ([s] + ss)[1..] == ss;
  }

  /** One turn of the scan: the common part of the heads, and whichever heads end are dropped. */
  lemma IntersectUnfold(a: seq<Span>, b: seq<Span>) returns (a': seq<Span>, b': seq<Span>, rest: seq<Span>)
    requires a != [] && b != []
    ensures a' == if a[0].right <= b[0].right then a[1..] else a
    ensures b' == if b[0].right <= a[0].right then b[1..] else b
    ensures |a'| + |b'| < |a| + |b| && rest == IntersectSpans(a', b')
    ensures var s := Span(Max(a[0].left, b[0].left), Min(a[0].right, b[0].right));
      IntersectSpans(a, b) == if s.left < s.right then [s] + rest else rest
  {
    a' := if a[0].right <= b[0].right then a[1..] else a;
    b' := if b[0].right <= a[0].right then b[1..] else b;
    rest := IntersectSpans(a', b');
    assert [] + rest == rest;
  }

  lemma {:induction false} IntersectSeparated(a: seq<Span>, b: seq<Span>)
    requires Separated(a) && Separated(b)
    ensures var r := IntersectSpans(a, b);
      Separated(r) && (r != [] ==> r[0].left >= a[0].left && r[0].left >= b[0].left)
    decreases |a| + |b|
  {
    if a == [] || b == [] {
    } else {
      var s := Span(Max(a[0].left, b[0].left), Min(a[0].right, b[0].right));
      SeparatedTail(a);
      SeparatedTail(b);
      var a', b', rest := IntersectUnfold(a, b);
      IntersectSeparated(a', b');
      assert rest != [] ==> rest[0].left > s.right;
      if s.left < s.right {
        ConsSeparated(s, rest);
      }
    }
  }

  /** Dropping heads that end at or before `right` loses only points up to there. */
  lemma DroppedHead(a: seq<Span>, right: int, x: int)
    requires Separated(a) && a != [] && right <= a[0].right
    ensures var a' := if a[0].right <= right then a[1..] else a;
      if x < right then InSpans(a, x) <==> InSpan(a[0], x) else InSpans(a', x) <==> InSpans(a, x)
    ensures x < right && a[0].right <= right ==> !InSpans(a[1..], x)
  {
    SeparatedTail(a);
    if x < a[0].right {
      RightOf(a[1..], x);
    }
  }

  lemma {:induction false} IntersectIn(a: seq<Span>, b: seq<Span>, x: int)
    requires Separated(a) && Separated(b)
    ensures InSpans(IntersectSpans(a, b), x) <==> InSpans(a, x) && InSpans(b, x)
    decreases |a| + |b|
  {
    if a == [] || b == [] {
    } else {
      var s := Span(Max(a[0].left, b[0].left), Min(a[0].right, b[0].right));
      SeparatedTail(a);
      SeparatedTail(b);
      var a', b', rest := IntersectUnfold(a, b);
      IntersectIn(a', b', x);
      DroppedHead(a, s.right, x);
      DroppedHead(b, s.right, x);
      if s.left < s.right {
        ConsIn(s, rest, x);
      }
    }
  }

  lemma {:induction false} UnionFromSeparated(last: Span, a: seq<Span>, b: seq<Span>)
    requires Separated(a) && Separated(b) && last.left < last.right
    requires a != [] ==> last.left <= a[0].left
    requires b != [] ==> last.left <= b[0].left
    ensures var r := UnionFrom(last, a, b);
      Separated(r) && r != [] && r[0].left == last.left
    decreases |a| + |b|
  {
    if a == [] && b == [] {
    } else {
      var first := b == [] || (a != [] && a[0].left < b[0].left);
      var r := if first then a[0] else b[0];
      var a', b' := if first then a[1..] else a, if first then b else b[1..];
      if a != [] { SeparatedTail(a); }
      if b != [] { SeparatedTail(b); }
      if last.right >= r.left {
        UnionFromSeparated(Span(last.left, Max(last.right, r.right)), a', b');
      } else {
        UnionFromSeparated(r, a', b');
        ConsSeparated(last, UnionFrom(r, a', b'));
      }
    }
  }

  lemma {:induction false} UnionFromIn(last: Span, a: seq<Span>, b: seq<Span>, x: int)
    requires Separated(a) && Separated(b) && last.left < last.right
    requires a != [] ==> last.left <= a[0].left
    requires b != [] ==> last.left <= b[0].left
    ensures InSpans(UnionFrom(last, a, b), x) <==> InSpan(last, x) || InSpans(a, x) || InSpans(b, x)
    decreases |a| + |b|
  {
    if a == [] && b == [] {
    } else {
      var first := b == [] || (a != [] && a[0].left < b[0].left);
      var r := if first then a[0] else b[0];
      var a', b' := if first then a[1..] else a, if first then b else b[1..];
      if a != [] { SeparatedTail(a); }
      if b != [] { SeparatedTail(b); }
      if last.right >= r.left {
        UnionFromIn(Span(last.left, Max(last.right, r.right)), a', b', x);
      } else {
        UnionFromIn(r, a', b', x);
        ConsIn(last, UnionFrom(r, a', b'), x);
      }
    }
  }

  lemma {:induction false} SubtractFromSeparated(left: int, a: seq<Span>, b: seq<Span>)
    requires Separated(a) && Separated(b)
    requires a != [] ==> a[0].left <= left < a[0].right
    ensures var r := SubtractFrom(left, a, b);
      Separated(r) && (r != [] ==> r[0].left >= left)
    decreases |a| + |b|
  {
    if a == [] {
    } else {
      SeparatedTail(a);
      if b == [] {
        SubtractFromSeparated(NextLeft(a[1..], left), a[1..], b);
        ConsSeparated(Span(left, a[0].right), SubtractFrom(NextLeft(a[1..], left), a[1..], b));
      } else {
        SeparatedTail(b);
        if b[0].right <= left {
          SubtractFromSeparated(left, a, b[1..]);
        } else if b[0].left < a[0].right {
          var fence := b[0].right;
          var rest: seq<Span>;
          if fence >= a[0].right {
            SubtractFromSeparated(NextLeft(a[1..], fence), a[1..], b);
            rest := SubtractFrom(NextLeft(a[1..], fence), a[1..], b);
          } else {
            SubtractFromSeparated(fence, a, b[1..]);
            rest := SubtractFrom(fence, a, b[1..]);
          }
          if b[0].left > left {
            ConsSeparated(Span(left, b[0].left), rest);
          }
        } else {
          SubtractFromSeparated(NextLeft(a[1..], left), a[1..], b);
          ConsSeparated(Span(left, a[0].right), SubtractFrom(NextLeft(a[1..], left), a[1..], b));
        }
      }
    }
  }

  lemma {:induction false} SubtractFromIn(left: int, a: seq<Span>, b: seq<Span>, x: int)
    requires Separated(a) && Separated(b)
    requires a != [] ==> a[0].left <= left < a[0].right
    ensures InSpans(SubtractFrom(left, a, b), x) <==> x >= left && InSpans(a, x) && !InSpans(b, x)
    decreases |a| + |b|
  {
    if a == [] {
    } else {
      SeparatedTail(a);
      if |a| > 1 && x < a[1].left {
        RightOf(a[1..], x);
      }
      if b == [] {
        SubtractFromIn(NextLeft(a[1..], left), a[1..], b, x);
        ConsIn(Span(left, a[0].right), SubtractFrom(NextLeft(a[1..], left), a[1..], b), x);
      } else {
        SeparatedTail(b);
        if x < b[0].right {
          RightOf(b[1..], x);
        }
        if b[0].right <= left {
          SubtractFromIn(left, a, b[1..], x);
        } else if b[0].left < a[0].right {
          var fence := b[0].right;
          var rest: seq<Span>;
          if fence >= a[0].right {
            SubtractFromIn(NextLeft(a[1..], fence), a[1..], b, x);
            rest := SubtractFrom(NextLeft(a[1..], fence), a[1..], b);
          } else {
            SubtractFromIn(fence, a, b[1..], x);
            rest := SubtractFrom(fence, a, b[1..]);
          }
          if b[0].left > left {
            ConsIn(Span(left, b[0].left), rest, x);
          }
        } else {
          SubtractFromIn(NextLeft(a[1..], left), a[1..], b, x);
          ConsIn(Span(left, a[0].right), SubtractFrom(NextLeft(a[1..], left), a[1..], b), x);
        }
      }
    }
  }

  /** Each overlap scan yields a separated list ... */
  lemma OverlapSeparated(op: SetOp, a: seq<Span>, b: seq<Span>)
    requires Separated(a) && Separated(b) && a != [] && b != []
    ensures Separated(Overlap(op, a, b))
  {
    SeparatedTail(a);
    SeparatedTail(b);
    match op
    case Union =>
      if a[0].left < b[0].left { UnionFromSeparated(a[0], a[1..], b); } else { UnionFromSeparated(b[0], a, b[1..]); }
    case Intersect => IntersectSeparated(a, b);
    case Subtract => SubtractFromSeparated(a[0].left, a, b);
  }

  /** ... that covers exactly the points of the set operation. */
  lemma OverlapIn(op: SetOp, a: seq<Span>, b: seq<Span>, x: int)
    requires Separated(a) && Separated(b) && a != [] && b != []
    ensures InSpans(Overlap(op, a, b), x) <==> Holds(op, InSpans(a, x), InSpans(b, x))
  {
    SeparatedTail(a);
    SeparatedTail(b);
    match op
    case Union =>
      if a[0].left < b[0].left { UnionFromIn(a[0], a[1..], b, x); } else { UnionFromIn(b[0], a, b[1..], x); }
    case Intersect => IntersectIn(a, b, x);
    case Subtract =>
      SubtractFromIn(a[0].left, a, b, x);
      if x < a[0].left { RightOf(a, x); }
  }

  lemma FirstSpanIn(ss: seq<Span>)
    requires Separated(ss) && ss != []
    ensures InSpans(ss, ss[0].left)
  {
  }

  /** A separated list is determined by the points it covers. */
  lemma {:induction false} SpansUnique(a: seq<Span>, b: seq<Span>)
    requires Separated(a) && Separated(b)
    requires forall x :: InSpans(a, x) <==> InSpans(b, x)
    ensures a == b
    decreases |a|
  {
    if a == [] {
      if b != [] { FirstSpanIn(b); }
    } else if b == [] {
      FirstSpanIn(a);
    } else {
      SeparatedTail(a);
      SeparatedTail(b);
      FirstSpanLeft(a, b);
      FirstSpanLeft(b, a);
      FirstSpanRight(a, b);
      FirstSpanRight(b, a);
      forall x ensures InSpans(a[1..], x) <==> InSpans(b[1..], x) {
        assert InSpans(a, x) <==> InSpans(b, x);
        if x < a[0].right {
          RightOf(a[1..], x);
          RightOf(b[1..], x);
        }
      }
      SpansUnique(a[1..], b[1..]);
      assert a == [a[0]] + a[1..] && b == [b[0]] + b[1..];
    }
  }

  lemma FirstSpanLeft(a: seq<Span>, b: seq<Span>)
    requires Separated(a) && Separated(b) && a != [] && b != []
    requires forall x :: InSpans(a, x) <==> InSpans(b, x)
    ensures b[0].left <= a[0].left
  {
    assert InSpans(a, a[0].left);
    if a[0].left < b[0].left { RightOf(b, a[0].left); }
  }

  lemma FirstSpanRight(a: seq<Span>, b: seq<Span>)
    requires Separated(a) && Separated(b) && a != [] && b != []
    requires a[0].left == b[0].left
    requires forall x :: InSpans(a, x) <==> InSpans(b, x)
    ensures b[0].right <= a[0].right
  {
    if a[0].right < b[0].right {
      assert InSpans(b, a[0].right);
      SeparatedTail(a);
      RightOf(a[1..], a[0].right);
    }
  }
}
