/** Rectangle operations: the inline functions of `include/gdi.h` and `src/newgdi/rect.c`. */
module Rects {
  import opened Basics

  /** The coordinates of a RECT; the right and bottom lines are excluded. */
  datatype Rect = Rect(left: int, top: int, right: int, bottom: int)

  predicate PtInRect(r: Rect, x: int, y: int) {
    x >= r.left && x < r.right && y >= r.top && y < r.bottom
  }

  predicate IsRectEmpty(r: Rect) {
    r.left == r.right || r.top == r.bottom
  }

  /** A rectangle with points in it. IsRectEmpty is a weaker test: it lets an inverted rectangle pass. */
  predicate Proper(r: Rect) {
    r.left < r.right && r.top < r.bottom
  }

  /** The rectangle IntersectRect computes. */
  function Overlapped(a: Rect, b: Rect): Rect {
    Rect(Max(a.left, b.left), Max(a.top, b.top), Min(a.right, b.right), Min(a.bottom, b.bottom))
  }

  predicate DoesIntersect(a: Rect, b: Rect) {
    var r := Overlapped(a, b);
    !(r.left >= r.right || r.top >= r.bottom)
  }

  /** DoesIntersect decides, for any two rectangles, whether they have a point in common. */
  lemma IntersectsIffCommonPoint(a: Rect, b: Rect)
    ensures DoesIntersect(a, b) <==> exists x, y :: PtInRect(a, x, y) && PtInRect(b, x, y)
  {
    if DoesIntersect(a, b) {
      var r := Overlapped(a, b);
      assert PtInRect(a, r.left, r.top) && PtInRect(b, r.left, r.top);
    }
  }

  predicate IsCovered(a: Rect, b: Rect) {
    !(a.left < b.left || a.top < b.top || a.right > b.right || a.bottom > b.bottom)
  }

  function Normalized(r: Rect): Rect {
    Rect(Min(r.left, r.right), Min(r.top, r.bottom), Max(r.left, r.right), Max(r.top, r.bottom))
  }

  /** GetBoundRect. */
  function Bounding(a: Rect, b: Rect): Rect {
    var m, n := Normalized(a), Normalized(b);
    Rect(Min(m.left, n.left), Min(m.top, n.top), Max(m.right, n.right), Max(m.bottom, n.bottom))
  }

  // ---------------------------------------------------------------- SubtractRect

  /** The pieces SubtractRect writes: above, below, left and right of the subtrahend. */
  function Pieces(a: Rect, b: Rect): seq<Rect> {
    if !DoesIntersect(a, b) then [a]
    else
      var top, bottom := Max(a.top, b.top), Min(a.bottom, b.bottom);
      Optional(b.top > a.top, Rect(a.left, a.top, a.right, b.top)) +
      Optional(b.bottom < a.bottom, Rect(a.left, b.bottom, a.right, a.bottom)) +
      Optional(b.left > a.left, Rect(a.left, top, b.left, bottom)) +
      Optional(b.right < a.right, Rect(b.right, top, a.right, bottom))
  }

  function Optional(some: bool, r: Rect): seq<Rect> {
    if some then [r] else []
  }

  predicate Covers(ps: seq<Rect>, x: int, y: int) {
    exists i :: 0 <= i < |ps| && PtInRect(ps[i], x, y)
  }

  predicate InAtMostOne(ps: seq<Rect>, x: int, y: int) {
    forall i, j :: 0 <= i < j < |ps| ==> !(PtInRect(ps[i], x, y) && PtInRect(ps[j], x, y))
  }

  /** One more optional piece, apart from the others. */
  lemma MorePieces(ps: seq<Rect>, some: bool, r: Rect, x: int, y: int)
    ensures Covers(ps + Optional(some, r), x, y) <==> Covers(ps, x, y) || (some && PtInRect(r, x, y))
    ensures InAtMostOne(ps, x, y) && !(some && Covers(ps, x, y) && PtInRect(r, x, y)) ==>
      InAtMostOne(ps + Optional(some, r), x, y)
  {
    var all := ps + Optional(some, r);
    assert forall i :: 0 <= i < |ps| ==> all[i] == ps[i];
    assert some ==> all[|ps|] == r;
  }

  /** Two optional pieces that are apart. */
  lemma TwoPieces(some1: bool, r1: Rect, some2: bool, r2: Rect, x: int, y: int)
    requires !(some1 && some2 && PtInRect(r1, x, y) && PtInRect(r2, x, y))
    ensures var ps := Optional(some1, r1) + Optional(some2, r2);
      InAtMostOne(ps, x, y) &&
      (Covers(ps, x, y) <==> (some1 && PtInRect(r1, x, y)) || (some2 && PtInRect(r2, x, y)))
  {
    assert [] + Optional(some1, r1) == Optional(some1, r1);
    MorePieces([], some1, r1, x, y);
    MorePieces(Optional(some1, r1), some2, r2, x, y);
  }

  /** The upper and the lower piece. */
  function EndPieces(a: Rect, b: Rect): seq<Rect> {
    Optional(b.top > a.top, Rect(a.left, a.top, a.right, b.top)) +
    Optional(b.bottom < a.bottom, Rect(a.left, b.bottom, a.right, a.bottom))
  }

  lemma EndsPartition(a: Rect, b: Rect, x: int, y: int)
    requires DoesIntersect(a, b)
    ensures InAtMostOne(EndPieces(a, b), x, y)
    ensures Covers(EndPieces(a, b), x, y) <==> PtInRect(a, x, y) && !(b.top <= y < b.bottom)
  {
    TwoPieces(b.top > a.top, Rect(a.left, a.top, a.right, b.top),
              b.bottom < a.bottom, Rect(a.left, b.bottom, a.right, a.bottom), x, y);
  }

  /** The pieces are disjoint and cover the difference of the point sets, for any two rectangles. */
  lemma PiecesPartition(a: Rect, b: Rect, x: int, y: int)
    ensures InAtMostOne(Pieces(a, b), x, y)
    ensures Covers(Pieces(a, b), x, y) <==> PtInRect(a, x, y) && !PtInRect(b, x, y)
  {
    if !DoesIntersect(a, b) {
      assert Pieces(a, b)[0] == a;
    } else {
      var top, bottom := Max(a.top, b.top), Min(a.bottom, b.bottom);
      var left, right := Rect(a.left, top, b.left, bottom), Rect(b.right, top, a.right, bottom);
      var ends := EndPieces(a, b);
      EndsPartition(a, b, x, y);
      MorePieces(ends, b.left > a.left, left, x, y);
      MorePieces(ends + Optional(b.left > a.left, left), b.right < a.right, right, x, y);
    }
  }

  function One(some: bool): nat { if some then 1 else 0 }

  lemma FourPieces(some1: bool, r1: Rect, some2: bool, r2: Rect, some3: bool, r3: Rect, some4: bool, r4: Rect,
                   ps: seq<Rect>)
    requires ps == Optional(some1, r1) + Optional(some2, r2) + Optional(some3, r3) + Optional(some4, r4)
    ensures var n2 := One(some1) + One(some2);
      && |ps| == n2 + One(some3) + One(some4)
      && (some1 ==> ps[0] == r1) && (some2 ==> ps[One(some1)] == r2)
      && (some3 ==> ps[n2] == r3) && (some4 ==> ps[n2 + One(some3)] == r4)
  {
  }

  /** One piece for every side of `a` that `b` leaves inside, and none is empty. The upper and the lower piece come
      first, over the whole width; the left and the right one have the height of the common part. */
  predicate Shaped(ps: seq<Rect>, a: Rect, b: Rect) {
    var ends := One(a.top < b.top) + One(b.bottom < a.bottom);
    && |ps| == ends + One(a.left < b.left) + One(b.right < a.right)
    && (forall i :: 0 <= i < ends ==> ps[i].left == a.left && ps[i].right == a.right)
    && (forall i :: ends <= i < |ps| ==> ps[i].top == Max(a.top, b.top) && ps[i].bottom == Min(a.bottom, b.bottom))
    && (forall i, j :: 0 <= i < j < ends ==> ps[i].bottom <= ps[j].top)
    && (forall i, j :: ends <= i < j < |ps| ==> ps[i].right <= ps[j].left)
    && (forall i :: 0 <= i < |ps| ==> Proper(ps[i]))
  }

  lemma ShapedList(ps: seq<Rect>, a: Rect, b: Rect, n1: nat, n2: nat, n3: nat)
    requires DoesIntersect(a, b)
    requires n1 == One(a.top < b.top) && n2 == n1 + One(b.bottom < a.bottom) && n3 == n2 + One(a.left < b.left)
    requires |ps| == n3 + One(b.right < a.right)
    requires n1 > 0 ==> ps[0] == Rect(a.left, a.top, a.right, b.top)
    requires n2 > n1 ==> ps[n1] == Rect(a.left, b.bottom, a.right, a.bottom)
    requires n3 > n2 ==> ps[n2] == Rect(a.left, Max(a.top, b.top), b.left, Min(a.bottom, b.bottom))
    requires |ps| > n3 ==> ps[n3] == Rect(b.right, Max(a.top, b.top), a.right, Min(a.bottom, b.bottom))
    ensures Shaped(ps, a, b)
  {
    forall i | 0 <= i < |ps|
      ensures Proper(ps[i]) && (i < n2 ==> i == 0 || i == n1) && (i >= n2 ==> i == n2 || i == n3) {
    }
  }

  /** No piece is empty, and there are as many as there are sides of `b` inside `a`. */
  lemma PiecesShape(a: Rect, b: Rect)
    requires DoesIntersect(a, b)
    ensures Shaped(Pieces(a, b), a, b)
  {
    var top, bottom := Max(a.top, b.top), Min(a.bottom, b.bottom);
    var n1 := One(a.top < b.top);
    var n2 := n1 + One(b.bottom < a.bottom);
    FourPieces(b.top > a.top, Rect(a.left, a.top, a.right, b.top),
               b.bottom < a.bottom, Rect(a.left, b.bottom, a.right, a.bottom),
               b.left > a.left, Rect(a.left, top, b.left, bottom),
               b.right < a.right, Rect(b.right, top, a.right, bottom), Pieces(a, b));
    ShapedList(Pieces(a, b), a, b, n1, n2, n2 + One(a.left < b.left));
  }

  /** Apart from it, the rectangle stays as it is. */
  lemma PieceWhole(a: Rect, b: Rect)
    requires !exists x, y :: PtInRect(a, x, y) && PtInRect(b, x, y)
    ensures Pieces(a, b) == [a]
  {
    IntersectsIffCommonPoint(a, b);
  }

  method SubtractRect(rc: array<Rect>, a: Rect, b: Rect) returns (nCount: nat)
    requires rc.Length >= 4
    modifies rc
    ensures nCount <= 4 && rc[..nCount] == Pieces(a, b)
    ensures rc[nCount..] == old(rc[..])[nCount..]
    ensures !DoesIntersect(a, b) ==> nCount == 1 && rc[0] == a
    ensures DoesIntersect(a, b) ==> Shaped(rc[..nCount], a, b)
  {
    if DoesIntersect(a, b) { PiecesShape(a, b); }
    var src := a;
    nCount := 0;
    if !DoesIntersect(src, b) {
      rc[0] := src;
      nCount := 1;
    } else {
      if b.top > src.top {
        rc[nCount] := Rect(src.left, src.top, src.right, b.top);
        nCount := nCount + 1;
        src := src.(top := b.top);
      }
      if b.bottom < src.bottom {
        rc[nCount] := Rect(src.left, b.bottom, src.right, src.bottom);
        nCount := nCount + 1;
        src := src.(bottom := b.bottom);
      }
      if b.left > src.left {
        rc[nCount] := Rect(src.left, src.top, b.left, src.bottom);
        nCount := nCount + 1;
      }
      if b.right < src.right {
        rc[nCount] := Rect(b.right, src.top, src.right, src.bottom);
        nCount := nCount + 1;
      }
    }
  }

  // ---------------------------------------------------------------- UnionRect

  datatype UnionResult = Joined(rect: Rect) | Apart

  /** UnionRect: only rectangles with equal sides that touch or overlap are joined. */
  function UnionRect(a: Rect, b: Rect): UnionResult {
    var m, n := Normalized(a), Normalized(b);
    if m.left == n.left && m.right == n.right then
      if m.top <= n.top && n.top <= m.bottom then Joined(Rect(m.left, m.top, m.right, Max(m.bottom, n.bottom)))
      else if m.top >= n.top && n.bottom >= m.top then Joined(Rect(m.left, n.top, m.right, Max(m.bottom, n.bottom)))
      else Apart
    else if m.top == n.top && m.bottom == n.bottom then
      if m.left <= n.left && n.left <= m.right then Joined(Rect(m.left, m.top, Max(m.right, n.right), m.bottom))
      else if m.left >= n.left && n.right >= m.left then Joined(Rect(n.left, m.top, Max(m.right, n.right), m.bottom))
      else Apart
    else Apart
  }

  /** Exactly when they are joined: equal left and right sides and no gap between the others, or the other way round. */
  lemma UnionRectJoinsIff(a: Rect, b: Rect)
    ensures var m, n := Normalized(a), Normalized(b);
      UnionRect(a, b).Joined? <==>
        || (m.left == n.left && m.right == n.right && m.top <= n.bottom && n.top <= m.bottom)
        || (m.top == n.top && m.bottom == n.bottom && m.left <= n.right && n.left <= m.right)
  {
  }

  ghost predicate IsUnion(r: Rect, a: Rect, b: Rect) {
    forall x, y :: PtInRect(r, x, y) <==> PtInRect(a, x, y) || PtInRect(b, x, y)
  }

  /** The union of two rectangles with their sides put in order. */
  ghost predicate IsNormalUnion(r: Rect, a: Rect, b: Rect) {
    IsUnion(r, Normalized(a), Normalized(b))
  }

  lemma ProperUnionIsBounding(r: Rect, a: Rect, b: Rect)
    requires Proper(a) && Proper(b) && IsUnion(r, a, b)
    ensures r == Bounding(a, b)
  {
    var e := Bounding(a, b);
    assert PtInRect(r, a.left, a.top) && PtInRect(r, b.left, b.top);
    assert PtInRect(r, a.right - 1, a.bottom - 1) && PtInRect(r, b.right - 1, b.bottom - 1);
    assert PtInRect(r, r.left, r.top) && PtInRect(r, r.right - 1, r.bottom - 1);
    assert PtInRect(a, r.left, r.top) || PtInRect(b, r.left, r.top);
    assert PtInRect(a, r.right - 1, r.bottom - 1) || PtInRect(b, r.right - 1, r.bottom - 1);
  }

  /** A rectangle that is the union of two has corners only where they have. */
  lemma UnionIsBounding(r: Rect, a: Rect, b: Rect)
    requires !IsRectEmpty(a) && !IsRectEmpty(b) && IsNormalUnion(r, a, b)
    ensures r == Bounding(a, b)
  {
    ProperUnionIsBounding(r, Normalized(a), Normalized(b));
  }

  /** GetBoundRect gives the least box over both, points or not: it covers both, every box that covers both covers
      it, and no other box does so. */
  lemma BoundingIsLeast(a: Rect, b: Rect, box: Rect)
    ensures box == Bounding(a, b) <==>
      && IsCovered(Normalized(a), box) && IsCovered(Normalized(b), box)
      && forall r :: IsCovered(Normalized(a), r) && IsCovered(Normalized(b), r) ==> IsCovered(box, r)
  {
    var e := Bounding(a, b);
    assert IsCovered(Normalized(a), e) && IsCovered(Normalized(b), e);
    if IsCovered(Normalized(a), box) && IsCovered(Normalized(b), box) && IsCovered(box, e) {
      assert box == e;
    }
  }

  /** If neither covers the other, the union is a rectangle only if they have one pair of sides in common
      and touch. */
  lemma UnionCorners(r: Rect, a: Rect, b: Rect)
    requires Proper(a) && Proper(b) && IsUnion(r, a, b) && !IsCovered(a, b) && !IsCovered(b, a)
    ensures UnionRect(a, b).Joined?
  {
    ProperUnionIsBounding(r, a, b);
    var right, bottom := r.right - 1, r.bottom - 1;
    assert PtInRect(a, r.left, r.top) || PtInRect(b, r.left, r.top) by { assert PtInRect(r, r.left, r.top); }
    assert PtInRect(a, right, r.top) || PtInRect(b, right, r.top) by { assert PtInRect(r, right, r.top); }
    assert PtInRect(a, r.left, bottom) || PtInRect(b, r.left, bottom) by { assert PtInRect(r, r.left, bottom); }
    assert PtInRect(a, right, bottom) || PtInRect(b, right, bottom) by { assert PtInRect(r, right, bottom); }
    assert PtInRect(r, a.right, a.top) ==> PtInRect(b, a.right, a.top);
    assert PtInRect(r, b.right, b.top) ==> PtInRect(a, b.right, b.top);
    assert PtInRect(r, a.left, a.bottom) ==> PtInRect(b, a.left, a.bottom);
    assert PtInRect(r, b.left, b.bottom) ==> PtInRect(a, b.left, b.bottom);
  }

  lemma JoinedIsUnion(a: Rect, b: Rect)
    ensures UnionRect(a, b).Joined? ==> IsNormalUnion(UnionRect(a, b).rect, a, b)
  {
  }

  lemma ProperUnionExact(a: Rect, b: Rect)
    requires Proper(a) && Proper(b)
    ensures (exists r :: IsUnion(r, a, b)) <==> UnionRect(a, b).Joined? || IsCovered(a, b) || IsCovered(b, a)
  {
    if IsCovered(a, b) {
      assert IsUnion(b, a, b);
    } else if IsCovered(b, a) {
      assert IsUnion(a, a, b);
    } else if UnionRect(a, b).Joined? {
      JoinedIsUnion(a, b);
    } else if r :| IsUnion(r, a, b) {
      UnionCorners(r, a, b);
    }
  }

  /** UnionRect joins two rectangles only into their exact union, and it joins every two whose union is a rectangle,
      except that it may refuse when one of them is empty or covers the other. */
  lemma UnionRectExact(a: Rect, b: Rect)
    ensures UnionRect(a, b).Joined? ==>
      IsNormalUnion(UnionRect(a, b).rect, a, b) && UnionRect(a, b).rect == Bounding(a, b)
    ensures (exists r :: IsNormalUnion(r, a, b)) <==>
      || UnionRect(a, b).Joined? || IsCovered(Normalized(a), Normalized(b)) || IsCovered(Normalized(b), Normalized(a))
      || IsRectEmpty(a) || IsRectEmpty(b)
  {
    JoinedIsUnion(a, b);
    var m, n := Normalized(a), Normalized(b);
    if IsRectEmpty(a) {
      assert IsNormalUnion(n, a, b);
    } else if IsRectEmpty(b) {
      assert IsNormalUnion(m, a, b);
    } else {
      ProperUnionExact(m, n);
      assert forall r :: IsNormalUnion(r, a, b) <==> IsUnion(r, m, n);
    }
  }

  /** It refuses a union that is a rectangle exactly when one covers the other and no two sides are in line. */
  lemma UnionRectRefusesIff(a: Rect, b: Rect)
    requires !IsRectEmpty(a) && !IsRectEmpty(b)
    ensures UnionRect(a, b).Apart? && (exists r :: IsNormalUnion(r, a, b)) <==>
      var m, n := Normalized(a), Normalized(b);
      && (IsCovered(m, n) || IsCovered(n, m))
      && !(m.left == n.left && m.right == n.right) && !(m.top == n.top && m.bottom == n.bottom)
  {
    UnionRectExact(a, b);
  }

  // ---------------------------------------------------------------- rectangles changed in place

  datatype Point = Point(x: int, y: int)

  function Inflated(r: Rect, p: Point): Rect {
    Rect(Min(p.x, r.left), Min(p.y, r.top), Max(p.x, r.right), Max(p.y, r.bottom))
  }

  /** A RECT that functions change through a pointer. */
  class RectVar {
    var left: int
    var top: int
    var right: int
    var bottom: int

    constructor (r: Rect)
      ensures Value() == r
    {
      left, top, right, bottom := r.left, r.top, r.right, r.bottom;
    }

    ghost function Value(): Rect
      reads this
    {
      Rect(left, top, right, bottom)
    }

    method InflateRectToPt(x: int, y: int)
      modifies this
      ensures Value() == Inflated(old(Value()), Point(x, y))
      ensures left == (if x < old(left) then x else old(left)) && right == (if x > old(right) then x else old(right))
      ensures top == (if y < old(top) then y else old(top)) && bottom == (if y > old(bottom) then y else old(bottom))
    {
      if x < left { left := x; }
      if y < top { top := y; }
      if x > right { right := x; }
      if y > bottom { bottom := y; }
    }

    method NormalizeRect()
      modifies this
      ensures Value() == Normalized(old(Value()))
      ensures if old(left <= right) then left == old(left) && right == old(right)
              else left == old(right) && right == old(left)
      ensures if old(top <= bottom) then top == old(top) && bottom == old(bottom)
              else top == old(bottom) && bottom == old(top)
    {
      if left > right { left, right := right, left; }
      if top > bottom { top, bottom := bottom, top; }
    }
  }

  function InflatedAll(r: Rect, ps: seq<Point>): Rect {
    if ps == [] then r else Inflated(InflatedAll(r, ps[..|ps| - 1]), ps[|ps| - 1])
  }

  /** In the box with its right and bottom lines. */
  predicate InClosed(r: Rect, p: Point) {
    r.left <= p.x <= r.right && r.top <= p.y <= r.bottom
  }

  /** The boxes that hold the starting rectangle and every point. */
  predicate HoldsAll(box: Rect, r: Rect, ps: seq<Point>) {
    IsCovered(r, box) && forall p :: p in ps ==> InClosed(box, p)
  }

  /** Inflating to any points gives the least box that holds them all. */
  lemma {:induction false} InflatedLeast(r: Rect, ps: seq<Point>, box: Rect)
    ensures HoldsAll(InflatedAll(r, ps), r, ps)
    ensures HoldsAll(box, r, ps) ==> IsCovered(InflatedAll(r, ps), box)
    decreases |ps|
  {
    if ps == [] {
    } else {
      var before := ps[..|ps| - 1];
      InflatedLeast(r, before, box);
      assert forall p :: p in ps <==> p in before || p == ps[|ps| - 1];
      if HoldsAll(box, r, ps) {
        assert HoldsAll(box, r, before) && InClosed(box, ps[|ps| - 1]);
      }
    }
  }

  /** Hence the order of the points, and how often each comes, does not matter. */
  lemma InflatedOrder(r: Rect, ps: seq<Point>, qs: seq<Point>)
    requires forall p :: p in ps <==> p in qs
    ensures InflatedAll(r, ps) == InflatedAll(r, qs)
  {
    InflatedLeast(r, ps, InflatedAll(r, qs));
    InflatedLeast(r, qs, InflatedAll(r, ps));
  }

  /** "To contain a point" is true of the box with its right and bottom lines. PtInRect leaves those out:
      it finds the point only if the point was left of the old right and above the old bottom. */
  lemma InflatedContains(r: Rect, p: Point)
    ensures InClosed(Inflated(r, p), p)
    ensures PtInRect(Inflated(r, p), p.x, p.y) <==> p.x < r.right && p.y < r.bottom
    ensures var w := Inflated(r, p); PtInRect(Rect(w.left, w.top, w.right + 1, w.bottom + 1), p.x, p.y)
  {
  }
}
