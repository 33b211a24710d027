/** Rectangles over real coordinates, with the semantics of the GDI+ RectF operations the
    engine relies on: Union (RectF::Union), the half-open point test (RectF::Contains) and
    the empty-area test (RectF::IsEmptyArea). None of them is defined in this repository;
    their GDI+ meaning is an assumption of the model (see README). */
module Geometry {

  /** GDI+'s REAL_EPSILON, which is FLT_EPSILON (2^-23). */
  const RealEpsilon: real := 1.0 / 8388608.0

  function MinReal(a: real, b: real): real { if a <= b then a else b }
  function MaxReal(a: real, b: real): real { if a <= b then b else a }

  /** RectF: origin (x, y) and extent (width, height); a degenerate rect still has a corner. */
  datatype Rect = Rect(x: real, y: real, width: real, height: real) {

    function Left(): real { x }
    function Top(): real { y }
    function Right(): real { x + width }
    function Bottom(): real { y + height }

    /** RectF::IsEmptyArea: a side no longer than REAL_EPSILON. */
    predicate IsEmptyArea() { width <= RealEpsilon || height <= RealEpsilon }

    /** RectF::Contains for a pixel position: half-open on the right and bottom edges. */
    predicate Contains(px: int, py: int) {
      x <= px as real < x + width && y <= py as real < y + height
    }

    /** RectF::Offset: the same rect moved by (dx, dy). */
    function Offset(dx: real, dy: real): (r: Rect)
      ensures r.width == width && r.height == height
      ensures r.Left() == Left() + dx && r.Top() == Top() + dy
    {
      Rect(x + dx, y + dy, width, height)
    }
  }

  /** The zero-size rect anchored at (x, y): the starting boundary of a group's layout. */
  function Anchor(x: real, y: real): Rect { Rect(x, y, 0.0, 0.0) }

  /** `outer` covers every edge of `inner` (the rects may be degenerate). */
  predicate Covers(outer: Rect, inner: Rect) {
    outer.Left() <= inner.Left() && outer.Top() <= inner.Top() &&
    inner.Right() <= outer.Right() && inner.Bottom() <= outer.Bottom()
  }

  /** RectF::Union: the smallest rect covering both arguments. A zero-size argument still
      contributes its corner, which is what anchors a group's boundary at its origin. */
  function Union(a: Rect, b: Rect): (c: Rect)
    ensures Covers(c, a) && Covers(c, b)
    ensures c.Left() == a.Left() || c.Left() == b.Left()
    ensures c.Top() == a.Top() || c.Top() == b.Top()
    ensures c.Right() == a.Right() || c.Right() == b.Right()
    ensures c.Bottom() == a.Bottom() || c.Bottom() == b.Bottom()
  {
    var left := MinReal(a.Left(), b.Left());
    var top := MinReal(a.Top(), b.Top());
    var right := MaxReal(a.Right(), b.Right());
    var bottom := MaxReal(a.Bottom(), b.Bottom());
    Rect(left, top, right - left, bottom - top)
  }

  /** A rect covers a union exactly when it covers both parts. */
  lemma UnionLeast(a: Rect, b: Rect, outer: Rect)
    ensures Covers(outer, Union(a, b)) <==> Covers(outer, a) && Covers(outer, b)
  {
  }

  /** Moving both parts moves their union by the same amount. */
  lemma UnionOffset(a: Rect, b: Rect, dx: real, dy: real)
    ensures Union(a.Offset(dx, dy), b.Offset(dx, dy)) == Union(a, b).Offset(dx, dy)
  {
  }

  /** Two offsets add up. */
  lemma OffsetTwice(r: Rect, dx1: real, dy1: real, dx2: real, dy2: real)
    ensures r.Offset(dx1, dy1).Offset(dx2, dy2) == r.Offset(dx1 + dx2, dy1 + dy2)
  {
  }
}
