/** Integer rectangle algebra with the semantics of java.awt.Rectangle. */
module Geometry {

  datatype Point = Point(x: int, y: int)

  /** A rectangle whose sizes are never negative: every bounds in this model
      comes from a raster, and rasters cannot have a negative size. */
  datatype Rect = Rect(x: int, y: int, width: nat, height: nat) {

    function Right(): int { x + width }

    function Bottom(): int { y + height }

    predicate Contains(p: Point) {
      x <= p.x < x + width && y <= p.y < y + height
    }

    /** Rectangle.isEmpty: no area. */
    predicate IsEmpty() {
      width == 0 || height == 0
    }
  }

  function Min(a: int, b: int): int { if a <= b then a else b }

  function Max(a: int, b: int): int { if a <= b then b else a }

  /** Rectangle.intersects: both rectangles have area and they overlap. */
  predicate Intersects(a: Rect, b: Rect) {
    !a.IsEmpty() && !b.IsEmpty()
    && a.x < b.Right() && b.x < a.Right()
    && a.y < b.Bottom() && b.y < a.Bottom()
  }

  /** `outer` encloses `inner` edge by edge (also when `inner` has no area). */
  predicate Covers(outer: Rect, inner: Rect) {
    outer.x <= inner.x && inner.Right() <= outer.Right()
    && outer.y <= inner.y && inner.Bottom() <= outer.Bottom()
  }

  /** Two rectangles overlap exactly when some point lies in both. */
  lemma IntersectsIffSharedPoint(a: Rect, b: Rect)
    ensures Intersects(a, b) <==> exists p :: a.Contains(p) && b.Contains(p)
  {
    if Intersects(a, b) {
      var p := Point(Max(a.x, b.x), Max(a.y, b.y));
      assert a.Contains(p) && b.Contains(p);
    }
  }

  /** Rectangle.intersection, used only once Intersects holds. */
  function Intersection(a: Rect, b: Rect): (r: Rect)
    requires Intersects(a, b)
    ensures !r.IsEmpty()
    ensures forall p :: r.Contains(p) <==> a.Contains(p) && b.Contains(p)
    ensures Covers(a, r) && Covers(b, r)
  {
    var x1 := Max(a.x, b.x);
    var y1 := Max(a.y, b.y);
    var x2 := Min(a.Right(), b.Right());
    var y2 := Min(a.Bottom(), b.Bottom());
    Rect(x1, y1, x2 - x1, y2 - y1)
  }

  /** Rectangle.union: the smallest rectangle enclosing both. */
  function Union(a: Rect, b: Rect): (r: Rect)
    ensures Covers(r, a) && Covers(r, b)
    ensures forall c :: Covers(c, a) && Covers(c, b) ==> Covers(c, r)
  {
    var x1 := Min(a.x, b.x);
    var y1 := Min(a.y, b.y);
    var x2 := Max(a.Right(), b.Right());
    var y2 := Max(a.Bottom(), b.Bottom());
    Rect(x1, y1, x2 - x1, y2 - y1)
  }
}
