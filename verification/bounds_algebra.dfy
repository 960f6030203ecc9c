/** The result bounds of a composite raster: a left fold of the source bounds
    whose step depends on the rule (CompositeRed constructor). */
module BoundsAlgebra {
  import opened Geometry
  import opened Int32
  import opened Rules

  /** The origin of a rectangle is a pair of Java ints. */
  predicate IntOrigin(r: Rect) {
    IsInt32(r.x) && IsInt32(r.y)
  }

  predicate AllIntOrigins(bs: seq<Rect>) {
    forall i :: 0 <= i < |bs| ==> IntOrigin(bs[i])
  }

  /** Folds one more source's bounds into the running bounds. */
  function Step(rule: CompositeRule, acc: Rect, next: Rect): (r: Rect)
    ensures rule.In? && !Intersects(acc, next) ==> r == acc.(width := 0, height := 0)
  {
    match rule
    case In =>
      if Intersects(acc, next) then Intersection(acc, next)
      else acc.(width := 0, height := 0)
    case Out => next
    case _ => Union(acc, next)
  }

  /** The bounds of a composite of sources with bounds `bs`, in list order. */
  function CombineBounds(rule: CompositeRule, bs: seq<Rect>): (r: Rect)
    requires |bs| > 0
    ensures rule.Out? ==> r == bs[|bs| - 1]
    ensures rule.TakesUnion() ==> forall i :: 0 <= i < |bs| ==> Covers(r, bs[i])
    ensures AllIntOrigins(bs) ==> IntOrigin(r)
    decreases |bs|
  {
    if |bs| == 1 then bs[0]
    else
      var prefix := CombineBounds(rule, bs[..|bs| - 1]);
      assert forall i :: 0 <= i < |bs| - 1 ==> bs[..|bs| - 1][i] == bs[i];
      Step(rule, prefix, bs[|bs| - 1])
  }

  /** Under a union rule the result is the smallest rectangle covering every
      source: any rectangle covering them all covers the result. */
  lemma {:induction false} UnionIsLeastCover(rule: CompositeRule, bs: seq<Rect>, c: Rect)
    requires |bs| > 0 && rule.TakesUnion()
    requires forall i :: 0 <= i < |bs| ==> Covers(c, bs[i])
    ensures Covers(c, CombineBounds(rule, bs))
    decreases |bs|
  {
    if |bs| > 1 {
      var prefix := bs[..|bs| - 1];
      assert forall i :: 0 <= i < |prefix| ==> prefix[i] == bs[i];
      UnionIsLeastCover(rule, prefix, c);
      assert CombineBounds(rule, bs) == Union(CombineBounds(rule, prefix), bs[|bs| - 1]);
    }
  }

  /** Under IN a point lies in the result exactly when it lies in every
      source: the result is the running intersection, and a disjoint step
      leaves no point at all. */
  lemma {:induction false} InIsIntersection(bs: seq<Rect>, p: Point)
    requires |bs| > 0
    ensures CombineBounds(In, bs).Contains(p) <==> forall i :: 0 <= i < |bs| ==> bs[i].Contains(p)
    decreases |bs|
  {
    if |bs| > 1 {
      var prefix := bs[..|bs| - 1];
      var last := bs[|bs| - 1];
      assert forall i :: 0 <= i < |prefix| ==> prefix[i] == bs[i];
      InIsIntersection(prefix, p);
      var acc := CombineBounds(In, prefix);
      assert CombineBounds(In, bs) == Step(In, acc, last);
      if !Intersects(acc, last) {
        IntersectsIffSharedPoint(acc, last);
        assert !(acc.Contains(p) && last.Contains(p));
      }
    }
  }

  /** Under IN, once the running bounds have collapsed to zero width and
      height they stay collapsed whatever sources follow. */
  lemma {:induction false} InCollapsePersists(bs: seq<Rect>, k: nat)
    requires 1 <= k <= |bs|
    requires CombineBounds(In, bs[..k]).width == 0 && CombineBounds(In, bs[..k]).height == 0
    ensures CombineBounds(In, bs).width == 0 && CombineBounds(In, bs).height == 0
    decreases |bs|
  {
    if k < |bs| {
      var prefix := bs[..|bs| - 1];
      assert prefix[..k] == bs[..k];
      InCollapsePersists(prefix, k);
      assert CombineBounds(In, bs) == Step(In, CombineBounds(In, prefix), bs[|bs| - 1]);
    } else {
      assert bs[..k] == bs;
    }
  }

  /** Under IN with two or more sources, the result either has area or has
      collapsed to zero width and zero height; never a thin sliver. */
  lemma InAreaOrCollapsed(bs: seq<Rect>)
    requires |bs| >= 2
    ensures var r := CombineBounds(In, bs);
            !r.IsEmpty() || (r.width == 0 && r.height == 0)
  {
  }
}
