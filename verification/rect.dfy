/**
 * Axis-aligned rectangles from the math package, over the reals. Only
 * comparisons of the edges are stated, never identities that would need the
 * additions `x + width` and `y + height` to be reassociated.
 */
module Rect {

  import Clamp

  datatype Rect = Rect(x: real, y: real, width: real, height: real)

  /** The `x` and `y` of a 2D vector, the only fields `pointInside` reads. */
  datatype Point = Point(x: real, y: real)

  function Area(r: Rect): (a: real)
    ensures r.width >= 0.0 && r.height >= 0.0 ==> a >= 0.0
    ensures r.width == 0.0 || r.height == 0.0 ==> a == 0.0
  {
    r.width * r.height
  }

  function Top(r: Rect): real
  {
    r.y
  }

  function Left(r: Rect): real
  {
    r.x
  }

  /** The right edge, `x + width`: never left of `x` when the width is not negative. */
  function Right(r: Rect): (e: real)
    ensures r.width >= 0.0 ==> e >= Left(r)
    ensures r.width <= 0.0 ==> e <= Left(r)
  {
    r.x + r.width
  }

  /** The bottom edge, `y + height`: never above `y` when the height is not negative. */
  function Bottom(r: Rect): (e: real)
    ensures r.height >= 0.0 ==> e >= Top(r)
    ensures r.height <= 0.0 ==> e <= Top(r)
  {
    r.y + r.height
  }

  /**
   * Whether `p` lies in `r`, edges included. Only a rectangle of non-negative
   * size has points inside it, and such a rectangle has its top-left corner.
   */
  function PointInside(r: Rect, p: Point): (b: bool)
    ensures b ==> r.width >= 0.0 && r.height >= 0.0
    ensures p == Point(r.x, r.y) ==> (b <==> r.width >= 0.0 && r.height >= 0.0)
  {
    p.x >= r.x && p.x <= r.x + r.width && p.y >= r.y && p.y <= r.y + r.height
  }

  /** `PointInside` compares the point with the four edges, inclusively. */
  lemma PointInsideEdges(r: Rect, p: Point)
    ensures PointInside(r, p) <==> Left(r) <= p.x <= Right(r) && Top(r) <= p.y <= Bottom(r)
  {
  }

  /**
   * Whether `other` lies within `rect`, edges included. The doc comment of the
   * source describes the opposite direction; the code, followed here, checks
   * that `other` fits inside `rect`.
   */
  function Contains(rect: Rect, other: Rect): (b: bool)
    ensures b ==> forall p :: PointInside(other, p) ==> PointInside(rect, p)
    ensures other.width >= 0.0 && other.height >= 0.0 && (forall p :: PointInside(other, p) ==> PointInside(rect, p)) ==> b
  {
    ExtremeCorners(other);
    Left(rect) <= Left(other) && Top(rect) <= Top(other)
    && Right(rect) >= Right(other) && Bottom(rect) >= Bottom(other)
  }

  /** The centre of the overlap of the two rectangles' extents. */
  function OverlapCentre(a: Rect, b: Rect): Point
  {
    Point((Clamp.Max(Left(a), Left(b)) + Clamp.Min(Right(a), Right(b))) / 2.0,
          (Clamp.Max(Top(a), Top(b)) + Clamp.Min(Bottom(a), Bottom(b))) / 2.0)
  }

  /**
   * Whether the interiors of the two rectangles overlap: all four comparisons
   * are strict. Rectangles of non-negative size that intersect share a point,
   * the centre of their overlap, which lies strictly inside both.
   */
  function Intersects(rect: Rect, other: Rect): (b: bool)
    ensures b && rect.width >= 0.0 && rect.height >= 0.0 && other.width >= 0.0 && other.height >= 0.0 ==>
              && PointInside(rect, OverlapCentre(rect, other))
              && PointInside(other, OverlapCentre(rect, other))
    ensures b ==> rect.width + other.width > 0.0 && rect.height + other.height > 0.0
  {
    Left(rect) < Right(other) && Right(rect) > Left(other)
    && Top(rect) < Bottom(other) && Bottom(rect) > Top(other)
  }

  lemma ExtremeCorners(r: Rect)
    ensures r.width >= 0.0 && r.height >= 0.0 ==>
              PointInside(r, Point(Left(r), Top(r))) && PointInside(r, Point(Right(r), Bottom(r)))
  {
  }

  /** All four corners of a rectangle with non-negative size lie inside it. */
  lemma CornersInside(r: Rect)
    requires r.width >= 0.0 && r.height >= 0.0
    ensures PointInside(r, Point(Left(r), Top(r)))
    ensures PointInside(r, Point(Right(r), Top(r)))
    ensures PointInside(r, Point(Left(r), Bottom(r)))
    ensures PointInside(r, Point(Right(r), Bottom(r)))
  {
  }

  lemma ContainsReflexive(r: Rect)
    ensures Contains(r, r)
  {
  }

  lemma ContainsTransitive(a: Rect, b: Rect, c: Rect)
    requires Contains(a, b) && Contains(b, c)
    ensures Contains(a, c)
  {
  }

  /** A rectangle contained in another has every one of its points inside the other. */
  lemma ContainedPointsInside(r: Rect, o: Rect, p: Point)
    requires Contains(r, o) && PointInside(o, p)
    ensures PointInside(r, p)
  {
  }

  lemma IntersectsSymmetric(a: Rect, b: Rect)
    ensures Intersects(a, b) <==> Intersects(b, a)
  {
  }

  /** Rectangles that only share a vertical or a horizontal edge do not intersect. */
  lemma SharedEdgeDoesNotIntersect(a: Rect, b: Rect)
    requires Right(a) == Left(b) || Bottom(a) == Top(b)
    ensures !Intersects(a, b) && !Intersects(b, a)
  {
  }

  /**
   * A rectangle with positive width and height intersects every rectangle
   * that contains it. Over IEEE doubles this also needs `x + width > x` and
   * `y + height > y`, which fail when the size is absorbed by a huge coordinate.
   */
  lemma ContainedIntersects(r: Rect, o: Rect)
    requires Contains(r, o) && o.width > 0.0 && o.height > 0.0
    ensures Intersects(r, o)
  {
  }

  /** The expectations of the rectangle tests. */
  lemma RectExamples()
    ensures Area(Rect(0.0, 0.0, 10.0, 10.0)) == 100.0
    ensures Top(Rect(0.0, 10.0, 10.0, 10.0)) == 10.0
    ensures Left(Rect(10.0, 0.0, 10.0, 10.0)) == 10.0
    ensures Right(Rect(0.0, 0.0, 10.0, 10.0)) == 10.0
    ensures Bottom(Rect(0.0, 0.0, 10.0, 10.0)) == 10.0
    ensures PointInside(Rect(0.0, 0.0, 10.0, 10.0), Point(5.0, 5.0))
    ensures Contains(Rect(0.0, 0.0, 10.0, 10.0), Rect(0.0, 0.0, 5.0, 5.0))
    ensures Intersects(Rect(0.0, 0.0, 10.0, 10.0), Rect(5.0, 5.0, 10.0, 10.0))
  {
  }
}
