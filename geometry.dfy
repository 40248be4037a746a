/** Exact plane geometry for the quadtree: points, axis-aligned boxes given by a
    centre and half-extents, and the four quadrants of a box.

    Every box is half-open on each axis: it holds the points p with
    centre - half <= p < centre + half.  With this one convention the four
    quadrants of a box tile it with neither gap nor overlap. */
module Geometry {

  datatype Point = Point(x: real, y: real)

  /** The four quadrants, in a y-up frame: north is +y, east is +x. */
  datatype Direction = NorthWest | NorthEast | SouthEast | SouthWest

  /** Do the half-open intervals [lo1, hi1) and [lo2, hi2) share a point? */
  predicate IntervalsOverlap(lo1: real, hi1: real, lo2: real, hi2: real) {
    lo1 < hi1 && lo2 < hi2 && lo1 < hi2 && lo2 < hi1
  }

  /** An axis-aligned box (Rect_AABB): centre point and half-dimension. */
  datatype Rect = Rect(center: Point, half: Point) {

    /** A box with no extent on some axis contains nothing. */
    predicate Contains(p: Point)
      ensures Contains(p) ==> 0.0 < half.x && 0.0 < half.y
    {
      center.x - half.x <= p.x < center.x + half.x &&
      center.y - half.y <= p.y < center.y + half.y
    }

    /** Boxes intersect only when both have extent on both axes
        (IntersectsIffCommonPoint gives the full meaning). */
    predicate Intersects(other: Rect)
      ensures Intersects(other) ==>
                0.0 < half.x && 0.0 < half.y && 0.0 < other.half.x && 0.0 < other.half.y
    {
      IntervalsOverlap(center.x - half.x, center.x + half.x,
                       other.center.x - other.half.x, other.center.x + other.half.x) &&
      IntervalsOverlap(center.y - half.y, center.y + half.y,
                       other.center.y - other.half.y, other.center.y + other.half.y)
    }

    /** The quadrant in direction d: half the half-extents, centred half an
        extent away from this box's centre on each axis. */
    function Quadrant(d: Direction): (r: Rect)
      ensures forall p :: r.Contains(p) ==> Contains(p) && QuadrantOf(p) == d
    {
      var q := Point(half.x / 2.0, half.y / 2.0);
      match d
      case NorthWest => Rect(Point(center.x - q.x, center.y + q.y), q)
      case NorthEast => Rect(Point(center.x + q.x, center.y + q.y), q)
      case SouthEast => Rect(Point(center.x + q.x, center.y - q.y), q)
      case SouthWest => Rect(Point(center.x - q.x, center.y - q.y), q)
    }

    /** The child region in direction d exactly as the subdivision code computes
        it: the child's size is this box's own half-dimension, not half of it.
        It still covers the true quadrant, so no point is lost; the fault is
        that it also reaches outside this box. */
    function QuadrantAsWritten(d: Direction): (r: Rect)
      ensures forall p :: Quadrant(d).Contains(p) ==> r.Contains(p)
    {
      var s := half;
      match d
      case NorthWest => Rect(Point(center.x - s.x, center.y + s.y), s)
      case NorthEast => Rect(Point(center.x + s.x, center.y + s.y), s)
      case SouthEast => Rect(Point(center.x + s.x, center.y - s.y), s)
      case SouthWest => Rect(Point(center.x - s.x, center.y - s.y), s)
    }

    /** The quadrant a point of this box falls in (west below the centre's x,
        south below the centre's y). */
    function QuadrantOf(p: Point): Direction {
      if p.x < center.x then
        if p.y < center.y then SouthWest else NorthWest
      else
        if p.y < center.y then SouthEast else NorthEast
    }
  }

  /** Two boxes intersect exactly when some point lies in both. */
  lemma IntersectsIffCommonPoint(a: Rect, b: Rect)
    ensures a.Intersects(b) <==> exists p :: a.Contains(p) && b.Contains(p)
  {
    if a.Intersects(b) {
      var loAX, loBX := a.center.x - a.half.x, b.center.x - b.half.x;
      var loAY, loBY := a.center.y - a.half.y, b.center.y - b.half.y;
      var w := Point(if loAX < loBX then loBX else loAX, if loAY < loBY then loBY else loAY);
      assert a.Contains(w) && b.Contains(w);
    }
  }

  /** A point lies in a box's quadrant d exactly when it lies in the box and d
      is its quadrant: the quadrants tile the box, each point of the box is in
      exactly one of them, and no quadrant reaches outside the box. */
  lemma QuadrantsTile(r: Rect, p: Point, d: Direction)
    ensures r.Quadrant(d).Contains(p) <==> r.Contains(p) && d == r.QuadrantOf(p)
  {
  }

  /** With the size used by the subdivision code, the north-east child of the
      box centred at (0, 0) with half-dimension (10, 10) holds (15, 15), a point
      outside its parent: the children do not tile the parent. */
  lemma AsWrittenChildOverhangsParent()
    ensures var r := Rect(Point(0.0, 0.0), Point(10.0, 10.0));
            r.QuadrantAsWritten(NorthEast).Contains(Point(15.0, 15.0)) &&
            !r.Contains(Point(15.0, 15.0))
  {
  }
}
