/**
 * structs_and_methods/src/lib.rs: points, axis-aligned rectangles and
 * circles, a figure that is either, point containment with closed bounds,
 * defaults and structural equality. The numeric type is `int`.
 */
module Figures {

  datatype Point = Point(x: int, y: int)

  /** `upperLeft` is the corner with the smallest coordinates. */
  datatype Rect = Rect(upperLeft: Point, width: int, height: int) {
    /**
     * `Rect::contains`: both coordinates within the closed ranges. A
     * rectangle with a negative side contains nothing.
     */
    predicate Contains(p: Point)
      ensures Contains(p) ==> width >= 0 && height >= 0
    {
      upperLeft.x <= p.x <= upperLeft.x + width && upperLeft.y <= p.y <= upperLeft.y + height
    }
  }

  datatype Circle = Circle(center: Point, radius: int) {
    /**
     * `Circle::contains`: squared distance at most the squared radius. The
     * centre and the four points at distance `radius` on the axes are inside.
     */
    predicate Contains(p: Point)
      ensures p == center ==> Contains(p)
      ensures (p.y == center.y && (p.x - center.x == radius || center.x - p.x == radius)) ==> Contains(p)
      ensures (p.x == center.x && (p.y - center.y == radius || center.y - p.y == radius)) ==> Contains(p)
    {
      var dx := center.x - p.x;
      var dy := center.y - p.y;
      dx * dx + dy * dy <= radius * radius
    }
  }

  datatype Figure = CircleFigure(circle: Circle) | RectFigure(rect: Rect) {
    /** `Figure::contains`: a figure contains exactly the points its shape contains. */
    predicate Contains(p: Point)
      ensures Contains(p) <==> (RectFigure? && rect.Contains(p)) || (CircleFigure? && circle.Contains(p))
    {
      match this
      case RectFigure(r) => r.Contains(p)
      case CircleFigure(c) => c.Contains(p)
    }
  }

  // ---------------------------------------------------------------------------
  // Default impls

  function DefaultPoint(): (p: Point)
    ensures p.x == 0 && p.y == 0
  {
    Point(0, 0)
  }

  function DefaultRect(): (r: Rect)
    ensures r.upperLeft == DefaultPoint() && r.width == 1 && r.height == 1
  {
    Rect(DefaultPoint(), 1, 1)
  }

  function DefaultCircle(): (c: Circle)
    ensures c.center == DefaultPoint() && c.radius == 1
  {
    Circle(DefaultPoint(), 1)
  }

  function DefaultFigure(): (f: Figure)
    ensures f.CircleFigure? && f.circle == Circle(Point(0, 0), 1)
  {
    CircleFigure(DefaultCircle())
  }

  // ---------------------------------------------------------------------------
  // PartialEq impls (hand-written, componentwise)

  function PointEq(a: Point, b: Point): (r: bool)
    ensures r <==> a == b
  {
    a.x == b.x && a.y == b.y
  }

  function CircleEq(a: Circle, b: Circle): (r: bool)
    ensures r <==> a == b
  {
    PointEq(a.center, b.center) && a.radius == b.radius
  }

  function RectEq(a: Rect, b: Rect): (r: bool)
    ensures r <==> a == b
  {
    PointEq(a.upperLeft, b.upperLeft) && a.width == b.width && a.height == b.height
  }

  /** Figures of different variants are never equal; equal variants compare their contents. */
  function FigureEq(a: Figure, b: Figure): (r: bool)
    ensures r <==> a == b
    ensures a.CircleFigure? != b.CircleFigure? ==> !r
  {
    match a
    case CircleFigure(c1) => (if b.CircleFigure? then CircleEq(c1, b.circle) else false)
    case RectFigure(r1) => (if b.RectFigure? then RectEq(r1, b.rect) else false)
  }

  // ---------------------------------------------------------------------------
  // Containment properties

  /** A rectangle of non-negative size contains its two defining corners. */
  lemma RectContainsCorners(r: Rect)
    requires r.width >= 0 && r.height >= 0
    ensures r.Contains(r.upperLeft)
    ensures r.Contains(Point(r.upperLeft.x + r.width, r.upperLeft.y + r.height))
  {
  }

  /** Every point a rectangle contains lies within its corners: it is convex along each axis. */
  lemma RectContainsBetween(r: Rect, p: Point, q: Point, m: Point)
    requires r.Contains(p) && r.Contains(q)
    requires p.x <= m.x <= q.x && p.y <= m.y <= q.y
    ensures r.Contains(m)
  {
  }

  /** A circle contains its centre and the points at exactly its radius on the axes. */
  lemma CircleContainsCentreAndBoundary(c: Circle)
    ensures c.Contains(c.center)
    ensures c.Contains(Point(c.center.x + c.radius, c.center.y))
    ensures !c.Contains(Point(c.center.x + c.radius + (if c.radius >= 0 then 1 else -1), c.center.y))
  {
    var d := c.radius + (if c.radius >= 0 then 1 else -1);
    assert d * d > c.radius * c.radius by {
      if c.radius >= 0 {
        assert d * d == c.radius * c.radius + 2 * c.radius + 1;
      } else {
        assert d * d == c.radius * c.radius - 2 * c.radius + 1;
      }
    }
  }

  /** Containment in a circle is symmetric under reflection through the centre. */
  lemma CircleSymmetric(c: Circle, p: Point)
    ensures c.Contains(p) <==> c.Contains(Point(2 * c.center.x - p.x, 2 * c.center.y - p.y))
  {
    var dx, dy := c.center.x - p.x, c.center.y - p.y;
    assert (-dx) * (-dx) == dx * dx && (-dy) * (-dy) == dy * dy;
  }

  /** The default figure is the unit circle at the origin: it contains (1, 0) but not (1, 1). */
  lemma DefaultFigureContains()
    ensures DefaultFigure().Contains(Point(0, 0))
    ensures DefaultFigure().Contains(Point(1, 0)) && DefaultFigure().Contains(Point(0, -1))
    ensures !DefaultFigure().Contains(Point(1, 1))
    ensures DefaultRect().Contains(Point(1, 1))
  {
  }
}
