/** Page geometry of the PDF pipeline: points, sizes and axis-aligned rectangles
    given by a start and an end corner, with coordinates as exact reals. */
module Geometry {
  import opened Wrappers

  datatype Point = Point(x: real, y: real)

  datatype Size = Size(width: real, height: real)

  function Abs(v: real): real { if v < 0.0 then -v else v }

  function Min(a: real, b: real): real { if a <= b then a else b }

  function Max(a: real, b: real): real { if a >= b then a else b }

  /** Python's `round(v)`: the nearest integer, ties to the even one. */
  function RoundHalfEven(v: real): (r: int)
    ensures v - 0.5 <= r as real <= v + 0.5
  {
    var f := v.Floor;
    var frac := v - f as real;
    if frac < 0.5 then f
    else if frac > 0.5 then f + 1
    else if f % 2 == 0 then f
    else f + 1
  }

  /** Python's `round(v, 4)`, taken over exact reals. */
  function Round4(v: real): (r: real)
    ensures v - 0.00005 <= r <= v + 0.00005
  {
    RoundHalfEven(v * 10000.0) as real / 10000.0
  }

  /** Rounding to four decimals keeps a value of the unit interval inside it. */
  lemma Round4UnitInterval(v: real)
    requires 0.0 <= v <= 1.0
    ensures 0.0 <= Round4(v) <= 1.0
  {
    var y := v * 10000.0;
    var f := y.Floor;
    assert 0 <= f <= 10000;
    if f == 10000 {
      assert y == 10000.0;
    }
  }

  function LowerCorner(p: Point, q: Point): Point { Point(Min(p.x, q.x), Min(p.y, q.y)) }

  function UpperCorner(p: Point, q: Point): Point { Point(Max(p.x, q.x), Max(p.y, q.y)) }

  function ScalePoint(p: Point, sx: real, sy: real): Point { Point(p.x * sx, p.y * sy) }

  datatype Rect = Rect(start: Point, end: Point) {

    /** The extent on each axis, whichever corner comes first. */
    function Extent(): (s: Size)
      ensures s.width >= 0.0 && s.height >= 0.0
      ensures s.width == end.x - start.x || s.width == start.x - end.x
      ensures s.height == end.y - start.y || s.height == start.y - end.y
    {
      Size(Abs(end.x - start.x), Abs(end.y - start.y))
    }

    function Height(): (h: real)
      ensures h == Extent().height
    {
      Abs(end.y - start.y)
    }

    /** The midpoint of the two corners. */
    function Center(): (c: Point)
      ensures c.x - start.x == end.x - c.x
      ensures c.y - start.y == end.y - c.y
    {
      Point((start.x + end.x) / 2.0, (start.y + end.y) / 2.0)
    }

    /** The start corner is not to the right of or below the end corner. */
    predicate Normalised()
    {
      start.x <= end.x && start.y <= end.y
    }

    predicate Includes(other: Rect)
    {
      start.x <= other.start.x && start.y <= other.start.y
      && end.x >= other.end.x && end.y >= other.end.y
    }

    predicate IsIncluded(other: Rect)
    {
      other.Includes(this)
    }

    function IntersectionStart(other: Rect): Point
    {
      Point(Max(start.x, other.start.x), Max(start.y, other.start.y))
    }

    function IntersectionEnd(other: Rect): Point
    {
      Point(Min(end.x, other.end.x), Min(end.y, other.end.y))
    }

    /** Touching edges count as intersecting. */
    predicate Intersects(other: Rect)
    {
      IntersectionStart(other).x <= IntersectionEnd(other).x
      && IntersectionStart(other).y <= IntersectionEnd(other).y
    }

    function Intersection(other: Rect): (r: Rect)
      ensures r.start.x >= start.x && r.start.x >= other.start.x
      ensures r.start.y >= start.y && r.start.y >= other.start.y
      ensures r.end.x <= end.x && r.end.x <= other.end.x
      ensures r.end.y <= end.y && r.end.y <= other.end.y
      ensures r.Normalised() <==> Intersects(other)
    {
      Rect(IntersectionStart(other), IntersectionEnd(other))
    }

    function Union(other: Rect): (r: Rect)
      ensures r.start.x <= start.x && r.start.x <= other.start.x
      ensures r.start.y <= start.y && r.start.y <= other.start.y
      ensures r.end.x >= end.x && r.end.x >= other.end.x
      ensures r.end.y >= end.y && r.end.y >= other.end.y
    {
      Rect(LowerCorner(start, other.start), UpperCorner(end, other.end))
    }

    function Scale(sx: real, sy: real): Rect
    {
      Rect(ScalePoint(start, sx, sy), ScalePoint(end, sx, sy))
    }

    /** Where the centre sits on a page of height `h`, as a fraction from 0 to 1;
        dividing zero by a zero height raises. */
    function VerticalNorm(h: real): (r: Result<real>)
      ensures r.Err? <==> h == 0.0 && Center().y == 0.0
      ensures r.Err? ==> r.error == ZeroDivisionError
      ensures Center().y > h ==> r == Ok(1.0)
      ensures Center().y < 0.0 && Center().y <= h ==> r == Ok(0.0)
      ensures h != 0.0 && 0.0 <= Center().y <= h ==> r == Ok(Round4(Center().y / h))
    {
      var cy := Center().y;
      if cy > h then Ok(1.0)
      else if cy < 0.0 then Ok(0.0)
      else if h == 0.0 then Err(ZeroDivisionError)
      else Ok(Round4(cy / h))
    }
  }

  /** On a page of positive height the vertical norm lies in the unit interval. */
  lemma VerticalNormInUnitInterval(r: Rect, h: real)
    requires h > 0.0
    ensures r.VerticalNorm(h).Ok?
    ensures 0.0 <= r.VerticalNorm(h).value <= 1.0
  {
    var cy := r.Center().y;
    if 0.0 <= cy <= h {
      DivisionInUnitInterval(cy, h);
      Round4UnitInterval(cy / h);
    }
  }

  lemma DivisionInUnitInterval(a: real, h: real)
    requires 0.0 <= a <= h && h > 0.0
    ensures 0.0 <= a / h <= 1.0
  {
    var q := a / h;
    assert q * h == a;
  }

  /** Each corner coordinate of the union is taken from one of the operands. */
  lemma UnionTakesOperandCoordinates(a: Rect, b: Rect)
    ensures a.Union(b).start.x == a.start.x || a.Union(b).start.x == b.start.x
    ensures a.Union(b).start.y == a.start.y || a.Union(b).start.y == b.start.y
    ensures a.Union(b).end.x == a.end.x || a.Union(b).end.x == b.end.x
    ensures a.Union(b).end.y == a.end.y || a.Union(b).end.y == b.end.y
  {
  }

  lemma UnionCommutative(a: Rect, b: Rect)
    ensures a.Union(b) == b.Union(a)
  {
  }

  lemma UnionIncludesOperands(a: Rect, b: Rect)
    ensures a.Union(b).Includes(a) && a.Union(b).Includes(b)
  {
  }

  /** The union is the smallest rectangle including both operands. */
  lemma UnionLeast(a: Rect, b: Rect, c: Rect)
    requires c.Includes(a) && c.Includes(b)
    ensures c.Includes(a.Union(b))
  {
  }

  /** Intersects is symmetric and its intersection is included in both operands. */
  lemma IntersectionIncluded(a: Rect, b: Rect)
    ensures a.Intersects(b) <==> b.Intersects(a)
    ensures a.Intersection(b) == b.Intersection(a)
    ensures a.Intersects(b) ==> a.Includes(a.Intersection(b)) && b.Includes(a.Intersection(b))
  {
  }

  /** The intersection is the largest rectangle included in both operands. */
  lemma IntersectionGreatest(a: Rect, b: Rect, c: Rect)
    requires a.Includes(c) && b.Includes(c)
    ensures a.Intersection(b).Includes(c)
  {
  }

  /** Rectangles sharing only an edge intersect. */
  lemma TouchingEdgesIntersect()
    ensures Rect(Point(0.0, 0.0), Point(1.0, 1.0)).Intersects(Rect(Point(1.0, 0.0), Point(2.0, 1.0)))
  {
  }

  /** Scaling by positive factors commutes with the union. */
  lemma ScaleDistributesOverUnion(a: Rect, b: Rect, sx: real, sy: real)
    requires sx > 0.0 && sy > 0.0
    ensures a.Union(b).Scale(sx, sy) == a.Scale(sx, sy).Union(b.Scale(sx, sy))
  {
    ScaleLowerCorner(a.start, b.start, sx, sy);
    ScaleUpperCorner(a.end, b.end, sx, sy);
  }

  /** Scaling by positive factors commutes with the componentwise minimum of two corners. */
  lemma ScaleLowerCorner(p: Point, q: Point, sx: real, sy: real)
    requires sx > 0.0 && sy > 0.0
    ensures ScalePoint(LowerCorner(p, q), sx, sy) == LowerCorner(ScalePoint(p, sx, sy), ScalePoint(q, sx, sy))
  {
    MinScales(p.x, q.x, sx);
    MinScales(p.y, q.y, sy);
  }

  /** Scaling by positive factors commutes with the componentwise maximum of two corners. */
  lemma ScaleUpperCorner(p: Point, q: Point, sx: real, sy: real)
    requires sx > 0.0 && sy > 0.0
    ensures ScalePoint(UpperCorner(p, q), sx, sy) == UpperCorner(ScalePoint(p, sx, sy), ScalePoint(q, sx, sy))
  {
    MaxScales(p.x, q.x, sx);
    MaxScales(p.y, q.y, sy);
  }

  lemma MinScales(u: real, v: real, k: real)
    requires k > 0.0
    ensures Min(u, v) * k == Min(u * k, v * k)
  {
    if u <= v {
      assert u * k <= v * k;
    } else {
      assert v * k < u * k;
    }
  }

  lemma MaxScales(u: real, v: real, k: real)
    requires k > 0.0
    ensures Max(u, v) * k == Max(u * k, v * k)
  {
    if u >= v {
      assert u * k >= v * k;
    } else {
      assert v * k > u * k;
    }
  }

  /** `includes` is a preorder and `is_included` is its converse. */
  lemma IncludesPreorder(a: Rect, b: Rect, c: Rect)
    ensures a.Includes(a)
    ensures a.Includes(b) && b.Includes(c) ==> a.Includes(c)
    ensures a.IsIncluded(b) <==> b.Includes(a)
  {
  }
}
