/** The value types of CruUI/UI/UIBase.h. Coordinates are `real`; the source
    stores `float`, and rounding is not modelled. */
module Geometry {

  datatype Point = Point(x: real, y: real)

  datatype Size = Size(width: real, height: real)

  datatype Rect = Rect(left: real, top: real, width: real, height: real) {

    /** The x just past the right edge: the width is the span from the
        left edge to it. */
    function Right(): (r: real)
      ensures r - left == width
      ensures left <= r <==> width >= 0.0
    {
      left + width
    }

    /** The y just past the bottom edge: the height is the span from the
        top edge to it. */
    function Bottom(): (b: real)
      ensures b - top == height
      ensures top <= b <==> height >= 0.0
    {
      top + height
    }

    function Lefttop(): (p: Point)
      ensures p.x == left && p.y == top
    {
      Point(left, top)
    }

    function Rightbottom(): (p: Point)
      ensures p == Point(Right(), Bottom())
    {
      Point(left + width, top + height)
    }

    function GetSize(): (s: Size)
      ensures s.width == width && s.height == height
    {
      Size(width, height)
    }

    /** Half-open containment: the left and top edges are inside, the right
        and bottom edges are not. */
    function IsPointInside(p: Point): (inside: bool)
      ensures inside <==>
        Lefttop().x <= p.x < Rightbottom().x && Lefttop().y <= p.y < Rightbottom().y
      ensures inside ==> width > 0.0 && height > 0.0
    {
      p.x >= left && p.x < Right() && p.y >= top && p.y < Bottom()
    }
  }

  datatype Thickness = Thickness(left: real, top: real, right: real, bottom: real)

  /** The default-constructed point, size and rect: every field zero. */
  const Origin: Point := Point(0.0, 0.0)
  const ZeroSize: Size := Size(0.0, 0.0)
  const EmptyRect: Rect := Rect(0.0, 0.0, 0.0, 0.0)

  function AddPoints(a: Point, b: Point): Point {
    Point(a.x + b.x, a.y + b.y)
  }

  function SubPoints(a: Point, b: Point): Point {
    Point(a.x - b.x, a.y - b.y)
  }

  /** `Rect(lefttop, size)`. */
  function RectAt(lefttop: Point, size: Size): (r: Rect)
    ensures r.Lefttop() == lefttop && r.GetSize() == size
    ensures r.Rightbottom() == Point(lefttop.x + size.width, lefttop.y + size.height)
  {
    Rect(lefttop.x, lefttop.y, size.width, size.height)
  }

  /** `Rect::FromVertices(left, top, right, bottom)`. */
  function FromVertices(left: real, top: real, right: real, bottom: real): (r: Rect)
    ensures r.left == left && r.top == top
    ensures r.Right() == right && r.Bottom() == bottom
  {
    Rect(left, top, right - left, bottom - top)
  }

  /** `Thickness(width)`: the same width on all four sides. */
  function UniformThickness(w: real): (t: Thickness)
    ensures t.left == w && t.top == w && t.right == w && t.bottom == w
  {
    Thickness(w, w, w, w)
  }

  /** The default `Thickness()` delegates to `Thickness(0)`. */
  function DefaultThickness(): (t: Thickness)
    ensures t == Thickness(0.0, 0.0, 0.0, 0.0)
  {
    UniformThickness(0.0)
  }

  /** A rect with no width or no height contains no point. */
  lemma DegenerateRectIsEmpty(r: Rect, p: Point)
    requires r.width <= 0.0 || r.height <= 0.0
    ensures !r.IsPointInside(p)
  {
  }

  /** The default rect, in particular, contains no point. */
  lemma EmptyRectContainsNothing(p: Point)
    ensures !EmptyRect.IsPointInside(p)
  {
    DegenerateRectIsEmpty(EmptyRect, p);
  }

  /** Containment in a rect built from its vertices is the half-open test on
      the vertices themselves. */
  lemma FromVerticesContainment(left: real, top: real, right: real, bottom: real, p: Point)
    ensures FromVertices(left, top, right, bottom).IsPointInside(p)
        <==> left <= p.x < right && top <= p.y < bottom
  {
  }

  /** Translation by `d` and back is the identity, in both orders. */
  lemma TranslateRoundTrip(p: Point, d: Point)
    ensures SubPoints(AddPoints(p, d), d) == p
    ensures AddPoints(SubPoints(p, d), d) == p
  {
  }

  /** Containment is invariant under translating the point and the rect by
      the same offset. */
  lemma ContainmentTranslates(r: Rect, p: Point, d: Point)
    ensures r.IsPointInside(p)
        <==> Rect(r.left + d.x, r.top + d.y, r.width, r.height).IsPointInside(AddPoints(p, d))
  {
  }
}
