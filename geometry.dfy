/**
 * Geometric primitives of the collage engine: integer points, rectangles
 * given by their minimum and maximum corners (the maximum is exclusive), and
 * the width and height of an image measured on its bounds.
 */
module Geometry {

  datatype Point = Point(x: int, y: int)

  /** A rectangle [min.x, max.x) x [min.y, max.y). */
  datatype Rectangle = Rectangle(min: Point, max: Point)

  /** A decoded image, seen only through its bounds; pixels are not modelled. */
  datatype Image = Image(bounds: Rectangle)

  function Min(a: int, b: int): int
  {
    if a < b then a else b
  }

  function Max(a: int, b: int): int
  {
    if a < b then b else a
  }

  function Abs(a: int): int
  {
    if a < 0 then -a else a
  }

  /**
   * Builds the rectangle with corners (x0, y0) and (x1, y1), swapping the
   * coordinates when needed so that the result is well formed.
   */
  function Rect(x0: int, y0: int, x1: int, y1: int): (r: Rectangle)
    ensures r.min.x <= r.max.x && r.min.y <= r.max.y
    ensures (r.min.x == x0 && r.max.x == x1) || (r.min.x == x1 && r.max.x == x0)
    ensures (r.min.y == y0 && r.max.y == y1) || (r.min.y == y1 && r.max.y == y0)
  {
    Rectangle(Point(Min(x0, x1), Min(y0, y1)), Point(Max(x0, x1), Max(y0, y1)))
  }

  /** Horizontal extent of a rectangle. */
  function Width(b: Rectangle): int
  {
    b.max.x - b.min.x
  }

  /** Vertical extent of a rectangle. */
  function Height(b: Rectangle): int
  {
    b.max.y - b.min.y
  }

  /** Width and Height measure the extent of a rectangle whatever the order of its corners. */
  lemma ExtentOfRect(x0: int, y0: int, x1: int, y1: int)
    ensures Width(Rect(x0, y0, x1, y1)) == Abs(x1 - x0)
    ensures Height(Rect(x0, y0, x1, y1)) == Abs(y1 - y0)
  {
  }

  /** What the engine needs of an input image: a positive width and a non-negative height. */
  predicate ValidImage(img: Image)
  {
    Width(img.bounds) >= 1 && Height(img.bounds) >= 0
  }

  /** The height of an image, the key the collage sorts on. */
  function ImageHeight(img: Image): int
  {
    Height(img.bounds)
  }
}
