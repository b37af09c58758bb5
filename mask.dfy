/**
 * The circular alpha mask used to crop a cell into a circle: a circle of
 * centre p and radius r classifies every pixel as fully opaque (alpha 255)
 * or fully transparent (alpha 0) by testing the pixel's centre.
 */
module Mask {
  import opened Geometry

  datatype Circle = Circle(p: Point, r: int)

  const Opaque: int := 255
  const Transparent: int := 0

  /** The square that encloses the circle. */
  function Bounds(c: Circle): (b: Rectangle)
    ensures b.min.x == c.p.x - Abs(c.r) && b.max.x == c.p.x + Abs(c.r)
    ensures b.min.y == c.p.y - Abs(c.r) && b.max.y == c.p.y + Abs(c.r)
    ensures Width(b) == 2 * Abs(c.r) && Height(b) == 2 * Abs(c.r)
  {
    Rect(c.p.x - c.r, c.p.y - c.r, c.p.x + c.r, c.p.y + c.r)
  }

  /**
   * Alpha of pixel (x, y). The pixel centre (x + 1/2, y + 1/2) lies strictly
   * inside the circle exactly when, after doubling every length,
   * (2(x - cx) + 1)^2 + (2(y - cy) + 1)^2 < (2r)^2; this keeps the test in
   * integers.
   */
  function At(c: Circle, x: int, y: int): (alpha: int)
    ensures alpha == Opaque || alpha == Transparent
  {
    var xx, yy := 2 * (x - c.p.x) + 1, 2 * (y - c.p.y) + 1;
    if xx * xx + yy * yy < 4 * c.r * c.r then Opaque else Transparent
  }

  /** Four times the square of a half-integer n + 1/2 is the square of the odd integer 2n + 1. */
  lemma HalfSquare(n: int)
    ensures 4.0 * ((n as real + 0.5) * (n as real + 0.5)) == ((2 * n + 1) * (2 * n + 1)) as real
  {
    var t := n as real;
    assert (2 * n + 1) as real == 2.0 * t + 1.0;
    assert ((2 * n + 1) * (2 * n + 1)) as real == (2.0 * t + 1.0) * (2.0 * t + 1.0);
  }

  /** The integer test of At agrees with the test on the real pixel centre. */
  lemma {:induction false} AtMatchesPixelCentreTest(c: Circle, x: int, y: int)
    ensures At(c, x, y) == Opaque <==>
      ((x - c.p.x) as real + 0.5) * ((x - c.p.x) as real + 0.5)
      + ((y - c.p.y) as real + 0.5) * ((y - c.p.y) as real + 0.5)
      < (c.r as real) * (c.r as real)
  {
    var a, b := x - c.p.x, y - c.p.y;
    HalfSquare(a);
    HalfSquare(b);
    var rr := c.r as real;
    assert (4 * c.r * c.r) as real == 4.0 * (rr * rr);
    var ia, ib := (2 * a + 1) * (2 * a + 1), (2 * b + 1) * (2 * b + 1);
    assert (ia + ib < 4 * c.r * c.r) <==> (ia as real + ib as real < (4 * c.r * c.r) as real);
  }

  /** For non-negative u and v, u * u < v * v implies u < v. */
  lemma SquareLessImpliesLess(u: int, v: int)
    requires u >= 0 && v >= 0
    requires u * u < v * v
    ensures u < v
  {
  }

  /** An opaque pixel's coordinate lies in [c - |r|, c + |r|) on each axis. */
  lemma {:induction false} OpaqueCoordinateWithinRadius(d: int, e: int, r: int)
    requires (2 * d + 1) * (2 * d + 1) + (2 * e + 1) * (2 * e + 1) < 4 * r * r
    ensures -Abs(r) <= d < Abs(r)
  {
    var u := Abs(2 * d + 1);
    assert u * u == (2 * d + 1) * (2 * d + 1);
    assert (2 * e + 1) * (2 * e + 1) >= 0;
    assert (2 * Abs(r)) * (2 * Abs(r)) == 4 * r * r;
    SquareLessImpliesLess(u, 2 * Abs(r));
  }

  /** Every opaque pixel of the mask lies inside Bounds. */
  lemma {:induction false} OpaqueWithinBounds(c: Circle, x: int, y: int)
    requires At(c, x, y) == Opaque
    ensures Bounds(c).min.x <= x < Bounds(c).max.x
    ensures Bounds(c).min.y <= y < Bounds(c).max.y
  {
    var a, b := x - c.p.x, y - c.p.y;
    OpaqueCoordinateWithinRadius(a, b, c.r);
    assert (2 * b + 1) * (2 * b + 1) + (2 * a + 1) * (2 * a + 1) < 4 * c.r * c.r;
    OpaqueCoordinateWithinRadius(b, a, c.r);
  }

  /** A circle of non-zero radius shows its centre pixel; one of radius zero shows nothing. */
  lemma {:induction false} CentreOpaqueUnlessEmpty(c: Circle, x: int, y: int)
    ensures c.r != 0 ==> At(c, c.p.x, c.p.y) == Opaque
    ensures c.r == 0 ==> At(c, x, y) == Transparent
  {
    if c.r != 0 {
      assert c.r * c.r >= 1 by {
        if c.r > 0 { assert c.r * c.r >= c.r * 1; } else { assert c.r * c.r >= (-c.r) * 1; }
      }
    } else {
      var xx, yy := 2 * (x - c.p.x) + 1, 2 * (y - c.p.y) + 1;
      assert xx * xx >= 0 && yy * yy >= 0;
    }
  }

  /**
   * The mask drawInCircle builds for a resized image of the given width and
   * height: centred on the image, with the requested diameter clamped to the
   * image's width and then to its height, halved into a radius.
   */
  function MaskFor(width: nat, height: nat, diameter: nat): (c: Circle)
    ensures 0 <= 2 * c.r <= diameter && 2 * c.r <= width && 2 * c.r <= height
    ensures diameter <= width && diameter <= height ==> c.r == diameter / 2
    ensures c.r == Min(Min(diameter, width), height) / 2
    ensures c.p == Point(width / 2, height / 2)
  {
    var r0 := diameter;
    var r1 := if r0 > width then width else r0;
    var r2 := if r1 > height then height else r1;
    Circle(Point(width / 2, height / 2), r2 / 2)
  }

  /** The mask of drawInCircle never shows a pixel outside the resized image. */
  lemma {:induction false} MaskWithinImage(width: nat, height: nat, diameter: nat, x: int, y: int)
    requires At(MaskFor(width, height, diameter), x, y) == Opaque
    ensures 0 <= x < width && 0 <= y < height
  {
    var c := MaskFor(width, height, diameter);
    OpaqueWithinBounds(c, x, y);
  }
}
