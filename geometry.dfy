/** Screen geometry in pixels: points, squared lengths and squared
    distances, and how a Euclidean distance (which the game computes with a
    square root) compares through its square. */
module Geometry {
  /** A position on the 640x480 screen, or a displacement between two. */
  datatype Point = Point(x: real, y: real)

  /** The vector from b to a. */
  function Sub(a: Point, b: Point): Point {
    Point(a.x - b.x, a.y - b.y)
  }

  function Sq(x: real): real {
    x * x
  }

  /** A product kept behind a call, so that the solver meets each instance
      of it separately in the proofs about squares below. */
  function Mul(x: real, y: real): real {
    x * y
  }

  lemma MulSign(x: real, y: real)
    requires x >= 0.0 && y >= 0.0
    ensures Mul(x, y) >= 0.0
    ensures x > 0.0 && y > 0.0 ==> Mul(x, y) > 0.0
  {
  }

  lemma MulDistributes(p: real, q: real)
    ensures Mul(q, q) - Mul(p, q) == Mul(q, q - p)
    ensures Mul(p, q) - Mul(p, p) == Mul(p, q - p)
  {
  }

  /** Squaring is monotone on the non-negative reals, strictly so. */
  lemma SquareMonotone(p: real, q: real)
    requires 0.0 <= p <= q
    ensures Sq(p) <= Sq(q)
    ensures p < q ==> Sq(p) < Sq(q)
  {
    MulDistributes(p, q);
    MulSign(p, q - p);
    MulSign(q, q - p);
    assert Sq(p) == Mul(p, p) && Sq(q) == Mul(q, q);
  }

  /** A square is never negative, and it is positive away from zero. */
  lemma SquareSign(x: real)
    ensures Sq(x) >= 0.0
    ensures x != 0.0 ==> Sq(x) > 0.0
  {
    assert Sq(-x) == Sq(x);
    if x < 0.0 {
      SquareMonotone(0.0, -x);
    } else {
      SquareMonotone(0.0, x);
    }
  }

  /** Squared Euclidean length of a vector. */
  function NormSq(v: Point): (n: real)
    ensures n >= 0.0
    ensures n > 0.0 <==> v != Point(0.0, 0.0)
  {
    SquareSign(v.x);
    SquareSign(v.y);
    Sq(v.x) + Sq(v.y)
  }

  /** b - a is the zero vector exactly when the points coincide. */
  lemma SubZero(a: Point, b: Point)
    ensures Sub(b, a) == Point(0.0, 0.0) <==> a == b
  {
    if a != b {
      if a.x != b.x {
        assert Sub(b, a).x != 0.0;
      } else {
        assert Sub(b, a).y != 0.0;
      }
    }
  }

  /** Squared Euclidean distance between two points: the squared length of
      the vector from a to b. */
  function DistSq(a: Point, b: Point): (d: real)
    ensures d >= 0.0
    ensures d > 0.0 <==> a != b
  {
    SubZero(a, b);
    NormSq(Sub(b, a))
  }

  /** `d` is the Euclidean distance between a and b, the value that
      math.dist(a, b) and the norm of b - a stand for. */
  predicate IsDistance(d: real, a: Point, b: Point) {
    d >= 0.0 && Sq(d) == DistSq(a, b)
  }

  /** Comparing a distance with a non-negative radius is the same as
      comparing the squared distance with the squared radius; a distance is
      zero exactly between equal points. */
  lemma CompareDistance(d: real, a: Point, b: Point, r: real)
    requires IsDistance(d, a, b) && r >= 0.0
    ensures d < r <==> DistSq(a, b) < Sq(r)
    ensures d > r <==> DistSq(a, b) > Sq(r)
    ensures d > 0.0 <==> a != b
  {
    if d < r {
      SquareMonotone(d, r);
    } else {
      SquareMonotone(r, d);
    }
    SquareSign(d);
  }
}
