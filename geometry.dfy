/** Geometry primitives of `geometry::Point2D`: subtraction, normalisation by
    an L2 norm, and the intersection of two lines given by two points each. */
module Geometry {

  /** A 2D point or vector; also one row (two columns) of a point buffer. */
  datatype Point2D = Point2D(x: real, y: real)

  const Origin: Point2D := Point2D(0.0, 0.0)

  /** `Point2D::operator-`: adding `q` back to the difference gives `p`. */
  function Minus(p: Point2D, q: Point2D): (r: Point2D)
    ensures r.x + q.x == p.x && r.y + q.y == p.y
  {
    Point2D(p.x - q.x, p.y - q.y)
  }

  /** z-component of the cross product of two vectors. */
  function Cross(a: Point2D, b: Point2D): real
  {
    a.x * b.y - a.y * b.x
  }

  /** `p` lies on the line through the distinct points `a` and `b`. */
  predicate OnLine(p: Point2D, a: Point2D, b: Point2D)
  {
    Cross(Minus(b, a), Minus(p, a)) == 0.0
  }

  /** The determinant `interception_lines` divides by; zero for parallel lines. */
  function Determinant(p1: Point2D, p2: Point2D, p3: Point2D, p4: Point2D): real
  {
    (p1.x - p2.x) * (p3.y - p4.y) - (p1.y - p2.y) * (p3.x - p4.x)
  }

  /** The determinant formula of `interception_lines`, term for term. */
  function IntersectionFormula(p1: Point2D, p2: Point2D, p3: Point2D, p4: Point2D): Point2D
    requires Determinant(p1, p2, p3, p4) != 0.0
  {
    var x1_x2 := p1.x - p2.x;
    var x3_x4 := p3.x - p4.x;
    var y1_y2 := p1.y - p2.y;
    var y3_y4 := p3.y - p4.y;
    var denominator := x1_x2 * y3_y4 - y1_y2 * x3_x4;
    var x1y2_y1x2 := p1.x * p2.y - p1.y * p2.x;
    var x3y4_y3x4 := p3.x * p4.y - p3.y * p4.x;
    Point2D((x1y2_y1x2 * x3_x4 - x1_x2 * x3y4_y3x4) / denominator,
            (x1y2_y1x2 * y3_y4 - y1_y2 * x3y4_y3x4) / denominator)
  }

  /** `interception_lines`: the intersection of line p1p2 with line p3p4 by the
      determinant formula. The source divides by the determinant unchecked, so
      parallel lines are a caller obligation. A non-zero determinant puts the
      computed point on both lines. */
  function InterceptionLines(p1: Point2D, p2: Point2D, p3: Point2D, p4: Point2D): (r: Point2D)
    requires Determinant(p1, p2, p3, p4) != 0.0
    ensures OnLine(r, p1, p2) && OnLine(r, p3, p4)
  {
    OnBothLinesByNumerators(p1, p2, p3, p4, IntersectionFormula(p1, p2, p3, p4));
    IntersectionFormula(p1, p2, p3, p4)
  }

  /** `Normalize` on a value: both components divided by the norm taken before the call. */
  function Normalized(p: Point2D, norm: real): (r: Point2D)
    requires norm != 0.0
    ensures r.x * norm == p.x && r.y * norm == p.y
  {
    Point2D(p.x / norm, p.y / norm)
  }

  lemma MinusSelf(p: Point2D)
    ensures Minus(p, p) == Origin
  {
  }

  lemma MinusAntisymmetric(p: Point2D, q: Point2D)
    ensures Minus(q, p) == Point2D(-Minus(p, q).x, -Minus(p, q).y)
  {
  }

  /** Cross product of the direction of line ab with (p - a), scaled by the
      determinant, as a polynomial identity. */
  lemma CrossScaled(p: Point2D, a: Point2D, b: Point2D, d: real)
    requires d != 0.0
    ensures Cross(Minus(b, a), Minus(p, a)) * d
         == (b.x - a.x) * (p.y * d - a.y * d) - (b.y - a.y) * (p.x * d - a.x * d)
  {
  }

  /** A point whose coordinates times the determinant are the two numerators
      of the determinant formula lies on both lines. */
  lemma {:induction false} OnBothLinesByNumerators(p1: Point2D, p2: Point2D, p3: Point2D, p4: Point2D, r: Point2D)
    requires Determinant(p1, p2, p3, p4) != 0.0
    requires r.x * Determinant(p1, p2, p3, p4)
          == (p1.x * p2.y - p1.y * p2.x) * (p3.x - p4.x) - (p1.x - p2.x) * (p3.x * p4.y - p3.y * p4.x)
    requires r.y * Determinant(p1, p2, p3, p4)
          == (p1.x * p2.y - p1.y * p2.x) * (p3.y - p4.y) - (p1.y - p2.y) * (p3.x * p4.y - p3.y * p4.x)
    ensures OnLine(r, p1, p2) && OnLine(r, p3, p4)
  {
    var d := Determinant(p1, p2, p3, p4);
    var a := p1.x * p2.y - p1.y * p2.x;
    var b := p3.x * p4.y - p3.y * p4.x;
    var x12, x34, y12, y34 := p1.x - p2.x, p3.x - p4.x, p1.y - p2.y, p3.y - p4.y;
    CrossScaled(r, p1, p2, d);
    CrossScaled(r, p3, p4, d);
    assert (p2.x - p1.x) * (a * y34 - y12 * b - p1.y * d) - (p2.y - p1.y) * (a * x34 - x12 * b - p1.x * d) == 0.0;
    assert (p4.x - p3.x) * (a * y34 - y12 * b - p3.y * d) - (p4.y - p3.y) * (a * x34 - x12 * b - p3.x * d) == 0.0;
  }

  /** Exchanging the two lines changes the sign of the determinant and of
      both numerators together, so the intersection is the same. */
  lemma InterceptionSymmetric(p1: Point2D, p2: Point2D, p3: Point2D, p4: Point2D)
    requires Determinant(p1, p2, p3, p4) != 0.0
    ensures Determinant(p3, p4, p1, p2) == -Determinant(p1, p2, p3, p4)
    ensures InterceptionLines(p3, p4, p1, p2) == InterceptionLines(p1, p2, p3, p4)
  {
    var d := Determinant(p1, p2, p3, p4);
    var a := p1.x * p2.y - p1.y * p2.x;
    var b := p3.x * p4.y - p3.y * p4.x;
    var x12, x34, y12, y34 := p1.x - p2.x, p3.x - p4.x, p1.y - p2.y, p3.y - p4.y;
    assert Determinant(p3, p4, p1, p2) == -d;
    assert IntersectionFormula(p3, p4, p1, p2) == IntersectionFormula(p1, p2, p3, p4) by {
      assert (b * x12 - x34 * a) / -d == (a * x34 - x12 * b) / d;
      assert (b * y12 - y34 * a) / -d == (a * y34 - y12 * b) / d;
    }
  }

  /** Line (0,0)-(1,2) meets the vertical line x = 3 at (3,6). */
  lemma InterceptionVerticalExample()
    ensures Determinant(Point2D(0.0, 0.0), Point2D(1.0, 2.0), Point2D(3.0, 0.0), Point2D(3.0, 2.0)) == 2.0
    ensures InterceptionLines(Point2D(0.0, 0.0), Point2D(1.0, 2.0), Point2D(3.0, 0.0), Point2D(3.0, 2.0))
         == Point2D(3.0, 6.0)
  {
  }

  /** Two lines that share the endpoint (3,6) meet there. */
  lemma InterceptionSharedEndpointExample()
    ensures Determinant(Point2D(0.0, 0.0), Point2D(3.0, 6.0), Point2D(3.0, 0.0), Point2D(3.0, 6.0)) == 18.0
    ensures InterceptionLines(Point2D(0.0, 0.0), Point2D(3.0, 6.0), Point2D(3.0, 0.0), Point2D(3.0, 6.0))
         == Point2D(3.0, 6.0)
  {
  }

  /** A `Point2D` object whose coordinates `Normalize` overwrites in place. */
  class MutablePoint2D {
    var x: real
    var y: real

    constructor (first: real, second: real)
      ensures x == first && y == second
    {
      x, y := first, second;
    }

    function Value(): Point2D
      reads this
    {
      Point2D(x, y)
    }

    /** `Point2D::Normalize` with the L2 norm (`std::hypot`) kept abstract as
        `l2Norm`; a zero norm is a caller obligation in the source. */
    method Normalize(l2Norm: Point2D -> real)
      requires l2Norm(Value()) != 0.0
      modifies this
      ensures Value() == Normalized(old(Value()), l2Norm(old(Value())))
      ensures x * l2Norm(old(Value())) == old(x) && y * l2Norm(old(Value())) == old(y)
    {
      var norm := l2Norm(Value());
      x := x / norm;
      y := y / norm;
    }
  }
}
