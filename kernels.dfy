/** Sampling kernels: each writes the rows of one slice [lo, hi) of a point
    buffer in place, row by row. A buffer row is a `Point2D` (its two columns). */
module Kernels {
  import opened MathHelper
  import opened Geometry

  // ---------------------------------------------------------------------------
  // Uniform arc fill

  /** Angular step between consecutive rows of an arc of `m` rows: the source
      divides by `m - 1` in size_t, so an empty slice divides by SIZE_MAX and a
      one-row slice would divide by zero. */
  function ArcStep(startAngle: real, endAngle: real, m: nat): real
    requires m != 1
  {
    (endAngle - startAngle) / (SizeMinusOne(m) as real)
  }

  /** Angle of row `i` of an arc of `m` rows. */
  function ArcAngle(startAngle: real, endAngle: real, m: nat, i: nat): real
    requires m != 1
  {
    startAngle + (i as real) * ArcStep(startAngle, endAngle, m)
  }

  /** The point at `angle` on the circle of `radius` about the origin
      (`cos` and `sin` are the library functions, kept abstract). */
  function CirclePoint(radius: real, cos: real -> real, sin: real -> real, angle: real): Point2D
  {
    Point2D(radius * cos(angle), radius * sin(angle))
  }

  /** The `m` rows `fill_circle_arc_uniform` writes. */
  function ArcSamples(startAngle: real, endAngle: real, radius: real,
                      cos: real -> real, sin: real -> real, m: nat): (s: seq<Point2D>)
    requires m != 1
    ensures |s| == m
  {
    seq(m, i requires 0 <= i < m => CirclePoint(radius, cos, sin, ArcAngle(startAngle, endAngle, m, i)))
  }

  /** The first row sits at the start angle and the last at the end angle. */
  lemma ArcEndpoints(startAngle: real, endAngle: real, m: nat)
    requires m >= 2
    ensures ArcAngle(startAngle, endAngle, m, 0) == startAngle
    ensures ArcAngle(startAngle, endAngle, m, m - 1) == endAngle
  {
    var k := (m - 1) as real;
    assert ArcStep(startAngle, endAngle, m) * k == endAngle - startAngle;
  }

  /** Consecutive rows are one equal step apart in angle. */
  lemma ArcEqualSteps(startAngle: real, endAngle: real, m: nat, i: nat)
    requires m >= 2 && i + 1 < m
    ensures ArcAngle(startAngle, endAngle, m, i + 1) - ArcAngle(startAngle, endAngle, m, i)
         == (endAngle - startAngle) / ((m - 1) as real)
  {
  }

  /** `kernels::fill_circle_arc_uniform` on the slice [lo, hi). */
  method FillCircleArcUniform(startAngle: real, endAngle: real, radius: real,
                              cos: real -> real, sin: real -> real,
                              buf: array<Point2D>, lo: nat, hi: nat)
    requires lo <= hi <= buf.Length
    requires hi - lo != 1
    modifies buf
    ensures buf[..] == old(buf[..lo]) + ArcSamples(startAngle, endAngle, radius, cos, sin, hi - lo) + old(buf[hi..])
  {
    var gridSize := hi - lo;
    var step := (endAngle - startAngle) / (SizeMinusOne(gridSize) as real);
    assert step == ArcStep(startAngle, endAngle, gridSize);
    for i := 0 to gridSize
      invariant forall g :: lo <= g < lo + i ==>
                  buf[g] == CirclePoint(radius, cos, sin, ArcAngle(startAngle, endAngle, gridSize, g - lo))
      invariant forall g :: 0 <= g < buf.Length && !(lo <= g < lo + i) ==> buf[g] == old(buf[g])
    {
      assert startAngle + (i as real) * step == ArcAngle(startAngle, endAngle, gridSize, i);
      buf[lo + i] := CirclePoint(radius, cos, sin, startAngle + (i as real) * step);
    }
    ghost var expected := old(buf[..lo]) + ArcSamples(startAngle, endAngle, radius, cos, sin, gridSize) + old(buf[hi..]);
    assert forall g :: 0 <= g < buf.Length ==> buf[g] == expected[g];
    assert buf[..] == expected;
  }

  // ---------------------------------------------------------------------------
  // Geometric-progression ray fill

  /** The ray denominator `1 - q^(N-1)` the callers compute once per ray of
      `n` rows (with the size_t decrement of `n`). A single row or a ratio of 1
      makes it zero, and the divisions by it undefined; a growing ray (q > 1)
      of two rows or more has a negative one. */
  function Denominator(q: real, n: nat): (d: real)
    ensures n == 1 ==> d == 0.0
    ensures q == 1.0 ==> d == 0.0
    ensures q > 1.0 && n >= 2 ==> d < 0.0
  {
    PowOfOne(SizeMinusOne(n));
    PowAboveOne(q, SizeMinusOne(n));
    1.0 - Pow(q, SizeMinusOne(n))
  }

  /** Line parameter of global row `g`: t = (1 - q^g) / D. */
  function RayParam(q: real, d: real, g: nat): real
    requires d != 0.0
  {
    (1.0 - Pow(q, g)) / d
  }

  /** The point of global row `g`: start + direction * length * t. */
  function RayPoint(dir: Point2D, start: Point2D, len: real, q: real, d: real, g: nat): Point2D
    requires d != 0.0
  {
    Point2D(start.x + dir.x * len * RayParam(q, d, g), start.y + dir.y * len * RayParam(q, d, g))
  }

  /** The `m` rows of a slice whose first row has global index `idx`. */
  function RaySlice(dir: Point2D, start: Point2D, len: real, q: real, d: real, idx: nat, m: nat): (s: seq<Point2D>)
    requires m > 0 ==> d != 0.0
    ensures |s| == m
  {
    seq(m, i requires 0 <= i < m => RayPoint(dir, start, len, q, d, idx + i))
  }

  /** The rows of a whole ray of `n` rows (the single-slice fill). */
  function WholeRay(dir: Point2D, start: Point2D, len: real, q: real, n: nat): (s: seq<Point2D>)
    requires n > 0 ==> Denominator(q, n) != 0.0
    ensures |s| == n
  {
    RaySlice(dir, start, len, q, Denominator(q, n), 0, n)
  }

  /** Row `g` of the whole ray is the ray point with exponent `g`. */
  lemma WholeRayRow(dir: Point2D, start: Point2D, len: real, q: real, n: nat, g: nat)
    requires g < n && Denominator(q, n) != 0.0
    ensures WholeRay(dir, start, len, q, n)[g] == RayPoint(dir, start, len, q, Denominator(q, n), g)
  {
  }

  /** Filling [a, b) with index offset `a` gives exactly rows a..b-1 of the whole
      ray; this is what lets workers fill their slices independently. */
  lemma SubSliceMatchesWholeRay(dir: Point2D, start: Point2D, len: real, q: real, n: nat, a: nat, b: nat)
    requires a <= b <= n
    requires n > 0 ==> Denominator(q, n) != 0.0
    ensures RaySlice(dir, start, len, q, Denominator(q, n), a, b - a) == WholeRay(dir, start, len, q, n)[a..b]
  {
  }

  /** Row 0 (exponent 0) is the start point, whatever the denominator. */
  lemma RayFirstRowIsStart(dir: Point2D, start: Point2D, len: real, q: real, d: real)
    requires d != 0.0
    ensures RayParam(q, d, 0) == 0.0
    ensures RayPoint(dir, start, len, q, d, 0) == start
  {
  }

  /** With D = 1 - q^(N-1), the row with global index N-1 has parameter t = 1. */
  lemma LastParamIsOne(q: real, n: nat)
    ensures n > 0 && Denominator(q, n) != 0.0 ==> RayParam(q, Denominator(q, n), n - 1) == 1.0
  {
    if n > 0 && Denominator(q, n) != 0.0 {
      var d := Denominator(q, n);
      assert SizeMinusOne(n) == n - 1;
      assert d == 1.0 - Pow(q, n - 1);
      assert RayParam(q, d, n - 1) == d / d;
    }
  }

  /** With D = 1 - q^(N-1), the row with global index N-1 has t = 1, so it is
      the end point when end - start is length * direction. */
  lemma RayLastRowIsEnd(dir: Point2D, start: Point2D, end: Point2D, len: real, q: real, n: nat)
    requires n > 0 && Denominator(q, n) != 0.0
    requires Minus(end, start) == Point2D(dir.x * len, dir.y * len)
    ensures RayParam(q, Denominator(q, n), n - 1) == 1.0
    ensures RayPoint(dir, start, len, q, Denominator(q, n), n - 1) == end
  {
    LastParamIsOne(q, n);
    assert end.x - start.x == dir.x * len && end.y - start.y == dir.y * len;
  }

  /** Multiplying the parameter back by the denominator gives 1 - q^g. */
  lemma RayParamScaled(q: real, d: real, g: nat)
    requires d != 0.0
    ensures RayParam(q, d, g) * d == 1.0 - Pow(q, g)
  {
  }

  /** Consecutive parameter steps grow by exactly the ratio q. */
  lemma RayStepsGrowByRatio(q: real, d: real, g: nat)
    requires d != 0.0
    ensures RayParam(q, d, g + 2) - RayParam(q, d, g + 1) == q * (RayParam(q, d, g + 1) - RayParam(q, d, g))
  {
    var p := Pow(q, g);
    assert Pow(q, g + 1) == q * p;
    assert Pow(q, g + 2) == q * (q * p);
    StepRatio(RayParam(q, d, g), RayParam(q, d, g + 1), RayParam(q, d, g + 2), d, p, q);
  }

  /** The ratio argument on plain reals: a, b, c are (1 - p) / d,
      (1 - qp) / d and (1 - q(qp)) / d. */
  lemma StepRatio(a: real, b: real, c: real, d: real, p: real, q: real)
    requires d != 0.0
    requires a == (1.0 - p) / d && b == (1.0 - q * p) / d && c == (1.0 - q * (q * p)) / d
    ensures c - b == q * (b - a)
  {
    assert c - b == (q * p - q * (q * p)) / d;
    assert b - a == (p - q * p) / d;
    assert q * p - q * (q * p) == q * (p - q * p);
  }

  /** Dividing by a negative denominator reverses order. */
  lemma ScaledByNegative(x: real, y: real, d: real)
    requires d < 0.0
    ensures x * d > y * d ==> x < y
    ensures x * d >= y * d ==> x <= y
  {
    assert x * d - y * d == (x - y) * d;
  }

  /** The order facts behind RayParamBelowOne, on plain reals: t_g * d = 1 - p_g. */
  lemma ParamOrder(tg: real, th: real, d: real, pg: real, ph: real, pn: real)
    requires d == 1.0 - pn
    requires 1.0 <= pg < ph < pn
    requires tg * d == 1.0 - pg && th * d == 1.0 - ph
    ensures d < 0.0
    ensures 0.0 <= tg < th < 1.0
  {
    ScaledByNegative(tg, th, d);
    ScaledByNegative(th, 1.0, d);
    ScaledByNegative(0.0, tg, d);
  }

  /** For q > 1 the parameter rises strictly from 0 and stays below 1 before
      the last row of an N-row ray. */
  lemma RayParamBelowOne(q: real, n: nat, g: nat, h: nat)
    requires q > 1.0 && n >= 2
    requires g < h < n - 1
    ensures Denominator(q, n) < 0.0
    ensures 0.0 <= RayParam(q, Denominator(q, n), g) < RayParam(q, Denominator(q, n), h) < 1.0
  {
    var d := Denominator(q, n);
    PowStrictlyIncreasing(q, g, h);
    PowStrictlyIncreasing(q, h, n - 1);
    assert d != 0.0;
    RayParamScaled(q, d, g);
    RayParamScaled(q, d, h);
    ParamOrder(RayParam(q, d, g), RayParam(q, d, h), d, Pow(q, g), Pow(q, h), Pow(q, n - 1));
  }

  /** The order facts behind RayParamInUnit, on plain reals. */
  lemma UnitOrder(tg: real, d: real, pg: real, pn: real)
    requires d == 1.0 - pn
    requires 1.0 <= pg < pn
    requires tg * d == 1.0 - pg
    ensures d < 0.0
    ensures 0.0 <= tg < 1.0
  {
    ScaledByNegative(tg, 1.0, d);
    ScaledByNegative(0.0, tg, d);
  }

  /** For q > 1 every row before the last of an N-row ray has 0 <= t < 1. */
  lemma RayParamInUnit(q: real, n: nat, g: nat)
    requires q > 1.0 && g + 1 < n
    ensures Denominator(q, n) < 0.0
    ensures 0.0 <= RayParam(q, Denominator(q, n), g) < 1.0
  {
    var d := Denominator(q, n);
    PowStrictlyIncreasing(q, g, n - 1);
    assert d != 0.0;
    RayParamScaled(q, d, g);
    UnitOrder(RayParam(q, d, g), d, Pow(q, g), Pow(q, n - 1));
  }

  /** One row of the ray fill: t = (1 - fast_pow(q, g)) / D, then the point
      start + direction * length * t. */
  method RayRow(dir: Point2D, start: Point2D, len: real, q: real, d: real, g: nat) returns (p: Point2D)
    requires d != 0.0
    ensures p == RayPoint(dir, start, len, q, d, g)
  {
    var power, _ := FastPow(q, g);
    var t := (1.0 - power) / d;
    assert t == RayParam(q, d, g);
    p := Point2D(start.x + dir.x * len * t, start.y + dir.y * len * t);
  }

  /** `kernels::fill_ray_segment_nonuniform` on the slice [lo, hi) with index
      offset `idxFromStart`; `l2Norm` stands for `GetL2Norm` (`std::hypot`). */
  method FillRaySegmentNonuniform(dir: Point2D, start: Point2D, end: Point2D, q: real, d: real,
                                  idxFromStart: nat, l2Norm: Point2D -> real,
                                  buf: array<Point2D>, lo: nat, hi: nat)
    requires lo <= hi <= buf.Length
    requires lo < hi ==> d != 0.0
    modifies buf
    ensures buf[..] == old(buf[..lo]) + RaySlice(dir, start, l2Norm(Minus(end, start)), q, d, idxFromStart, hi - lo)
                       + old(buf[hi..])
  {
    var interval := Minus(end, start);
    var len := l2Norm(interval);
    var subgridSize := hi - lo;
    for i := 0 to subgridSize
      invariant forall g :: lo <= g < lo + i ==> buf[g] == RayPoint(dir, start, len, q, d, idxFromStart + (g - lo))
      invariant forall g :: 0 <= g < buf.Length && !(lo <= g < lo + i) ==> buf[g] == old(buf[g])
    {
      buf[lo + i] := RayRow(dir, start, len, q, d, idxFromStart + i);
    }
    ghost var expected := old(buf[..lo]) + RaySlice(dir, start, len, q, d, idxFromStart, subgridSize) + old(buf[hi..]);
    assert forall g :: 0 <= g < buf.Length ==> buf[g] == expected[g];
    assert buf[..] == expected;
  }
}
