/** The legacy generators of `utils.hpp`, which predate the pool: a ray fill
    that splits the rows by floor division and gives the remainder to the
    last thread, a uniform circle fill, and the still empty Kirsch frame.
    Its `Point2D`, `operator-`, `interception_lines` and `fast_pow` are the
    same code as in the geometry and math headers and are modelled there.
    The threads are run one after another, in creation order. */
module LegacyUtils {
  import opened Geometry
  import opened Kernels
  import opened PoolSlices

  // ---------------------------------------------------------------------------
  // Floor partition with the remainder on the last thread

  /** Rows of every standard slice: N / T. */
  function StandardSize(n: nat, t: nat): nat
    requires t >= 1
  {
    n / t
  }

  /** First row of thread `w`: w * (N / T). A thread's standard slice fits in
      the buffer. */
  function LegacyBegin(n: nat, t: nat, w: nat): (b: nat)
    requires t >= 1
    ensures w < t ==> b + StandardSize(n, t) <= n
  {
    var sub := StandardSize(n, t);
    StandardSlicesFit(n, t);
    MulMonotone(Min(w + 1, t), t, sub);
    assert (w + 1) * sub == w * sub + sub;
    w * sub
  }

  /** One past the last row of thread `w`; the last thread also takes the
      remainder N - (N / T) * T. */
  function LegacyEnd(n: nat, t: nat, w: nat): (e: int)
    requires t >= 1
    ensures w + 1 < t ==> e == LegacyBegin(n, t, w + 1)
    ensures w + 1 == t ==> e == n
    ensures LegacyBegin(n, t, w) <= e
  {
    StandardSlicesFit(n, t);
    assert (w + 1) * StandardSize(n, t) == w * StandardSize(n, t) + StandardSize(n, t);
    assert t * StandardSize(n, t) == (t - 1) * StandardSize(n, t) + StandardSize(n, t);
    var sub := StandardSize(n, t);
    if w != t - 1 then LegacyBegin(n, t, w) + sub
    else LegacyBegin(n, t, w) + (sub + (n - sub * t))
  }

  /** Row `g` lies in the slice of thread `w`. */
  predicate InLegacySlice(n: nat, t: nat, w: nat, g: nat)
    requires t >= 1
  {
    w < t && LegacyBegin(n, t, w) <= g < LegacyEnd(n, t, w)
  }

  /** The thread whose slice holds row `g`: g / (N / T), capped at the last thread. */
  function LegacyOwner(n: nat, t: nat, g: nat): nat
    requires t >= 1
  {
    var sub := StandardSize(n, t);
    if sub == 0 then t - 1 else Min(g / sub, t - 1)
  }

  /** (N / T) * T <= N, so the remainder is a natural number. */
  lemma StandardSlicesFit(n: nat, t: nat)
    requires t >= 1
    ensures StandardSize(n, t) * t <= n
    ensures n - StandardSize(n, t) * t < t
  {
    assert n == (n / t) * t + n % t;
  }

  /** The slices follow one another without gap, and the last one ends at row N. */
  lemma LegacySlicesContiguous(n: nat, t: nat, w: nat)
    requires t >= 1 && w < t
    ensures w + 1 < t ==> LegacyEnd(n, t, w) == LegacyBegin(n, t, w + 1)
    ensures w == t - 1 ==> LegacyEnd(n, t, w) == n
    ensures LegacyBegin(n, t, w) <= LegacyEnd(n, t, w) <= n
  {
    var sub := StandardSize(n, t);
    StandardSlicesFit(n, t);
    assert (w + 1) * sub == w * sub + sub;
    MulMonotone(w + 1, t, sub);
    assert t * sub == (t - 1) * sub + sub;
  }

  /** Every row 0 <= g < N lies in the slice of exactly one thread, LegacyOwner. */
  lemma {:induction false} LegacyPartition(n: nat, t: nat, g: nat, w: nat)
    requires t >= 1 && g < n
    ensures LegacyOwner(n, t, g) < t
    ensures InLegacySlice(n, t, LegacyOwner(n, t, g), g)
    ensures InLegacySlice(n, t, w, g) ==> w == LegacyOwner(n, t, g)
  {
    var sub := StandardSize(n, t);
    var o := LegacyOwner(n, t, g);
    StandardSlicesFit(n, t);
    LegacySlicesContiguous(n, t, o);
    if sub > 0 {
      var k := g / sub;
      assert g == k * sub + g % sub;
      if k < t - 1 {
        assert o == k;
        assert LegacyEnd(n, t, o) == k * sub + sub;
      } else {
        assert o == t - 1;
        MulMonotone(t - 1, k, sub);
      }
    }
    if InLegacySlice(n, t, w, g) && w != o {
      LegacySlicesContiguous(n, t, w);
      if w < o {
        SlicesOrdered(n, t, w + 1, o);
      } else {
        SlicesOrdered(n, t, o + 1, w);
      }
    }
  }

  /** A later thread's slice starts no earlier than an earlier one ends. */
  lemma SlicesOrdered(n: nat, t: nat, a: nat, b: nat)
    requires t >= 1 && 1 <= a <= b < t
    ensures LegacyEnd(n, t, a - 1) <= LegacyBegin(n, t, b)
  {
    LegacySlicesContiguous(n, t, a - 1);
    MulMonotone(a, b, StandardSize(n, t));
  }

  /** With fewer rows than threads every standard slice is empty and the last
      thread takes all rows. */
  lemma FewRowsGoToLastThread(n: nat, t: nat, w: nat)
    requires t >= 1 && n < t && w < t
    ensures StandardSize(n, t) == 0
    ensures w != t - 1 ==> LegacyBegin(n, t, w) == LegacyEnd(n, t, w)
    ensures LegacyBegin(n, t, t - 1) == 0 && LegacyEnd(n, t, t - 1) == n
  {
  }

  // ---------------------------------------------------------------------------
  // The worker and the ray generator

  /** `ThreadArgs`: the subview [subLo, subHi) of the grid and the ray data.
      `l2Norm` stands for `GetL2Norm` (`std::sqrt` of the squared length). */
  datatype ThreadArgs = ThreadArgs(
    subLo: nat, subHi: nat,
    dir: Point2D, start: Point2D, end: Point2D,
    q: real, denominator: real,
    standardSubgridSize: nat, threadId: nat,
    l2Norm: Point2D -> real)

  /** `worker`: the ray rows of its subview with exponent offset
      tid * standard_subgrid_size, written row by row with the ray kernel's
      row formula. */
  method Worker(args: ThreadArgs, grid: array<Point2D>)
    requires args.subLo <= args.subHi <= grid.Length
    requires args.subLo < args.subHi ==> args.denominator != 0.0
    modifies grid
    ensures grid[..] == old(grid[..args.subLo])
                        + RaySlice(args.dir, args.start, args.l2Norm(Minus(args.end, args.start)), args.q,
                                   args.denominator, args.threadId * args.standardSubgridSize, args.subHi - args.subLo)
                        + old(grid[args.subHi..])
  {
    var lo, hi := args.subLo, args.subHi;
    var offset := args.threadId * args.standardSubgridSize;
    var sizeInterval := args.l2Norm(Minus(args.end, args.start));
    for i := 0 to hi - lo
      invariant forall g :: lo <= g < lo + i ==>
                  grid[g] == RayPoint(args.dir, args.start, sizeInterval, args.q, args.denominator, offset + (g - lo))
      invariant forall g :: 0 <= g < grid.Length && !(lo <= g < lo + i) ==> grid[g] == old(grid[g])
    {
      grid[lo + i] := RayRow(args.dir, args.start, sizeInterval, args.q, args.denominator, offset + i);
    }
    ghost var expected := old(grid[..lo])
                          + RaySlice(args.dir, args.start, sizeInterval, args.q, args.denominator, offset, hi - lo)
                          + old(grid[hi..]);
    assert forall g :: 0 <= g < grid.Length ==> grid[g] == expected[g];
    assert grid[..] == expected;
  }

  /** Rows finished once threads 0..k-1 have run. */
  function DoneRows(n: nat, t: nat, k: nat): nat
    requires t >= 1
  {
    if k < t then LegacyBegin(n, t, k) else n
  }

  /** Thread `k` takes the rows from DoneRows(k) to DoneRows(k + 1). */
  lemma DoneRowsStep(n: nat, t: nat, k: nat)
    requires t >= 1 && k < t
    ensures DoneRows(n, t, k) == LegacyBegin(n, t, k) && DoneRows(n, t, k + 1) == LegacyEnd(n, t, k)
    ensures DoneRows(n, t, k) <= DoneRows(n, t, k + 1) <= n
  {
    LegacySlicesContiguous(n, t, k);
  }

  /** `GenNonUniformOnLine::operator()` with its threads run in creation
      order. `cpuCount` is the processor count the parallel policy asks the
      system for. Every row ends up as the whole-ray fill has it. */
  method GenNonUniformOnLine(parallel: bool, cpuCount: nat, dir: Point2D, start: Point2D, end: Point2D,
                             q: real, l2Norm: Point2D -> real, grid: array<Point2D>)
    requires parallel ==> cpuCount >= 1
    requires grid.Length > 0 ==> Denominator(q, grid.Length) != 0.0
    modifies grid
    ensures grid[..] == WholeRay(dir, start, l2Norm(Minus(end, start)), q, grid.Length)
  {
    var count := if parallel then cpuCount else 1;
    var gridSize := grid.Length;
    var subrange := gridSize / count;
    StandardSlicesFit(gridSize, count);
    var tailSubrange := gridSize - subrange * count;
    var lastSubrange := subrange + tailSubrange;
    var denominator := 1.0 - MathHelper.Pow(q, MathHelper.SizeMinusOne(gridSize));
    ghost var whole := WholeRay(dir, start, l2Norm(Minus(end, start)), q, gridSize);
    ghost var orig := grid[..];
    for t := 0 to count
      invariant DoneRows(gridSize, count, t) <= gridSize
      invariant forall g :: 0 <= g < DoneRows(gridSize, count, t) ==> grid[..][g] == whole[g]
      invariant forall g :: DoneRows(gridSize, count, t) <= g < gridSize ==> grid[..][g] == orig[g]
    {
      ghost var prev := grid[..];
      RunThread(t, count, subrange, lastSubrange, dir, start, end, q, denominator, l2Norm, grid);
      DoneRowsStep(gridSize, count, t);
      StepExtendsPrefix(prev, grid[..], whole, orig, DoneRows(gridSize, count, t), DoneRows(gridSize, count, t + 1));
    }
    assert grid[..] == whole;
  }

  /** One turn of the spawning loop: thread `t` gets the subview
      [t * subrange, t * subrange + subrange), the last thread
      [t * subrange, t * subrange + last_subrange), and fills it. */
  method RunThread(t: nat, count: nat, subrange: nat, lastSubrange: nat,
                   dir: Point2D, start: Point2D, end: Point2D, q: real, denominator: real,
                   l2Norm: Point2D -> real, grid: array<Point2D>)
    requires count >= 1 && t < count
    requires subrange == StandardSize(grid.Length, count)
    requires lastSubrange == subrange + (grid.Length - subrange * count)
    requires grid.Length > 0 ==> Denominator(q, grid.Length) != 0.0
    requires denominator == Denominator(q, grid.Length)
    modifies grid
    ensures LegacyBegin(grid.Length, count, t) <= LegacyEnd(grid.Length, count, t) <= grid.Length
    ensures grid[..] == old(grid[..LegacyBegin(grid.Length, count, t)])
                        + WholeRay(dir, start, l2Norm(Minus(end, start)), q, grid.Length)
                            [LegacyBegin(grid.Length, count, t)..LegacyEnd(grid.Length, count, t)]
                        + old(grid[LegacyEnd(grid.Length, count, t)..])
  {
    LegacySlicesContiguous(grid.Length, count, t);
    var startOffset := t * subrange;
    var endOffset := if t != count - 1 then startOffset + subrange else startOffset + lastSubrange;
    assert startOffset == LegacyBegin(grid.Length, count, t) && endOffset == LegacyEnd(grid.Length, count, t);
    var args := ThreadArgs(startOffset, endOffset, dir, start, end, q, denominator, subrange, t, l2Norm);
    Worker(args, grid);
    SubSliceMatchesWholeRay(dir, start, l2Norm(Minus(end, start)), q, grid.Length, startOffset, endOffset);
  }

  /** One thread's slice [lo, hi) written with the whole-ray rows extends the
      finished prefix from lo to hi and keeps the rows after it. */
  lemma StepExtendsPrefix(prev: seq<Point2D>, cur: seq<Point2D>, whole: seq<Point2D>, orig: seq<Point2D>,
                          lo: nat, hi: nat)
    requires |prev| == |whole| == |orig| && lo <= hi <= |prev|
    requires cur == prev[..lo] + whole[lo..hi] + prev[hi..]
    requires forall g :: 0 <= g < lo ==> prev[g] == whole[g]
    requires forall g :: lo <= g < |prev| ==> prev[g] == orig[g]
    ensures forall g :: 0 <= g < hi ==> cur[g] == whole[g]
    ensures forall g :: hi <= g < |prev| ==> cur[g] == orig[g]
  {
  }

  // ---------------------------------------------------------------------------
  // Uniform circle and the Kirsch frame

  /** Angle of row `i` in `GenUniformOnCircle`: i * step, with
      step = (end - start) / (m - 1); the start angle is not added. */
  function LegacyCircleAngle(startAngle: real, endAngle: real, m: nat, i: nat): real
    requires m != 1
  {
    (i as real) * ArcStep(startAngle, endAngle, m)
  }

  /** The rows `GenUniformOnCircle` writes. */
  function LegacyCircleSamples(startAngle: real, endAngle: real, radius: real,
                               cos: real -> real, sin: real -> real, m: nat): (s: seq<Point2D>)
    requires m != 1
    ensures |s| == m
  {
    seq(m, i requires 0 <= i < m => CirclePoint(radius, cos, sin, LegacyCircleAngle(startAngle, endAngle, m, i)))
  }

  /** `GenUniformOnCircle::operator()`. */
  method GenUniformOnCircle(startAngle: real, endAngle: real, radius: real,
                            cos: real -> real, sin: real -> real, grid: array<Point2D>)
    requires grid.Length != 1
    modifies grid
    ensures grid[..] == LegacyCircleSamples(startAngle, endAngle, radius, cos, sin, grid.Length)
  {
    var gridSize := grid.Length;
    var step := (endAngle - startAngle) / (MathHelper.SizeMinusOne(gridSize) as real);
    for i := 0 to gridSize
      invariant forall g :: 0 <= g < i ==>
                  grid[g] == CirclePoint(radius, cos, sin, LegacyCircleAngle(startAngle, endAngle, gridSize, g))
    {
      assert (i as real) * step == LegacyCircleAngle(startAngle, endAngle, gridSize, i);
      grid[i] := CirclePoint(radius, cos, sin, (i as real) * step);
    }
    ghost var expected := LegacyCircleSamples(startAngle, endAngle, radius, cos, sin, gridSize);
    assert forall g :: 0 <= g < gridSize ==> grid[g] == expected[g];
    assert grid[..] == expected;
  }

  /** The legacy circle is the arc kernel's fill of [0, end - start]: the
      whole arc rotated back by the start angle. */
  lemma LegacyCircleIsShiftedArc(startAngle: real, endAngle: real, radius: real,
                                 cos: real -> real, sin: real -> real, m: nat)
    requires m != 1
    ensures LegacyCircleSamples(startAngle, endAngle, radius, cos, sin, m)
         == ArcSamples(0.0, endAngle - startAngle, radius, cos, sin, m)
  {
    var legacy := LegacyCircleSamples(startAngle, endAngle, radius, cos, sin, m);
    var arc := ArcSamples(0.0, endAngle - startAngle, radius, cos, sin, m);
    assert ArcStep(startAngle, endAngle, m) == ArcStep(0.0, endAngle - startAngle, m);
    forall i | 0 <= i < m
      ensures legacy[i] == arc[i]
    {
      assert ArcAngle(0.0, endAngle - startAngle, m, i) == LegacyCircleAngle(startAngle, endAngle, m, i);
    }
  }

  /** Row 0 sits at angle 0 and row m-1 at angle end - start, so the arc
      reaches its end angle only when it starts at 0. */
  lemma LegacyCircleAngles(startAngle: real, endAngle: real, m: nat)
    requires m >= 2
    ensures LegacyCircleAngle(startAngle, endAngle, m, 0) == 0.0
    ensures LegacyCircleAngle(startAngle, endAngle, m, m - 1) == endAngle - startAngle
    ensures LegacyCircleAngle(startAngle, endAngle, m, m - 1) == endAngle <==> startAngle == 0.0
  {
    ArcEndpoints(startAngle, endAngle, m);
  }

  /** On [pi/4, pi/2] with 3 rows (angles in units of pi/4: [1, 2]) the legacy
      circle puts its rows at 0, 1/2, 1 while the arc kernel puts them at 1, 3/2, 2. */
  lemma LegacyCircleExample()
    ensures ArcStep(1.0, 2.0, 3) == 0.5
    ensures LegacyCircleAngle(1.0, 2.0, 3, 0) == 0.0 && LegacyCircleAngle(1.0, 2.0, 3, 2) == 1.0
    ensures ArcAngle(1.0, 2.0, 3, 0) == 1.0 && ArcAngle(1.0, 2.0, 3, 2) == 2.0
  {
  }

  /** `mesh::GenFrameKirsch`: the body is empty, the mesh storage is untouched. */
  method GenFrameKirsch(radiusHole: real, sideSize: real, q: real, countNodesOnHole: nat,
                        countRaysInEachSector: nat, meshStorage: array<Point2D>)
    ensures meshStorage[..] == old(meshStorage[..])
  {
  }
}
