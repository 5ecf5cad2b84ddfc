/** `grid::GenNonUniformOnRay::operator()`: choose the thread count from the
    execution policy, compute the shared denominator and the partition, pack
    the kernel arguments and hand the job to the pool. */
module Grid {
  import opened Geometry
  import opened PoolSlices
  import opened GridCallbacks
  import opened PthreadsManage
  import opened Kernels
  import MathHelper

  /** Threads the ray is split over: the pool's under the parallel policy, one
      otherwise. The count is never 0 for a non-empty pool and never exceeds it. */
  function CountThreads(parallel: bool, poolThreads: nat): (t: nat)
    ensures poolThreads >= 1 ==> 1 <= t <= poolThreads
    ensures !parallel ==> t == 1
  {
    if parallel then poolThreads else 1
  }

  /** Rows per slice for a ray of `n` rows over `t` threads. */
  function ChunkFor(n: nat, t: nat): nat
    requires t >= 1
  {
    Partitioner(PartitionerArgs(n, t)).chunkSize
  }

  /** Row `g` of a ray of `n` rows is written by the job: the worker whose
      slice holds it, g / chunk, is one that runs. */
  predicate RowWritten(n: nat, t: nat, spawned: seq<nat>, g: nat)
    requires t >= 1 && g < n
  {
    g / ChunkFor(n, t) in RunningIds(spawned)
  }

  /** A job over a ray of `n` rows leaves row g as the whole-ray fill has it
      when its owner ran, and as it was otherwise. */
  lemma PoolRowIsWholeRayRow(buf: seq<Point2D>, t: nat, spawned: seq<nat>, args: KernelArgs, len: real, g: nat)
    requires t >= 1 && g < |buf|
    requires Denominator(args.q, |buf|) != 0.0
    requires args.denominator == Denominator(args.q, |buf|) && args.chunkSize == ChunkFor(|buf|, t)
    requires len == args.l2Norm(Minus(args.end, args.start))
    ensures JobResult(buf, Partitioner(PartitionerArgs(|buf|, t)), RunningIds(spawned), args)[g]
         == if RowWritten(|buf|, t, spawned, g) then WholeRay(args.dir, args.start, len, args.q, |buf|)[g] else buf[g]
  {
    var s := Partitioner(PartitionerArgs(|buf|, t));
    var c := s.chunkSize;
    assert c > 0 && c == ChunkFor(|buf|, t);
    JobRowIsRayRow(buf, s, RunningIds(spawned), args, g);
    WholeRayRow(args.dir, args.start, len, args.q, |buf|, g);
  }

  /** The kernel arguments `operator()` packs for a ray of `n` rows over `t`
      threads: the shared denominator 1 - q^(N-1), which puts the last row at
      parameter 1, and the partition's chunk, whose `t` slices cover the `n`
      rows with less than one chunk to spare. */
  function RayKernelArgs(dir: Point2D, start: Point2D, end: Point2D, q: real, l2Norm: Point2D -> real,
                         n: nat, t: nat): (args: KernelArgs)
    requires t >= 1
    ensures n > 0 && args.denominator != 0.0 ==> RayParam(q, args.denominator, n - 1) == 1.0
    ensures args.chunkSize * t >= n && (args.chunkSize - 1) * t < n
  {
    LastParamIsOne(q, n);
    PartitionerBounds(PartitionerArgs(n, t));
    KernelArgs(dir, start, end, q, Denominator(q, n), ChunkFor(n, t), l2Norm)
  }

  /** The ray buffer after `operator()` has run its job over `t` threads on a
      pool whose spawned threads are `spawned`. */
  function RayJob(buf: seq<Point2D>, t: nat, spawned: seq<nat>, dir: Point2D, start: Point2D, end: Point2D,
                  q: real, l2Norm: Point2D -> real): (r: seq<Point2D>)
    requires t >= 1
    requires |buf| > 0 ==> Denominator(q, |buf|) != 0.0
    ensures |r| == |buf|
  {
    JobResult(buf, Partitioner(PartitionerArgs(|buf|, t)), RunningIds(spawned),
              RayKernelArgs(dir, start, end, q, l2Norm, |buf|, t))
  }

  /** Every row of the ray job is the whole-ray row when its owner ran and
      the old row otherwise. */
  lemma RayJobRows(buf: seq<Point2D>, t: nat, spawned: seq<nat>, dir: Point2D, start: Point2D, end: Point2D,
                   q: real, l2Norm: Point2D -> real)
    requires t >= 1
    requires |buf| > 0 ==> Denominator(q, |buf|) != 0.0
    ensures forall g :: 0 <= g < |buf| ==>
              RayJob(buf, t, spawned, dir, start, end, q, l2Norm)[g]
              == if RowWritten(|buf|, t, spawned, g) then WholeRay(dir, start, l2Norm(Minus(end, start)), q, |buf|)[g]
                 else buf[g]
  {
    var args := RayKernelArgs(dir, start, end, q, l2Norm, |buf|, t);
    forall g | 0 <= g < |buf|
      ensures RayJob(buf, t, spawned, dir, start, end, q, l2Norm)[g]
              == if RowWritten(|buf|, t, spawned, g) then WholeRay(dir, start, l2Norm(Minus(end, start)), q, |buf|)[g]
                 else buf[g]
    {
      PoolRowIsWholeRayRow(buf, t, spawned, args, l2Norm(Minus(end, start)), g);
    }
  }

  /** Under the sequential policy the ray job is exactly the whole-ray fill. */
  lemma SequentialRayJob(buf: seq<Point2D>, spawned: seq<nat>, dir: Point2D, start: Point2D, end: Point2D,
                         q: real, l2Norm: Point2D -> real)
    requires |buf| > 0 ==> Denominator(q, |buf|) != 0.0
    ensures RayJob(buf, 1, spawned, dir, start, end, q, l2Norm) == WholeRay(dir, start, l2Norm(Minus(end, start)), q, |buf|)
  {
    var r := RayJob(buf, 1, spawned, dir, start, end, q, l2Norm);
    var whole := WholeRay(dir, start, l2Norm(Minus(end, start)), q, |buf|);
    forall g | 0 <= g < |buf|
      ensures r[g] == whole[g]
    {
      SequentialRow(buf, spawned, dir, start, end, q, l2Norm, g);
    }
  }

  lemma SequentialRow(buf: seq<Point2D>, spawned: seq<nat>, dir: Point2D, start: Point2D, end: Point2D,
                      q: real, l2Norm: Point2D -> real, g: nat)
    requires g < |buf| && Denominator(q, |buf|) != 0.0
    ensures RayJob(buf, 1, spawned, dir, start, end, q, l2Norm)[g] == WholeRay(dir, start, l2Norm(Minus(end, start)), q, |buf|)[g]
  {
    PoolRowIsWholeRayRow(buf, 1, spawned, RayKernelArgs(dir, start, end, q, l2Norm, |buf|, 1), l2Norm(Minus(end, start)), g);
    SequentialWritesEveryRow(|buf|, spawned, g);
  }

  /** `operator()` on a pool and a ray buffer of N rows: the thread count
      from the policy, the denominator 1 - q^(N-1), the partition, the kernel
      arguments, then one job on the pool. */
  method GenNonUniformOnRay(pool: Pool, parallel: bool, dir: Point2D, start: Point2D, end: Point2D, q: real,
                            l2Norm: Point2D -> real, rayStorage: array<Point2D>)
    requires pool.Valid()
    requires rayStorage.Length > 0 ==> Denominator(q, rayStorage.Length) != 0.0
    modifies pool`jobId, pool`settings, rayStorage
    ensures pool.Valid() && pool.spawned == old(pool.spawned) && pool.jobId == old(pool.jobId) + 1
    ensures pool.settings == Partitioner(PartitionerArgs(rayStorage.Length, CountThreads(parallel, pool.totalThreads)))
    ensures pool.settings.chunkSize == RayKernelArgs(dir, start, end, q, l2Norm, rayStorage.Length,
                                                     CountThreads(parallel, pool.totalThreads)).chunkSize
    ensures rayStorage[..] == RayJob(old(rayStorage[..]), CountThreads(parallel, pool.totalThreads), pool.spawned,
                                     dir, start, end, q, l2Norm)
  {
    var countThreads := if parallel then pool.totalThreads else 1;
    var gridSize := rayStorage.Length;
    var denominator := 1.0 - MathHelper.Pow(q, MathHelper.SizeMinusOne(gridSize));
    var partitionerArgs := PartitionerArgs(gridSize, countThreads);
    var settings := Partitioner(partitionerArgs);
    var kernelArgs := KernelArgs(dir, start, end, q, denominator, settings.chunkSize, l2Norm);
    assert kernelArgs == RayKernelArgs(dir, start, end, q, l2Norm, gridSize, countThreads);
    pool.DispatchJob(rayStorage, kernelArgs, partitionerArgs);
  }

  /** The sequential policy writes every row: one slice, worker 0. */
  lemma SequentialWritesEveryRow(n: nat, spawned: seq<nat>, g: nat)
    requires g < n
    ensures ChunkFor(n, 1) == n
    ensures RowWritten(n, 1, spawned, g)
  {
    SequentialSingleSlice(n);
  }

  /** With one thread per worker id 1..T-1 every row of the ray is written. */
  lemma CorrectedPoolWritesEveryRow(n: nat, t: nat, g: nat)
    requires t >= 1 && g < n
    ensures RowWritten(n, t, CorrectedSpawnedIds(t), g)
  {
    PartitionCoversDisjointly(PartitionerArgs(n, t), g);
    RunningIdsCorrected(t, g / ChunkFor(n, t));
  }

  /** On a pool with the corrected spawn range the ray job over any number of
      threads is exactly the whole-ray fill, as under the sequential policy. */
  lemma CorrectedRayJob(buf: seq<Point2D>, t: nat, dir: Point2D, start: Point2D, end: Point2D,
                        q: real, l2Norm: Point2D -> real)
    requires t >= 1
    requires |buf| > 0 ==> Denominator(q, |buf|) != 0.0
    ensures RayJob(buf, t, CorrectedSpawnedIds(t), dir, start, end, q, l2Norm)
         == WholeRay(dir, start, l2Norm(Minus(end, start)), q, |buf|)
  {
    var r := RayJob(buf, t, CorrectedSpawnedIds(t), dir, start, end, q, l2Norm);
    var whole := WholeRay(dir, start, l2Norm(Minus(end, start)), q, |buf|);
    RayJobRows(buf, t, CorrectedSpawnedIds(t), dir, start, end, q, l2Norm);
    forall g | 0 <= g < |buf|
      ensures r[g] == whole[g]
    {
      CorrectedPoolWritesEveryRow(|buf|, t, g);
    }
  }

  /** g / c < k exactly when g < k * c. */
  lemma DivBelow(g: nat, c: nat, k: nat)
    requires c > 0
    ensures g / c < k <==> g < k * c
  {
    var w := g / c;
    assert g == w * c + g % c;
    if w < k {
      MulMonotone(w + 1, k, c);
    } else {
      MulMonotone(k, w, c);
    }
  }

  /** With the pool as written and two or more threads, exactly the rows below
      (T - 1) * chunk are written; the last worker's slice is left as it was. */
  lemma AsWrittenPoolRows(n: nat, t: nat, g: nat)
    requires t >= 2 && g < n
    ensures RowWritten(n, t, SpawnedIds(t), g) <==> g < (t - 1) * ChunkFor(n, t)
  {
    var c := ChunkFor(n, t);
    RunningIdsAsWritten(t, g / c);
    DivBelow(g, c, t - 1);
  }

  /** Whenever the last slice is non-empty, the last row, the one the end point
      belongs to, is not written by the pool as written. */
  lemma LastRowUnwritten(n: nat, t: nat)
    requires t >= 2 && n > 0
    requires (t - 1) * ChunkFor(n, t) < n
    ensures !RowWritten(n, t, SpawnedIds(t), n - 1)
  {
    AsWrittenPoolRows(n, t, n - 1);
  }

  /** Ten rows over two threads: chunk 5, only worker 0 runs, rows 5..9 keep their values. */
  lemma UnwrittenRowExample()
    ensures ChunkFor(10, 2) == 5
    ensures RowWritten(10, 2, SpawnedIds(2), 4)
    ensures !RowWritten(10, 2, SpawnedIds(2), 7)
  {
    AsWrittenPoolRows(10, 2, 4);
    AsWrittenPoolRows(10, 2, 7);
  }

  /** s + v * t falls short of s + v when v > 0 and t < 1. */
  lemma ShortOfEnd(s: real, v: real, t: real, p: real, e: real)
    requires p == s + v * t && e == s + v && t < 1.0
    ensures v > 0.0 ==> p < e
  {
    assert e - p == v * (1.0 - t);
  }

  /** The end-to-end ray for q > 1: row 0 is the start point, row N-1 the end
      point (when end - start is length * direction), every earlier row has
      0 <= t < 1 and so lies short of the end point along each axis the ray
      advances in. */
  lemma RayEndToEnd(dir: Point2D, start: Point2D, end: Point2D, len: real, q: real, n: nat)
    requires q > 1.0 && n >= 2
    requires Minus(end, start) == Point2D(dir.x * len, dir.y * len)
    ensures Denominator(q, n) < 0.0
    ensures WholeRay(dir, start, len, q, n)[0] == start
    ensures WholeRay(dir, start, len, q, n)[n - 1] == end
    ensures forall g :: 0 <= g < n - 1 ==>
              0.0 <= RayParam(q, Denominator(q, n), g) < 1.0 &&
              (dir.x * len > 0.0 ==> WholeRay(dir, start, len, q, n)[g].x < end.x) &&
              (dir.y * len > 0.0 ==> WholeRay(dir, start, len, q, n)[g].y < end.y)
  {
    var d := Denominator(q, n);
    RayParamInUnit(q, n, 0);
    RayFirstRowIsStart(dir, start, len, q, d);
    RayLastRowIsEnd(dir, start, end, len, q, n);
    forall g | 0 <= g < n - 1
      ensures 0.0 <= RayParam(q, d, g) < 1.0
      ensures dir.x * len > 0.0 ==> WholeRay(dir, start, len, q, n)[g].x < end.x
      ensures dir.y * len > 0.0 ==> WholeRay(dir, start, len, q, n)[g].y < end.y
    {
      RayParamInUnit(q, n, g);
      var t := RayParam(q, d, g);
      var row := WholeRay(dir, start, len, q, n)[g];
      assert row == RayPoint(dir, start, len, q, d, g);
      ShortOfEnd(start.x, dir.x * len, t, row.x, end.x);
      ShortOfEnd(start.y, dir.y * len, t, row.y, end.y);
    }
  }
}
