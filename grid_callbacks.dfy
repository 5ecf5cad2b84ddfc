/** The two callbacks `GenNonUniformOnRay` hands to the pool: the uniform
    partitioner and `threadDispatch`, which unpacks the kernel arguments and
    runs the ray kernel at the worker's index offset. */
module GridCallbacks {
  import opened Geometry
  import opened PoolSlices
  import Kernels

  /** `PartitionerArgs`: rows in the ray and the thread count to split them over. */
  datatype PartitionerArgs = PartitionerArgs(fullSize: nat, countThreads: nat)

  /** `KernelArgs`; `l2Norm` stands for the `GetL2Norm` the kernel applies. */
  datatype KernelArgs = KernelArgs(
    dir: Point2D, start: Point2D, end: Point2D,
    q: real, denominator: real, chunkSize: nat,
    l2Norm: Point2D -> real)

  /** `GenNonUniformOnRay::partitioner`: ceil chunking without overlap.
      The chunk is the least size whose T copies cover the rows. */
  function Partitioner(args: PartitionerArgs): (s: PartitionerSettings)
    requires args.countThreads >= 1
    ensures s.fullSize == args.fullSize && s.overlapSize == 0 && WellFormed(s)
    ensures s.chunkSize > 0 <==> args.fullSize > 0
  {
    var t := args.countThreads;
    var chunk := (args.fullSize + t - 1) / t;
    PartitionerSettings(args.fullSize, chunk, 0)
  }

  /** The chunk is ceil(N / T): T chunks cover the rows, T chunks one row
      shorter do not. */
  lemma PartitionerBounds(args: PartitionerArgs)
    requires args.countThreads >= 1
    ensures Partitioner(args).chunkSize * args.countThreads >= args.fullSize
    ensures (Partitioner(args).chunkSize - 1) * args.countThreads < args.fullSize
  {
    var t := args.countThreads;
    var chunk := Partitioner(args).chunkSize;
    assert args.fullSize + t - 1 == chunk * t + (args.fullSize + t - 1) % t;
  }

  /** The rows `threadDispatch` writes into a slice of `m` rows for worker `w`. */
  function DispatchSlice(args: KernelArgs, w: nat, m: nat): (rows: seq<Point2D>)
    requires m > 0 ==> args.denominator != 0.0
    ensures |rows| == m
  {
    Kernels.RaySlice(args.dir, args.start, args.l2Norm(Minus(args.end, args.start)),
                     args.q, args.denominator, args.chunkSize * w, m)
  }

  /** `threadDispatch`: the ray kernel on [lo, hi) with idx_from_start = chunk * worker_id. */
  method ThreadDispatch(buf: array<Point2D>, lo: nat, hi: nat, workerId: nat, args: KernelArgs)
    requires lo <= hi <= buf.Length
    requires lo < hi ==> args.denominator != 0.0
    modifies buf
    ensures buf[..] == old(buf[..lo]) + DispatchSlice(args, workerId, hi - lo) + old(buf[hi..])
  {
    var idxFromStart := args.chunkSize * workerId;
    Kernels.FillRaySegmentNonuniform(args.dir, args.start, args.end, args.q, args.denominator,
                                     idxFromStart, args.l2Norm, buf, lo, hi);
  }

  /** The sequential policy partitions over one thread: one slice is the whole ray. */
  lemma SequentialSingleSlice(n: nat)
    ensures Partitioner(PartitionerArgs(n, 1)).chunkSize == n
  {
  }

  /** With ceil chunking the guarded slices of workers 0..T-1 partition the
      rows: each row lies in the slice of exactly one of them. */
  lemma PartitionCoversDisjointly(args: PartitionerArgs, g: nat)
    requires args.countThreads >= 1
    requires g < args.fullSize
    ensures var s := Partitioner(args);
      g / s.chunkSize < args.countThreads &&
      InSlice(s, args.fullSize, g / s.chunkSize, g) &&
      forall w :: InSlice(s, args.fullSize, w, g) ==> w == g / s.chunkSize
  {
    var s := Partitioner(args);
    var c, t := s.chunkSize, args.countThreads;
    PartitionerBounds(args);
    OwnerBelowCount(g, c, t, args.fullSize);
    forall w ensures InSlice(s, args.fullSize, w, g) <==> g / c == w {
      InSliceIffOwner(s, args.fullSize, w, g);
    }
    InSliceIffOwner(s, args.fullSize, g / c, g);
  }

  /** A row below N <= c * t has its owner g / c below t. */
  lemma OwnerBelowCount(g: nat, c: nat, t: nat, n: nat)
    requires c > 0 && g < n <= c * t
    ensures g / c < t
  {
    if g / c >= t {
      MulMonotone(t, g / c, c);
      assert false;
    }
  }

  /** `threadDispatch`'s offset chunk * w is the begin row the pool gives worker w. */
  lemma OffsetIsBeginRow(args: PartitionerArgs, w: nat)
    requires args.countThreads >= 1
    ensures Partitioner(args).chunkSize * w == SliceBegin(Partitioner(args), w)
  {
  }

  /** For 3 rows over 8 threads the chunk is 1, worker 5 runs, and its begin
      row 5 lies past its end row 3. */
  lemma BeginPastEndExample()
    ensures Partitioner(PartitionerArgs(3, 8)) == PartitionerSettings(3, 1, 0)
    ensures 5 in RunningIds(SpawnedIds(8))
    ensures SliceBegin(PartitionerSettings(3, 1, 0), 5) == 5
    ensures SliceEnd(PartitionerSettings(3, 1, 0), 5, 3) == 3
  {
    RunningIdsAsWritten(8, 5);
  }

  /** Under the sequential policy the partition is one chunk of all `n` rows,
      yet every spawned thread still runs: on a pool of four or more threads
      worker 2 gets begin row 2n past its end row n. */
  lemma SequentialBeginPastEnd(n: nat, t: nat)
    requires t >= 4 && n > 0
    ensures Partitioner(PartitionerArgs(n, 1)) == PartitionerSettings(n, n, 0)
    ensures 2 in RunningIds(SpawnedIds(t))
    ensures SliceBegin(Partitioner(PartitionerArgs(n, 1)), 2) == 2 * n
    ensures SliceEnd(Partitioner(PartitionerArgs(n, 1)), 2, n) == n
    ensures SliceBegin(Partitioner(PartitionerArgs(n, 1)), 2) > SliceEnd(Partitioner(PartitionerArgs(n, 1)), 2, n)
  {
    SequentialSingleSlice(n);
    RunningIdsAsWritten(t, 2);
  }
}
