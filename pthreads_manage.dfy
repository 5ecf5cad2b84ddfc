/** `pthreads_manage::Pool` run sequentially: a job is the kernel callback
    applied by each running worker to its slice of the target buffer, worker 0
    (the dispatching thread) first and then the spawned threads in id order.
    The thread protocol itself (mutex, condition variables, active-worker
    count, shutdown) is not modelled. */
module PthreadsManage {
  import opened Geometry
  import opened PoolSlices
  import opened GridCallbacks

  /** The buffer after worker `w` has run the kernel on its guarded slice. */
  function ApplyWorker(buf: seq<Point2D>, s: PartitionerSettings, w: nat, args: KernelArgs): (r: seq<Point2D>)
    requires WellFormed(s)
    requires |buf| > 0 ==> args.denominator != 0.0
    ensures |r| == |buf|
  {
    var b := GuardedBegin(s, w, |buf|);
    var e := SliceEnd(s, w, |buf|);
    buf[..b] + DispatchSlice(args, w, e - b) + buf[e..]
  }

  /** The buffer after the workers `ids` have run, in that order. */
  function JobResult(buf: seq<Point2D>, s: PartitionerSettings, ids: seq<nat>, args: KernelArgs): (r: seq<Point2D>)
    requires WellFormed(s)
    requires |buf| > 0 ==> args.denominator != 0.0
    ensures |r| == |buf|
    decreases |ids|
  {
    if ids == [] then buf else JobResult(ApplyWorker(buf, s, ids[0], args), s, ids[1..], args)
  }

  /** Running worker `w` and then `rest` is running `[w] + rest`. */
  lemma JobResultCons(buf: seq<Point2D>, s: PartitionerSettings, w: nat, rest: seq<nat>, args: KernelArgs)
    requires WellFormed(s)
    requires |buf| > 0 ==> args.denominator != 0.0
    ensures JobResult(buf, s, [w] + rest, args) == JobResult(ApplyWorker(buf, s, w, args), s, rest, args)
  {
    assert ([w] + rest)[0] == w && ([w] + rest)[1..] == rest;
  }

  /** Row `g` after worker `w`: rewritten when it lies in w's slice, kept otherwise. */
  lemma ApplyWorkerAt(buf: seq<Point2D>, s: PartitionerSettings, w: nat, args: KernelArgs, g: nat)
    requires WellFormed(s)
    requires |buf| > 0 ==> args.denominator != 0.0
    requires g < |buf|
    ensures ApplyWorker(buf, s, w, args)[g]
         == if InSlice(s, |buf|, w, g)
            then DispatchSlice(args, w, SliceEnd(s, w, |buf|) - GuardedBegin(s, w, |buf|))[g - GuardedBegin(s, w, |buf|)]
            else buf[g]
  {
    GuardedSliceValid(s, w, |buf|);
  }

  /** Without overlap, a job leaves row g as the kernel of worker g / chunk
      wrote it if that worker ran, and untouched otherwise. */
  lemma {:induction false} JobResultAt(buf: seq<Point2D>, s: PartitionerSettings, ids: seq<nat>,
                                      args: KernelArgs, g: nat)
    requires WellFormed(s) && s.overlapSize == 0 && s.chunkSize > 0
    requires |buf| > 0 ==> args.denominator != 0.0
    requires g < |buf|
    ensures JobResult(buf, s, ids, args)[g]
         == if g / s.chunkSize in ids
            then Kernels.RayPoint(args.dir, args.start, args.l2Norm(Minus(args.end, args.start)), args.q,
                                  args.denominator, args.chunkSize * (g / s.chunkSize) + g % s.chunkSize)
            else buf[g]
    decreases |ids|
  {
    if ids != [] {
      var next := ApplyWorker(buf, s, ids[0], args);
      JobResultAt(next, s, ids[1..], args, g);
      ApplyWorkerAt(buf, s, ids[0], args, g);
      InSliceIffOwner(s, |buf|, ids[0], g);
      assert ids == [ids[0]] + ids[1..];
      assert g / s.chunkSize in ids <==> g / s.chunkSize == ids[0] || g / s.chunkSize in ids[1..];
    }
  }

  /** When the kernel offsets use the partition's own chunk, a job without
      overlap leaves row g as the ray row with exponent g if its owner ran. */
  lemma JobRowIsRayRow(buf: seq<Point2D>, s: PartitionerSettings, ids: seq<nat>, args: KernelArgs, g: nat)
    requires WellFormed(s) && s.overlapSize == 0 && s.chunkSize > 0 && args.chunkSize == s.chunkSize
    requires |buf| > 0 ==> args.denominator != 0.0
    requires g < |buf|
    ensures JobResult(buf, s, ids, args)[g]
         == if g / s.chunkSize in ids
            then Kernels.RayPoint(args.dir, args.start, args.l2Norm(Minus(args.end, args.start)), args.q,
                                  args.denominator, g)
            else buf[g]
  {
    JobResultAt(buf, s, ids, args, g);
    DivModSplit(g, s.chunkSize);
  }

  lemma DivModSplit(g: nat, c: nat)
    requires c > 0
    ensures c * (g / c) + g % c == g
  {
  }

  class Pool {
    /** CPU count observed at construction (`total_count_threads_`). */
    const totalThreads: nat
    /** Ids of the worker threads the constructor created, in creation order. */
    var spawned: seq<nat>
    /** Job generation counter (`job_id_`). */
    var jobId: nat
    /** Partition published for the current job (`settings_`). */
    var settings: PartitionerSettings

    ghost predicate Valid()
      reads this
    {
      totalThreads >= 1 && (forall k :: 0 <= k < |spawned| ==> 1 <= spawned[k] < totalThreads)
    }

    /** `Pool()` as written: the spawn loop runs tid from 1 while tid < T - 1. */
    constructor (cpuCount: nat)
      requires cpuCount >= 1
      ensures Valid()
      ensures totalThreads == cpuCount && spawned == SpawnedIds(cpuCount)
      ensures jobId == 0 && settings == PartitionerSettings(0, 0, 0)
    {
      totalThreads := cpuCount;
      jobId := 0;
      settings := PartitionerSettings(0, 0, 0);
      var ids: seq<nat> := [];
      var tid := 1;
      while tid < cpuCount - 1
        invariant 1 <= tid && (tid == 1 || tid <= cpuCount - 1)
        invariant ids == IdRange(1, tid)
      {
        ids := ids + [tid];
        tid := tid + 1;
      }
      spawned := ids;
    }

    /** The pool with its spawn loop running up to T - 1, one thread per worker id 1..T-1. */
    constructor Corrected(cpuCount: nat)
      requires cpuCount >= 1
      ensures Valid()
      ensures totalThreads == cpuCount && spawned == CorrectedSpawnedIds(cpuCount)
      ensures jobId == 0 && settings == PartitionerSettings(0, 0, 0)
    {
      totalThreads := cpuCount;
      jobId := 0;
      settings := PartitionerSettings(0, 0, 0);
      var ids: seq<nat> := [];
      var tid := 1;
      while tid < cpuCount
        invariant 1 <= tid <= cpuCount
        invariant ids == IdRange(1, tid)
      {
        ids := ids + [tid];
        tid := tid + 1;
      }
      spawned := ids;
    }

    /** One pass of `workerLoop` for a new job: worker `workerId` computes its
        slice from the published settings and runs `threadDispatch` on it. */
    method WorkerRunJob(buf: array<Point2D>, workerId: nat, kernelArgs: KernelArgs)
      requires WellFormed(settings)
      requires buf.Length > 0 ==> kernelArgs.denominator != 0.0
      modifies buf
      ensures buf[..] == ApplyWorker(old(buf[..]), settings, workerId, kernelArgs)
    {
      var b := workerId * settings.chunkSize - settings.overlapSize * workerId;
      assert b == SliceBegin(settings, workerId);
      var e := Min(b + settings.chunkSize, buf.Length);
      if b > e {
        b := e;
      }
      assert b == GuardedBegin(settings, workerId, buf.Length) && e == SliceEnd(settings, workerId, buf.Length);
      ThreadDispatch(buf, b, e, workerId, kernelArgs);
    }

    /** The dispatching thread's part of `dispatchJob`: worker 0 runs
        `threadDispatch` on [0, min(chunk, extent)). */
    method MainRunJob(buf: array<Point2D>, kernelArgs: KernelArgs)
      requires WellFormed(settings)
      requires buf.Length > 0 ==> kernelArgs.denominator != 0.0
      modifies buf
      ensures buf[..] == ApplyWorker(old(buf[..]), settings, 0, kernelArgs)
    {
      var beginSubrange := 0;
      var endSubrange := Min(beginSubrange + settings.chunkSize, buf.Length);
      MainSliceAgrees(settings, buf.Length);
      ThreadDispatch(buf, beginSubrange, endSubrange, 0, kernelArgs);
    }

    /** `dispatchJob`: bumps the generation, publishes the partition, then
        worker 0 and every spawned worker run `threadDispatch` on their slices.
        A worker whose begin row lies past the extent gets an empty slice. */
    method DispatchJob(buf: array<Point2D>, kernelArgs: KernelArgs, partitionerArgs: PartitionerArgs)
      requires Valid()
      requires partitionerArgs.countThreads >= 1
      requires buf.Length > 0 ==> kernelArgs.denominator != 0.0
      modifies this`jobId, this`settings, buf
      ensures Valid() && spawned == old(spawned)
      ensures jobId == old(jobId) + 1
      ensures settings == Partitioner(partitionerArgs)
      ensures buf[..] == JobResult(old(buf[..]), settings, RunningIds(spawned), kernelArgs)
    {
      jobId := jobId + 1;
      settings := Partitioner(partitionerArgs);
      ghost var start := buf[..];
      MainRunJob(buf, kernelArgs);
      RunSpawned(buf, kernelArgs);
      JobResultCons(start, settings, 0, spawned, kernelArgs);
    }

    /** The spawned workers of `dispatchJob`, each running its `workerLoop`
        pass, in id order. */
    method RunSpawned(buf: array<Point2D>, kernelArgs: KernelArgs)
      requires WellFormed(settings)
      requires buf.Length > 0 ==> kernelArgs.denominator != 0.0
      modifies buf
      ensures buf[..] == JobResult(old(buf[..]), settings, spawned, kernelArgs)
    {
      ghost var start := buf[..];
      assert spawned[0..] == spawned;
      var k := 0;
      while k < |spawned|
        invariant 0 <= k <= |spawned|
        invariant JobResult(start, settings, spawned, kernelArgs) == JobResult(buf[..], settings, spawned[k..], kernelArgs)
      {
        var workerId := spawned[k];
        ghost var before := buf[..];
        WorkerRunJob(buf, workerId, kernelArgs);
        assert spawned[k..][0] == workerId && spawned[k..][1..] == spawned[k + 1..];
        assert JobResult(before, settings, spawned[k..], kernelArgs)
            == JobResult(buf[..], settings, spawned[k + 1..], kernelArgs);
        k := k + 1;
      }
      assert spawned[k..] == [];
    }
  }
}
