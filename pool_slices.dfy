/** The pure slice arithmetic of the worker pool (`pthreads_manage`): the
    partition description, the row range each worker takes, and the worker
    ids the pool's constructor starts. */
module PoolSlices {

  /** `PartitionerSettings`: rows in all, rows per worker, rows two adjacent slices share. */
  datatype PartitionerSettings = PartitionerSettings(fullSize: nat, chunkSize: nat, overlapSize: nat)

  /** The size_t subtraction in the begin formula does not wrap. */
  predicate WellFormed(s: PartitionerSettings)
  {
    s.overlapSize <= s.chunkSize
  }

  function Min(a: nat, b: nat): nat
  {
    if a < b then a else b
  }

  /** First row of worker `w`, as the worker loop computes it: w*chunk - overlap*w. */
  function SliceBegin(s: PartitionerSettings, w: nat): (b: nat)
    requires WellFormed(s)
    ensures b == w * (s.chunkSize - s.overlapSize)
  {
    assert w * s.chunkSize - s.overlapSize * w == w * (s.chunkSize - s.overlapSize);
    w * s.chunkSize - s.overlapSize * w
  }

  /** One past the last row of worker `w`: min(begin + chunk, extent). The
      slice never reaches past the extent nor spans more than one chunk. */
  function SliceEnd(s: PartitionerSettings, w: nat, extent: nat): (e: nat)
    requires WellFormed(s)
    ensures e <= extent && e <= SliceBegin(s, w) + s.chunkSize
    ensures e == extent || e == SliceBegin(s, w) + s.chunkSize
  {
    Min(SliceBegin(s, w) + s.chunkSize, extent)
  }

  /** Begin row with the empty-slice guard: a worker whose begin lies past the
      extent gets the empty range [extent, extent); any other worker keeps the
      source's begin. The guarded begin never passes the end. */
  function GuardedBegin(s: PartitionerSettings, w: nat, extent: nat): (b: nat)
    requires WellFormed(s)
    ensures b <= SliceEnd(s, w, extent)
    ensures SliceBegin(s, w) <= extent ==> b == SliceBegin(s, w)
    ensures SliceBegin(s, w) > extent ==> b == extent
  {
    Min(SliceBegin(s, w), extent)
  }

  /** Row `g` lies in the (guarded) slice of worker `w`. */
  predicate InSlice(s: PartitionerSettings, extent: nat, w: nat, g: nat)
    requires WellFormed(s)
  {
    GuardedBegin(s, w, extent) <= g < SliceEnd(s, w, extent)
  }

  /** Ids lo, lo+1, ..., hi-1 (empty when hi <= lo). */
  function IdRange(lo: nat, hi: int): (ids: seq<nat>)
    ensures |ids| == if hi > lo then hi - lo else 0
    ensures forall k :: 0 <= k < |ids| ==> ids[k] == lo + k
  {
    seq(if hi > lo then hi - lo else 0, k => lo + k)
  }

  /** The ids of a range are exactly the numbers lo <= w < hi. */
  lemma IdRangeMembers(lo: nat, hi: int)
    ensures forall w :: w in IdRange(lo, hi) <==> lo <= w < hi
  {
    forall w | lo <= w < hi
      ensures w in IdRange(lo, hi)
    {
      assert IdRange(lo, hi)[w - lo] == w;
    }
  }

  /** Thread ids the pool constructor creates: its loop runs tid = 1 while
      tid < T - 1, so the ids are 1..T-2 in increasing order, max(T - 2, 0) of them. */
  function SpawnedIds(totalThreads: nat): (ids: seq<nat>)
    ensures |ids| == if totalThreads >= 2 then totalThreads - 2 else 0
    ensures forall k :: 0 <= k < |ids| ==> ids[k] == k + 1
    ensures forall w :: w in ids <==> 1 <= w < totalThreads - 1
  {
    IdRangeMembers(1, totalThreads - 1);
    IdRange(1, totalThreads - 1)
  }

  /** The spawn range evidently intended: one thread for each of the ids 1..T-1. */
  function CorrectedSpawnedIds(totalThreads: nat): seq<nat>
  {
    IdRange(1, totalThreads)
  }

  /** Workers that run a job: the dispatching thread as worker 0, then the spawned threads. */
  function RunningIds(spawned: seq<nat>): seq<nat>
  {
    [0] + spawned
  }

  /** The dispatching thread's own range [0, min(chunk, extent)) is the general
      formula at worker id 0. */
  lemma MainSliceAgrees(s: PartitionerSettings, extent: nat)
    requires WellFormed(s)
    ensures SliceBegin(s, 0) == 0 && GuardedBegin(s, 0, extent) == 0
    ensures SliceEnd(s, 0, extent) == Min(s.chunkSize, extent)
  {
  }

  /** A slice whose begin lies within the extent has end <= extent and at most
      `chunk` rows; the guard then changes nothing. */
  lemma SliceBounds(s: PartitionerSettings, w: nat, extent: nat)
    requires WellFormed(s)
    requires SliceBegin(s, w) <= extent
    ensures SliceBegin(s, w) <= SliceEnd(s, w, extent) <= extent
    ensures SliceEnd(s, w, extent) - SliceBegin(s, w) <= s.chunkSize
    ensures GuardedBegin(s, w, extent) == SliceBegin(s, w)
  {
  }

  /** The guarded range is always a valid, possibly empty, range of the buffer. */
  lemma GuardedSliceValid(s: PartitionerSettings, w: nat, extent: nat)
    requires WellFormed(s)
    ensures GuardedBegin(s, w, extent) <= SliceEnd(s, w, extent) <= extent
  {
  }

  /** With overlap k, the last k rows of slice w (before clamping) are the
      first k rows of slice w+1. */
  lemma {:induction false} OverlapShared(s: PartitionerSettings, w: nat)
    requires WellFormed(s)
    ensures SliceBegin(s, w + 1) == SliceBegin(s, w) + s.chunkSize - s.overlapSize
    ensures SliceBegin(s, w + 1) + s.overlapSize == SliceBegin(s, w) + s.chunkSize
  {
    calc {
      SliceBegin(s, w + 1);
      (w + 1) * (s.chunkSize - s.overlapSize);
      w * (s.chunkSize - s.overlapSize) + (s.chunkSize - s.overlapSize);
    }
  }

  /** w*c <= g < w*c + c exactly when g / c == w. */
  lemma {:induction false} ChunkOwner(c: nat, w: nat, g: nat)
    requires c > 0
    ensures (w * c <= g < w * c + c) <==> g / c == w
    ensures g / c == w ==> g - w * c == g % c
  {
    var q, r := g / c, g % c;
    assert g == q * c + r && 0 <= r < c;
    if w * c <= g < w * c + c {
      if q < w {
        MulMonotone(q + 1, w, c);
      } else if q > w {
        MulMonotone(w + 1, q, c);
      }
    }
  }

  lemma MulMonotone(a: int, b: int, c: nat)
    requires a <= b
    ensures a * c <= b * c
  {
    assert b * c - a * c == (b - a) * c;
  }

  /** Without overlap, row g of the buffer belongs to the guarded slice of
      worker g / chunk and to no other. */
  lemma InSliceIffOwner(s: PartitionerSettings, extent: nat, w: nat, g: nat)
    requires WellFormed(s) && s.overlapSize == 0 && s.chunkSize > 0
    ensures InSlice(s, extent, w, g) <==> g < extent && g / s.chunkSize == w
    ensures InSlice(s, extent, w, g) ==> g - GuardedBegin(s, w, extent) == g % s.chunkSize
  {
    ChunkOwner(s.chunkSize, w, g);
    assert SliceBegin(s, w) == w * s.chunkSize;
  }

  /** Worker w starts a job exactly when it is 0 or a constructor thread, 1 <= w < T - 1. */
  lemma RunningIdsAsWritten(totalThreads: nat, w: nat)
    ensures w in RunningIds(SpawnedIds(totalThreads)) <==> w == 0 || w + 1 < totalThreads
  {
    if 1 <= w && w + 1 < totalThreads {
      assert SpawnedIds(totalThreads)[w - 1] == w;
      assert RunningIds(SpawnedIds(totalThreads))[w] == w;
    }
  }

  /** With two or more threads the last worker id T - 1 never runs. */
  lemma LastWorkerNeverRuns(totalThreads: nat)
    requires totalThreads >= 2
    ensures totalThreads - 1 !in RunningIds(SpawnedIds(totalThreads))
  {
    RunningIdsAsWritten(totalThreads, totalThreads - 1);
  }

  /** With the corrected spawn range every id below T runs. */
  lemma RunningIdsCorrected(totalThreads: nat, w: nat)
    requires totalThreads >= 1
    ensures w in RunningIds(CorrectedSpawnedIds(totalThreads)) <==> w < totalThreads
  {
    if 1 <= w < totalThreads {
      assert CorrectedSpawnedIds(totalThreads)[w - 1] == w;
      assert RunningIds(CorrectedSpawnedIds(totalThreads))[w] == w;
    }
  }
}
