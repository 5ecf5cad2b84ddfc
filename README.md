# FiniteElementSolver point-mesh generator: a Dafny model

This project models the core of a C++ point-mesh generator and proves properties of the model. The generator samples points on circular arcs and on rays whose spacing grows geometrically. It splits a ray's rows among the threads of a persistent worker pool.

## What is modelled

- **`fast_pow`**. Exponentiation by squaring, as a loop. It is proved to compute the mathematical power `Pow` in `BitLength(exp)` iterations.
- **Geometry**:
  - `Point2D` becomes a value type (`datatype`). A point object that `Normalize` updates in place becomes a `class`.
  - `interception_lines` uses the source's own determinant formula.
- **Sampling kernels**. These write one slice `[lo, hi)` of a point buffer (`array<Point2D>`, one row per point), row by row.
  - `fill_circle_arc_uniform` puts row `i` at angle `start + i * step`.
  - `fill_ray_segment_nonuniform` puts row `i` at `start + dir * L * (1 - q^(idx_from_start + i)) / D`.
- **The pool** (`pthreads_manage::Pool`):
  - The constructor's spawn loop.
  - The slice arithmetic of `dispatchJob` and `workerLoop`.
  - A job, run as a sequential pass over the workers: worker 0 first, then the spawned threads in id order.
- **`GenNonUniformOnRay`** (`grid.hpp`). The uniform ceil partitioner, `threadDispatch` with its index offset, and `operator()`, which ties them to the pool.
- **Legacy generators** (`utils.hpp`):
  - `GenNonUniformOnLine`, with its floor partition that gives the remainder to the last thread. Its threads run in creation order.
  - `GenUniformOnCircle`.
  - The empty `GenFrameKirsch`.
  - The legacy `Point2D::operator-` (src/core/mesh/utils.hpp:15-20), `interception_lines` (src/core/mesh/utils.hpp:24-47) and `fast_pow` (src/core/mesh/utils.hpp:49-64) are the same code as the geometry and math headers. `Geometry.Minus`, `Geometry.InterceptionLines` and `MathHelper.FastPow` model both copies, so their properties hold for the legacy versions too.

### Modelling choices

- **Scalars**. `ScalarT` is modelled as `real`. The epsilon comparisons of the tests become exact equalities.
- **Library functions**. `std::cos`, `std::sin` and `GetL2Norm` (`std::hypot` / `std::sqrt`) are function-valued parameters, with nothing assumed about them. `std::pow` is the exact `Pow`.
- **`size_t` decrement**. The `n - 1` that the sources compute on an extent wraps 0 to `SIZE_MAX` (`MathHelper.SizeMinusOne`).
- **One-row arc**. A one-row arc divides by zero in the source, so it is excluded by `requires`.
- **Ray denominator**. The ray fill divides by the denominator `D = 1 - q^(N-1)`. A zero denominator (for example `N = 1` or `q = 1`) is a caller obligation, which the source does not check either.
- **Processor count and policy**. The CPU count (`sysconf`) is a constructor or method parameter. The Sequential/Parallel policy is the boolean `parallel`.
- **Pool callback**. The pool calls its kernel through a callback stored in the job context. Here the pool is specialised to the one job it runs, `GenNonUniformOnRay`'s `threadDispatch` and `partitioner`. `grid.hpp` is split into `GridCallbacks` (the two callbacks) and `Grid` (`operator()`), so the modules do not import each other.
- **Source comments versus code**. Where a comment in the source and the code disagree, the model follows the code:
  - The comment on `fill_ray_segment_nonuniform` says the denominator is `1 - q^N`. The callers pass `1 - q^(N-1)`, and that is what is modelled.
  - `contexts_` and `threads_` are sized for T workers (src/solutions/custom_pthreads/pthreads_manage.hpp:68) and the partitioner cuts T chunks, but the constructor spawns the ids 1..T-2, i.e. max(T - 2, 0) threads, and that is what `Pool.constructor` does (see Findings).

## Model

| member | source | states |
|---|---|---|
| MathHelper.SizeMinusOne | src/solutions/custom_pthreads/grid/grid.hpp:40 | for every extent representable in size_t the result is (n + SIZE_MAX) mod 2^64, the size_t subtraction of 1, so that 0 wraps to SIZE_MAX |
| MathHelper.FastPow | src/core/math/math_helper.hpp:6-20 | returns base^exp (1 for exp = 0); the loop keeps result * base^exp == b0^e0 and runs BitLength(exp) times |
| MathHelper.PowAdd | src/core/math/math_helper.hpp:6-20 | b^(m+n) == b^m * b^n, on which the spacing proofs rest |
| MathHelper.SquaringStep | src/core/math/math_helper.hpp:11-17 | one loop iteration maps (result, base, exp) to a state with the same result * base^exp |
| MathHelper.HalvingStep | src/core/math/math_helper.hpp:12-16 | one iteration (multiply on an odd bit, square the base, halve the exponent) preserves the power |
| MathHelper.PowSquare | src/core/math/math_helper.hpp:15 | squaring the base halves the exponent: (b*b)^k == b^(2k) |
| MathHelper.PowStrictlyIncreasing | src/core/kernels/kernels.hpp:65 | for q > 1 the powers q^a grow strictly with a and are at least 1 |
| MathHelper.PowAtLeastOne | src/core/kernels/kernels.hpp:65 | q >= 1 gives q^a >= 1 |
| Geometry.Minus | src/core/geometry/geometry.hpp:13-18 | adding q back to p - q gives p, componentwise (the legacy copy at src/core/mesh/utils.hpp:15-20 is the same code) |
| Geometry.MinusSelf | src/core/geometry/geometry.hpp:13-18 | p - p is the origin |
| Geometry.MinusAntisymmetric | src/core/geometry/geometry.hpp:13-18 | q - p is the componentwise negation of p - q |
| Geometry.InterceptionLines | src/core/geometry/geometry.hpp:38-61 | when the determinant is non-zero, the point the formula computes lies on line p1p2 and on line p3p4 (zero cross products) |
| Geometry.InterceptionSymmetric | src/core/geometry/geometry.hpp:51-58 | exchanging the two lines negates the determinant and yields the same point |
| Geometry.InterceptionVerticalExample | tests/test_geometry.cpp:3-16 | (0,0)-(1,2) meets (3,0)-(3,2) exactly at (3,6) |
| Geometry.InterceptionSharedEndpointExample | tests/test_geometry.cpp:18-30 | two lines sharing the endpoint (3,6) meet at (3,6) |
| Geometry.MutablePoint2D.constructor | src/core/geometry/geometry.hpp:11 | the two-argument constructor sets x to the first and y to the second argument |
| Geometry.Normalized | src/core/geometry/geometry.hpp:21-25 | both components divided by the norm: r.x * n == p.x and r.y * n == p.y |
| Geometry.MutablePoint2D.Normalize | src/core/geometry/geometry.hpp:21-25 | the fields become the old point divided by the norm taken before the update |
| Kernels.FillCircleArcUniform | src/core/kernels/kernels.hpp:19-31 | the slice becomes the arc samples (row i at angle start + i * step, step = (end-start)/(M-1)); rows outside the slice are unchanged |
| Kernels.ArcSamples | src/core/kernels/kernels.hpp:25-30 | an arc of M rows has exactly M samples |
| Kernels.ArcEndpoints | tests/test_kernels.cpp:3-16 | for M >= 2 row 0 sits at the start angle and row M-1 at the end angle |
| Kernels.ArcEqualSteps | tests/test_kernels.cpp:18-36 | consecutive rows are exactly (end-start)/(M-1) apart in angle |
| Kernels.Denominator | src/solutions/custom_pthreads/grid/grid.hpp:40 | D = 1 - q^(N-1) is zero for a single row and for q = 1, and negative for q > 1 and N >= 2 (the legacy copy is src/core/mesh/utils.hpp:155) |
| Kernels.LastParamIsOne | src/solutions/custom_pthreads/grid/grid.hpp:40 | with the shared denominator the row with global index N-1 has parameter exactly 1 |
| Kernels.RayRow | src/core/kernels/kernels.hpp:63-68 | one row: t = (1 - fast_pow(q, g)) / D and the point start + dir * L * t, which is the ray row with exponent g |
| Kernels.FillRaySegmentNonuniform | src/core/kernels/kernels.hpp:47-70 | the slice becomes the ray rows with parameter (1 - q^(idx_from_start+i))/D; rows outside the slice are unchanged |
| Kernels.SubSliceMatchesWholeRay | src/core/kernels/kernels.hpp:43-65 | filling [a,b) with idx_from_start = a gives exactly rows a..b-1 of the whole-ray fill |
| Kernels.RayFirstRowIsStart | tests/test_kernels.cpp:51 | with offset 0, row 0 has t = 0 and is the start point |
| Kernels.RayLastRowIsEnd | tests/test_kernels.cpp:44 | with D = 1 - q^(N-1), global row N-1 has t = 1 and is the end point when end - start is length * direction |
| Kernels.RayParamScaled | src/core/kernels/kernels.hpp:65 | t_g * D == 1 - q^g |
| Kernels.RayStepsGrowByRatio | tests/test_kernels.cpp:54-68 | consecutive parameter steps grow by exactly q: t(g+2) - t(g+1) == q * (t(g+1) - t(g)) |
| Kernels.RayParamBelowOne | tests/test_grid.cpp:31-33 | for q > 1, D < 0 and 0 <= t_g < t_h < 1 for g < h < N-1 |
| Kernels.RayParamInUnit | tests/test_grid.cpp:31-33 | for q > 1 every row before N-1 has 0 <= t < 1 |
| PoolSlices.SliceBegin | src/solutions/custom_pthreads/pthreads_manage.hpp:126 | begin = w*chunk - overlap*w == w * (chunk - overlap), which does not wrap when overlap <= chunk |
| PoolSlices.SliceEnd | src/solutions/custom_pthreads/pthreads_manage.hpp:127 | the end row is the smaller of begin + chunk and the extent: never past either |
| PoolSlices.GuardedBegin | src/solutions/custom_pthreads/pthreads_manage.hpp:126-127 | the corrected begin never passes the end; it is the source's begin when that lies within the extent, and the extent otherwise |
| PoolSlices.MainSliceAgrees | src/solutions/custom_pthreads/pthreads_manage.hpp:46-47 | the caller's own range [0, min(chunk, extent)) is the general formula at worker 0 |
| PoolSlices.SliceBounds | src/solutions/custom_pthreads/pthreads_manage.hpp:126-127 | a slice beginning within the extent ends at or before the extent and holds at most chunk rows |
| PoolSlices.GuardedSliceValid | src/solutions/custom_pthreads/pthreads_manage.hpp:126-127 | with the begin clamped to the extent every worker's range is a valid, possibly empty, range of the buffer |
| PoolSlices.OverlapShared | src/solutions/custom_pthreads/pthreads_manage.hpp:126 | with overlap k, slice w+1 begins k rows before slice w ends (before clamping) |
| PoolSlices.ChunkOwner | src/solutions/custom_pthreads/pthreads_manage.hpp:126-127 | w*c <= g < w*c + c exactly when g / c == w, and then g - w*c == g % c |
| PoolSlices.InSliceIffOwner | src/solutions/custom_pthreads/pthreads_manage.hpp:126-127 | without overlap, row g lies in worker w's slice exactly when g < extent and g / chunk == w |
| PoolSlices.SpawnedIds | src/solutions/custom_pthreads/pthreads_manage.hpp:69 | the spawn loop yields the ids 1..T-2 in increasing order, max(T - 2, 0) of them, and an id w is among them exactly when 1 <= w < T-1 |
| PoolSlices.RunningIdsAsWritten | src/solutions/custom_pthreads/pthreads_manage.hpp:69 | worker w runs a job exactly when w == 0 or 1 <= w < T-1 |
| PoolSlices.LastWorkerNeverRuns | src/solutions/custom_pthreads/pthreads_manage.hpp:69 | for T >= 2 the worker id T-1 never runs |
| PoolSlices.RunningIdsCorrected | src/solutions/custom_pthreads/pthreads_manage.hpp:69 | with the spawn range 1..T-1, worker w runs exactly when w < T |
| GridCallbacks.Partitioner | src/solutions/custom_pthreads/grid/grid.hpp:105-111 | settings keep N, have overlap 0 (well-formed), and a chunk that is positive exactly when N > 0 |
| GridCallbacks.PartitionerBounds | src/solutions/custom_pthreads/grid/grid.hpp:108 | the chunk is ceil(N/T): chunk*T >= N and (chunk-1)*T < N |
| GridCallbacks.DispatchSlice | src/solutions/custom_pthreads/grid/grid.hpp:79-98 | a worker's slice has exactly as many rows as its range |
| GridCallbacks.ThreadDispatch | src/solutions/custom_pthreads/grid/grid.hpp:79-98 | runs the ray kernel on the range with idx_from_start = chunk * worker_id; other rows unchanged |
| GridCallbacks.SequentialSingleSlice | src/solutions/custom_pthreads/grid/grid.hpp:33-37 | with one thread the chunk is the whole ray |
| GridCallbacks.PartitionCoversDisjointly | src/solutions/custom_pthreads/grid/grid.hpp:108 | each row g < N lies in the slice of worker g / chunk < T and of no other worker |
| GridCallbacks.OffsetIsBeginRow | src/solutions/custom_pthreads/grid/grid.hpp:87 | the kernel offset chunk * w equals the begin row the pool gives worker w |
| GridCallbacks.SequentialBeginPastEnd | src/solutions/custom_pthreads/pthreads_manage.hpp:126-127 | under the sequential policy (one chunk of N rows) on a pool of T >= 4 threads, the running worker 2 gets begin 2N past its end N |
| GridCallbacks.BeginPastEndExample | src/solutions/custom_pthreads/pthreads_manage.hpp:126-127 | 3 rows over 8 threads: worker 5 runs with begin 5 past its end 3 |
| PthreadsManage.ApplyWorker | src/solutions/custom_pthreads/pthreads_manage.hpp:126-135 | one worker's pass keeps the buffer length |
| PthreadsManage.ApplyWorkerAt | src/solutions/custom_pthreads/pthreads_manage.hpp:126-135 | a worker rewrites exactly the rows of its guarded slice; every other row keeps its value |
| PthreadsManage.JobResult | src/solutions/custom_pthreads/pthreads_manage.hpp:36-66 | a job keeps the buffer length |
| PthreadsManage.JobResultAt | src/solutions/custom_pthreads/pthreads_manage.hpp:36-66 | without overlap a job leaves row g as worker g / chunk's kernel wrote it (exponent chunk*(g/chunk) + g%chunk) if that worker ran, and unchanged otherwise |
| PthreadsManage.JobRowIsRayRow | src/solutions/custom_pthreads/pthreads_manage.hpp:36-66 | when the kernel offset uses the partition's own chunk, row g of a job is the ray row with exponent g if its owner ran, and unchanged otherwise |
| PthreadsManage.Pool.constructor | src/solutions/custom_pthreads/pthreads_manage.hpp:68-82 | the spawn loop as written creates the worker ids 1..T-2 |
| PthreadsManage.Pool.Corrected | src/solutions/custom_pthreads/pthreads_manage.hpp:68-82 | a spawn loop running to T-1 creates the worker ids 1..T-1 |
| PthreadsManage.Pool.WorkerRunJob | src/solutions/custom_pthreads/pthreads_manage.hpp:126-135 | a spawned worker computes its clamped slice from the published settings and applies the kernel to it |
| PthreadsManage.Pool.MainRunJob | src/solutions/custom_pthreads/pthreads_manage.hpp:46-55 | the dispatching thread applies the kernel to [0, min(chunk, extent)) as worker 0 |
| PthreadsManage.Pool.RunSpawned | src/solutions/custom_pthreads/pthreads_manage.hpp:107-145 | the spawned workers apply their slices one after another, in id order |
| PthreadsManage.Pool.DispatchJob | src/solutions/custom_pthreads/pthreads_manage.hpp:36-66 | bumps the job id, publishes the partitioner's settings, and leaves the buffer as worker 0 and then every spawned worker applied to it; the spawned set is unchanged |
| Grid.CountThreads | src/solutions/custom_pthreads/grid/grid.hpp:33-37 | the sequential policy uses one thread; for a non-empty pool the count lies between 1 and the pool's thread count |
| Grid.PoolRowIsWholeRayRow | src/solutions/custom_pthreads/grid/grid.hpp:39-66 | a ray job leaves row g equal to row g of the whole-ray fill if its owner ran, and unchanged otherwise |
| Grid.RayKernelArgs | src/solutions/custom_pthreads/grid/grid.hpp:39-53 | the packed denominator puts global row N-1 at parameter exactly 1, and T chunks of the packed size cover the N rows with less than one chunk to spare |
| Grid.RayJob | src/solutions/custom_pthreads/grid/grid.hpp:39-66 | the job keeps the ray's length |
| Grid.RayJobRows | src/solutions/custom_pthreads/grid/grid.hpp:39-66 | every row of the ray job is the whole-ray row if its owner ran, and the old row otherwise |
| Grid.SequentialRayJob | src/solutions/custom_pthreads/grid/grid.hpp:33-37 | under the sequential policy the job yields exactly the whole-ray fill |
| Grid.GenNonUniformOnRay | src/solutions/custom_pthreads/grid/grid.hpp:25-68 | bumps the job id; publishes the partition for N rows over the policy's thread count, whose chunk is also the one in the kernel arguments; leaves the ray as the ray job over the pool's running workers |
| Grid.SequentialWritesEveryRow | src/solutions/custom_pthreads/grid/grid.hpp:33-37 | with one thread the chunk is N and every row is written |
| Grid.CorrectedPoolWritesEveryRow | src/solutions/custom_pthreads/grid/grid.hpp:108 | with the corrected spawn range every row of the ray is written |
| Grid.CorrectedRayJob | src/solutions/custom_pthreads/grid/grid.hpp:39-66 | with the corrected spawn range the ray job over T threads equals the whole-ray fill |
| Grid.AsWrittenPoolRows | src/solutions/custom_pthreads/pthreads_manage.hpp:69 | with the pool as written and T >= 2, row g is written exactly when g < (T-1) * chunk |
| Grid.LastRowUnwritten | tests/test_grid.cpp:25-26 | whenever the last slice is non-empty, row N-1 (the end point) is not written |
| Grid.UnwrittenRowExample | src/solutions/custom_pthreads/pthreads_manage.hpp:69 | 10 rows over 2 threads: chunk 5, row 4 written, row 7 not |
| Grid.RayEndToEnd | tests/test_grid.cpp:21-33 | for q > 1 the whole ray has row 0 = start, row N-1 = end, and every earlier row has 0 <= t < 1 and lies short of the end along each advancing axis |
| LegacyUtils.LegacyBegin | src/core/mesh/utils.hpp:174 | a thread's start offset t * (N/T) leaves room for a full standard slice within the N rows |
| LegacyUtils.LegacyEnd | src/core/mesh/utils.hpp:175-186 | a thread's slice ends where the next thread's begins, the last thread's ends at N, and no slice ends before it begins |
| LegacyUtils.StandardSlicesFit | src/core/mesh/utils.hpp:152-154 | (N/T)*T <= N and the remainder N - (N/T)*T is below T |
| LegacyUtils.LegacySlicesContiguous | src/core/mesh/utils.hpp:174-186 | each slice ends where the next begins; the last ends at N |
| LegacyUtils.LegacyPartition | src/core/mesh/utils.hpp:174-186 | each row g < N lies in the slice of exactly one thread, LegacyOwner(g) |
| LegacyUtils.SlicesOrdered | src/core/mesh/utils.hpp:174-186 | a later thread's slice starts no earlier than an earlier one ends |
| LegacyUtils.FewRowsGoToLastThread | src/core/mesh/utils.hpp:152-186 | with N < T every standard slice is empty and the last slice is [0, N) |
| LegacyUtils.Worker | src/core/mesh/utils.hpp:99-132 | the subview becomes the ray rows with exponent offset tid * standard_subgrid_size; other rows unchanged |
| LegacyUtils.RunThread | src/core/mesh/utils.hpp:173-195 | thread t's subview is [LegacyBegin, LegacyEnd) and becomes that part of the whole ray |
| LegacyUtils.StepExtendsPrefix | src/core/mesh/utils.hpp:167-201 | one thread's slice extends the finished prefix and keeps the rows after it |
| LegacyUtils.GenNonUniformOnLine | src/core/mesh/utils.hpp:134-207 | after all threads the buffer is exactly the whole-ray fill with D = 1 - q^(N-1) |
| LegacyUtils.LegacyCircleSamples | src/core/mesh/utils.hpp:219-224 | M rows, row i at angle i * step |
| LegacyUtils.GenUniformOnCircle | src/core/mesh/utils.hpp:209-228 | the buffer becomes the legacy circle samples, angle i * step without the start angle |
| LegacyUtils.LegacyCircleIsShiftedArc | src/core/mesh/utils.hpp:220-223 | the legacy circle equals the arc kernel's fill of [0, end - start] |
| LegacyUtils.LegacyCircleAngles | tests/test_utils.cpp:33-47 | row 0 is at angle 0, row M-1 at end - start, which is the end angle exactly when start == 0 |
| LegacyUtils.LegacyCircleExample | src/core/mesh/utils.hpp:220-223 | on [1, 2] with 3 rows the legacy rows sit at 0 ... 1 while the arc kernel's sit at 1 ... 2 |
| LegacyUtils.GenFrameKirsch | src/core/mesh/utils.hpp:235-250 | the empty body leaves the mesh storage unchanged |

## Left out

- Threads, mutex, condition variables, CPU affinity, `pthread_create` failures and the destructor's shutdown are not modelled. A job is a sequential pass over the running workers; concurrent writes to disjoint rows commute, so the final buffer of a run is the same.
- The completion counters `active_workers_` and `job_active_` are not modelled. The model assumes that every running worker has finished before `dispatchJob` returns. The counter does not guarantee this when the caller finishes its own slice before a woken worker has incremented it.
- `sysconf` (the CPU count) is a parameter. A count of 0 is excluded (`requires cpuCount >= 1`). In the source, 0 would make `T - 1` wrap and the partitioner divide by zero.
- The size_t overflow of `full_size + count_threads - 1` in the partitioner, and of `w * chunk` in the slice arithmetic, is not modelled. Integers are unbounded.
- Floating-point rounding is not modelled: scalars are exact reals. `std::cos`, `std::sin`, `std::hypot` and `std::sqrt` are uninterpreted parameters.
- The Kokkos `View`/`subview` types become an array of points with index ranges. A column count other than 2 is not modelled.
- `JobContext`'s untyped `void*` arguments and its stored callbacks are not modelled. The pool runs only `GenNonUniformOnRay`'s callbacks, so the overlapping sector partition of mesh assembly is covered only by the slice arithmetic (`PoolSlices.OverlapShared`).
- src/solutions/custom_pthreads/mesh/mesh.hpp is not part of this model. It only declares `emit_ray` and the pool-era `GenFrameKirsch`.
- src/core/custom_concepts.hpp is compile-time only. The policy choice is the boolean `parallel`.
- A zero ray denominator (for example `N = 1` or `q = 1`, which `Kernels.Denominator` shows are zero), a one-row arc (division by zero), a zero norm in `Normalize` and a zero determinant in `Geometry.InterceptionLines` are caller obligations (`requires`). The source divides without checking; for parallel lines it would compute infinities or NaN, and its comment on `interception_lines` (src/core/geometry/geometry.hpp:29-30) demands lines that are not parallel.
- PthreadsManage.Pool.DispatchJob: the dispatch clamps a begin row that lies past the extent, giving an empty range. The source builds a subview with begin > end there (see Findings).
- PthreadsManage.Pool.WorkerRunJob: a spawned worker clamps its begin row to the extent (`PoolSlices.GuardedBegin`), where the source at src/solutions/custom_pthreads/pthreads_manage.hpp:126-127 builds a subview with begin > end.
- Grid.SequentialRayJob: the sequential job equals the whole-ray fill only through the begin clamp (`PoolSlices.GuardedBegin`). On a pool of four or more threads the source hands worker 2 a begin row 2N past its end N (`GridCallbacks.SequentialBeginPastEnd`).
- PthreadsManage.ApplyWorker: one worker's pass runs the kernel on the range from `PoolSlices.GuardedBegin` to `PoolSlices.SliceEnd`, so a worker past the end of the buffer writes nothing instead of building a begin > end subview.

## Findings

| source | as written | input that shows it | evidently intended | confidence | as-written member | corrected member |
|---|---|---|---|---|---|---|
| src/solutions/custom_pthreads/pthreads_manage.hpp:69 | the spawn loop runs `tid` from 1 while `tid < T - 1`, so worker id T-1 is never created and its slice is never written | 10 rows over T = 2 threads: chunk 5, only worker 0 runs, rows 5..9 (including the end point) keep their old values | spawn ids 1..T-1, so that every row is written | high (not executed) | PthreadsManage.Pool.constructor, PoolSlices.LastWorkerNeverRuns, Grid.AsWrittenPoolRows, Grid.UnwrittenRowExample | PthreadsManage.Pool.Corrected, PoolSlices.RunningIdsCorrected, Grid.CorrectedPoolWritesEveryRow, Grid.CorrectedRayJob |
| src/solutions/custom_pthreads/pthreads_manage.hpp:126-127 | begin = w * chunk may exceed end = min(begin + chunk, extent) | 3 rows over T = 8 threads: chunk 1, worker 5 gets begin 5 and end 3; 10 rows over 8 threads: chunk 2, worker 6 gets begin 12 and end 10; every sequential call with N > 0 on a pool of T >= 4 threads: chunk N, worker 2 gets begin 2N and end N | an empty slice for a worker past the end of the buffer | high (not executed) | PoolSlices.SliceBegin, GridCallbacks.BeginPastEndExample, GridCallbacks.SequentialBeginPastEnd | PoolSlices.GuardedBegin, PoolSlices.GuardedSliceValid, PthreadsManage.Pool.WorkerRunJob |
| src/core/mesh/utils.hpp:222-223 | the legacy circle uses angle `i * step` and omits the start angle | 3 rows on [1, 2]: rows at angles 0, 0.5, 1 instead of 1, 1.5, 2 | angle `start + i * step`, as the arc kernel computes it | medium (not executed) | LegacyUtils.GenUniformOnCircle, LegacyUtils.LegacyCircleAngles, LegacyUtils.LegacyCircleExample | Kernels.FillCircleArcUniform, Kernels.ArcEndpoints |
