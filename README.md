# dpbench cores in Dafny: k-means, breadth-first search, Needleman-Wunsch

This project models three data-parallel benchmark kernels of dpbench and
the host code that drives them, and proves what they compute.

- **k-means** (`kmeans_numba_dpex_k.py`):
  - the launch geometry;
  - the three kernels: `groupByCluster` (assign every point to its nearest centroid and accumulate per-cluster sums and counts), `updateCentroids` (move every centroid to the mean of its points and reduce the largest shift) and `updateLabels` (refresh the labels);
  - the host loop `kmeans_kernel`.

  The kernels are proved to compute one step of Lloyd's iteration (module `KMeansSpec`). The host loop is proved to run that iteration `niters` times (module `KMeansDriver`).
- **BFS** (`_bfs_kernel.hpp`, `_bfs_sycl.cpp`): the level-synchronous search.
  - `Kernel` expands the frontier.
  - `Kernel2` commits the next frontier and raises the `over` flag.
  - The host do/while loop launches both until a round reaches no new node.

  Each round is proved to produce the next BFS layer. The final costs are proved to be the hop distances from node 0, or -1 for unreachable nodes.
- **Needleman-Wunsch**: the SYCL host `runTest` in `_nw_sycl.cpp`. The SYCL tile kernels it launches live in `_nw_kernel.hpp`, which is not part of this model; the tiles follow instead the numba kernels `neddle_kernel_1/2` of `nw_numba_dpex_k.py`, a file that is commented out in its entirety.
  - The host fills the score and similarity matrices from two residue sequences and the BLOSUM62 table.
  - It runs the two anti-diagonal launch loops over 16 x 16 blocks, then walks the traceback.
  - Each tile is proved to reproduce the global recurrence (module `NwSpec`).
  - The two launch loops are proved to leave every cell holding its Needleman-Wunsch score.
  - The score is proved to be the best alignment score.
  - The traceback starts at cell (n - 1, n - 1), as line 171 of `_nw_sycl.cpp` does. It is proved to follow score-preserving steps through the inner cells and to end at (0, 0) or where its next step leaves the matrix.

**Execution model.** A kernel launch is a loop over its work-groups, in order. Inside a work-group, the work-items between two barriers run in lock-step, in increasing local id. Atomic additions are plain additions. The module comments of `kmeans.dfy`, `bfs.dfy`, `nw_tile.dfy` and `nw_waves.dfy` argue why this order is faithful for each kernel. Floating-point coordinates are exact reals.

Source paths below are relative to the repository root.

## Model

| member | source | states |
|---|---|---|
| KMeansSpec.SqDist | dpbench/benchmarks/kmeans/kmeans_numba_dpex_k.py:66-68 | the squared distance accumulated over the dimensions is never negative |
| KMeansSpec.SqDistSnoc | dpbench/benchmarks/kmeans/kmeans_numba_dpex_k.py:67-68 | one more dimension adds exactly its squared difference |
| KMeansSpec.SqDistZero | dpbench/benchmarks/kmeans/kmeans_numba_dpex_k.py:66-68 | the squared distance is zero if and only if the two rows are equal |
| KMeansSpec.NearestAmong | dpbench/benchmarks/kmeans/kmeans_numba_dpex_k.py:63-72 | the scan's candidate is a valid centroid index |
| KMeansSpec.NearestAmongIsFirstNearest | dpbench/benchmarks/kmeans/kmeans_numba_dpex_k.py:63-72 | the scan with strict `<` yields a nearest centroid, and the first among equally near ones |
| KMeansSpec.NearestAmongCharacterised | dpbench/benchmarks/kmeans/kmeans_numba_dpex_k.py:63-72 | an index is the scan's result if and only if it is the first nearest centroid |
| KMeansSpec.Label | dpbench/benchmarks/kmeans/kmeans_numba_dpex_k.py:63-72 | a point's label is a valid centroid index |
| KMeansSpec.Labels | dpbench/benchmarks/kmeans/kmeans_numba_dpex_k.py:164-182 | one label per point, each the assignment rule's label |
| KMeansSpec.CountInSplit | dpbench/benchmarks/kmeans/kmeans_numba_dpex_k.py:80 | counting points of a cluster over two adjacent ranges adds up |
| KMeansSpec.SumInSplit | dpbench/benchmarks/kmeans/kmeans_numba_dpex_k.py:75-78 | summing coordinates of a cluster over two adjacent ranges adds up |
| KMeansSpec.Histogram | dpbench/benchmarks/kmeans/kmeans_numba_dpex_k.py:80 | the per-cluster counts have one entry per centroid |
| KMeansSpec.SumTable | dpbench/benchmarks/kmeans/kmeans_numba_dpex_k.py:75-78 | the per-cluster sums form a K x D table |
| KMeansSpec.AddInto | dpbench/benchmarks/kmeans/kmeans_numba_dpex_k.py:75-78 | adding a point into one row keeps the table's shape |
| KMeansSpec.SumTableStep | dpbench/benchmarks/kmeans/kmeans_numba_dpex_k.py:74-80 | taking in one more point adds its coordinates to its label's row and counts it there; no other row changes |
| KMeansSpec.AddTables | dpbench/benchmarks/kmeans/kmeans_numba_dpex_k.py:92-96 | the entrywise sum of two K x D tables is a K x D table |
| KMeansSpec.AddCounts | dpbench/benchmarks/kmeans/kmeans_numba_dpex_k.py:103 | the entrywise sum of two count vectors has their length |
| KMeansSpec.AccumulateNothing | dpbench/benchmarks/kmeans/kmeans_numba_dpex_k.py:210-211 | an empty range of points adds nothing to the accumulators |
| KMeansSpec.AccumulateSplit | dpbench/benchmarks/kmeans/kmeans_numba_dpex_k.py:92-96 | accumulating two adjacent ranges one after the other equals accumulating their union |
| KMeansSpec.CountSplit | dpbench/benchmarks/kmeans/kmeans_numba_dpex_k.py:103 | counting two adjacent ranges one after the other equals counting their union |
| KMeansSpec.HistogramTotal | dpbench/benchmarks/kmeans/kmeans_numba_dpex_k.py:80 | count conservation: the per-cluster counts of a range add up to its length |
| KMeansSpec.MeanRow | dpbench/benchmarks/kmeans/kmeans_numba_dpex_k.py:124-130 | the new centroid row has the dimension of the old one |
| KMeansSpec.Means | dpbench/benchmarks/kmeans/kmeans_numba_dpex_k.py:118-130 | the new centroids form a K x D table |
| KMeansSpec.Shifts | dpbench/benchmarks/kmeans/kmeans_numba_dpex_k.py:122-134 | one squared shift per centroid |
| KMeansSpec.MaxOfBounds | dpbench/benchmarks/kmeans/kmeans_numba_dpex_k.py:117-141 | the reduction started at 0 is a non-negative upper bound of all shifts, and is 0 or one of them |
| KMeansSpec.MaxOfUnique | dpbench/benchmarks/kmeans/kmeans_numba_dpex_k.py:117-141 | any non-negative upper bound that is 0 or attained is that reduction |
| KMeansSpec.NoShiftIffUnchanged | dpbench/benchmarks/kmeans/kmeans_numba_dpex_k.py:132-143 | the largest squared shift is zero if and only if no centroid moved |
| KMeansSpec.LloydStep | dpbench/benchmarks/kmeans/kmeans_numba_dpex_k.py:232-239 | one assignment-and-update step keeps the K x D shape |
| KMeansSpec.Lloyd | dpbench/benchmarks/kmeans/kmeans_numba_dpex_k.py:224-240 | iterated steps keep the K x D shape |
| KMeansSpec.LloydFixedPoint | dpbench/benchmarks/kmeans/kmeans_numba_dpex_k.py:224-240 | centroids that one step leaves in place stay there for any number of steps |
| KMeansSpec.ZeroShiftIsFixedPoint | dpbench/benchmarks/kmeans/kmeans_numba_dpex_k.py:226-230 | a zero shift at iteration k means every later iteration gives the same centroids, so stopping early loses nothing |
| KMeansSpec.LloydIterate | dpbench/benchmarks/kmeans/kmeans_numba_dpex_k.py:224-240 | j iterations after k iterations are k + j iterations |
| KMeansSpec.StepCountsAllPoints | dpbench/benchmarks/kmeans/kmeans_numba_dpex_k.py:80 | every point is counted in exactly one cluster of a step |
| KMeansSpec.AddToZeros | dpbench/benchmarks/kmeans/kmeans_numba_dpex_k.py:210-211 | adding into zeroed accumulators yields the added tables |
| KMeansKernels.DivUp | dpbench/benchmarks/kmeans/kmeans_numba_dpex_k.py:14-15 | the result is the ceiling of the quotient: the least r with r * denominator >= numerator |
| KMeansKernels.Align | dpbench/benchmarks/kmeans/kmeans_numba_dpex_k.py:18-19 | the result is the least multiple of base that is at least value |
| KMeansKernels.LocalCopies | dpbench/benchmarks/kmeans/kmeans_numba_dpex_k.py:26 | between 1 and 4 local copies |
| KMeansKernels.FlatDecode | dpbench/benchmarks/kmeans/kmeans_numba_dpex_k.py:45-48 | the flat index i of the staging loop decodes to the one entry (i // D, i % D) of the K x D table |
| KMeansKernels.FlatBelow | dpbench/benchmarks/kmeans/kmeans_numba_dpex_k.py:45 | every entry of the K x D table has a flat index in [0, K*D) |
| KMeansKernels.PointIdInjective | dpbench/benchmarks/kmeans/kmeans_numba_dpex_k.py:57 | the (group, step, work-item) triple is recovered from point_id, so no point is handled twice |
| KMeansKernels.PointIdSurjective | dpbench/benchmarks/kmeans/kmeans_numba_dpex_k.py:57 | every point index below the launch's extent is some triple's point_id |
| KMeansKernels.LidOfPoint | dpbench/benchmarks/kmeans/kmeans_numba_dpex_k.py:57 | point_id modulo L is the work-item's local id |
| KMeansKernels.LaunchCoversPoints | dpbench/benchmarks/kmeans/kmeans_numba_dpex_k.py:216-218 | the global size is a multiple of L; its groups cover all N points, and one group fewer would not |
| KMeansKernels.Rows | dpbench/benchmarks/kmeans/kmeans_numba_dpex_k.py:32 | the rows of a two-dimensional buffer, entry by entry |
| KMeansKernels.Column | dpbench/benchmarks/kmeans/kmeans_numba_dpex_k.py:33 | column c of the transposed local centroid table |
| KMeansKernels.CopyColumn | dpbench/benchmarks/kmeans/kmeans_numba_dpex_k.py:88-90 | the partial sums of entry (d, c), one per local copy |
| KMeansKernels.CountColumn | dpbench/benchmarks/kmeans/kmeans_numba_dpex_k.py:99-101 | the partial counts of centroid c, one per local copy |
| KMeansKernels.CopySums | dpbench/benchmarks/kmeans/kmeans_numba_dpex_k.py:87-90 | the merged local sums form a K x D table |
| KMeansKernels.CopyCounts | dpbench/benchmarks/kmeans/kmeans_numba_dpex_k.py:98-101 | the merged local counts have one entry per centroid |
| KMeansKernels.LoadPoint | dpbench/benchmarks/kmeans/kmeans_numba_dpex_k.py:59-61 | the private buffer holds the point's row |
| KMeansKernels.SquaredDistance | dpbench/benchmarks/kmeans/kmeans_numba_dpex_k.py:66-68 | the `sq_sum` loop computes SqDist of the point and the centroid |
| KMeansKernels.NearestCentroid | dpbench/benchmarks/kmeans/kmeans_numba_dpex_k.py:63-72 | the loop over the transposed local table yields the first nearest centroid |
| KMeansKernels.ClearSums | dpbench/benchmarks/kmeans/kmeans_numba_dpex_k.py:47-48 | entry (d, c) is zeroed in every copy; nothing else changes |
| KMeansKernels.ClearCounts | dpbench/benchmarks/kmeans/kmeans_numba_dpex_k.py:51-52 | centroid c's count is zeroed in every copy; nothing else changes |
| KMeansKernels.StageClusterTables | dpbench/benchmarks/kmeans/kmeans_numba_dpex_k.py:45-52 | the local table is the transpose of the centroids, and every merged partial sum and count is zero |
| KMeansKernels.StageCentroidsClearSums | dpbench/benchmarks/kmeans/kmeans_numba_dpex_k.py:45-48 | the strided staging loop transposes every centroid entry and clears its partial sums |
| KMeansKernels.AccumulatePoint | dpbench/benchmarks/kmeans/kmeans_numba_dpex_k.py:74-80 | the point is added into copy `lid % local_copies` at its nearest centroid and counted there; every other entry is unchanged |
| KMeansKernels.AccumulateTables | dpbench/benchmarks/kmeans/kmeans_numba_dpex_k.py:74-80 | seen through the merged tables, the point is added into its centroid's row and counted there |
| KMeansKernels.AssignPoint | dpbench/benchmarks/kmeans/kmeans_numba_dpex_k.py:58-83 | a point is accumulated under its label; its label is stored only when `last` holds |
| KMeansKernels.AssignSlot | dpbench/benchmarks/kmeans/kmeans_numba_dpex_k.py:56-83 | one more slot of the flattened point loop extends the accumulated range by that point when it is below N |
| KMeansKernels.AssignPoints | dpbench/benchmarks/kmeans/kmeans_numba_dpex_k.py:56-83 | the group's point loop accumulates exactly the points of its range below N, and labels them when `last` holds |
| KMeansKernels.PointIdOfStep | dpbench/benchmarks/kmeans/kmeans_numba_dpex_k.py:57 | slot t = i * L + lid of the flattened loop is the point grid * WorkPI * L + t |
| KMeansKernels.SumCopies | dpbench/benchmarks/kmeans/kmeans_numba_dpex_k.py:88-90 | the `local_centroid_d` loop sums the partial sums over the copies |
| KMeansKernels.CountCopies | dpbench/benchmarks/kmeans/kmeans_numba_dpex_k.py:99-101 | the `local_centroid_npoints` loop sums the partial counts over the copies |
| KMeansKernels.MergeSums | dpbench/benchmarks/kmeans/kmeans_numba_dpex_k.py:87-96 | the global accumulator gains exactly the group's merged sums |
| KMeansKernels.MergeCounts | dpbench/benchmarks/kmeans/kmeans_numba_dpex_k.py:98-103 | the global counts gain exactly the group's merged counts |
| KMeansKernels.StagedTablesEmpty | dpbench/benchmarks/kmeans/kmeans_numba_dpex_k.py:45-52 | freshly cleared local copies hold the sums and counts of no point |
| KMeansKernels.AccumulateGroup | dpbench/benchmarks/kmeans/kmeans_numba_dpex_k.py:54-103 | after the barrier-separated phases, the global accumulators gain the sums and counts of the group's points below N |
| KMeansKernels.GroupByClusterGroup | dpbench/benchmarks/kmeans/kmeans_numba_dpex_k.py:29-103 | one work-group of groupByCluster with fresh local memory adds the sums and counts of its points, labelling them when `last` holds |
| KMeansKernels.GroupByCluster | dpbench/benchmarks/kmeans/kmeans_numba_dpex_k.py:29-103 | the whole launch adds the sums and counts of all covered points to the accumulators, and labels those points only when `last` holds |
| KMeansKernels.Row | dpbench/benchmarks/kmeans/kmeans_numba_dpex_k.py:124-130 | row c of a two-dimensional buffer, entry by entry |
| KMeansKernels.UpdateCentroid | dpbench/benchmarks/kmeans/kmeans_numba_dpex_k.py:122-132 | centroid c moves to the mean of its sums, or stays when it has no points; its sums are cleared; no other row changes; the returned distance is the squared distance it moved, the corrected reading of line 132 (Findings row 1) |
| KMeansKernels.ShiftsExtend | dpbench/benchmarks/kmeans/kmeans_numba_dpex_k.py:118-134 | the recorded shifts extend by the next centroid's shift |
| KMeansKernels.ShiftsComplete | dpbench/benchmarks/kmeans/kmeans_numba_dpex_k.py:118-134 | after the last centroid, the recorded shifts are those from the old centroids to their means |
| KMeansKernels.PublishAndUpdate | dpbench/benchmarks/kmeans/kmeans_numba_dpex_k.py:119-132 | the count is published and cleared and the centroid updated; the result is its squared shift, the corrected reading of line 132 (Findings row 1) |
| KMeansKernels.RaiseMaximum | dpbench/benchmarks/kmeans/kmeans_numba_dpex_k.py:134-135 | the running maximum of work-item c % S covers centroid c's corrected squared shift (Findings rows 1 and 2), is 0 or some centroid's shift, and is published in the work-item's slot |
| KMeansKernels.ReduceDistances | dpbench/benchmarks/kmeans/kmeans_numba_dpex_k.py:139-141 | the reduction is an upper bound of its own maximum and every slot, and equals one of them |
| KMeansKernels.UpdateAllCentroids | dpbench/benchmarks/kmeans/kmeans_numba_dpex_k.py:117-135 | the strided loop updates every centroid; the running maxima cover every corrected squared shift (Findings row 1) |
| KMeansKernels.CentroidsFinished | dpbench/benchmarks/kmeans/kmeans_numba_dpex_k.py:118-132 | the buffers hold the means and the published counts, and the accumulators are zero |
| KMeansKernels.ReductionIsMaxShift | dpbench/benchmarks/kmeans/kmeans_numba_dpex_k.py:137-141 | work-item 0's reduction is the largest corrected squared shift (Findings row 1) |
| KMeansKernels.UpdateCentroids | dpbench/benchmarks/kmeans/kmeans_numba_dpex_k.py:111-143 | centroids become the means, counts are published, accumulators are cleared, and the reported value is the largest corrected squared shift (Findings row 1) |
| KMeansKernels.StageCentroids | dpbench/benchmarks/kmeans/kmeans_numba_dpex_k.py:159-160 | the local table is the transpose of the centroids |
| KMeansKernels.LabelPoints | dpbench/benchmarks/kmeans/kmeans_numba_dpex_k.py:164-182 | the group's points below N get their nearest centroid; no other label changes |
| KMeansKernels.UpdateLabelsGroup | dpbench/benchmarks/kmeans/kmeans_numba_dpex_k.py:151-182 | one work-group labels exactly its points below N |
| KMeansKernels.UpdateLabels | dpbench/benchmarks/kmeans/kmeans_numba_dpex_k.py:151-182 | the launch labels every covered point with its nearest centroid |
| KMeansDriver.LloydRound | dpbench/benchmarks/kmeans/kmeans_numba_dpex_k.py:232-240 | the two launches compute Lloyd's step, the counts and the largest corrected squared shift (Findings row 1); they label all points only in the last iteration, and leave the accumulators zero |
| KMeansDriver.Relabel | dpbench/benchmarks/kmeans/kmeans_numba_dpex_k.py:226-230 | the early exit gives every point its nearest centroid |
| KMeansDriver.Advance | dpbench/benchmarks/kmeans/kmeans_numba_dpex_k.py:224-240 | one pass of the host loop keeps the centroid shape |
| KMeansDriver.AdvanceIsLloydStep | dpbench/benchmarks/kmeans/kmeans_numba_dpex_k.py:224-240 | after pass k + 1 the host state holds Lloyd's k + 1 iterate, the counts of the k-th, and the shift of step k + 1 |
| KMeansDriver.NoEarlierStopExtends | dpbench/benchmarks/kmeans/kmeans_numba_dpex_k.py:226 | an iteration that did not stop extends the run without early stops |
| KMeansDriver.AdvanceOnTrack | dpbench/benchmarks/kmeans/kmeans_numba_dpex_k.py:224-240 | a pass that does not stop keeps the loop's invariant |
| KMeansDriver.AdvanceCentroids | dpbench/benchmarks/kmeans/kmeans_numba_dpex_k.py:232-240 | a pass keeps the centroids, counts and shift on Lloyd's iteration |
| KMeansDriver.AdvanceLabels | dpbench/benchmarks/kmeans/kmeans_numba_dpex_k.py:225-234 | a pass keeps the labels those of the last iteration, or the initial ones |
| KMeansDriver.StopOutcome | dpbench/benchmarks/kmeans/kmeans_numba_dpex_k.py:224-230 | a state where the loop stops already shows the outcome |
| KMeansDriver.RunOnTrack | dpbench/benchmarks/kmeans/kmeans_numba_dpex_k.py:224-240 | from any state on track, the loop ends after niters passes or at the first shift below tolerance |
| KMeansDriver.RunFromStart | dpbench/benchmarks/kmeans/kmeans_numba_dpex_k.py:213-240 | from the initial state the loop has that outcome; with tolerance 0 it never exits early |
| KMeansDriver.LaunchGeometry | dpbench/benchmarks/kmeans/kmeans_numba_dpex_k.py:216-218 | L = min(1024, device maximum); the groups cover all points, and one group fewer would not |
| KMeansDriver.Iteration | dpbench/benchmarks/kmeans/kmeans_numba_dpex_k.py:224-240 | one pass of the loop on the buffers takes the host state one step along the loop's run |
| KMeansDriver.KMeansKernel | dpbench/benchmarks/kmeans/kmeans_numba_dpex_k.py:198-240 | the buffers end holding the centroids, counts and labels of the loop's run from the initial state |
| KMeansDriver.KMeans | dpbench/benchmarks/kmeans/kmeans_numba_dpex_k.py:243-244 | for niters >= 1 the centroids are Lloyd's niters-th iterate; the counts and labels are those of the (niters - 1)-th; for niters <= 0 nothing changes; at least one centroid is required, since K = 0 raises on line 26 |
| KMeansFindings.NormDrop | dpbench/benchmarks/kmeans/kmeans_numba_dpex_k.py:124-132 | the per-centroid quantity as written is the drop in squared norm |
| KMeansFindings.Negated | dpbench/benchmarks/kmeans/kmeans_numba_dpex_k.py:132 | a row reflected through the origin |
| KMeansFindings.SqNormNegated | dpbench/benchmarks/kmeans/kmeans_numba_dpex_k.py:132 | reflection keeps the squared norm |
| KMeansFindings.ReflectionGoesUnnoticed | dpbench/benchmarks/kmeans/kmeans_numba_dpex_k.py:132 | a centroid reflected through the origin shows no change as written, though it moved |
| KMeansFindings.ReflectionExample | dpbench/benchmarks/kmeans/kmeans_numba_dpex_k.py:132 | the row [1.0] moving to [-1.0] gives 0 as written, though its squared distance moved is 4 |
| KMeansFindings.SlotIntended | dpbench/benchmarks/kmeans/kmeans_numba_dpex_k.py:118 | the work-item's slot lies in [0, S) |
| KMeansFindings.AsWrittenSlotsFit | dpbench/benchmarks/kmeans/kmeans_numba_dpex_k.py:115-135 | as written, every slot fits the buffer if and only if K <= L |
| KMeansFindings.IntendedSlotsFit | dpbench/benchmarks/kmeans/kmeans_numba_dpex_k.py:115-141 | the intended slots always fit, and coincide with the written ones whenever those fit |
| Bfs.SuccBelowMember | dpbench/benchmarks/bfs/bfs_sycl_native_ext/bfs_sycl/_bfs_kernel.hpp:26-37 | a node is reached from the frontier below t if and only if it is a neighbour of a frontier node below t |
| Bfs.TargetsInGraph | dpbench/benchmarks/bfs/bfs_sycl_native_ext/bfs_sycl/_bfs_kernel.hpp:28-32 | every neighbour a node's edge slice names is a graph node |
| Bfs.SuccInGraph | dpbench/benchmarks/bfs/bfs_sycl_native_ext/bfs_sycl/_bfs_kernel.hpp:28-32 | every node reached from a set of nodes is a graph node |
| Bfs.Round | dpbench/benchmarks/bfs/bfs_sycl_native_ext/bfs_sycl/_bfs_sycl.cpp:152-186 | a round has one cost per node |
| Bfs.RoundWellLayered | dpbench/benchmarks/bfs/bfs_sycl_native_ext/bfs_sycl/_bfs_sycl.cpp:238-282 | after k rounds the seen nodes have costs in [0, k], the unseen have -1, and the frontier is exactly the nodes of cost k |
| Bfs.RoundsGrow | dpbench/benchmarks/bfs/bfs_sycl_native_ext/bfs_sycl/_bfs_sycl.cpp:238-282 | later rounds keep what earlier rounds saw, at the same cost |
| Bfs.JoinedAt | dpbench/benchmarks/bfs/bfs_sycl_native_ext/bfs_sycl/_bfs_sycl.cpp:238-282 | a seen node was in the frontier of the round its cost names |
| Bfs.LayeringClosed | dpbench/benchmarks/bfs/bfs_sycl_native_ext/bfs_sycl/_bfs_kernel.hpp:28-36 | once a round adds nothing, the seen set is closed under edges, and an edge raises the cost by at most one |
| Bfs.ClosedAt | dpbench/benchmarks/bfs/bfs_sycl_native_ext/bfs_sycl/_bfs_kernel.hpp:28-36 | the closure for one edge: its target is seen, at a cost at most one more |
| Bfs.LayeringHasPredecessors | dpbench/benchmarks/bfs/bfs_sycl_native_ext/bfs_sycl/_bfs_kernel.hpp:33-35 | every seen node but the source was reached over an edge from a node one cost lower |
| Bfs.PredecessorOf | dpbench/benchmarks/bfs/bfs_sycl_native_ext/bfs_sycl/_bfs_kernel.hpp:33-35 | the predecessor of one seen node, one cost lower |
| Bfs.NoShorterPath | dpbench/benchmarks/bfs/bfs_sycl_native_ext/bfs_sycl/_bfs_sycl.cpp:238-282 | once the rounds are idle, every path's end is seen with a cost no larger than the path's length |
| Bfs.PathOfCostLength | dpbench/benchmarks/bfs/bfs_sycl_native_ext/bfs_sycl/_bfs_sycl.cpp:238-282 | every seen node ends a path from node 0 with exactly its cost in edges |
| Bfs.PathExtends | dpbench/benchmarks/bfs/bfs_sycl_native_ext/bfs_sycl/_bfs_kernel.hpp:28-32 | a path extended by an edge out of its last node is a path |
| Bfs.CostsAreHopDistances | dpbench/benchmarks/bfs/bfs_sycl_native_ext/bfs_sycl/_bfs_sycl.cpp:183-290 | at the first idle round: node 0 costs 0; a node is seen if and only if its cost is not -1; seen nodes end a path of their cost and no path is shorter; nodes no path reaches stay -1 |
| Bfs.SeenBounded | dpbench/benchmarks/bfs/bfs_sycl_native_ext/bfs_sycl/_bfs_sycl.cpp:238-282 | no more nodes are seen than the graph has |
| Bfs.SeenGrows | dpbench/benchmarks/bfs/bfs_sycl_native_ext/bfs_sycl/_bfs_sycl.cpp:238-282 | a round adds exactly its frontier to the seen nodes |
| Bfs.ChooseLaunch | dpbench/benchmarks/bfs/bfs_sycl_native_ext/bfs_sycl/_bfs_sycl.cpp:121-132 | one block of n threads when n fits the device; otherwise ceil(n / max) blocks of max threads; no block is without a node |
| Bfs.CeilDiv | dpbench/benchmarks/bfs/bfs_sycl_native_ext/bfs_sycl/_bfs_sycl.cpp:130 | the least q with q * m >= n |
| Bfs.LaunchIds | dpbench/benchmarks/bfs/bfs_sycl_native_ext/bfs_sycl/_bfs_kernel.hpp:24-25 | the global ids of the launch are 0 .. blocks * T - 1, each once |
| Bfs.WorkItemId | dpbench/benchmarks/bfs/bfs_sycl_native_ext/bfs_sycl/_bfs_kernel.hpp:23-25 | work-item t of the lock-step order has global id t |
| Bfs.ExpandNode | dpbench/benchmarks/bfs/bfs_sycl_native_ext/bfs_sycl/_bfs_kernel.hpp:27-37 | the node leaves the frontier; each unvisited neighbour gets cost + 1 and its updating bit; visited nodes keep their cost and bit |
| Bfs.ExpandFrontier | dpbench/benchmarks/bfs/bfs_sycl_native_ext/bfs_sycl/_bfs_sycl.cpp:248-258 | after the whole Kernel launch, every frontier node is expanded: the mask is cleared, and exactly the unvisited neighbours of the frontier are marked with cost one more |
| Bfs.ExpandWorkItem | dpbench/benchmarks/bfs/bfs_sycl_native_ext/bfs_sycl/_bfs_kernel.hpp:24-38 | out-of-range ids and nodes outside the frontier do nothing; the launch's progress covers ids up to tid |
| Bfs.ExpandStep | dpbench/benchmarks/bfs/bfs_sycl_native_ext/bfs_sycl/_bfs_kernel.hpp:26-38 | a frontier node's work-item moves the launch's progress past its id |
| Bfs.CommitFrontier | dpbench/benchmarks/bfs/bfs_sycl_native_ext/bfs_sycl/_bfs_kernel.hpp:41-59 | updating nodes join the frontier and the visited set and lose the bit; the flag is raised exactly when some node had the bit |
| Bfs.Initialise | dpbench/benchmarks/bfs/bfs_sycl_native_ext/bfs_sycl/_bfs_sycl.cpp:142-186 | the device arrays hold round 0: node 0 alone in the frontier and visited, with cost 0 |
| Bfs.BfsRound | dpbench/benchmarks/bfs/bfs_sycl_native_ext/bfs_sycl/_bfs_sycl.cpp:240-280 | one iteration of the do/while takes the arrays from round k to round k + 1; `stop` is read back true if and only if round k + 1 has a frontier |
| Bfs.ExpandedIsNextLayer | dpbench/benchmarks/bfs/bfs_sycl_native_ext/bfs_sycl/_bfs_sycl.cpp:248-258 | after Kernel from round k, the updating bits mark round k + 1's frontier, and the costs are round k + 1's |
| Bfs.CommittedIsNextLayer | dpbench/benchmarks/bfs/bfs_sycl_native_ext/bfs_sycl/_bfs_sycl.cpp:267-277 | after Kernel2 the arrays hold round k + 1, and the flag is set if and only if its frontier is non-empty |
| Bfs.BfsGraph | dpbench/benchmarks/bfs/bfs_sycl_native_ext/bfs_sycl/_bfs_sycl.cpp:117-290 | the loop stops at the first round k (1 <= k <= n) that adds no node; the costs read back are that round's; the cost array is freshly allocated |
| Bfs.RunRounds | dpbench/benchmarks/bfs/bfs_sycl_native_ext/bfs_sycl/_bfs_sycl.cpp:236-282 | the do/while ends at the first idle round, within n rounds, with the arrays holding that round |
| Bfs.ProgressStep | dpbench/benchmarks/bfs/bfs_sycl_native_ext/bfs_sycl/_bfs_sycl.cpp:281-282 | the loop's progress invariant survives one more round |
| Bfs.FrontierBound | dpbench/benchmarks/bfs/bfs_sycl_native_ext/bfs_sycl/_bfs_sycl.cpp:238-282 | a round with a non-empty frontier comes before round n, so the loop's round counter stays below n while it continues |
| Bfs.SeenOutgrowsRounds | dpbench/benchmarks/bfs/bfs_sycl_native_ext/bfs_sycl/_bfs_sycl.cpp:238-282 | a round with a non-empty frontier follows k rounds that each added a node, so the loop runs at most n times |
| Bfs.IdleStaysIdle | dpbench/benchmarks/bfs/bfs_sycl_native_ext/bfs_sycl/_bfs_sycl.cpp:238-282 | after a round that adds nothing, no later round adds a node |
| Bfs.FirstIdleRoundIsFirst | dpbench/benchmarks/bfs/bfs_sycl_native_ext/bfs_sycl/_bfs_sycl.cpp:238-282 | every round before the first idle one has a frontier, and no round after it does |
| NwSpec.Maximum | dpbench/benchmarks/nw/nw_numba_dpex_k.py:13-16 | the result bounds all three scores and is one of them |
| NwSpec.Blosum62Shape | dpbench/benchmarks/nw/nw_sycl_native_ext/nw_sycl/_nw_sycl.cpp:11-58 | the substitution table is 24 x 24 |
| NwSpec.Similarity | dpbench/benchmarks/nw/nw_sycl_native_ext/nw_sycl/_nw_sycl.cpp:99-104 | entry (r, c) of the similarity grid is the table's score of a[r] against b[c] |
| NwSpec.Gaps | dpbench/benchmarks/nw/nw_sycl_native_ext/nw_sycl/_nw_sycl.cpp:106-109 | entry k of the border is -k * penalty |
| NwSpec.GridScoreRecurrence | dpbench/benchmarks/nw/nw_numba_dpex_k.py:50-72 | row 0 and column 0 hold the gap penalties; every inner cell is the maximum of diagonal + similarity, west - penalty and north - penalty |
| NwSpec.DpOfSubgrid | dpbench/benchmarks/nw/nw_numba_dpex_k.py:34-74 | the recurrence on a sub-rectangle started from the enclosing grid's values on its borders reproduces the enclosing grid's values |
| NwSpec.DpBorderAgrees | dpbench/benchmarks/nw/nw_numba_dpex_k.py:34-46 | a border cell of the sub-rectangle has its enclosing value |
| NwSpec.DpInnerAgrees | dpbench/benchmarks/nw/nw_numba_dpex_k.py:54-59 | an inner cell agrees once its three predecessors agree |
| NwSpec.BestStep | dpbench/benchmarks/nw/nw_sycl_native_ext/nw_sycl/_nw_sycl.cpp:196-221 | some step into each cell other than (0, 0) comes from a cell inside the matrix whose score plus the step's gain is the cell's score |
| NwSpec.InnerBestStep | dpbench/benchmarks/nw/nw_sycl_native_ext/nw_sycl/_nw_sycl.cpp:196-201 | for an inner cell, the first candidate that attains the maximum is such a step |
| NwSpec.StepBound | dpbench/benchmarks/nw/nw_sycl_native_ext/nw_sycl/_nw_sycl.cpp:196-201 | no step into a cell adds more than the cell's score to its source's |
| NwSpec.RowGap | dpbench/benchmarks/nw/nw_sycl_native_ext/nw_sycl/_nw_sycl.cpp:108-109 | along row 0 each cell is its west neighbour less the penalty |
| NwSpec.ColumnGap | dpbench/benchmarks/nw/nw_sycl_native_ext/nw_sycl/_nw_sycl.cpp:106-107 | down column 0 each cell is its north neighbour less the penalty |
| NwSpec.NoAlignmentBeatsScore | dpbench/benchmarks/nw/nw_numba_dpex_k.py:50-72 | no alignment of the prefixes scores more than the matrix cell |
| NwSpec.BestAlignment | dpbench/benchmarks/nw/nw_numba_dpex_k.py:50-72 | some alignment of the prefixes scores exactly the matrix cell, so the cell is the optimal alignment score |
| NwTile.FlatIsRowMajor | dpbench/benchmarks/nw/nw_numba_dpex_k.py:27-32 | a row-major address lies in the buffer and gives back its row and column |
| NwTile.KernelAddresses | dpbench/benchmarks/nw/nw_numba_dpex_k.py:27-32 | `index + cols * ty`, `index_n`, `index_w + cols * tx` and `index_nw` are the flat addresses of the block's cell (ty + 1, tx + 1), top border, left border and corner |
| NwTile.SweepCell | dpbench/benchmarks/nw/nw_numba_dpex_k.py:51-59 | one work-item's step sets its tile cell to the recurrence's value and changes no other cell |
| NwTile.Sweep | dpbench/benchmarks/nw/nw_numba_dpex_k.py:50-74 | the two anti-diagonal sweeps leave every inner tile cell holding the recurrence's value from the loaded borders |
| NwTile.LoadTile | dpbench/benchmarks/nw/nw_numba_dpex_k.py:34-48 | the tile's top row and left column are the block's borders in the score matrix, and the reference tile is the block's similarities |
| NwTile.WriteBack | dpbench/benchmarks/nw/nw_numba_dpex_k.py:76-77 | the block's cells receive the tile's inner cells; no other cell changes |
| NwTile.ProcessBlock | dpbench/benchmarks/nw/nw_numba_dpex_k.py:19-77 | one work-group leaves the block holding the recurrence's values from its borders; no other cell changes |
| NwWaves.Kernel1Wave | dpbench/benchmarks/nw/nw_numba_dpex_k.py:24-25 | launch i of the first kernel covers exactly the blocks of anti-diagonal i - 1, one per work-group |
| NwWaves.Kernel2Wave | dpbench/benchmarks/nw/nw_numba_dpex_k.py:87-88 | launch i of the second kernel covers exactly the blocks of anti-diagonal 2 bw - 1 - i, one per work-group |
| NwWaves.EachBlockOnce | dpbench/benchmarks/nw/nw_sycl_native_ext/nw_sycl/_nw_sycl.cpp:126-167 | every block is handled by exactly one launch of the two loops |
| NwWaves.BlockOfCell | dpbench/benchmarks/nw/nw_numba_dpex_k.py:27-28 | a cell lies in a block if and only if its block coordinates are the block's |
| NwWaves.TileScores | dpbench/benchmarks/nw/nw_numba_dpex_k.py:50-74 | the tile recurrence from a block's final borders gives every cell of the block its global score |
| NwWaves.BlockInputs | dpbench/benchmarks/nw/nw_numba_dpex_k.py:34-46 | when the wave reaches a block, its top row and left column hold their scores and its reference tile holds its similarities |
| NwWaves.TopRowDone | dpbench/benchmarks/nw/nw_numba_dpex_k.py:46 | the cells above a block are final when the wave reaches it |
| NwWaves.LeftColumnDone | dpbench/benchmarks/nw/nw_numba_dpex_k.py:42 | the cells left of a block are final when the wave reaches it |
| NwWaves.BlockFinal | dpbench/benchmarks/nw/nw_numba_dpex_k.py:76-77 | once a block's cells hold their scores, the wave has moved past it |
| NwWaves.ProcessWaveBlock | dpbench/benchmarks/nw/nw_sycl_native_ext/nw_sycl/_nw_sycl.cpp:137-143 | one work-group of a launch leaves its block final, given the blocks before it; no other cell changes |
| NwWaves.RunWaves | dpbench/benchmarks/nw/nw_sycl_native_ext/nw_sycl/_nw_sycl.cpp:119-167 | every cell of the whole blocks ends up holding its Needleman-Wunsch score; cells beyond the last whole block keep their values |
| NwTraceback.ChainAsWritten | dpbench/benchmarks/nw/nw_sycl_native_ext/nw_sycl/_nw_sycl.cpp:201-207 | the `if` chain always ends on one of the three neighbour scores, so the empty `else` is never reached |
| NwTraceback.StepAsWritten | dpbench/benchmarks/nw/nw_sycl_native_ext/nw_sycl/_nw_sycl.cpp:209-221 | the step taken as written leads to a neighbour whose score equals the chain's value |
| NwTraceback.PythonStep | dpbench/benchmarks/nw/nw_numba_dpex_k.py:214-233 | whenever the diagonal candidate attains the maximum, the Python loop steps diagonally |
| NwTraceback.IntendedStep | dpbench/benchmarks/nw/nw_sycl_native_ext/nw_sycl/_nw_sycl.cpp:196-221 | the corrected step is one whose candidate attains the maximum, so no candidate beats it |
| NwTraceback.StepAsWrittenMissesBest | dpbench/benchmarks/nw/nw_sycl_native_ext/nw_sycl/_nw_sycl.cpp:201-221 | for neighbours (5, 5, 4), similarity -3 and penalty 1, both loops as written step diagonally, whose candidate 2 is below the cell's score 4; the corrected step goes west |
| NwTraceback.IntendedStepOnScores | dpbench/benchmarks/nw/nw_numba_dpex_k.py:214-215 | on a scored matrix, the maximum of the candidates is the cell's own score, and the corrected step's source score plus its gain is that score |
| NwTraceback.TraceShape | dpbench/benchmarks/nw/nw_sycl_native_ext/nw_sycl/_nw_sycl.cpp:171-224 | the walk is empty only from outside the matrix; it starts at the given cell, has at most i + j + 1 cells, stays in the matrix, moves by the pass's step, and ends at (0, 0) or where the next step leaves the matrix |
| NwTraceback.TraceFollowsScores | dpbench/benchmarks/nw/nw_sycl_native_ext/nw_sycl/_nw_sycl.cpp:179-221 | on a scored matrix, each step out of an inner cell reaches a cell whose score plus the step's gain is the left cell's score |
| NwTraceback.Pass | dpbench/benchmarks/nw/nw_sycl_native_ext/nw_sycl/_nw_sycl.cpp:179-221 | one pass of the loop moves to the cell the corrected step names |
| NwTraceback.TraceStep | dpbench/benchmarks/nw/nw_sycl_native_ext/nw_sycl/_nw_sycl.cpp:209-221 | the walk from a cell other than (0, 0) is that cell followed by the walk from where its step leads |
| NwTraceback.Traceback | dpbench/benchmarks/nw/nw_sycl_native_ext/nw_sycl/_nw_sycl.cpp:171-224 | the loop from (max_rows - 2, max_rows - 2) visits exactly the cells of the walk |
| NwTraceback.AfterMovesBack | dpbench/benchmarks/nw/nw_numba_dpex_k.py:225-233 | the Python loop's steps never increase a coordinate |
| NwTraceback.PythonNeverReturns | dpbench/benchmarks/nw/nw_numba_dpex_k.py:191-195 | once a coordinate is negative, the Python loop never reaches its only exit at (0, 0) |
| NwTraceback.PythonLeavesRowZero | dpbench/benchmarks/nw/nw_numba_dpex_k.py:202-228 | on row 0 with penalty 10, the Python step is diagonal and leads to row -1; the C++ step as written is also diagonal |
| NwHost.ZeroFill | dpbench/benchmarks/nw/nw_sycl_native_ext/nw_sycl/_nw_sycl.cpp:86-90 | every cell of the matrix is 0 |
| NwHost.PlaceSequences | dpbench/benchmarks/nw/nw_sycl_native_ext/nw_sycl/_nw_sycl.cpp:92-97 | the residues of a go down column 0 and those of b along row 0; no other cell changes |
| NwHost.FillReference | dpbench/benchmarks/nw/nw_sycl_native_ext/nw_sycl/_nw_sycl.cpp:99-104 | cell (i, j) of the similarity matrix is BLOSUM62 of a[i - 1] and b[j - 1]; row 0 and column 0 are not written |
| NwHost.PlaceGaps | dpbench/benchmarks/nw/nw_sycl_native_ext/nw_sycl/_nw_sycl.cpp:106-109 | row 0 and column 0 receive the gap penalties -k * penalty; no other cell changes |
| NwHost.Initialise | dpbench/benchmarks/nw/nw_sycl_native_ext/nw_sycl/_nw_sycl.cpp:78-109 | fresh (n + 1) x (n + 1) matrices: the similarity matrix holds the sequences' similarities, and the score matrix holds the gap penalties on its borders and 0 inside |
| NwHost.Align | dpbench/benchmarks/nw/nw_sycl_native_ext/nw_sycl/_nw_sycl.cpp:111-224 | for n a multiple of 16, every cell ends up holding its score, and the traceback is the walk from (n - 1, n - 1) |
| NwHost.RunTest | dpbench/benchmarks/nw/nw_sycl_native_ext/nw_sycl/_nw_sycl.cpp:60-224 | for sequences of equal length, a multiple of 16, the score matrix of a and b is computed and the traceback walked |
| NwHost.ScoredSequences | dpbench/benchmarks/nw/nw_sycl_native_ext/nw_sycl/_nw_sycl.cpp:99-109 | a finished score matrix holds, in cell (i, j), the Needleman-Wunsch score of a's first i residues against b's first j |

## Left out

- Floating point: k-means coordinates are exact reals (`inf` is a separate `Distance` value). Rounding and the order dependence of atomic float additions are not modelled.
- KMeansKernels.UpdateCentroid: the returned distance is the sum of (d0 - d1)², the squared distance the centroid moved, not line 132's sum of d0 * d0 - d1 * d1 (Findings row 1). The as-written quantity is `KMeansFindings.NormDrop`. Centroids, counts and accumulators are stated as the source computes them.
- KMeansKernels.PublishAndUpdate: returns the corrected squared shift of line 132, not the drop in squared norm the line computes (Findings row 1).
- KMeansKernels.RaiseMaximum: raises the running maximum to the corrected squared shift, not to line 132's d0 * d0 - d1 * d1 sum, and publishes it in slot c mod S rather than slot c of line 135 (Findings rows 1 and 2).
- KMeansKernels.UpdateAllCentroids: the running maxima cover the corrected squared shifts, not line 132's values (Findings row 1).
- KMeansKernels.ReductionIsMaxShift: the reduction of lines 137-141 is proved to be the largest corrected squared shift; as written it is the largest of 0 and line 132's sums (Findings row 1).
- KMeansKernels.UpdateCentroids: the value written to `diff` is the largest corrected squared shift, not the largest of 0 and line 132's sums (Findings row 1); with tolerance 0 (line 215) neither value can stop the host loop, since both are at least 0, so the centroids, counts and labels of `KMeansDriver.KMeans` are the same under either reading.
- KMeansDriver.LloydRound: its `diffSquared` is the corrected largest shift, not line 132's value (Findings row 1).
- KMeansDriver.KMeans, KMeansDriver.KMeansKernel: require at least one centroid. With K = 0 the source raises ZeroDivisionError in `DivUp(local_size_, num_centroids)` (line 26), reached from `getKernels` on line 220 before the loop, so not even niters <= 0 returns; that error path is not modelled.
- KMeansDriver.LloydRound, KMeansKernels.UpdateCentroids, KMeansKernels.GroupByCluster: require at least one centroid, for the same reason: the source never reaches them with K = 0.
- Integer width: the Needleman-Wunsch scores and gap penalties are C `int` (`_nw_sycl.cpp`, lines 66-69 and 106-109, with `penalty = atoi(argv[2])` on line 76), and the k-means local counts are `int32` (lines 38 and 99 of the k-means source). The model's integers are unbounded, so overflow of `-i * penalty`, of the scores or of a count is not modelled.
- `sqrt` on line 143 of the k-means source: the model reports the largest squared shift. The host's `diff_host < tolerance` is decided on the square (see `KMeansDriver.Converged`).
- Concurrency: barriers, atomics and the interleaving of work-items are replaced by the lock-step order described above. Data races are not modelled.
- Device queries, dpctl and numba-dpex kernel compilation (with its `lru_cache`) are left out. The device's maximum work-group size is a parameter.
- `kmeans_kernel` copies `diff` back through `dpt.asnumpy`; this is modelled as reading the value.
- BFS input: the graph is a parameter, not read with `fscanf`. The source node read on line 152 is ignored, as line 153 does. Timing, printing and the result file are left out.
- Bfs.ChooseLaunch: `ceil` over a `double` is modelled as exact integer ceiling division, because node counts are far below the precision limit.
- Bfs: the model assumes at least one node. The source indexes node 0 unconditionally on lines 156-157.
- Bfs.ValidGraph: the model requires every node's edge slice to lie inside the edge list and every edge target to be a node. The source reads `g_graph_edges[i]` and indexes the node arrays with it unchecked (lines 28-35 of `_bfs_kernel.hpp`), so such graphs have undefined behaviour there and are not modelled.
- Needleman-Wunsch input: `atoi` of the command line and the `rand() % 10 + 1` residues (lines 84-97) become parameters. The residues are required to lie in 1..10, the range `rand() % 10 + 1` produces.
- The file output (`fprintf` to `fpo`, lines 173-176) and `printf` messages are left out.
- NwHost.RunTest: requires the sequence length to be a multiple of 16, as the comment on lines 71-72 demands. For other lengths the cells beyond the last whole block are left unspecified by RunWaves. The traceback is not proved over them.
- `_nw_kernel.hpp` (the SYCL tile kernels `needle_cuda_shared_1/2` and `maximum`, which `_nw_sycl.cpp` launches on lines 139-142 and 161-164) is not part of this model. The tiles follow, as a stand-in, the numba kernels `neddle_kernel_1/2` of `nw_numba_dpex_k.py`. That file is commented out from its first line to its last, so its kernels and its host are text, not executable code; the model takes them with the launch geometry of the SYCL host.
- The numba host passes `dpnp.array((17, 17))` and `dpnp.array((16, 16))` (lines 156-157 and 168-169) as `temp` and `ref`: two-element arrays shared by all groups. The model gives each work-group its own 17 x 17 and 16 x 16 local tiles, as the SYCL local accessors do.
- Row 0 and column 0 of `referrence` are never written by the source (malloc, lines 80 and 99-104). The model leaves them as allocated, with arbitrary contents. The traceback on row 0 or column 0 reads them, and the model keeps that read.
- The Python host's `result[k]` record of each pass's maximum (line 215) is not kept. `NwTraceback.IntendedStepOnScores` states that value: it is the cell's score.
- The traceback is not proved to reach (0, 0). On row 0 and column 0 its step reads the unwritten border of `referrence`, whose contents are arbitrary, so the walk may leave the matrix there, and the C++ guard of line 171 then ends it.
- NwTraceback.Traceback: uses the corrected choice of step. The as-written choices are modelled separately and shown to differ (see Findings).
- KMeansFindings.IntendedSlotsFit: `local_distance[c]` (line 135) is written past its L slots when K > L. The model writes the intended slot c mod S (see Findings).

## Findings

| source | as written | input that shows it | evidently intended | confidence | as-written member | corrected member |
|---|---|---|---|---|---|---|
| dpbench/benchmarks/kmeans/kmeans_numba_dpex_k.py:132 | `distance += d0 * d0 - d1 * d1` measures the drop in squared norm, which can be zero or negative for a centroid that moved | one centroid moving from [1.0] to [-1.0]: as written 0, squared distance moved 4 | `distance += (d0 - d1) ** 2`, the squared distance the centroid moved | not executed | KMeansFindings.ReflectionExample | KMeansKernels.UpdateCentroid |
| dpbench/benchmarks/kmeans/kmeans_numba_dpex_k.py:135 | `local_distance[c] = max_distance` writes slot c of a buffer of L slots, while only S = min(K, L) work-items exist | K = 3 centroids, L = 2: centroid 2 writes slot 2 of a two-slot buffer | the slot of the work-item handling c, c mod S, which the reduction of lines 139-141 reads | not executed | KMeansFindings.AsWrittenSlotsFit | KMeansFindings.IntendedSlotsFit |
| dpbench/benchmarks/nw/nw_sycl_native_ext/nw_sycl/_nw_sycl.cpp:201-221 | the step is chosen by comparing the neighbour's raw score with the winning candidate mapped back to a raw score, so a neighbour with an equal raw score but a worse candidate wins | neighbours nw = 5, w = 5, n = 4, similarity -3, penalty 1: the best candidate is west (4), but the C++ loop, and the commented-out Python loop (lines 218-233) as text, step diagonally (candidate 2) | step to the neighbour whose candidate attains the maximum | not executed | NwTraceback.StepAsWrittenMissesBest | NwTraceback.IntendedStepOnScores |
| dpbench/benchmarks/nw/nw_numba_dpex_k.py:191-233 | in the commented-out Python host, `while True` exits only at (0, 0), without the C++ guard `i >= 0 && j >= 0` (C++ line 171) | cell (0, 101) with penalty 10: nw = n = LIMIT, w = -1000, and a `reference` entry of 0 there: the diagonal candidate wins, the walk goes to (-1, 100), and from a negative coordinate it never reaches (0, 0); the read of line 210 then walks below `-size` and ends in an IndexError | stop once a coordinate leaves the matrix, as the C++ loop does | not executed | NwTraceback.PythonNeverReturns | NwTraceback.TraceShape |
