/** The host side of the k-means benchmark (kmeans_kernel and kmeans,
    lines 198-244): the iteration loop that launches the three kernels of
    module KMeansKernels, proved to run Lloyd's iteration of module KMeansSpec. */
module KMeansDriver {
  import opened KMeansSpec
  import opened KMeansKernels

  /** `diff_host < tolerance` (line 226). `diffHost` holds the square of
      `diff`, the square root the update kernel takes on line 143, or is
      infinite before the first update (line 213). As the square is never
      negative, the root is below `tolerance` exactly when `tolerance` is
      positive and the square is below its square. */
  predicate Converged(diffHost: Distance, tolerance: real)
  {
    diffHost.Finite? && tolerance > 0.0 && diffHost.value < tolerance * tolerance
  }

  /** The accumulators `newCentroids` and `newCount` hold zeros, as after
      their allocation (lines 211-212) and after every updateCentroids. */
  predicate Cleared(newCentroids: array2<real>, newCount: array<int>)
    reads newCentroids, newCount
  {
    && (forall c, d :: 0 <= c < newCentroids.Length0 && 0 <= d < newCentroids.Length1 ==> newCentroids[c, d] == 0.0)
    && (forall c :: 0 <= c < newCount.Length ==> newCount[c] == 0)
  }

  /** One pass of the loop body (lines 232-240): groupByCluster over every
      point, then updateCentroids. Starting from cleared accumulators, it
      performs one step of Lloyd's iteration, publishes the step's
      histogram, reports the largest squared shift, writes the labels only
      in the last iteration, and leaves the accumulators cleared again. */
  method LloydRound(arrayP: array2<real>, arrayPcluster: array<int>, arrayC: array2<real>, arrayCnumpoint: array<int>,
                    newCentroids: array2<real>, newCount: array<int>, last: bool, numGroups: int, localSize: int)
    returns (diffSquared: real)
    requires KernelShapes(arrayP, arrayPcluster, arrayC, newCentroids, newCount)
    requires arrayCnumpoint.Length == arrayC.Length0 && arrayCnumpoint != newCount && arrayCnumpoint != arrayPcluster
    requires arrayP != arrayC
    requires numGroups >= 0 && localSize >= 1 && numGroups * WorkPI * localSize >= arrayP.Length0
    requires Cleared(newCentroids, newCount)
    modifies arrayPcluster, arrayC, arrayCnumpoint, newCentroids, newCount
    ensures var ps, cs, dims, n := Rows(arrayP), old(Rows(arrayC)), arrayC.Length1, arrayP.Length0;
      && Rows(arrayC) == LloydStep(ps, cs, dims)
      && arrayCnumpoint[..] == Histogram(ps, cs, dims, 0, n)
      && diffSquared == MaxOf(Shifts(cs, Rows(arrayC), dims))
      && arrayPcluster[..] == if last then Labels(ps, cs, dims) else old(arrayPcluster[..])
    ensures Cleared(newCentroids, newCount)
  {
    ghost var ps, cs, dims, n := Rows(arrayP), Rows(arrayC), arrayC.Length1, arrayP.Length0;
    ghost var zeros, zeroCounts := Rows(newCentroids), newCount[..];
    GroupByCluster(arrayP, arrayPcluster, arrayC, newCentroids, newCount, last, numGroups, WorkPI, localSize);
    assert Min(n, numGroups * WorkPI * localSize) == n;
    AddToZeros(zeros, SumTable(ps, cs, dims, 0, n), zeroCounts, Histogram(ps, cs, dims, 0, n), dims);
    diffSquared := UpdateCentroids(arrayC, arrayCnumpoint, newCentroids, newCount, localSize);
    assert arrayPcluster[..] == if last then Labels(ps, cs, dims) else old(arrayPcluster[..]);
  }

  /** The early exit (lines 226-230): updateLabels over every point. */
  method Relabel(arrayP: array2<real>, arrayPcluster: array<int>, arrayC: array2<real>, numGroups: int, localSize: int)
    requires arrayP.Length0 == arrayPcluster.Length && arrayP.Length1 == arrayC.Length1 && 1 <= arrayC.Length0
    requires numGroups >= 0 && localSize >= 1 && numGroups * WorkPI * localSize >= arrayP.Length0
    modifies arrayPcluster
    ensures arrayPcluster[..] == Labels(Rows(arrayP), Rows(arrayC), arrayC.Length1)
  {
    UpdateLabels(arrayP, arrayPcluster, arrayC, numGroups, WorkPI, localSize);
    assert Min(arrayP.Length0, numGroups * WorkPI * localSize) == arrayP.Length0;
    assert arrayPcluster[..] == Labels(Rows(arrayP), Rows(arrayC), arrayC.Length1);
  }

  /* ---------------------------------------------------------------------
     The host loop on values.
     --------------------------------------------------------------------- */

  /** What the host loop carries from one iteration to the next: the
      centroids, the published counts and the labels held by the device
      buffers, `diff_host`, the iteration index, and whether the early exit
      has been taken. */
  datatype Host = Host(centroids: seq<seq<real>>, counts: seq<int>, labels: seq<int>,
                       diff: Distance, iterations: nat, relabelled: bool)

  /** The state before the first iteration (lines 210-213). */
  function Start(centroids: seq<seq<real>>, counts: seq<int>, labels: seq<int>): Host
  {
    Host(centroids, counts, labels, Infinite, 0, false)
  }

  /** One pass of the loop body (lines 232-240) on values: one step of
      Lloyd's iteration, the step's histogram published, the labels written
      in the last iteration only, and the shift recorded. */
  function Advance(ps: seq<seq<real>>, dims: nat, niters: int, h: Host): (r: Host)
    requires Shapes(ps, h.centroids, dims)
    ensures Shapes(ps, r.centroids, dims)
  {
    var next := LloydStep(ps, h.centroids, dims);
    Host(next, Histogram(ps, h.centroids, dims, 0, |ps|),
         if h.iterations == niters - 1 then Labels(ps, h.centroids, dims) else h.labels,
         Finite(MaxOf(Shifts(h.centroids, next, dims))), h.iterations + 1, false)
  }

  /** The loop of lines 224-240 run on values from state `h` on: it stops
      after `niters` iterations, or relabels every point and stops when the
      previous iteration's shift was below the tolerance, and otherwise
      advances by one pass. */
  function Run(ps: seq<seq<real>>, dims: nat, niters: int, tolerance: real, h: Host): (r: Host)
    requires Shapes(ps, h.centroids, dims)
    decreases if h.iterations < niters then niters - h.iterations else 0
  {
    if niters <= h.iterations || h.relabelled then h
    else if Converged(h.diff, tolerance) then h.(labels := Labels(ps, h.centroids, dims), relabelled := true)
    else Run(ps, dims, niters, tolerance, Advance(ps, dims, niters, h))
  }

  /** A state reached by the loop after `h.iterations` iterations without
      the early exit, started from centroids `c0`, counts `counts0` and
      labels `labels0`. */
  ghost predicate OnTrack(ps: seq<seq<real>>, c0: seq<seq<real>>, dims: nat, niters: int, tolerance: real,
                          counts0: seq<int>, labels0: seq<int>, h: Host)
    requires Shapes(ps, c0, dims)
  {
    && CentroidsOnTrack(ps, c0, dims, niters, counts0, h)
    && NoEarlierStop(ps, c0, dims, tolerance, h.iterations)
    && LabelsOnTrack(ps, c0, dims, niters, labels0, h)
  }

  /** The centroids, counts and shift of a state on track: those of
      Lloyd's iteration after `h.iterations` steps. */
  ghost predicate CentroidsOnTrack(ps: seq<seq<real>>, c0: seq<seq<real>>, dims: nat, niters: int,
                                   counts0: seq<int>, h: Host)
    requires Shapes(ps, c0, dims)
  {
    && !h.relabelled && (h.iterations <= niters || h.iterations == 0)
    && h.centroids == Lloyd(ps, c0, dims, h.iterations)
    && (h.iterations == 0 ==> h.diff == Infinite && h.counts == counts0)
    && (h.iterations >= 1 ==>
          && h.counts == Histogram(ps, Lloyd(ps, c0, dims, h.iterations - 1), dims, 0, |ps|)
          && h.diff == Finite(ShiftOfStep(ps, c0, dims, h.iterations)))
  }

  /** The labels of a state on track: untouched before the last iteration,
      those of the last assignment after it. */
  ghost predicate LabelsOnTrack(ps: seq<seq<real>>, c0: seq<seq<real>>, dims: nat, niters: int,
                                labels0: seq<int>, h: Host)
    requires Shapes(ps, c0, dims)
  {
    && (h.iterations < niters || h.iterations == 0 ==> h.labels == labels0)
    && (1 <= h.iterations == niters ==> h.labels == Labels(ps, Lloyd(ps, c0, dims, h.iterations - 1), dims))
  }

  /** No iteration before iteration `k` moved the centroids by less than
      the tolerance. */
  ghost predicate NoEarlierStop(ps: seq<seq<real>>, c0: seq<seq<real>>, dims: nat, tolerance: real, k: nat)
    requires Shapes(ps, c0, dims)
  {
    forall j :: 1 <= j < k ==> !Converged(Finite(ShiftOfStep(ps, c0, dims, j)), tolerance)
  }

  /** How the loop ends, in terms of Lloyd's iteration from `c0`. */
  ghost predicate Outcome(ps: seq<seq<real>>, c0: seq<seq<real>>, dims: nat, niters: int, tolerance: real,
                          counts0: seq<int>, labels0: seq<int>, r: Host)
    requires Shapes(ps, c0, dims)
  {
    && r.centroids == Lloyd(ps, c0, dims, r.iterations)
    && (niters <= 0 ==> r.iterations == 0 && r.counts == counts0 && r.labels == labels0 && !r.relabelled)
    && (niters >= 1 ==> 1 <= r.iterations <= niters)
    && (r.iterations >= 1 ==> r.counts == Histogram(ps, Lloyd(ps, c0, dims, r.iterations - 1), dims, 0, |ps|))
    && NoEarlierStop(ps, c0, dims, tolerance, r.iterations)
    && (r.relabelled ==>
          && r.iterations < niters && Converged(Finite(ShiftOfStep(ps, c0, dims, r.iterations)), tolerance)
          && r.labels == Labels(ps, r.centroids, dims))
    && (niters >= 1 && !r.relabelled ==>
          r.iterations == niters && r.labels == Labels(ps, Lloyd(ps, c0, dims, r.iterations - 1), dims))
  }

  /** One pass from the centroids of iteration `k` is iteration k + 1: it
      publishes the histogram of iteration k and records the shift of
      iteration k + 1. */
  lemma AdvanceIsLloydStep(ps: seq<seq<real>>, c0: seq<seq<real>>, dims: nat, niters: int, h: Host)
    requires Shapes(ps, c0, dims) && Shapes(ps, h.centroids, dims)
    requires h.centroids == Lloyd(ps, c0, dims, h.iterations)
    ensures Advance(ps, dims, niters, h).iterations == h.iterations + 1
    ensures Advance(ps, dims, niters, h).centroids == Lloyd(ps, c0, dims, Advance(ps, dims, niters, h).iterations)
    ensures Advance(ps, dims, niters, h).counts
            == Histogram(ps, Lloyd(ps, c0, dims, Advance(ps, dims, niters, h).iterations - 1), dims, 0, |ps|)
    ensures Advance(ps, dims, niters, h).diff == Finite(ShiftOfStep(ps, c0, dims, Advance(ps, dims, niters, h).iterations))
  {
    var h' := Advance(ps, dims, niters, h);
    assert h'.iterations - 1 == h.iterations;
  }

  /** An iteration that did not stop extends the run without early stops. */
  lemma NoEarlierStopExtends(ps: seq<seq<real>>, c0: seq<seq<real>>, dims: nat, tolerance: real, k: nat)
    requires Shapes(ps, c0, dims)
    requires NoEarlierStop(ps, c0, dims, tolerance, k)
    requires k >= 1 ==> !Converged(Finite(ShiftOfStep(ps, c0, dims, k)), tolerance)
    ensures NoEarlierStop(ps, c0, dims, tolerance, k + 1)
  {
    forall j | 1 <= j < k + 1
      ensures !Converged(Finite(ShiftOfStep(ps, c0, dims, j)), tolerance)
    {
      if j < k {
        assert NoEarlierStop(ps, c0, dims, tolerance, k);
      }
    }
  }

  /** One pass keeps the loop on track when it does not stop. */
  lemma AdvanceOnTrack(ps: seq<seq<real>>, c0: seq<seq<real>>, dims: nat, niters: int, tolerance: real,
                       counts0: seq<int>, labels0: seq<int>, h: Host)
    requires Shapes(ps, c0, dims) && Shapes(ps, h.centroids, dims)
    requires OnTrack(ps, c0, dims, niters, tolerance, counts0, labels0, h)
    requires h.iterations < niters && !Converged(h.diff, tolerance)
    ensures OnTrack(ps, c0, dims, niters, tolerance, counts0, labels0, Advance(ps, dims, niters, h))
  {
    var i := h.iterations;
    AdvanceCentroids(ps, c0, dims, niters, counts0, h);
    AdvanceLabels(ps, c0, dims, niters, labels0, h);
    NoEarlierStopExtends(ps, c0, dims, tolerance, i);
  }

  /** One pass keeps the centroids, counts and shift on track. */
  lemma AdvanceCentroids(ps: seq<seq<real>>, c0: seq<seq<real>>, dims: nat, niters: int, counts0: seq<int>, h: Host)
    requires Shapes(ps, c0, dims) && Shapes(ps, h.centroids, dims)
    requires CentroidsOnTrack(ps, c0, dims, niters, counts0, h)
    requires h.iterations < niters
    ensures CentroidsOnTrack(ps, c0, dims, niters, counts0, Advance(ps, dims, niters, h))
  {
    AdvanceIsLloydStep(ps, c0, dims, niters, h);
  }

  /** One pass keeps the labels on track. */
  lemma AdvanceLabels(ps: seq<seq<real>>, c0: seq<seq<real>>, dims: nat, niters: int, labels0: seq<int>, h: Host)
    requires Shapes(ps, c0, dims) && Shapes(ps, h.centroids, dims)
    requires h.centroids == Lloyd(ps, c0, dims, h.iterations)
    requires LabelsOnTrack(ps, c0, dims, niters, labels0, h)
    requires h.iterations < niters
    ensures LabelsOnTrack(ps, c0, dims, niters, labels0, Advance(ps, dims, niters, h))
  {
  }

  /** A state where the loop stops already shows the outcome. */
  lemma StopOutcome(ps: seq<seq<real>>, c0: seq<seq<real>>, dims: nat, niters: int, tolerance: real,
                    counts0: seq<int>, labels0: seq<int>, h: Host)
    requires Shapes(ps, c0, dims) && Shapes(ps, h.centroids, dims)
    requires OnTrack(ps, c0, dims, niters, tolerance, counts0, labels0, h)
    requires niters <= h.iterations || Converged(h.diff, tolerance)
    ensures Outcome(ps, c0, dims, niters, tolerance, counts0, labels0, Run(ps, dims, niters, tolerance, h))
  {
    if niters <= h.iterations {
      assert Run(ps, dims, niters, tolerance, h) == h;
    } else {
      var r := h.(labels := Labels(ps, h.centroids, dims), relabelled := true);
      assert Run(ps, dims, niters, tolerance, h) == r;
      assert h.iterations >= 1;
    }
  }

  /** From a state on track, the loop ends with the centroids of Lloyd's
      iteration after the iterations it ran, the histogram of the iteration
      before, and either the labels of the last assignment (all `niters`
      iterations ran) or a relabelling after the first iteration whose
      shift fell below the tolerance, no earlier iteration having done so. */
  lemma {:induction false} RunOnTrack(ps: seq<seq<real>>, c0: seq<seq<real>>, dims: nat, niters: int, tolerance: real,
                                      counts0: seq<int>, labels0: seq<int>, h: Host)
    requires Shapes(ps, c0, dims) && Shapes(ps, h.centroids, dims)
    requires OnTrack(ps, c0, dims, niters, tolerance, counts0, labels0, h)
    ensures Outcome(ps, c0, dims, niters, tolerance, counts0, labels0, Run(ps, dims, niters, tolerance, h))
    decreases if h.iterations < niters then niters - h.iterations else 0
  {
    if niters <= h.iterations || Converged(h.diff, tolerance) {
      StopOutcome(ps, c0, dims, niters, tolerance, counts0, labels0, h);
    } else {
      var h' := Advance(ps, dims, niters, h);
      AdvanceOnTrack(ps, c0, dims, niters, tolerance, counts0, labels0, h);
      assert Run(ps, dims, niters, tolerance, h) == Run(ps, dims, niters, tolerance, h');
      RunOnTrack(ps, c0, dims, niters, tolerance, counts0, labels0, h');
    }
  }

  /** The loop from its start state ends in an Outcome: the centroids
      after the run are those of Lloyd's iteration after the iterations it
      ran, between 1 and `niters` when `niters` is positive; the published
      counts are the histogram of the iteration before; no iteration before
      the last moved the centroids by less than the tolerance; the early
      exit relabels the points by the final centroids, and without it the
      labels are those of the last assignment. A tolerance of 0 or less
      never exits early. */
  lemma RunFromStart(ps: seq<seq<real>>, c0: seq<seq<real>>, dims: nat, niters: int, tolerance: real,
                     counts0: seq<int>, labels0: seq<int>)
    requires Shapes(ps, c0, dims)
    ensures Outcome(ps, c0, dims, niters, tolerance, counts0, labels0, Run(ps, dims, niters, tolerance, Start(c0, counts0, labels0)))
    ensures tolerance <= 0.0 ==> !Run(ps, dims, niters, tolerance, Start(c0, counts0, labels0)).relabelled
  {
    var h := Start(c0, counts0, labels0);
    assert Lloyd(ps, c0, dims, 0) == c0;
    assert OnTrack(ps, c0, dims, niters, tolerance, counts0, labels0, h);
    RunOnTrack(ps, c0, dims, niters, tolerance, counts0, labels0, h);
  }

  /* ---------------------------------------------------------------------
     The host loop over the device buffers.
     --------------------------------------------------------------------- */

  /** The launch geometry of lines 216-218: work groups of
      L = min(1024, max work-group size) items, each item handling WorkPI
      points, and just enough groups to cover all points. */
  method LaunchGeometry(numPoints: int, maxWorkGroupSize: int) returns (numGroups: int, localSize: int)
    requires numPoints >= 0 && maxWorkGroupSize >= 1
    ensures localSize == Min(MaxLocalSize, maxWorkGroupSize) && 1 <= localSize <= MaxLocalSize
    ensures numGroups >= 0 && numGroups * WorkPI * localSize >= numPoints
    ensures numGroups == 0 || (numGroups - 1) * WorkPI * localSize < numPoints
  {
    localSize := Min(MaxLocalSize, maxWorkGroupSize);
    var globalSize := Align(DivUp(numPoints, WorkPI), localSize);
    numGroups := globalSize / localSize;
    LaunchCoversPoints(numPoints, localSize);
  }

  /** One iteration of the loop (lines 225-240) from host state `i`,
      `diffHost`: either the early exit of lines 226-230, which relabels
      every point and reports `stop`, or the pass of lines 232-240. Either
      way the loop's outcome from the new state is its outcome from the old
      one. */
  method Iteration(arrayP: array2<real>, arrayPcluster: array<int>, arrayC: array2<real>, arrayCnumpoint: array<int>,
                   newCentroids: array2<real>, newCount: array<int>, numGroups: int, localSize: int,
                   niters: int, tolerance: real, diffHost: Distance, i: nat)
    returns (diffNext: Distance, stop: bool)
    requires KernelShapes(arrayP, arrayPcluster, arrayC, newCentroids, newCount)
    requires arrayCnumpoint.Length == arrayC.Length0 && arrayCnumpoint != newCount && arrayCnumpoint != arrayPcluster
    requires arrayP != arrayC
    requires numGroups >= 0 && localSize >= 1 && numGroups * WorkPI * localSize >= arrayP.Length0
    requires i < niters && Cleared(newCentroids, newCount)
    modifies arrayPcluster, arrayC, arrayCnumpoint, newCentroids, newCount
    ensures Cleared(newCentroids, newCount)
    ensures var ps, dims := Rows(arrayP), arrayC.Length1;
      Run(ps, dims, niters, tolerance, Host(Rows(arrayC), arrayCnumpoint[..], arrayPcluster[..], diffNext,
                                            if stop then i else i + 1, stop))
      == Run(ps, dims, niters, tolerance, Host(old(Rows(arrayC)), old(arrayCnumpoint[..]), old(arrayPcluster[..]),
                                               diffHost, i, false))
  {
    if Converged(diffHost, tolerance) {
      Relabel(arrayP, arrayPcluster, arrayC, numGroups, localSize);
      return diffHost, true;
    }
    ghost var h := Host(Rows(arrayC), arrayCnumpoint[..], arrayPcluster[..], diffHost, i, false);
    var diffSquared := LloydRound(arrayP, arrayPcluster, arrayC, arrayCnumpoint, newCentroids, newCount,
                                  i == niters - 1, numGroups, localSize);
    diffNext, stop := Finite(diffSquared), false;
    assert Host(Rows(arrayC), arrayCnumpoint[..], arrayPcluster[..], diffNext, i + 1, false)
           == Advance(Rows(arrayP), arrayC.Length1, niters, h);
  }

  /** The iteration loop of kmeans_kernel (lines 198-240), with the
      tolerance of line 215 and the device's maximum work-group size as
      parameters. The buffers end as Run leaves them; `final` is that
      state. */
  method KMeansKernel(arrayP: array2<real>, arrayPcluster: array<int>, arrayC: array2<real>, arrayCnumpoint: array<int>,
                      niters: int, maxWorkGroupSize: int, tolerance: real)
    returns (ghost final: Host)
    requires arrayP.Length0 == arrayPcluster.Length && arrayP.Length1 == arrayC.Length1
    requires 1 <= arrayC.Length0 == arrayCnumpoint.Length
    requires arrayP != arrayC && arrayPcluster != arrayCnumpoint
    requires maxWorkGroupSize >= 1
    modifies arrayPcluster, arrayC, arrayCnumpoint
    ensures final == Run(Rows(arrayP), arrayC.Length1, niters, tolerance,
                         Start(old(Rows(arrayC)), old(arrayCnumpoint[..]), old(arrayPcluster[..])))
    ensures Rows(arrayC) == final.centroids && arrayCnumpoint[..] == final.counts && arrayPcluster[..] == final.labels
  {
    ghost var ps, dims := Rows(arrayP), arrayC.Length1;
    ghost var start := Start(Rows(arrayC), arrayCnumpoint[..], arrayPcluster[..]);
    var newCentroids := new real[arrayC.Length0, arrayC.Length1]((c, d) => 0.0);
    var newCount := new int[arrayCnumpoint.Length](c => 0);
    var diffHost := Infinite;
    var numGroups, localSize := LaunchGeometry(arrayP.Length0, maxWorkGroupSize);
    var i := 0;
    while i < niters
      invariant 0 <= i && Rows(arrayP) == ps
      invariant Run(ps, dims, niters, tolerance, Host(Rows(arrayC), arrayCnumpoint[..], arrayPcluster[..], diffHost, i, false))
                == Run(ps, dims, niters, tolerance, start)
      invariant Cleared(newCentroids, newCount)
    {
      var stop;
      diffHost, stop := Iteration(arrayP, arrayPcluster, arrayC, arrayCnumpoint, newCentroids, newCount,
                                  numGroups, localSize, niters, tolerance, diffHost, i);
      if stop {
        final := Host(Rows(arrayC), arrayCnumpoint[..], arrayPcluster[..], diffHost, i, true);
        return;
      }
      i := i + 1;
    }
    final := Host(Rows(arrayC), arrayCnumpoint[..], arrayPcluster[..], diffHost, i, false);
  }

  /** kmeans (lines 243-244): kmeans_kernel with the tolerance of 0 set on
      line 215, under which the early exit is never taken, so the benchmark
      runs exactly `niters` steps of Lloyd's iteration, publishes the
      histogram of the last step and labels every point by the centroids of
      the last assignment. */
  method KMeans(arrayP: array2<real>, arrayPclusters: array<int>, arrayC: array2<real>, arrayCnumpoint: array<int>,
                niters: int, maxWorkGroupSize: int)
    requires arrayP.Length0 == arrayPclusters.Length && arrayP.Length1 == arrayC.Length1
    requires 1 <= arrayC.Length0 == arrayCnumpoint.Length
    requires arrayP != arrayC && arrayPclusters != arrayCnumpoint
    requires maxWorkGroupSize >= 1
    modifies arrayPclusters, arrayC, arrayCnumpoint
    ensures niters <= 0 ==>
              Rows(arrayC) == old(Rows(arrayC)) && arrayCnumpoint[..] == old(arrayCnumpoint[..])
              && arrayPclusters[..] == old(arrayPclusters[..])
    ensures niters >= 1 ==>
              && Rows(arrayC) == Lloyd(Rows(arrayP), old(Rows(arrayC)), arrayC.Length1, niters)
              && arrayCnumpoint[..] == Histogram(Rows(arrayP), Lloyd(Rows(arrayP), old(Rows(arrayC)), arrayC.Length1, niters - 1),
                                                 arrayC.Length1, 0, arrayP.Length0)
              && arrayPclusters[..] == Labels(Rows(arrayP), Lloyd(Rows(arrayP), old(Rows(arrayC)), arrayC.Length1, niters - 1),
                                              arrayC.Length1)
  {
    ghost var ps, c0, counts0, labels0 := Rows(arrayP), Rows(arrayC), arrayCnumpoint[..], arrayPclusters[..];
    ghost var final := KMeansKernel(arrayP, arrayPclusters, arrayC, arrayCnumpoint, niters, maxWorkGroupSize, 0.0);
    RunFromStart(ps, c0, arrayC.Length1, niters, 0.0, counts0, labels0);
  }
}
