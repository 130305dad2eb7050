/** Two places where updateCentroids (kmeans_numba_dpex_k.py, lines
    111-143) does not compute what its use as a convergence measure needs.
    Each is modelled as written, with the input that shows the difference;
    the kernels of module KMeansKernels follow the evidently intended
    reading, proved there. */
module KMeansFindings {
  import opened KMeansSpec

  /* ---------------------------------------------------------------------
     Line 132: `distance += d0 * d0 - d1 * d1`.
     --------------------------------------------------------------------- */

  /** Squared Euclidean norm of a row. */
  function SqNorm(x: seq<real>): real
    decreases |x|
  {
    if |x| == 0 then 0.0 else SqNorm(x[..|x| - 1]) + Sq(x[|x| - 1])
  }

  /** The per-centroid quantity of lines 126-132 as written, summed over
      the coordinates of the old row `before` and the new row `after`. It
      is the drop in squared norm, not the squared distance moved. */
  function NormDrop(before: seq<real>, after: seq<real>): (r: real)
    requires |before| == |after|
    ensures r == SqNorm(before) - SqNorm(after)
    decreases |before|
  {
    if |before| == 0 then 0.0
    else
      var d0, d1 := before[|before| - 1], after[|after| - 1];
      NormDrop(before[..|before| - 1], after[..|after| - 1]) + (d0 * d0 - d1 * d1)
  }

  /** A row reflected through the origin. */
  function Negated(x: seq<real>): (r: seq<real>)
    ensures |r| == |x| && forall i :: 0 <= i < |x| ==> r[i] == -x[i]
  {
    seq(|x|, i requires 0 <= i < |x| => -x[i])
  }

  /** Reflection keeps the squared norm. */
  lemma {:induction false} SqNormNegated(x: seq<real>)
    ensures SqNorm(Negated(x)) == SqNorm(x)
    decreases |x|
  {
    if |x| > 0 {
      var n := Negated(x);
      assert n[..|n| - 1] == Negated(x[..|x| - 1]);
      SqNormNegated(x[..|x| - 1]);
      assert Sq(n[|n| - 1]) == Sq(x[|x| - 1]);
    }
  }

  /** As written, a centroid that jumps to its mirror image through the
      origin reports a change of 0, although it moved: with one dimension,
      before = [1.0] and after = [-1.0] give 1 - 1 = 0 while the squared
      distance moved is 4. */
  lemma ReflectionGoesUnnoticed(x: seq<real>)
    ensures NormDrop(x, Negated(x)) == 0.0
    ensures x != Negated(x) ==> SqDist(x, Negated(x)) > 0.0
  {
    SqNormNegated(x);
    if x != Negated(x) {
      SqDistZero(x, Negated(x));
    }
  }

  /** The concrete input of the finding. */
  lemma ReflectionExample()
    ensures NormDrop([1.0], [-1.0]) == 0.0 && SqDist([1.0], [-1.0]) == 4.0
  {
    ReflectionGoesUnnoticed([1.0]);
    assert Negated([1.0]) == [-1.0];
    SqDistSnoc([], [], 1.0, -1.0);
  }

  /* ---------------------------------------------------------------------
     Line 135: `local_distance[c] = max_distance`.
     --------------------------------------------------------------------- */

  /** The slot of `local_distance` that centroid c's work-item writes, as
      written: slot c, in a buffer of `local_size_` = L slots (line 115). */
  function SlotAsWritten(c: int): int { c }

  /** The slot intended: that of the work-item handling centroid c, which
      in a group of S work-items is c mod S (line 118). */
  function SlotIntended(c: int, groupSize: int): (r: int)
    requires groupSize >= 1
    ensures 0 <= r < groupSize
  {
    c % groupSize
  }

  /** Every slot written as written lies in the buffer exactly when there
      are no more centroids than L: with K = 3 and L = 2, the group has
      S = min(K, L) = 2 work-items, work-item 0 handles centroids 0 and 2,
      and centroid 2 writes slot 2 of a two-slot buffer. */
  lemma AsWrittenSlotsFit(numCentroids: int, localSize: int)
    requires numCentroids >= 1 && localSize >= 1
    ensures (forall c :: 0 <= c < numCentroids ==> SlotAsWritten(c) < localSize) <==> numCentroids <= localSize
  {
    if numCentroids > localSize {
      assert SlotAsWritten(numCentroids - 1) >= localSize;
    }
  }

  /** The intended slots always lie in the buffer, and wherever the code as
      written stays in bounds (K <= L, so S = K) they are the slots it
      writes; the reduction of lines 139-140 over slots [0, S) then sees
      every work-item's maximum. */
  lemma IntendedSlotsFit(numCentroids: int, localSize: int)
    requires numCentroids >= 1 && localSize >= 1
    ensures var groupSize := if numCentroids < localSize then numCentroids else localSize;
      forall c :: 0 <= c < numCentroids ==>
        && SlotIntended(c, groupSize) < localSize
        && (numCentroids <= localSize ==> SlotIntended(c, groupSize) == SlotAsWritten(c))
  {
    var groupSize := if numCentroids < localSize then numCentroids else localSize;
    forall c | 0 <= c < numCentroids
      ensures SlotIntended(c, groupSize) < localSize
      ensures numCentroids <= localSize ==> SlotIntended(c, groupSize) == SlotAsWritten(c)
    {
      if numCentroids <= localSize {
        assert groupSize == numCentroids;
        assert c / groupSize == 0;
      }
    }
  }
}
