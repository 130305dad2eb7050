/** Value-level specification of one k-means assignment step: squared
    distances, the nearest-centroid rule with its lowest-index tie-break, and
    the per-cluster point counts and coordinate sums that the assignment
    kernel accumulates. Points and centroids are rows of reals; the kernels
    in module KMeans are proved against these functions. */
module KMeansSpec {

  /** Every row of `rows` has `dims` coordinates. */
  predicate Rect(rows: seq<seq<real>>, dims: nat)
  {
    forall r :: 0 <= r < |rows| ==> |rows[r]| == dims
  }

  /** Squared Euclidean distance, accumulated dimension by dimension in
      increasing order, as the kernels' `sq_sum` loop does. */
  function SqDist(x: seq<real>, y: seq<real>): (r: real)
    requires |x| == |y|
    ensures r >= 0.0
    decreases |x|
  {
    if |x| == 0 then 0.0
    else SqDist(x[..|x| - 1], y[..|y| - 1]) + Sq(x[|x| - 1] - y[|y| - 1])
  }

  /** The square of a coordinate difference: never negative. */
  function Sq(e: real): (r: real)
    ensures r >= 0.0
  {
    e * e
  }

  /** Only zero squares to zero. */
  lemma SquarePositive(e: real)
    requires e != 0.0
    ensures Sq(e) > 0.0
  {
    calc {
      Sq(e);
    ==
      e * e;
    > { if e > 0.0 { } else { } }
      0.0;
    }
  }

  /** One more dimension adds its squared difference. */
  lemma SqDistSnoc(x: seq<real>, y: seq<real>, a: real, b: real)
    requires |x| == |y|
    ensures SqDist(x + [a], y + [b]) == SqDist(x, y) + Sq(a - b)
  {
    var xa, yb := x + [a], y + [b];
    assert xa[..|xa| - 1] == x && yb[..|yb| - 1] == y;
    assert xa[|xa| - 1] == a && yb[|yb| - 1] == b;
  }

  /** The candidate the centroid scan holds after looking at the first `k`
      centroids: the scan starts from an infinite minimum, so centroid 0 is
      always taken first, and a later centroid replaces the candidate only
      when it is strictly closer. */
  function NearestAmong(x: seq<real>, cs: seq<seq<real>>, k: nat): (r: nat)
    requires 1 <= k <= |cs|
    requires Rect(cs, |x|)
    ensures r < k
  {
    if k == 1 then 0
    else
      var b := NearestAmong(x, cs, k - 1);
      if SqDist(x, cs[k - 1]) < SqDist(x, cs[b]) then k - 1 else b
  }

  /** `r` is a nearest centroid of `x` among the first `k`, and no centroid
      of lower index is as near. */
  predicate IsFirstNearest(x: seq<real>, cs: seq<seq<real>>, k: nat, r: int)
    requires k <= |cs|
    requires Rect(cs, |x|)
  {
    && 0 <= r < k
    && (forall c :: 0 <= c < k ==> SqDist(x, cs[r]) <= SqDist(x, cs[c]))
    && (forall c :: 0 <= c < r ==> SqDist(x, cs[r]) < SqDist(x, cs[c]))
  }

  /** The scan's candidate is the first nearest centroid. */
  lemma {:induction false} NearestAmongIsFirstNearest(x: seq<real>, cs: seq<seq<real>>, k: nat)
    requires 1 <= k <= |cs|
    requires Rect(cs, |x|)
    ensures IsFirstNearest(x, cs, k, NearestAmong(x, cs, k))
  {
    if k > 1 {
      NearestAmongIsFirstNearest(x, cs, k - 1);
    }
  }

  /** The first nearest centroid is unique, so the scan computes exactly it:
      `r` is the scan's result if and only if it is the first nearest. */
  lemma NearestAmongCharacterised(x: seq<real>, cs: seq<seq<real>>, k: nat, r: int)
    requires 1 <= k <= |cs|
    requires Rect(cs, |x|)
    ensures r == NearestAmong(x, cs, k) <==> IsFirstNearest(x, cs, k, r)
  {
    NearestAmongIsFirstNearest(x, cs, k);
  }

  /** The label the assignment rule gives point `p`. */
  function Label(ps: seq<seq<real>>, cs: seq<seq<real>>, p: int): (r: nat)
    requires 0 <= p < |ps|
    requires 1 <= |cs|
    requires Rect(cs, |ps[p]|)
    ensures r < |cs|
  {
    NearestAmong(ps[p], cs, |cs|)
  }

  /** Points and centroids agree on a dimension, and there is a centroid. */
  predicate Shapes(ps: seq<seq<real>>, cs: seq<seq<real>>, dims: nat)
  {
    1 <= |cs| && Rect(ps, dims) && Rect(cs, dims)
  }

  /** The labels the assignment rule gives all points. */
  function Labels(ps: seq<seq<real>>, cs: seq<seq<real>>, dims: nat): (ls: seq<int>)
    requires Shapes(ps, cs, dims)
    ensures |ls| == |ps|
    ensures forall p :: 0 <= p < |ps| ==> ls[p] == Label(ps, cs, p)
  {
    seq(|ps|, p requires 0 <= p < |ps| => Label(ps, cs, p))
  }

  /** Number of points in `ps[lo..hi)` labelled `c`. */
  function CountIn(ps: seq<seq<real>>, cs: seq<seq<real>>, dims: nat, lo: int, hi: int, c: int): nat
    requires Shapes(ps, cs, dims)
    requires 0 <= lo <= hi <= |ps|
    decreases hi - lo
  {
    if hi == lo then 0
    else CountIn(ps, cs, dims, lo, hi - 1, c) + (if Label(ps, cs, hi - 1) == c then 1 else 0)
  }

  /** Sum of coordinate `d` over the points in `ps[lo..hi)` labelled `c`. */
  function SumIn(ps: seq<seq<real>>, cs: seq<seq<real>>, dims: nat, lo: int, hi: int, c: int, d: int): real
    requires Shapes(ps, cs, dims)
    requires 0 <= lo <= hi <= |ps|
    requires 0 <= d < dims
    decreases hi - lo
  {
    if hi == lo then 0.0
    else SumIn(ps, cs, dims, lo, hi - 1, c, d) + (if Label(ps, cs, hi - 1) == c then ps[hi - 1][d] else 0.0)
  }

  /** Counting over two adjacent ranges adds up. */
  lemma {:induction false} CountInSplit(ps: seq<seq<real>>, cs: seq<seq<real>>, dims: nat, lo: int, mid: int, hi: int, c: int)
    requires Shapes(ps, cs, dims)
    requires 0 <= lo <= mid <= hi <= |ps|
    ensures CountIn(ps, cs, dims, lo, mid, c) + CountIn(ps, cs, dims, mid, hi, c) == CountIn(ps, cs, dims, lo, hi, c)
    decreases hi - mid
  {
    if hi > mid {
      CountInSplit(ps, cs, dims, lo, mid, hi - 1, c);
    }
  }

  /** Summing over two adjacent ranges adds up. */
  lemma {:induction false} SumInSplit(ps: seq<seq<real>>, cs: seq<seq<real>>, dims: nat, lo: int, mid: int, hi: int, c: int, d: int)
    requires Shapes(ps, cs, dims)
    requires 0 <= lo <= mid <= hi <= |ps|
    requires 0 <= d < dims
    ensures SumIn(ps, cs, dims, lo, mid, c, d) + SumIn(ps, cs, dims, mid, hi, c, d) == SumIn(ps, cs, dims, lo, hi, c, d)
    decreases hi - mid
  {
    if hi > mid {
      SumInSplit(ps, cs, dims, lo, mid, hi - 1, c, d);
    }
  }

  /** Sum of a sequence of integers. */
  function SumInts(s: seq<int>): int
  {
    if |s| == 0 then 0 else SumInts(s[..|s| - 1]) + s[|s| - 1]
  }

  /** Replacing one element changes the sum by the difference. */
  lemma {:induction false} SumIntsUpdate(s: seq<int>, i: int, v: int)
    requires 0 <= i < |s|
    ensures SumInts(s[i := v]) == SumInts(s) - s[i] + v
    decreases |s|
  {
    var t := s[i := v];
    if i < |s| - 1 {
      assert t[..|t| - 1] == s[..|s| - 1][i := v];
      SumIntsUpdate(s[..|s| - 1], i, v);
    } else {
      assert t[..|t| - 1] == s[..|s| - 1];
    }
  }

  /** The per-cluster point counts of `ps[lo..hi)`, one entry per centroid. */
  function Histogram(ps: seq<seq<real>>, cs: seq<seq<real>>, dims: nat, lo: int, hi: int): (h: seq<int>)
    requires Shapes(ps, cs, dims)
    requires 0 <= lo <= hi <= |ps|
    ensures |h| == |cs|
  {
    seq(|cs|, c => CountIn(ps, cs, dims, lo, hi, c))
  }

  /** The per-cluster coordinate sums of `ps[lo..hi)`: row c holds, for
      every dimension d, the sum SumIn of the points labelled c. */
  function SumTable(ps: seq<seq<real>>, cs: seq<seq<real>>, dims: nat, lo: int, hi: int): (t: seq<seq<real>>)
    requires Shapes(ps, cs, dims)
    requires 0 <= lo <= hi <= |ps|
    ensures |t| == |cs| && Rect(t, dims)
  {
    seq(|cs|, c => seq(dims, d requires 0 <= d < dims => SumIn(ps, cs, dims, lo, hi, c, d)))
  }

  /** A table of sums with point `x` added into row `k`. */
  function AddInto(t: seq<seq<real>>, k: int, x: seq<real>): (r: seq<seq<real>>)
    requires 0 <= k < |t| && |t[k]| == |x|
    ensures |r| == |t|
  {
    t[k := seq(|x|, d requires 0 <= d < |x| => t[k][d] + x[d])]
  }

  /** Taking in point `hi` adds its coordinates to the row of its label and
      counts it there; no other row changes. */
  lemma SumTableStep(ps: seq<seq<real>>, cs: seq<seq<real>>, dims: nat, lo: int, hi: int)
    requires Shapes(ps, cs, dims)
    requires 0 <= lo <= hi < |ps|
    ensures var k := Label(ps, cs, hi);
      && SumTable(ps, cs, dims, lo, hi + 1) == AddInto(SumTable(ps, cs, dims, lo, hi), k, ps[hi])
      && Histogram(ps, cs, dims, lo, hi + 1) == Histogram(ps, cs, dims, lo, hi)[k := Histogram(ps, cs, dims, lo, hi)[k] + 1]
  {
    var k := Label(ps, cs, hi);
    var t, u := SumTable(ps, cs, dims, lo, hi + 1), AddInto(SumTable(ps, cs, dims, lo, hi), k, ps[hi]);
    forall c | 0 <= c < |cs| ensures t[c] == u[c]
    {
      forall d | 0 <= d < dims ensures t[c][d] == u[c][d]
      {
        assert t[c][d] == SumIn(ps, cs, dims, lo, hi, c, d) + (if k == c then ps[hi][d] else 0.0);
      }
    }
  }

  /** Entrywise sum of two tables of sums: what the atomic adds into the
      global accumulator do. */
  function AddTables(a: seq<seq<real>>, b: seq<seq<real>>, dims: nat): (r: seq<seq<real>>)
    requires |a| == |b| && Rect(a, dims) && Rect(b, dims)
    ensures |r| == |a| && Rect(r, dims)
  {
    seq(|a|, c requires 0 <= c < |a| => seq(dims, d requires 0 <= d < dims => a[c][d] + b[c][d]))
  }

  /** Entrywise sum of two count vectors. */
  function AddCounts(a: seq<int>, b: seq<int>): (r: seq<int>)
    requires |a| == |b|
    ensures |r| == |a|
  {
    seq(|a|, c requires 0 <= c < |a| => a[c] + b[c])
  }

  /** An empty range of points adds nothing. */
  lemma AccumulateNothing(a: seq<seq<real>>, h: seq<int>, ps: seq<seq<real>>, cs: seq<seq<real>>, dims: nat, lo: int)
    requires Shapes(ps, cs, dims)
    requires 0 <= lo <= |ps|
    requires |a| == |cs| && Rect(a, dims) && |h| == |cs|
    ensures AddTables(a, SumTable(ps, cs, dims, lo, lo), dims) == a
    ensures AddCounts(h, Histogram(ps, cs, dims, lo, lo)) == h
  {
    var l := AddTables(a, SumTable(ps, cs, dims, lo, lo), dims);
    forall c | 0 <= c < |cs| ensures l[c] == a[c]
    {
      assert forall d :: 0 <= d < dims ==> l[c][d] == a[c][d];
    }
  }

  /** Accumulating the sums of [lo, mid) and then of [mid, hi) is
      accumulating the sums of [lo, hi). */
  lemma AccumulateSplit(a: seq<seq<real>>, ps: seq<seq<real>>, cs: seq<seq<real>>, dims: nat, lo: int, mid: int, hi: int)
    requires Shapes(ps, cs, dims)
    requires 0 <= lo <= mid <= hi <= |ps|
    requires |a| == |cs| && Rect(a, dims)
    ensures AddTables(AddTables(a, SumTable(ps, cs, dims, lo, mid), dims), SumTable(ps, cs, dims, mid, hi), dims)
         == AddTables(a, SumTable(ps, cs, dims, lo, hi), dims)
  {
    var l := AddTables(AddTables(a, SumTable(ps, cs, dims, lo, mid), dims), SumTable(ps, cs, dims, mid, hi), dims);
    var r := AddTables(a, SumTable(ps, cs, dims, lo, hi), dims);
    forall c | 0 <= c < |cs| ensures l[c] == r[c]
    {
      forall d | 0 <= d < dims ensures l[c][d] == r[c][d]
      {
        SumInSplit(ps, cs, dims, lo, mid, hi, c, d);
      }
    }
  }

  /** Counting [lo, mid) and then [mid, hi) is counting [lo, hi). */
  lemma CountSplit(h: seq<int>, ps: seq<seq<real>>, cs: seq<seq<real>>, dims: nat, lo: int, mid: int, hi: int)
    requires Shapes(ps, cs, dims)
    requires 0 <= lo <= mid <= hi <= |ps|
    requires |h| == |cs|
    ensures AddCounts(AddCounts(h, Histogram(ps, cs, dims, lo, mid)), Histogram(ps, cs, dims, mid, hi))
         == AddCounts(h, Histogram(ps, cs, dims, lo, hi))
  {
    var l := AddCounts(AddCounts(h, Histogram(ps, cs, dims, lo, mid)), Histogram(ps, cs, dims, mid, hi));
    var r := AddCounts(h, Histogram(ps, cs, dims, lo, hi));
    forall c | 0 <= c < |cs| ensures l[c] == r[c]
    {
      CountInSplit(ps, cs, dims, lo, mid, hi, c);
    }
  }

  /** Count conservation: every point gets exactly one label in [0, K), so
      the per-cluster counts of a range add up to the range's length. */
  lemma {:induction false} HistogramTotal(ps: seq<seq<real>>, cs: seq<seq<real>>, dims: nat, lo: int, hi: int)
    requires Shapes(ps, cs, dims)
    requires 0 <= lo <= hi <= |ps|
    ensures SumInts(Histogram(ps, cs, dims, lo, hi)) == hi - lo
    decreases hi - lo
  {
    if hi == lo {
      var h := Histogram(ps, cs, dims, lo, hi);
      forall c | 0 <= c < |h| ensures h[c] == 0 { }
      ZeroSum(h);
    } else {
      HistogramTotal(ps, cs, dims, lo, hi - 1);
      var prev := Histogram(ps, cs, dims, lo, hi - 1);
      var l := Label(ps, cs, hi - 1);
      assert Histogram(ps, cs, dims, lo, hi) == prev[l := prev[l] + 1];
      SumIntsUpdate(prev, l, prev[l] + 1);
    }
  }

  /** A sequence of zeros sums to zero. */
  lemma {:induction false} ZeroSum(s: seq<int>)
    requires forall i :: 0 <= i < |s| ==> s[i] == 0
    ensures SumInts(s) == 0
    decreases |s|
  {
    if |s| > 0 {
      ZeroSum(s[..|s| - 1]);
    }
  }

  /* ---------------------------------------------------------------------
     The update step.
     --------------------------------------------------------------------- */

  /** The larger of two reals. */
  function RMax(a: real, b: real): real { if a > b then a else b }

  /** The new coordinate of a centroid: the accumulated sum divided by the
      count when the centroid gained points, the old coordinate otherwise. */
  function MeanOrKeep(sum: real, count: int, current: real): real
  {
    if count > 0 then sum / count as real else current
  }

  /** A centroid row moved to the mean of its accumulated sums, or kept
      when it gained no points. */
  function MeanRow(sums: seq<real>, count: int, current: seq<real>): (r: seq<real>)
    requires |sums| == |current|
    ensures |r| == |current|
  {
    seq(|current|, d requires 0 <= d < |current| => MeanOrKeep(sums[d], count, current[d]))
  }

  /** Every centroid moved to the mean of its accumulated sums, or kept. */
  function Means(sums: seq<seq<real>>, counts: seq<int>, cs: seq<seq<real>>, dims: nat): (r: seq<seq<real>>)
    requires |sums| == |counts| == |cs| && Rect(sums, dims) && Rect(cs, dims)
    ensures |r| == |cs| && Rect(r, dims)
  {
    seq(|cs|, k requires 0 <= k < |cs| => MeanRow(sums[k], counts[k], cs[k]))
  }

  /** The squared distance every centroid moved. */
  function Shifts(before: seq<seq<real>>, after: seq<seq<real>>, dims: nat): (r: seq<real>)
    requires |before| == |after| && Rect(before, dims) && Rect(after, dims)
    ensures |r| == |before|
  {
    seq(|before|, k requires 0 <= k < |before| => SqDist(before[k], after[k]))
  }

  /** The largest element of `s`, or 0 when none is larger: the reductions
      start from a running maximum of 0. */
  function MaxOf(s: seq<real>): real
  {
    if |s| == 0 then 0.0 else RMax(MaxOf(s[..|s| - 1]), s[|s| - 1])
  }

  /** MaxOf is an upper bound that is 0 or attained. */
  lemma {:induction false} MaxOfBounds(s: seq<real>)
    ensures MaxOf(s) >= 0.0
    ensures forall i :: 0 <= i < |s| ==> s[i] <= MaxOf(s)
    ensures MaxOf(s) == 0.0 || exists i :: 0 <= i < |s| && MaxOf(s) == s[i]
  {
    if |s| > 0 {
      var p := s[..|s| - 1];
      MaxOfBounds(p);
      forall i | 0 <= i < |s| ensures s[i] <= MaxOf(s)
      {
        if i < |s| - 1 {
          assert s[i] == p[i];
        }
      }
      if MaxOf(s) != 0.0 && MaxOf(s) != s[|s| - 1] {
        var i :| 0 <= i < |p| && MaxOf(p) == p[i];
        assert MaxOf(s) == s[i];
      }
    }
  }

  /** Any non-negative upper bound that is 0 or attained is MaxOf. */
  lemma MaxOfUnique(s: seq<real>, x: real)
    requires x >= 0.0 && forall i :: 0 <= i < |s| ==> s[i] <= x
    requires x == 0.0 || exists i :: 0 <= i < |s| && x == s[i]
    ensures x == MaxOf(s)
  {
    MaxOfBounds(s);
  }

  /** The squared distance is zero exactly when the two rows are equal. */
  lemma {:induction false} SqDistZero(x: seq<real>, y: seq<real>)
    requires |x| == |y|
    ensures SqDist(x, y) == 0.0 <==> x == y
    decreases |x|
  {
    if |x| > 0 {
      var n := |x| - 1;
      SqDistZero(x[..n], y[..n]);
      if SqDist(x, y) == 0.0 {
        if x[n] != y[n] {
          SquarePositive(x[n] - y[n]);
        }
        assert x[..n] == y[..n] && x[n] == y[n];
        assert x == x[..n] + [x[n]] && y == y[..n] + [y[n]];
      }
    }
  }

  /** The largest shift is zero exactly when no centroid moved. */
  lemma NoShiftIffUnchanged(before: seq<seq<real>>, after: seq<seq<real>>, dims: nat)
    requires |before| == |after| && Rect(before, dims) && Rect(after, dims)
    ensures MaxOf(Shifts(before, after, dims)) == 0.0 <==> before == after
  {
    var s := Shifts(before, after, dims);
    MaxOfBounds(s);
    forall k | 0 <= k < |before| ensures s[k] == 0.0 <==> before[k] == after[k]
    {
      SqDistZero(before[k], after[k]);
    }
    if MaxOf(s) == 0.0 {
      assert forall k :: 0 <= k < |before| ==> before[k] == after[k];
    }
  }

  /* ---------------------------------------------------------------------
     Lloyd's iteration.
     --------------------------------------------------------------------- */

  /** One iteration of Lloyd's algorithm: every point is assigned to its
      first nearest centroid, and every centroid moves to the mean of its
      points, or stays when it has none. */
  function LloydStep(ps: seq<seq<real>>, cs: seq<seq<real>>, dims: nat): (r: seq<seq<real>>)
    requires Shapes(ps, cs, dims)
    ensures |r| == |cs| && Rect(r, dims)
  {
    Means(SumTable(ps, cs, dims, 0, |ps|), Histogram(ps, cs, dims, 0, |ps|), cs, dims)
  }

  /** The centroids after `k` iterations. */
  function Lloyd(ps: seq<seq<real>>, cs: seq<seq<real>>, dims: nat, k: nat): (r: seq<seq<real>>)
    requires Shapes(ps, cs, dims)
    ensures |r| == |cs| && Rect(r, dims)
  {
    if k == 0 then cs else LloydStep(ps, Lloyd(ps, cs, dims, k - 1), dims)
  }

  /** The largest squared shift of any centroid in iteration `k` (k >= 1):
      the square of the `diff` the update kernel reports. */
  function ShiftOfStep(ps: seq<seq<real>>, cs: seq<seq<real>>, dims: nat, k: nat): real
    requires Shapes(ps, cs, dims) && k >= 1
  {
    MaxOf(Shifts(Lloyd(ps, cs, dims, k - 1), Lloyd(ps, cs, dims, k), dims))
  }

  /** Once an iteration moves no centroid, no later iteration does: the
      centroids are a fixed point of Lloyd's step. */
  lemma {:induction false} LloydFixedPoint(ps: seq<seq<real>>, cs: seq<seq<real>>, dims: nat, k: nat)
    requires Shapes(ps, cs, dims)
    requires LloydStep(ps, cs, dims) == cs
    ensures Lloyd(ps, cs, dims, k) == cs
  {
    if k > 0 {
      LloydFixedPoint(ps, cs, dims, k - 1);
    }
  }

  /** A reported shift of zero means iteration k reached a fixed point, so
      every later iteration leaves the centroids where they are. */
  lemma ZeroShiftIsFixedPoint(ps: seq<seq<real>>, cs: seq<seq<real>>, dims: nat, k: nat, j: nat)
    requires Shapes(ps, cs, dims) && k >= 1 && j >= k
    requires ShiftOfStep(ps, cs, dims, k) == 0.0
    ensures Lloyd(ps, cs, dims, j) == Lloyd(ps, cs, dims, k)
  {
    var before, after := Lloyd(ps, cs, dims, k - 1), Lloyd(ps, cs, dims, k);
    NoShiftIffUnchanged(before, after, dims);
    assert LloydStep(ps, after, dims) == after;
    LloydIterate(ps, cs, dims, k, j - k);
    LloydFixedPoint(ps, after, dims, j - k);
  }

  /** Iterating j more times after k iterations is iterating k + j times. */
  lemma {:induction false} LloydIterate(ps: seq<seq<real>>, cs: seq<seq<real>>, dims: nat, k: nat, j: nat)
    requires Shapes(ps, cs, dims)
    ensures Lloyd(ps, Lloyd(ps, cs, dims, k), dims, j) == Lloyd(ps, cs, dims, k + j)
  {
    if j > 0 {
      LloydIterate(ps, cs, dims, k, j - 1);
    }
  }

  /** Every point is counted in exactly one cluster of an assignment step. */
  lemma StepCountsAllPoints(ps: seq<seq<real>>, cs: seq<seq<real>>, dims: nat)
    requires Shapes(ps, cs, dims)
    ensures SumInts(Histogram(ps, cs, dims, 0, |ps|)) == |ps|
  {
    HistogramTotal(ps, cs, dims, 0, |ps|);
  }

  /** Adding to zero accumulators yields the added table. */
  lemma AddToZeros(a: seq<seq<real>>, b: seq<seq<real>>, h: seq<int>, g: seq<int>, dims: nat)
    requires |a| == |b| && Rect(a, dims) && Rect(b, dims) && |h| == |g|
    requires forall c, d :: 0 <= c < |a| && 0 <= d < dims ==> a[c][d] == 0.0
    requires forall c :: 0 <= c < |h| ==> h[c] == 0
    ensures AddTables(a, b, dims) == b && AddCounts(h, g) == g
  {
    var r := AddTables(a, b, dims);
    forall c | 0 <= c < |a| ensures r[c] == b[c]
    {
      assert forall d :: 0 <= d < dims ==> r[c][d] == b[c][d];
    }
  }
}
