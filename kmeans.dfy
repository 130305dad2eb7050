/** The data-parallel k-means pipeline: launch geometry, the
    assignment-reduction kernel `groupByCluster`, the centroid-update kernel
    `updateCentroids`, the label-refresh kernel `updateLabels` and the host
    driver `kmeans_kernel`.

    Each kernel launch is modelled as a sequential loop over its work-groups
    and, inside a group, over its work-items. Between two barriers the
    work-items run in lock-step: for every step of their own loop, work-item
    0, 1, ..., L-1 in turn. A strided loop `for i in range(lid, n, L)` thus
    visits 0, 1, 2, ... in order, and the point loop visits the group's points
    in increasing order. Atomic additions become plain additions. */
module KMeansKernels {
  import opened KMeansSpec

  /** Points handled by one work-item per launch (`WorkPI`). */
  const WorkPI: int := 8
  /** Upper bound on the work-group size chosen by the driver. */
  const MaxLocalSize: int := 1024

  function Min(a: int, b: int): int { if a < b then a else b }
  function Max(a: int, b: int): int { if a > b then a else b }

  /** Ceiling division `(numerator + denominator - 1) // denominator`. */
  function DivUp(numerator: int, denominator: int): (r: int)
    requires denominator > 0
    ensures r * denominator >= numerator
    ensures (r - 1) * denominator < numerator
  {
    var r := (numerator + denominator - 1) / denominator;
    assert (r - 1) * denominator == r * denominator - denominator;
    r
  }

  /** The smallest multiple of `base` that is at least `value`. */
  function Align(value: int, base: int): (r: int)
    requires base > 0
    ensures r % base == 0
    ensures r >= value && r - base < value
  {
    var q := DivUp(value, base);
    MultipleMod(q, base);
    base * q
  }

  lemma MultipleMod(q: int, b: int)
    requires b > 0
    ensures (b * q) % b == 0
  {
    DivModUnique(b * q, b, q, 0);
  }

  /** Division with remainder has one answer. */
  lemma DivModUnique(n: int, d: int, q: int, r: int)
    requires d > 0 && 0 <= r < d && n == q * d + r
    ensures n / d == q && n % d == r
  {
    var q0, r0 := n / d, n % d;
    assert (q - q0) * d == r0 - r;
    if q0 < q {
      MulAtLeast(q - q0, d);
    } else if q < q0 {
      MulAtLeast(q0 - q, d);
    }
  }

  lemma MulAtLeast(a: int, d: int)
    requires a >= 1 && d > 0
    ensures a * d >= d
  {
  }

  /** Number of local partial-sum copies per group (line 26). */
  function LocalCopies(localSize: int, numCentroids: int): (r: int)
    requires numCentroids > 0
    ensures 1 <= r <= 4
  {
    Min(4, Max(1, DivUp(localSize, numCentroids)))
  }

  /** Position of entry (c, d) of a K x D table when flattened row by row;
      the kernels' loops recover it as `i // dims`, `i % dims`. */
  function Flat(c: int, d: int, dims: int): int
  {
    c * dims + d
  }

  /** Every flattened index decodes to exactly one entry. */
  lemma FlatDecode(i: int, dims: int, k: int)
    requires dims > 0 && 0 <= i < k * dims
    ensures 0 <= i / dims < k && 0 <= i % dims < dims
    ensures Flat(i / dims, i % dims, dims) == i
    ensures forall c, d :: 0 <= d < dims && Flat(c, d, dims) == i ==> c == i / dims && d == i % dims
  {
    forall c, d | 0 <= d < dims && Flat(c, d, dims) == i
      ensures c == i / dims && d == i % dims
    {
      DivModUnique(i, dims, c, d);
    }
    if i / dims >= k {
      MulMono(k, i / dims, dims);
    }
  }

  lemma MulMono(a: int, b: int, d: int)
    requires a <= b && d >= 0
    ensures a * d <= b * d
  {
    assert b * d - a * d == (b - a) * d;
  }

  /** Every entry of a K x D table has a flattened index in [0, K*D). */
  lemma FlatBelow(k: int, dims: int)
    requires k >= 0 && dims >= 0
    ensures forall c, d :: 0 <= c < k && 0 <= d < dims ==> 0 <= Flat(c, d, dims) < k * dims
  {
    forall c, d | 0 <= c < k && 0 <= d < dims
      ensures 0 <= Flat(c, d, dims) < k * dims
    {
      MulMono(c, k - 1, dims);
      assert (k - 1) * dims == k * dims - dims;
      MulMono(0, c, dims);
    }
  }

  /** The point handled by work-item `lid` of group `grid` at step `i` of its
      point loop (line 57). */
  function PointId(grid: int, workPI: int, localSize: int, i: int, lid: int): int
  {
    grid * workPI * localSize + i * localSize + lid
  }

  /** Different (group, step, work-item) triples handle different points:
      the triple is recovered from the point index. */
  lemma PointIdInjective(grid: int, workPI: int, localSize: int, i: int, lid: int)
    requires workPI > 0 && localSize > 0
    requires grid >= 0 && 0 <= i < workPI && 0 <= lid < localSize
    ensures var p := PointId(grid, workPI, localSize, i, lid);
      && p / (workPI * localSize) == grid
      && (p % (workPI * localSize)) / localSize == i
      && p % localSize == lid
  {
    var p := PointId(grid, workPI, localSize, i, lid);
    var wl := workPI * localSize;
    var off := i * localSize + lid;
    MulMono(i, workPI - 1, localSize);
    assert (workPI - 1) * localSize == wl - localSize;
    assert grid * workPI * localSize == grid * wl;
    DivModUnique(p, wl, grid, off);
    DivModUnique(off, localSize, i, lid);
    assert p == (grid * workPI + i) * localSize + lid;
    DivModUnique(p, localSize, grid * workPI + i, lid);
  }

  /** Every point index below numGroups * WorkPI * L is handled by some
      (group, step, work-item) triple of the launch. */
  lemma PointIdSurjective(p: int, workPI: int, localSize: int, numGroups: int)
    requires workPI > 0 && localSize > 0
    requires 0 <= p < numGroups * workPI * localSize
    ensures var wl := workPI * localSize;
      var grid, i, lid := p / wl, (p % wl) / localSize, p % localSize;
      && 0 <= grid < numGroups && 0 <= i < workPI && 0 <= lid < localSize
      && PointId(grid, workPI, localSize, i, lid) == p
  {
    var wl := workPI * localSize;
    MulAtLeast(workPI, localSize);
    var grid, rest := p / wl, p % wl;
    var i, lid := rest / localSize, rest % localSize;
    QuotientBelow(p, wl, numGroups);
    QuotientBelow(rest, localSize, workPI);
    LidOfPoint(p, workPI, localSize);
    assert grid * workPI * localSize == grid * wl;
  }

  /** A quotient by `d` of a number below `m * d` is below `m`. */
  lemma QuotientBelow(n: int, d: int, m: int)
    requires d > 0 && 0 <= n < m * d
    ensures 0 <= n / d < m
  {
    if n / d >= m {
      MulMono(m, n / d, d);
    }
  }

  /** Taking a point index modulo L after modulo W*L changes nothing. */
  lemma LidOfPoint(p: int, workPI: int, localSize: int)
    requires workPI > 0 && localSize > 0 && p >= 0
    ensures (p % (workPI * localSize)) % localSize == p % localSize
  {
    var wl := workPI * localSize;
    var rest := p % wl;
    var grid := p / wl;
    assert p == (grid * workPI + rest / localSize) * localSize + rest % localSize by {
      assert grid * wl == (grid * workPI) * localSize;
      assert rest == (rest / localSize) * localSize + rest % localSize;
    }
    DivModUnique(p, localSize, grid * workPI + rest / localSize, rest % localSize);
  }

  /** The driver's launch covers every point, and no more groups than
      that: with global_size = Align(DivUp(N, WorkPI), L), the number of
      groups times WorkPI times L is at least N, and one group fewer would
      not reach N (lines 217-218). */
  lemma LaunchCoversPoints(numPoints: int, localSize: int)
    requires numPoints >= 0 && localSize > 0
    ensures var globalSize := Align(DivUp(numPoints, WorkPI), localSize);
      && globalSize % localSize == 0
      && globalSize / localSize >= 0
      && (globalSize / localSize) * WorkPI * localSize >= numPoints
      && (globalSize / localSize == 0 || (globalSize / localSize - 1) * WorkPI * localSize < numPoints)
  {
    var items := DivUp(numPoints, WorkPI);
    var globalSize := Align(items, localSize);
    var groups := globalSize / localSize;
    assert globalSize == groups * localSize;
    assert items >= 0;
    assert groups * WorkPI * localSize == (groups * localSize) * WorkPI;
    MulMono(items, groups * localSize, WorkPI);
    if groups > 0 {
      assert (groups - 1) * localSize < items;
      assert (groups - 1) * localSize <= items - 1;
      MulMono((groups - 1) * localSize, items - 1, WorkPI);
      assert (groups - 1) * WorkPI * localSize == ((groups - 1) * localSize) * WorkPI;
    }
  }

  /* ---------------------------------------------------------------------
     Views of the device buffers as rows of reals.
     --------------------------------------------------------------------- */

  /** The rows of a two-dimensional buffer (points or centroids). */
  ghost function Rows(a: array2<real>): (rs: seq<seq<real>>)
    reads a
    ensures |rs| == a.Length0 && Rect(rs, a.Length1)
    ensures forall r, d :: 0 <= r < a.Length0 && 0 <= d < a.Length1 ==> rs[r][d] == a[r, d]
  {
    seq(a.Length0, r requires 0 <= r < a.Length0 reads a =>
      seq(a.Length1, d requires 0 <= d < a.Length1 reads a => a[r, d]))
  }

  /** Column `c` of the transposed local centroid table `localCentroids[d, c]`. */
  ghost function Column(a: array2<real>, c: int): (col: seq<real>)
    reads a
    requires 0 <= c < a.Length1
    ensures |col| == a.Length0
    ensures forall d :: 0 <= d < a.Length0 ==> col[d] == a[d, c]
  {
    seq(a.Length0, d requires 0 <= d < a.Length0 reads a => a[d, c])
  }

  /** The partial coordinate-`d` sums of centroid `c`, one per local copy. */
  ghost function CopyColumn(a: array3<real>, d: int, c: int): (col: seq<real>)
    reads a
    requires 0 <= d < a.Length1 && 0 <= c < a.Length2
    ensures |col| == a.Length0
    ensures forall l :: 0 <= l < a.Length0 ==> col[l] == a[l, d, c]
  {
    seq(a.Length0, l requires 0 <= l < a.Length0 reads a => a[l, d, c])
  }

  /** The partial point counts of centroid `c`, one per local copy. */
  ghost function CountColumn(a: array2<int>, c: int): (col: seq<int>)
    reads a
    requires 0 <= c < a.Length1
    ensures |col| == a.Length0
    ensures forall l :: 0 <= l < a.Length0 ==> col[l] == a[l, c]
  {
    seq(a.Length0, l requires 0 <= l < a.Length0 reads a => a[l, c])
  }

  /** The local partial sums merged over the copies: entry [c][d] is the
      total that lines 88-90 compute for coordinate d of centroid c. */
  ghost function CopySums(a: array3<real>): (t: seq<seq<real>>)
    reads a
    ensures |t| == a.Length2 && Rect(t, a.Length1)
  {
    seq(a.Length2, c requires 0 <= c < a.Length2 reads a =>
      seq(a.Length1, d requires 0 <= d < a.Length1 reads a => SumReals(CopyColumn(a, d, c))))
  }

  /** The local partial counts merged over the copies (lines 99-101). */
  ghost function CopyCounts(a: array2<int>): (t: seq<int>)
    reads a
    ensures |t| == a.Length1
  {
    seq(a.Length1, c requires 0 <= c < a.Length1 reads a => SumInts(CountColumn(a, c)))
  }

  /** Sum of a sequence of reals. */
  function SumReals(s: seq<real>): real
  {
    if |s| == 0 then 0.0 else SumReals(s[..|s| - 1]) + s[|s| - 1]
  }

  /** Replacing one element changes the sum by the difference. */
  lemma {:induction false} SumRealsUpdate(s: seq<real>, i: int, v: real)
    requires 0 <= i < |s|
    ensures SumReals(s[i := v]) == SumReals(s) - s[i] + v
    decreases |s|
  {
    var t := s[i := v];
    if i < |s| - 1 {
      assert t[..|t| - 1] == s[..|s| - 1][i := v];
      SumRealsUpdate(s[..|s| - 1], i, v);
    } else {
      assert t[..|t| - 1] == s[..|s| - 1];
    }
  }

  /** A sequence of zeros sums to zero. */
  lemma {:induction false} SumRealsZero(s: seq<real>)
    requires forall i :: 0 <= i < |s| ==> s[i] == 0.0
    ensures SumReals(s) == 0.0
    decreases |s|
  {
    if |s| > 0 {
      SumRealsZero(s[..|s| - 1]);
    }
  }

  /* ---------------------------------------------------------------------
     Work-item steps shared by groupByCluster and updateLabels.
     --------------------------------------------------------------------- */

  /** Copies point `pointId` into the private buffer `localP` (lines 59-61). */
  method LoadPoint(arrayP: array2<real>, pointId: int) returns (localP: array<real>)
    requires 0 <= pointId < arrayP.Length0
    ensures fresh(localP)
    ensures localP[..] == Rows(arrayP)[pointId]
  {
    localP := new real[arrayP.Length1];
    var d := 0;
    while d < arrayP.Length1
      invariant 0 <= d <= arrayP.Length1
      invariant forall e :: 0 <= e < d ==> localP[e] == arrayP[pointId, e]
    {
      localP[d] := arrayP[pointId, d];
      d := d + 1;
    }
  }

  /** The `sq_sum` loop: squared distance from the private point to column `c`
      of the local centroid table, accumulated over d = 0, 1, ... (lines 66-68). */
  method SquaredDistance(localP: array<real>, localCentroids: array2<real>, c: int) returns (sqSum: real)
    requires localP.Length == localCentroids.Length0 && 0 <= c < localCentroids.Length1
    ensures sqSum == SqDist(localP[..], Column(localCentroids, c))
  {
    ghost var x, y := localP[..], Column(localCentroids, c);
    sqSum := 0.0;
    var d := 0;
    while d < localP.Length
      invariant 0 <= d <= localP.Length
      invariant sqSum == SqDist(x[..d], y[..d])
    {
      var e := localP[d] - localCentroids[d, c];
      assert x[..d + 1][..d] == x[..d] && y[..d + 1][..d] == y[..d];
      sqSum := sqSum + e * e;
      d := d + 1;
    }
    assert x[..d] == x && y[..d] == y;
  }

  /** The running minimum of the centroid scan, which starts at infinity. */
  datatype Distance = Infinite | Finite(value: real)

  /** `v < m` with `m` possibly infinite. */
  predicate Below(v: real, m: Distance)
  {
    m.Infinite? || v < m.value
  }

  /** The centroid scan (lines 63-72): the nearest centroid to the private
      point, ties going to the lowest index. `cs` are the centroids that the
      local table holds transposed. */
  method NearestCentroid(localP: array<real>, localCentroids: array2<real>, ghost cs: seq<seq<real>>) returns (nearest: int)
    requires localP.Length == localCentroids.Length0 && 1 <= localCentroids.Length1 == |cs|
    requires Rect(cs, localP.Length)
    requires forall c, d :: 0 <= c < |cs| && 0 <= d < localP.Length ==> localCentroids[d, c] == cs[c][d]
    ensures nearest == NearestAmong(localP[..], cs, |cs|)
    ensures IsFirstNearest(localP[..], cs, |cs|, nearest)
  {
    ghost var x := localP[..];
    var minimalDistance := Infinite;
    nearest := 0;
    var c := 0;
    while c < localCentroids.Length1
      invariant 0 <= c <= localCentroids.Length1
      invariant c == 0 ==> nearest == 0 && minimalDistance == Infinite
      invariant c > 0 ==> nearest == NearestAmong(x, cs, c) && minimalDistance == Finite(SqDist(x, cs[nearest]))
    {
      var sqSum := SquaredDistance(localP, localCentroids, c);
      assert Column(localCentroids, c) == cs[c];
      if Below(sqSum, minimalDistance) {
        nearest := c;
        minimalDistance := Finite(sqSum);
      }
      c := c + 1;
    }
    NearestAmongIsFirstNearest(x, cs, |cs|);
  }

  /* ---------------------------------------------------------------------
     groupByCluster (lines 29-103), one work-group at a time.
     --------------------------------------------------------------------- */

  /** The shapes the kernels assume of the device buffers: N points and K >= 1
      centroids of D coordinates each, one label per point, and accumulators
      shaped like the centroids. */
  predicate KernelShapes(arrayP: array2<real>, arrayPcluster: array<int>, arrayC: array2<real>,
                         newCentroids: array2<real>, newCount: array<int>)
  {
    && 1 <= arrayC.Length0 && arrayP.Length1 == arrayC.Length1
    && arrayPcluster.Length == arrayP.Length0
    && newCentroids.Length0 == arrayC.Length0 && newCentroids.Length1 == arrayC.Length1
    && newCount.Length == arrayC.Length0
    && newCentroids != arrayC && newCentroids != arrayP && newCount != arrayPcluster
  }

  /** Clears the partial sums of entry (d, c) in every local copy (lines 47-48). */
  method ClearSums(localNewCentroids: array3<real>, d: int, c: int)
    requires 0 <= d < localNewCentroids.Length1 && 0 <= c < localNewCentroids.Length2
    modifies localNewCentroids
    ensures forall l, e, k :: 0 <= l < localNewCentroids.Length0 && 0 <= e < localNewCentroids.Length1 && 0 <= k < localNewCentroids.Length2 ==>
      localNewCentroids[l, e, k] == if e == d && k == c then 0.0 else old(localNewCentroids[l, e, k])
  {
    var lc := 0;
    while lc < localNewCentroids.Length0
      invariant 0 <= lc <= localNewCentroids.Length0
      invariant forall l, e, k :: 0 <= l < localNewCentroids.Length0 && 0 <= e < localNewCentroids.Length1 && 0 <= k < localNewCentroids.Length2 ==>
        localNewCentroids[l, e, k] == if l < lc && e == d && k == c then 0.0 else old(localNewCentroids[l, e, k])
    {
      localNewCentroids[lc, d, c] := 0.0;
      lc := lc + 1;
    }
  }

  /** Clears the partial count of centroid c in every local copy (lines 51-52). */
  method ClearCounts(localNewCount: array2<int>, c: int)
    requires 0 <= c < localNewCount.Length1
    modifies localNewCount
    ensures forall l, k :: 0 <= l < localNewCount.Length0 && 0 <= k < localNewCount.Length1 ==>
      localNewCount[l, k] == if k == c then 0 else old(localNewCount[l, k])
  {
    var lc := 0;
    while lc < localNewCount.Length0
      invariant 0 <= lc <= localNewCount.Length0
      invariant forall l, k :: 0 <= l < localNewCount.Length0 && 0 <= k < localNewCount.Length1 ==>
        localNewCount[l, k] == if l < lc && k == c then 0 else old(localNewCount[l, k])
    {
      localNewCount[lc, c] := 0;
      lc := lc + 1;
    }
  }

  /** The staging phase of groupByCluster (lines 45-52): the local table
      receives the centroids transposed, and every local copy of the partial
      sums and counts starts at zero. */
  method StageClusterTables(arrayC: array2<real>, localCentroids: array2<real>,
                            localNewCentroids: array3<real>, localNewCount: array2<int>)
    requires localCentroids.Length0 == arrayC.Length1 && localCentroids.Length1 == arrayC.Length0
    requires localNewCentroids.Length1 == arrayC.Length1 && localNewCentroids.Length2 == arrayC.Length0
    requires localNewCount.Length0 == localNewCentroids.Length0 && localNewCount.Length1 == arrayC.Length0
    requires localCentroids != arrayC
    modifies localCentroids, localNewCentroids, localNewCount
    ensures forall c, d :: 0 <= c < arrayC.Length0 && 0 <= d < arrayC.Length1 ==>
      localCentroids[d, c] == arrayC[c, d] && SumReals(CopyColumn(localNewCentroids, d, c)) == 0.0
    ensures forall c :: 0 <= c < arrayC.Length0 ==> SumInts(CountColumn(localNewCount, c)) == 0
  {
    StageCentroidsClearSums(arrayC, localCentroids, localNewCentroids);
    label staged:
    var c := 0;
    while c < arrayC.Length0
      invariant 0 <= c <= arrayC.Length0
      invariant forall k, l :: 0 <= k < c && 0 <= l < localNewCount.Length0 ==> localNewCount[l, k] == 0
      invariant unchanged@staged(localCentroids, localNewCentroids)
    {
      ClearCounts(localNewCount, c);
      c := c + 1;
    }
    forall c | 0 <= c < arrayC.Length0
      ensures SumInts(CountColumn(localNewCount, c)) == 0
    {
      ZeroSum(CountColumn(localNewCount, c));
    }
  }

  /** Lines 45-48: the strided loops of the L work-items together visit the
      flattened index i = 0, 1, ..., K*D - 1 once each; entry (i // D, i % D)
      is transposed into the local table and its partial sums cleared. */
  method StageCentroidsClearSums(arrayC: array2<real>, localCentroids: array2<real>, localNewCentroids: array3<real>)
    requires localCentroids.Length0 == arrayC.Length1 && localCentroids.Length1 == arrayC.Length0
    requires localNewCentroids.Length1 == arrayC.Length1 && localNewCentroids.Length2 == arrayC.Length0
    requires localCentroids != arrayC
    modifies localCentroids, localNewCentroids
    ensures forall c, d :: 0 <= c < arrayC.Length0 && 0 <= d < arrayC.Length1 ==>
      localCentroids[d, c] == arrayC[c, d] && SumReals(CopyColumn(localNewCentroids, d, c)) == 0.0
  {
    var numCentroids, dims := arrayC.Length0, arrayC.Length1;
    var i := 0;
    FlatBelow(numCentroids, dims);
    while i < numCentroids * dims
      invariant 0 <= i && (i <= numCentroids * dims || i == 0)
      invariant forall c, d :: 0 <= c < numCentroids && 0 <= d < dims && Flat(c, d, dims) < i ==>
        localCentroids[d, c] == arrayC[c, d]
      invariant forall l, c, d :: 0 <= l < localNewCentroids.Length0 && 0 <= c < numCentroids && 0 <= d < dims && Flat(c, d, dims) < i ==>
        localNewCentroids[l, d, c] == 0.0
    {
      FlatDecode(i, dims, numCentroids);
      var c, d := i / dims, i % dims;
      localCentroids[d, c] := arrayC[c, d];
      ClearSums(localNewCentroids, d, c);
      i := i + 1;
    }
    forall c, d | 0 <= c < numCentroids && 0 <= d < dims
      ensures SumReals(CopyColumn(localNewCentroids, d, c)) == 0.0
    {
      SumRealsZero(CopyColumn(localNewCentroids, d, c));
    }
  }

  /** Adds the private point into copy `lc` of the partial sums of centroid
      `nearest` and counts it there (lines 75-80). */
  method AccumulatePoint(localNewCentroids: array3<real>, localNewCount: array2<int>, lc: int, nearest: int, localP: array<real>)
    requires 0 <= lc < localNewCentroids.Length0 == localNewCount.Length0
    requires 0 <= nearest < localNewCentroids.Length2 == localNewCount.Length1
    requires localP.Length == localNewCentroids.Length1
    modifies localNewCentroids, localNewCount
    ensures forall l, d, c :: 0 <= l < localNewCentroids.Length0 && 0 <= d < localNewCentroids.Length1 && 0 <= c < localNewCentroids.Length2 ==>
      localNewCentroids[l, d, c] == old(localNewCentroids[l, d, c]) + (if l == lc && c == nearest then localP[d] else 0.0)
    ensures forall l, c :: 0 <= l < localNewCount.Length0 && 0 <= c < localNewCount.Length1 ==>
      localNewCount[l, c] == old(localNewCount[l, c]) + (if l == lc && c == nearest then 1 else 0)
  {
    var d := 0;
    while d < localP.Length
      invariant 0 <= d <= localP.Length
      invariant forall l, e, c :: 0 <= l < localNewCentroids.Length0 && 0 <= e < localNewCentroids.Length1 && 0 <= c < localNewCentroids.Length2 ==>
        localNewCentroids[l, e, c] == old(localNewCentroids[l, e, c]) + (if l == lc && c == nearest && e < d then localP[e] else 0.0)
      invariant unchanged(localNewCount)
    {
      localNewCentroids[lc, d, nearest] := localNewCentroids[lc, d, nearest] + localP[d];
      d := d + 1;
    }
    localNewCount[lc, nearest] := localNewCount[lc, nearest] + 1;
  }

  /** AccumulatePoint seen through the merged tables: the point is added
      into the row of `nearest` and counted there. */
  method AccumulateTables(localNewCentroids: array3<real>, localNewCount: array2<int>, lc: int, nearest: int, localP: array<real>)
    requires 0 <= lc < localNewCentroids.Length0 == localNewCount.Length0
    requires 0 <= nearest < localNewCentroids.Length2 == localNewCount.Length1
    requires localP.Length == localNewCentroids.Length1
    modifies localNewCentroids, localNewCount
    ensures CopySums(localNewCentroids) == AddInto(old(CopySums(localNewCentroids)), nearest, localP[..])
    ensures CopyCounts(localNewCount) == old(CopyCounts(localNewCount))[nearest := old(CopyCounts(localNewCount))[nearest] + 1]
  {
    ghost var sums, counts := CopySums(localNewCentroids), CopyCounts(localNewCount);
    ghost var cols := seq(localNewCentroids.Length2, c requires 0 <= c < localNewCentroids.Length2 reads localNewCentroids =>
      seq(localNewCentroids.Length1, d requires 0 <= d < localNewCentroids.Length1 reads localNewCentroids => CopyColumn(localNewCentroids, d, c)));
    ghost var countCols := seq(localNewCount.Length1, c requires 0 <= c < localNewCount.Length1 reads localNewCount => CountColumn(localNewCount, c));
    AccumulatePoint(localNewCentroids, localNewCount, lc, nearest, localP);
    ghost var sums' := AddInto(sums, nearest, localP[..]);
    forall c | 0 <= c < localNewCentroids.Length2
      ensures CopySums(localNewCentroids)[c] == sums'[c]
    {
      forall d | 0 <= d < localNewCentroids.Length1
        ensures CopySums(localNewCentroids)[c][d] == sums'[c][d]
      {
        var col := cols[c][d];
        if c == nearest {
          assert CopyColumn(localNewCentroids, d, c) == col[lc := col[lc] + localP[d]];
          SumRealsUpdate(col, lc, col[lc] + localP[d]);
        } else {
          assert CopyColumn(localNewCentroids, d, c) == col;
        }
      }
    }
    forall c | 0 <= c < localNewCount.Length1
      ensures CopyCounts(localNewCount)[c] == counts[nearest := counts[nearest] + 1][c]
    {
      var col := countCols[c];
      if c == nearest {
        assert CountColumn(localNewCount, c) == col[lc := col[lc] + 1];
        SumIntsUpdate(col, lc, col[lc] + 1);
      } else {
        assert CountColumn(localNewCount, c) == col;
      }
    }
  }

  /** One work-item's handling of point `pointId` (lines 59-83): the point is
      labelled with its nearest centroid `k`, added to copy `lc` of `k`'s
      partial sums and counted there, and on the last iteration its label is
      stored. `cs` are the centroids the local table holds transposed. */
  method AssignPoint(arrayP: array2<real>, arrayPcluster: array<int>, localCentroids: array2<real>,
                     localNewCentroids: array3<real>, localNewCount: array2<int>,
                     last: bool, pointId: int, lc: int, ghost cs: seq<seq<real>>)
    requires 0 <= pointId < arrayP.Length0 == arrayPcluster.Length
    requires localCentroids.Length0 == arrayP.Length1 == localNewCentroids.Length1
    requires 1 <= localCentroids.Length1 == |cs| == localNewCentroids.Length2 == localNewCount.Length1
    requires 0 <= lc < localNewCentroids.Length0 == localNewCount.Length0
    requires Rect(cs, arrayP.Length1)
    requires forall c, d :: 0 <= c < |cs| && 0 <= d < arrayP.Length1 ==> localCentroids[d, c] == cs[c][d]
    modifies arrayPcluster, localNewCentroids, localNewCount
    ensures var ps := Rows(arrayP); var k := Label(ps, cs, pointId);
      && CopySums(localNewCentroids) == AddInto(old(CopySums(localNewCentroids)), k, ps[pointId])
      && CopyCounts(localNewCount) == old(CopyCounts(localNewCount))[k := old(CopyCounts(localNewCount))[k] + 1]
      && (forall p :: 0 <= p < arrayPcluster.Length ==>
            arrayPcluster[p] == if last && p == pointId then k else old(arrayPcluster[p]))
  {
    ghost var sums, counts := CopySums(localNewCentroids), CopyCounts(localNewCount);
    var localP := LoadPoint(arrayP, pointId);
    var nearest := NearestCentroid(localP, localCentroids, cs);
    assert nearest == Label(Rows(arrayP), cs, pointId);
    assert sums == CopySums(localNewCentroids) && counts == CopyCounts(localNewCount);
    AccumulateTables(localNewCentroids, localNewCount, lc, nearest, localP);
    if last {
      arrayPcluster[pointId] := nearest;
    }
  }

  /** Slot t of the flattened point loop (lines 57-58): work-item
      lid = t mod L handles point base + t when it exists, accumulating into
      local copy lid mod copies. The merged tables and the labels advance
      from the points of [lo, base + t) to those of [lo, base + t + 1), both
      clipped to N. */
  method AssignSlot(arrayP: array2<real>, arrayPcluster: array<int>, localCentroids: array2<real>,
                    localNewCentroids: array3<real>, localNewCount: array2<int>,
                    last: bool, base: int, t: int, localSize: int, ghost cs: seq<seq<real>>)
    requires arrayP.Length0 == arrayPcluster.Length
    requires localCentroids.Length0 == arrayP.Length1 == localNewCentroids.Length1
    requires 1 <= localCentroids.Length1 == |cs| == localNewCentroids.Length2 == localNewCount.Length1
    requires 1 <= localNewCentroids.Length0 == localNewCount.Length0
    requires Rect(cs, arrayP.Length1)
    requires forall c, d :: 0 <= c < |cs| && 0 <= d < arrayP.Length1 ==> localCentroids[d, c] == cs[c][d]
    requires base >= 0 && t >= 0 && localSize >= 1
    requires var lo, hi := Min(arrayP.Length0, base), Min(arrayP.Length0, base + t);
      && CopySums(localNewCentroids) == SumTable(Rows(arrayP), cs, arrayP.Length1, lo, hi)
      && CopyCounts(localNewCount) == Histogram(Rows(arrayP), cs, arrayP.Length1, lo, hi)
    modifies arrayPcluster, localNewCentroids, localNewCount
    ensures var ps, n, dims := Rows(arrayP), arrayP.Length0, arrayP.Length1;
      var lo, hi := Min(n, base), Min(n, base + t + 1);
      && CopySums(localNewCentroids) == SumTable(ps, cs, dims, lo, hi)
      && CopyCounts(localNewCount) == Histogram(ps, cs, dims, lo, hi)
      && (forall p :: 0 <= p < n ==>
            arrayPcluster[p] == if last && p == base + t then Label(ps, cs, p) else old(arrayPcluster[p]))
  {
    ghost var ps, n, dims := Rows(arrayP), arrayP.Length0, arrayP.Length1;
    var lid := t % localSize;
    var pointId := base + t;
    if pointId < arrayP.Length0 {
      assert Min(n, base + t) == pointId && Min(n, base + t + 1) == pointId + 1;
      SumTableStep(ps, cs, dims, Min(n, base), pointId);
      AssignPoint(arrayP, arrayPcluster, localCentroids, localNewCentroids, localNewCount, last, pointId,
                  lid % localNewCentroids.Length0, cs);
      assert Rows(arrayP) == ps;
    } else {
      assert Min(n, base + t + 1) == Min(n, base + t) == n;
    }
  }

  /** The point loop of one work-group (lines 55-83) over its WorkPI * L
      point slots, flattened in lock-step order t = i * L + lid starting at
      the group's first point `base` = grid * WorkPI * L; slot t is point
      base + t (PointIdOfStep), and slots at or past N are skipped (line 58).
      The merged tables gain exactly the points of [lo, hi). */
  method AssignPoints(arrayP: array2<real>, arrayPcluster: array<int>, localCentroids: array2<real>,
                      localNewCentroids: array3<real>, localNewCount: array2<int>,
                      last: bool, base: int, steps: int, localSize: int, ghost cs: seq<seq<real>>)
    requires arrayP.Length0 == arrayPcluster.Length
    requires localCentroids.Length0 == arrayP.Length1 == localNewCentroids.Length1
    requires 1 <= localCentroids.Length1 == |cs| == localNewCentroids.Length2 == localNewCount.Length1
    requires 1 <= localNewCentroids.Length0 == localNewCount.Length0
    requires Rect(cs, arrayP.Length1)
    requires forall c, d :: 0 <= c < |cs| && 0 <= d < arrayP.Length1 ==> localCentroids[d, c] == cs[c][d]
    requires base >= 0 && steps >= 0 && localSize >= 1
    requires var lo := Min(arrayP.Length0, base);
      && CopySums(localNewCentroids) == SumTable(Rows(arrayP), cs, arrayP.Length1, lo, lo)
      && CopyCounts(localNewCount) == Histogram(Rows(arrayP), cs, arrayP.Length1, lo, lo)
    modifies arrayPcluster, localNewCentroids, localNewCount
    ensures var ps, n, dims := Rows(arrayP), arrayP.Length0, arrayP.Length1;
      var lo, hi := Min(n, base), Min(n, base + steps);
      && CopySums(localNewCentroids) == SumTable(ps, cs, dims, lo, hi)
      && CopyCounts(localNewCount) == Histogram(ps, cs, dims, lo, hi)
      && (forall p :: 0 <= p < n ==>
            arrayPcluster[p] == if last && lo <= p < hi then Label(ps, cs, p) else old(arrayPcluster[p]))
  {
    ghost var ps, n, dims := Rows(arrayP), arrayP.Length0, arrayP.Length1;
    ghost var lo := Min(n, base);
    var t := 0;
    while t < steps
      invariant 0 <= t <= steps
      invariant CopySums(localNewCentroids) == SumTable(ps, cs, dims, lo, Min(n, base + t))
      invariant CopyCounts(localNewCount) == Histogram(ps, cs, dims, lo, Min(n, base + t))
      invariant forall p :: 0 <= p < n ==>
        arrayPcluster[p] == if last && lo <= p < Min(n, base + t) then Label(ps, cs, p) else old(arrayPcluster[p])
    {
      AssignSlot(arrayP, arrayPcluster, localCentroids, localNewCentroids, localNewCount, last, base, t, localSize, cs);
      t := t + 1;
    }
  }

  /** Slot t = i * L + lid of the flattened point loop is line 57's
      point_id = grid * WorkPI * L + i * L + lid. */
  lemma PointIdOfStep(grid: int, workPI: int, localSize: int, t: int)
    requires localSize > 0 && t >= 0
    ensures PointId(grid, workPI, localSize, t / localSize, t % localSize) == grid * workPI * localSize + t
  {
  }

  /** The `local_centroid_d` loop (lines 88-90): the partial sums of entry
      (d, c) added up over the local copies lc = 0, 1, ... */
  method SumCopies(localNewCentroids: array3<real>, d: int, c: int) returns (total: real)
    requires 0 <= d < localNewCentroids.Length1 && 0 <= c < localNewCentroids.Length2
    ensures total == SumReals(CopyColumn(localNewCentroids, d, c))
  {
    ghost var col := CopyColumn(localNewCentroids, d, c);
    total := 0.0;
    var lc := 0;
    while lc < localNewCentroids.Length0
      invariant 0 <= lc <= localNewCentroids.Length0
      invariant total == SumReals(col[..lc])
    {
      assert col[..lc + 1][..lc] == col[..lc];
      total := total + localNewCentroids[lc, d, c];
      lc := lc + 1;
    }
    assert col[..lc] == col;
  }

  /** The `local_centroid_npoints` loop (lines 99-101): the partial counts of
      centroid c added up over the local copies. */
  method CountCopies(localNewCount: array2<int>, c: int) returns (total: int)
    requires 0 <= c < localNewCount.Length1
    ensures total == SumInts(CountColumn(localNewCount, c))
  {
    ghost var col := CountColumn(localNewCount, c);
    total := 0;
    var lc := 0;
    while lc < localNewCount.Length0
      invariant 0 <= lc <= localNewCount.Length0
      invariant total == SumInts(col[..lc])
    {
      assert col[..lc + 1][..lc] == col[..lc];
      total := total + localNewCount[lc, c];
      lc := lc + 1;
    }
    assert col[..lc] == col;
  }

  /** Lines 87-96: every entry's total over the copies is added to the
      global accumulator `NewCentroids`; the strided loops of the work-items
      together visit each flattened index once. */
  method MergeSums(localNewCentroids: array3<real>, newCentroids: array2<real>)
    requires localNewCentroids.Length1 == newCentroids.Length1 && localNewCentroids.Length2 == newCentroids.Length0
    modifies newCentroids
    ensures Rows(newCentroids) == AddTables(old(Rows(newCentroids)), CopySums(localNewCentroids), newCentroids.Length1)
  {
    ghost var before := Rows(newCentroids);
    var numCentroids, dims := newCentroids.Length0, newCentroids.Length1;
    FlatBelow(numCentroids, dims);
    var i := 0;
    while i < numCentroids * dims
      invariant 0 <= i && (i <= numCentroids * dims || i == 0)
      invariant forall c, d :: 0 <= c < numCentroids && 0 <= d < dims ==>
        newCentroids[c, d] == old(newCentroids[c, d]) + if Flat(c, d, dims) < i then SumReals(CopyColumn(localNewCentroids, d, c)) else 0.0
    {
      FlatDecode(i, dims, numCentroids);
      var localCentroidD := SumCopies(localNewCentroids, i % dims, i / dims);
      newCentroids[i / dims, i % dims] := newCentroids[i / dims, i % dims] + localCentroidD;
      i := i + 1;
    }
    ghost var sums := AddTables(before, CopySums(localNewCentroids), dims);
    forall c | 0 <= c < numCentroids ensures Rows(newCentroids)[c] == sums[c]
    {
      assert forall d :: 0 <= d < dims ==> Rows(newCentroids)[c][d] == sums[c][d];
    }
  }

  /** Lines 98-103: every centroid's count over the copies is added to the
      global accumulator `NewCount`. */
  method MergeCounts(localNewCount: array2<int>, newCount: array<int>)
    requires localNewCount.Length1 == newCount.Length
    modifies newCount
    ensures newCount[..] == AddCounts(old(newCount[..]), CopyCounts(localNewCount))
  {
    var c := 0;
    while c < newCount.Length
      invariant 0 <= c <= newCount.Length
      invariant forall k :: 0 <= k < newCount.Length ==>
        newCount[k] == old(newCount[k]) + if k < c then SumInts(CountColumn(localNewCount, k)) else 0
    {
      var localCentroidNpoints := CountCopies(localNewCount, c);
      newCount[c] := newCount[c] + localCentroidNpoints;
      c := c + 1;
    }
  }

  /** Freshly staged local copies (every merged entry zero) hold the
      sums and counts of no point at all. */
  lemma StagedTablesEmpty(localNewCentroids: array3<real>, localNewCount: array2<int>,
                          ps: seq<seq<real>>, cs: seq<seq<real>>, dims: nat, lo: int)
    requires Shapes(ps, cs, dims) && 0 <= lo <= |ps|
    requires localNewCentroids.Length1 == dims && localNewCentroids.Length2 == |cs| == localNewCount.Length1
    requires forall c, d :: 0 <= c < |cs| && 0 <= d < dims ==> SumReals(CopyColumn(localNewCentroids, d, c)) == 0.0
    requires forall c :: 0 <= c < |cs| ==> SumInts(CountColumn(localNewCount, c)) == 0
    ensures CopySums(localNewCentroids) == SumTable(ps, cs, dims, lo, lo)
    ensures CopyCounts(localNewCount) == Histogram(ps, cs, dims, lo, lo)
  {
    var zeros := SumTable(ps, cs, dims, lo, lo);
    forall c | 0 <= c < |cs| ensures CopySums(localNewCentroids)[c] == zeros[c]
    {
      assert forall d :: 0 <= d < dims ==> CopySums(localNewCentroids)[c][d] == 0.0 == zeros[c][d];
    }
  }

  /** The point loop and the merge of one work-group (lines 55-103), from
      staged local tables: the `steps` point slots from `base` on are
      accumulated locally, then the local copies are merged into the global
      accumulators, which gain the sums and counts of the points of
      [base, base + steps) below N. */
  method AccumulateGroup(arrayP: array2<real>, arrayPcluster: array<int>, localCentroids: array2<real>,
                         localNewCentroids: array3<real>, localNewCount: array2<int>,
                         newCentroids: array2<real>, newCount: array<int>,
                         last: bool, base: int, steps: int, localSize: int, ghost cs: seq<seq<real>>)
    requires arrayP.Length0 == arrayPcluster.Length
    requires localCentroids.Length0 == arrayP.Length1 == localNewCentroids.Length1 == newCentroids.Length1
    requires 1 <= localCentroids.Length1 == |cs| == localNewCentroids.Length2 == localNewCount.Length1
    requires newCentroids.Length0 == newCount.Length == |cs|
    requires 1 <= localNewCentroids.Length0 == localNewCount.Length0
    requires Rect(cs, arrayP.Length1)
    requires forall c, d :: 0 <= c < |cs| && 0 <= d < arrayP.Length1 ==> localCentroids[d, c] == cs[c][d]
    requires base >= 0 && steps >= 0 && localSize >= 1
    requires newCentroids != arrayP && newCentroids != localCentroids && newCount != arrayPcluster
    requires var lo := Min(arrayP.Length0, base);
      && CopySums(localNewCentroids) == SumTable(Rows(arrayP), cs, arrayP.Length1, lo, lo)
      && CopyCounts(localNewCount) == Histogram(Rows(arrayP), cs, arrayP.Length1, lo, lo)
    modifies arrayPcluster, localNewCentroids, localNewCount, newCentroids, newCount
    ensures var ps, n, dims := Rows(arrayP), arrayP.Length0, arrayP.Length1;
      var lo, hi := Min(n, base), Min(n, base + steps);
      && Rows(newCentroids) == AddTables(old(Rows(newCentroids)), SumTable(ps, cs, dims, lo, hi), dims)
      && newCount[..] == AddCounts(old(newCount[..]), Histogram(ps, cs, dims, lo, hi))
      && (forall p :: 0 <= p < n ==>
            arrayPcluster[p] == if last && lo <= p < hi then Label(ps, cs, p) else old(arrayPcluster[p]))
  {
    ghost var ps := Rows(arrayP);
    ghost var sums0, counts0 := Rows(newCentroids), newCount[..];
    AssignPoints(arrayP, arrayPcluster, localCentroids, localNewCentroids, localNewCount, last,
                 base, steps, localSize, cs);
    ghost var table, histogram := CopySums(localNewCentroids), CopyCounts(localNewCount);
    ghost var labels := arrayPcluster[..];
    MergeSums(localNewCentroids, newCentroids);
    MergeCounts(localNewCount, newCount);
    assert Rows(arrayP) == ps && arrayPcluster[..] == labels;
    assert Rows(newCentroids) == AddTables(sums0, table, arrayP.Length1) && newCount[..] == AddCounts(counts0, histogram);
  }

  /** One work-group of groupByCluster (lines 29-103): the sums and counts,
      per nearest centroid, of the group's points below N are added to the
      global accumulators, and on the last iteration those points are
      labelled. Local memory is allocated afresh, as each launch does. */
  method GroupByClusterGroup(arrayP: array2<real>, arrayPcluster: array<int>, arrayC: array2<real>,
                             newCentroids: array2<real>, newCount: array<int>,
                             last: bool, grid: int, workPI: int, localSize: int)
    requires KernelShapes(arrayP, arrayPcluster, arrayC, newCentroids, newCount)
    requires grid >= 0 && workPI >= 1 && localSize >= 1
    modifies arrayPcluster, newCentroids, newCount
    ensures var ps, cs, n, dims := Rows(arrayP), Rows(arrayC), arrayP.Length0, arrayC.Length1;
      var lo, hi := Min(n, grid * workPI * localSize), Min(n, grid * workPI * localSize + workPI * localSize);
      && Rows(newCentroids) == AddTables(old(Rows(newCentroids)), SumTable(ps, cs, dims, lo, hi), dims)
      && newCount[..] == AddCounts(old(newCount[..]), Histogram(ps, cs, dims, lo, hi))
      && (forall p :: 0 <= p < n ==>
            arrayPcluster[p] == if last && lo <= p < hi then Label(ps, cs, p) else old(arrayPcluster[p]))
  {
    var numCentroids, dims := arrayC.Length0, arrayC.Length1;
    var localCopies := LocalCopies(localSize, numCentroids);
    var localCentroids := new real[dims, numCentroids];
    var localNewCentroids := new real[localCopies, dims, numCentroids];
    var localNewCount := new int[localCopies, numCentroids];
    ghost var cs := Rows(arrayC);
    var base := grid * workPI * localSize;
    StageClusterTables(arrayC, localCentroids, localNewCentroids, localNewCount);
    StagedTablesEmpty(localNewCentroids, localNewCount, Rows(arrayP), cs, dims, Min(arrayP.Length0, base));
    AccumulateGroup(arrayP, arrayPcluster, localCentroids, localNewCentroids, localNewCount, newCentroids, newCount,
                    last, base, workPI * localSize, localSize, cs);
  }

  /** The groupByCluster launch over `numGroups` work-groups: the
      accumulators gain the sums and counts, per nearest centroid, of the
      points below min(N, numGroups * WorkPI * L), and on the last
      iteration exactly those points are relabelled. */
  method GroupByCluster(arrayP: array2<real>, arrayPcluster: array<int>, arrayC: array2<real>,
                        newCentroids: array2<real>, newCount: array<int>,
                        last: bool, numGroups: int, workPI: int, localSize: int)
    requires KernelShapes(arrayP, arrayPcluster, arrayC, newCentroids, newCount)
    requires numGroups >= 0 && workPI >= 1 && localSize >= 1
    modifies arrayPcluster, newCentroids, newCount
    ensures var ps, cs, n, dims := Rows(arrayP), Rows(arrayC), arrayP.Length0, arrayC.Length1;
      var hi := Min(n, numGroups * workPI * localSize);
      && Rows(newCentroids) == AddTables(old(Rows(newCentroids)), SumTable(ps, cs, dims, 0, hi), dims)
      && newCount[..] == AddCounts(old(newCount[..]), Histogram(ps, cs, dims, 0, hi))
      && (forall p :: 0 <= p < n ==>
            arrayPcluster[p] == if last && p < hi then Label(ps, cs, p) else old(arrayPcluster[p]))
  {
    ghost var ps, cs, n, dims := Rows(arrayP), Rows(arrayC), arrayP.Length0, arrayC.Length1;
    ghost var sums0, counts0 := Rows(newCentroids), newCount[..];
    var grid := 0;
    ghost var mid := 0;
    AccumulateNothing(sums0, counts0, ps, cs, dims, 0);
    while grid < numGroups
      invariant 0 <= grid <= numGroups
      invariant mid == Min(n, grid * workPI * localSize) && 0 <= mid <= n
      invariant Rows(newCentroids) == AddTables(sums0, SumTable(ps, cs, dims, 0, mid), dims)
      invariant newCount[..] == AddCounts(counts0, Histogram(ps, cs, dims, 0, mid))
      invariant forall p :: 0 <= p < n ==>
        arrayPcluster[p] == if last && p < mid then Label(ps, cs, p) else old(arrayPcluster[p])
    {
      GroupByClusterGroup(arrayP, arrayPcluster, arrayC, newCentroids, newCount, last, grid, workPI, localSize);
      assert grid * workPI * localSize + workPI * localSize == (grid + 1) * workPI * localSize;
      ghost var hi := Min(n, (grid + 1) * workPI * localSize);
      AccumulateSplit(sums0, ps, cs, dims, 0, mid, hi);
      CountSplit(counts0, ps, cs, dims, 0, mid, hi);
      grid := grid + 1;
      mid := hi;
    }
  }

  /* ---------------------------------------------------------------------
     updateCentroids (lines 111-143).
     --------------------------------------------------------------------- */

  /** Row `c` of a two-dimensional buffer. */
  ghost function Row(a: array2<real>, c: int): (r: seq<real>)
    reads a
    requires 0 <= c < a.Length0
    ensures |r| == a.Length1
    ensures forall d :: 0 <= d < a.Length1 ==> r[d] == a[c, d]
  {
    seq(a.Length1, d requires 0 <= d < a.Length1 reads a => a[c, d])
  }

  /** The per-centroid body of updateCentroids (lines 124-132): row c of
      the centroids becomes the mean of the accumulated sums, or stays when
      `numpoints` is zero, and the row of accumulated sums is cleared. The
      returned shift is the squared distance the centroid moved, the sum of
      (d0 - d1)^2: line 132 as written sums d0 * d0 - d1 * d1 instead, which
      `KMeansFindings.NormDrop` models. */
  method UpdateCentroid(arrayC: array2<real>, newCentroids: array2<real>, c: int, numpoints: int) returns (distance: real)
    requires arrayC != newCentroids
    requires newCentroids.Length0 == arrayC.Length0 && newCentroids.Length1 == arrayC.Length1
    requires 0 <= c < arrayC.Length0
    modifies arrayC, newCentroids
    ensures forall k, d :: 0 <= k < arrayC.Length0 && 0 <= d < arrayC.Length1 ==>
      && arrayC[k, d] == (if k == c then MeanOrKeep(old(newCentroids[k, d]), numpoints, old(arrayC[k, d])) else old(arrayC[k, d]))
      && newCentroids[k, d] == (if k == c then 0.0 else old(newCentroids[k, d]))
    ensures distance == SqDist(old(Row(arrayC, c)), Row(arrayC, c))
  {
    ghost var before := Row(arrayC, c);
    ghost var moved: seq<real> := [];
    distance := 0.0;
    var d := 0;
    while d < arrayC.Length1
      invariant 0 <= d <= arrayC.Length1 && |moved| == d
      invariant forall k, e :: 0 <= k < arrayC.Length0 && 0 <= e < arrayC.Length1 ==>
        && arrayC[k, e] == (if k == c && e < d then MeanOrKeep(old(newCentroids[k, e]), numpoints, old(arrayC[k, e])) else old(arrayC[k, e]))
        && newCentroids[k, e] == (if k == c && e < d then 0.0 else old(newCentroids[k, e]))
      invariant forall e :: 0 <= e < d ==> moved[e] == arrayC[c, e]
      invariant distance == SqDist(before[..d], moved)
    {
      var d0 := arrayC[c, d];
      var d1 := newCentroids[c, d];
      newCentroids[c, d] := 0.0;
      d1 := if numpoints > 0 then d1 / numpoints as real else d0;
      arrayC[c, d] := d1;
      assert before[..d + 1] == before[..d] + [d0];
      SqDistSnoc(before[..d], moved, d0, d1);
      moved := moved + [d1];
      distance := distance + Sq(d0 - d1);
      d := d + 1;
    }
    assert before[..d] == before && moved == Row(arrayC, c);
  }

  /** The shifts recorded so far are the squared distances the first
      |shifts| centroids move to their means. */
  ghost predicate ShiftsMatch(shifts: seq<real>, before: seq<seq<real>>, sums: seq<seq<real>>, counts: seq<int>, w: nat)
  {
    && |before| == |sums| == |counts| && Rect(before, w) && Rect(sums, w) && |shifts| <= |before|
    && forall k :: 0 <= k < |shifts| ==> shifts[k] == SqDist(before[k], MeanRow(sums[k], counts[k], before[k]))
  }

  lemma ShiftsExtend(shifts: seq<real>, before: seq<seq<real>>, sums: seq<seq<real>>, counts: seq<int>, w: nat, distance: real)
    requires ShiftsMatch(shifts, before, sums, counts, w) && |shifts| < |before|
    requires distance == SqDist(before[|shifts|], MeanRow(sums[|shifts|], counts[|shifts|], before[|shifts|]))
    ensures ShiftsMatch(shifts + [distance], before, sums, counts, w)
  {
  }

  /** Once every centroid has moved, the recorded shifts are the shifts
      from the old centroids to their means. */
  lemma ShiftsComplete(shifts: seq<real>, before: seq<seq<real>>, sums: seq<seq<real>>, counts: seq<int>, w: nat)
    requires ShiftsMatch(shifts, before, sums, counts, w) && |shifts| == |before|
    ensures shifts == Shifts(before, Means(sums, counts, before, w), w)
  {
    var means := Means(sums, counts, before, w);
    forall k | 0 <= k < |shifts| ensures shifts[k] == Shifts(before, means, w)[k]
    {
      assert means[k] == MeanRow(sums[k], counts[k], before[k]);
    }
  }

  /** Progress of the centroid loop: centroids below c have published their
      count, cleared their accumulators and moved to their mean; the others
      are as they were (`before`, `sums`, `counts`, `published`). */
  ghost predicate CentroidsUpdatedBelow(arrayC: array2<real>, arrayCnumpoint: array<int>, newCentroids: array2<real>, newCount: array<int>,
                                        c: int, before: seq<seq<real>>, sums: seq<seq<real>>, counts: seq<int>, published: seq<int>)
    reads arrayC, arrayCnumpoint, newCentroids, newCount
  {
    && newCentroids.Length0 == arrayC.Length0 && newCentroids.Length1 == arrayC.Length1
    && arrayCnumpoint.Length == arrayC.Length0 && newCount.Length == arrayC.Length0
    && |before| == |sums| == |counts| == |published| == arrayC.Length0
    && Rect(before, arrayC.Length1) && Rect(sums, arrayC.Length1)
    && 0 <= c <= arrayC.Length0
    && (forall k :: 0 <= k < arrayC.Length0 ==>
          && arrayCnumpoint[k] == (if k < c then counts[k] else published[k])
          && newCount[k] == (if k < c then 0 else counts[k]))
    && (forall k, d :: 0 <= k < arrayC.Length0 && 0 <= d < arrayC.Length1 ==>
          && arrayC[k, d] == (if k < c then MeanOrKeep(sums[k][d], counts[k], before[k][d]) else before[k][d])
          && newCentroids[k, d] == (if k < c then 0.0 else sums[k][d]))
  }

  /** Lines 119-132 for centroid c: the count is published and cleared and
      the centroid moved; the result is the squared distance it moved. */
  method PublishAndUpdate(arrayC: array2<real>, arrayCnumpoint: array<int>, newCentroids: array2<real>, newCount: array<int>,
                          c: int, ghost before: seq<seq<real>>, ghost sums: seq<seq<real>>, ghost counts: seq<int>, ghost published: seq<int>)
    returns (distance: real)
    requires arrayC != newCentroids && arrayCnumpoint != newCount
    requires CentroidsUpdatedBelow(arrayC, arrayCnumpoint, newCentroids, newCount, c, before, sums, counts, published)
    requires c < arrayC.Length0
    modifies arrayC, arrayCnumpoint, newCentroids, newCount
    ensures CentroidsUpdatedBelow(arrayC, arrayCnumpoint, newCentroids, newCount, c + 1, before, sums, counts, published)
    ensures distance == SqDist(before[c], MeanRow(sums[c], counts[c], before[c]))
  {
    var numpoints := newCount[c];
    arrayCnumpoint[c] := numpoints;
    newCount[c] := 0;
    assert Row(arrayC, c) == before[c];
    distance := UpdateCentroid(arrayC, newCentroids, c, numpoints);
    assert Row(arrayC, c) == MeanRow(sums[c], counts[c], before[c]);
  }

  /** Progress of the running maxima: every centroid below c has a squared
      shift no larger than the maximum of its work-item c % S; each maximum
      is 0 or the shift of its witness centroid; and every work-item that
      has run published its maximum in its `local_distance` slot. */
  ghost predicate MaximaBelow(maxDistance: array<real>, localDistance: array<real>, c: int, shifts: seq<real>, argmax: seq<int>)
    reads maxDistance, localDistance
  {
    && 1 <= maxDistance.Length <= localDistance.Length
    && |shifts| == c && |argmax| == maxDistance.Length
    && (forall k :: 0 <= k < c ==> shifts[k] <= maxDistance[k % maxDistance.Length])
    && (forall m :: 0 <= m < maxDistance.Length ==>
          && maxDistance[m] >= 0.0 && -1 <= argmax[m] < c
          && maxDistance[m] == (if argmax[m] == -1 then 0.0 else shifts[argmax[m]]))
    && (forall m :: 0 <= m < maxDistance.Length && m < c ==> localDistance[m] == maxDistance[m])
  }

  /** Lines 134-135 for centroid c, run by work-item lid = c % S: the
      work-item's running maximum is raised to the centroid's squared shift
      and published in the work-item's slot of `local_distance`. */
  method RaiseMaximum(maxDistance: array<real>, localDistance: array<real>, c: int, distance: real,
                      ghost shifts: seq<real>, ghost argmax: seq<int>) returns (ghost argmax': seq<int>)
    requires maxDistance != localDistance
    requires MaximaBelow(maxDistance, localDistance, c, shifts, argmax)
    modifies maxDistance, localDistance
    ensures MaximaBelow(maxDistance, localDistance, c + 1, shifts + [distance], argmax')
  {
    var lid := c % maxDistance.Length;
    ghost var shifts' := shifts + [distance];
    argmax' := if distance > maxDistance[lid] then argmax[lid := c] else argmax;
    maxDistance[lid] := RMax(maxDistance[lid], distance);
    localDistance[lid] := maxDistance[lid];
    forall k | 0 <= k <= c
      ensures shifts'[k] <= maxDistance[k % maxDistance.Length]
    {
      if k < c {
        assert shifts'[k] == shifts[k] <= old(maxDistance[k % maxDistance.Length]);
      }
    }
    forall m | 0 <= m < maxDistance.Length
      ensures maxDistance[m] == (if argmax'[m] == -1 then 0.0 else shifts'[argmax'[m]])
    {
      if m != lid && argmax[m] != -1 {
        assert shifts'[argmax[m]] == shifts[argmax[m]];
      } else if m == lid && argmax'[m] != -1 && argmax'[m] != c {
        assert shifts'[argmax[m]] == shifts[argmax[m]];
      }
    }
    if c < maxDistance.Length {
      DivModUnique(c, maxDistance.Length, 0, c);
    }
    forall m | 0 <= m < maxDistance.Length && m <= c
      ensures localDistance[m] == maxDistance[m]
    {
      if m != lid {
        assert m < c;
      }
    }
  }

  /** Work-item 0's reduction (lines 139-141): its own running maximum
      raised to every published slot. The result is the largest of them. */
  method ReduceDistances(own: real, localDistance: array<real>, groupSize: int) returns (maxd: real)
    requires 0 <= groupSize <= localDistance.Length
    ensures maxd >= own && forall m :: 0 <= m < groupSize ==> localDistance[m] <= maxd
    ensures maxd == own || exists m :: 0 <= m < groupSize && maxd == localDistance[m]
  {
    maxd := own;
    var m := 0;
    while m < groupSize
      invariant 0 <= m <= groupSize
      invariant maxd >= own && forall k :: 0 <= k < m ==> localDistance[k] <= maxd
      invariant maxd == own || exists k :: 0 <= k < m && maxd == localDistance[k]
    {
      maxd := RMax(maxd, localDistance[m]);
      m := m + 1;
    }
  }

  /** The strided loops of lines 118-135: in lock-step order the S
      work-items visit c = 0, 1, ..., K - 1, centroid c by work-item c % S.
      Afterwards every centroid has been updated and every work-item's
      running maximum covers the squared shifts of its centroids. */
  method UpdateAllCentroids(arrayC: array2<real>, arrayCnumpoint: array<int>, newCentroids: array2<real>, newCount: array<int>,
                            maxDistance: array<real>, localDistance: array<real>,
                            ghost before: seq<seq<real>>, ghost sums: seq<seq<real>>, ghost counts: seq<int>, ghost published: seq<int>)
    returns (ghost shifts: seq<real>, ghost argmax: seq<int>)
    requires arrayC != newCentroids && arrayCnumpoint != newCount && maxDistance != localDistance
    requires CentroidsUpdatedBelow(arrayC, arrayCnumpoint, newCentroids, newCount, 0, before, sums, counts, published)
    requires MaximaBelow(maxDistance, localDistance, 0, [], seq(maxDistance.Length, m => -1))
    modifies arrayC, arrayCnumpoint, newCentroids, newCount, maxDistance, localDistance
    ensures CentroidsUpdatedBelow(arrayC, arrayCnumpoint, newCentroids, newCount, arrayC.Length0, before, sums, counts, published)
    ensures MaximaBelow(maxDistance, localDistance, arrayC.Length0, shifts, argmax)
    ensures ShiftsMatch(shifts, before, sums, counts, arrayC.Length1) && |shifts| == arrayC.Length0
  {
    shifts, argmax := [], seq(maxDistance.Length, m => -1);
    var c := 0;
    while c < arrayC.Length0
      invariant CentroidsUpdatedBelow(arrayC, arrayCnumpoint, newCentroids, newCount, c, before, sums, counts, published)
      invariant MaximaBelow(maxDistance, localDistance, c, shifts, argmax)
      invariant ShiftsMatch(shifts, before, sums, counts, arrayC.Length1) && |shifts| == c
    {
      var distance := PublishAndUpdate(arrayC, arrayCnumpoint, newCentroids, newCount, c, before, sums, counts, published);
      argmax := RaiseMaximum(maxDistance, localDistance, c, distance, shifts, argmax);
      ShiftsExtend(shifts, before, sums, counts, arrayC.Length1, distance);
      shifts := shifts + [distance];
      c := c + 1;
    }
  }

  /** After the centroid loop, the buffers hold the update step's result:
      the means, the published counts and cleared accumulators. */
  lemma CentroidsFinished(arrayC: array2<real>, arrayCnumpoint: array<int>, newCentroids: array2<real>, newCount: array<int>,
                          before: seq<seq<real>>, sums: seq<seq<real>>, counts: seq<int>, published: seq<int>)
    requires CentroidsUpdatedBelow(arrayC, arrayCnumpoint, newCentroids, newCount, arrayC.Length0, before, sums, counts, published)
    ensures Rows(arrayC) == Means(sums, counts, before, arrayC.Length1)
    ensures arrayCnumpoint[..] == counts
    ensures forall c :: 0 <= c < newCount.Length ==> newCount[c] == 0
    ensures forall c, d :: 0 <= c < newCentroids.Length0 && 0 <= d < newCentroids.Length1 ==> newCentroids[c, d] == 0.0
  {
    var means := Means(sums, counts, before, arrayC.Length1);
    forall c | 0 <= c < arrayC.Length0
      ensures Rows(arrayC)[c] == means[c]
    {
      assert Rows(arrayC)[c] == MeanRow(sums[c], counts[c], before[c]);
    }
  }

  /** Work-item 0's reduction yields the largest squared shift. */
  lemma ReductionIsMaxShift(maxDistance: array<real>, localDistance: array<real>, shifts: seq<real>, argmax: seq<int>, diffSquared: real)
    requires MaximaBelow(maxDistance, localDistance, |shifts|, shifts, argmax)
    requires maxDistance.Length <= |shifts|
    requires diffSquared >= maxDistance[0]
    requires forall m :: 0 <= m < maxDistance.Length ==> localDistance[m] <= diffSquared
    requires diffSquared == maxDistance[0] || exists m :: 0 <= m < maxDistance.Length && diffSquared == localDistance[m]
    ensures diffSquared == MaxOf(shifts)
  {
    var S := maxDistance.Length;
    forall k | 0 <= k < |shifts| ensures shifts[k] <= diffSquared
    {
      assert localDistance[k % S] == maxDistance[k % S];
    }
    var m :| 0 <= m < S && diffSquared == maxDistance[m];
    if diffSquared != 0.0 {
      assert diffSquared == shifts[argmax[m]];
    }
    MaxOfUnique(shifts, diffSquared);
  }

  /** The updateCentroids launch: one work-group of S = min(K, L) work-items
      (lines 236-239). Every centroid moves to the mean of its accumulated
      points, or stays when it has none; the counts are published to
      `arrayCnumpoint` and both accumulators are cleared. Each work-item
      keeps the running maximum of the squared shifts of its centroids and
      publishes it in its slot of `local_distance`; work-item 0 then reduces
      the slots. The result is the square of `diff`: the largest squared
      shift of any centroid. */
  method UpdateCentroids(arrayC: array2<real>, arrayCnumpoint: array<int>, newCentroids: array2<real>,
                         newCount: array<int>, localSize: int) returns (diffSquared: real)
    requires arrayC != newCentroids && arrayCnumpoint != newCount
    requires newCentroids.Length0 == arrayC.Length0 && newCentroids.Length1 == arrayC.Length1
    requires 1 <= arrayC.Length0 == arrayCnumpoint.Length == newCount.Length
    requires localSize >= 1
    modifies arrayC, arrayCnumpoint, newCentroids, newCount
    ensures Rows(arrayC) == Means(old(Rows(newCentroids)), old(newCount[..]), old(Rows(arrayC)), arrayC.Length1)
    ensures arrayCnumpoint[..] == old(newCount[..])
    ensures forall c :: 0 <= c < newCount.Length ==> newCount[c] == 0
    ensures forall c, d :: 0 <= c < newCentroids.Length0 && 0 <= d < newCentroids.Length1 ==> newCentroids[c, d] == 0.0
    ensures diffSquared == MaxOf(Shifts(old(Rows(arrayC)), Rows(arrayC), arrayC.Length1))
  {
    var groupSize := Min(arrayC.Length0, localSize);
    var localDistance := new real[localSize];
    var maxDistance := new real[groupSize](m => 0.0);
    ghost var before, sums, counts, published := Rows(arrayC), Rows(newCentroids), newCount[..], arrayCnumpoint[..];
    ghost var shifts, argmax := UpdateAllCentroids(arrayC, arrayCnumpoint, newCentroids, newCount, maxDistance, localDistance,
                                                   before, sums, counts, published);
    diffSquared := ReduceDistances(maxDistance[0], localDistance, groupSize);
    CentroidsFinished(arrayC, arrayCnumpoint, newCentroids, newCount, before, sums, counts, published);
    ReductionIsMaxShift(maxDistance, localDistance, shifts, argmax, diffSquared);
    ShiftsComplete(shifts, before, sums, counts, arrayC.Length1);
  }

  /* ---------------------------------------------------------------------
     updateLabels (lines 151-182).
     --------------------------------------------------------------------- */

  /** Lines 159-160: the strided loops of the L work-items together visit the
      flattened index i = 0, 1, ..., K*D - 1 once each, transposing entry
      (i // D, i % D) into the local table. */
  method StageCentroids(arrayC: array2<real>, localCentroids: array2<real>)
    requires localCentroids.Length0 == arrayC.Length1 && localCentroids.Length1 == arrayC.Length0
    requires localCentroids != arrayC
    modifies localCentroids
    ensures forall c, d :: 0 <= c < arrayC.Length0 && 0 <= d < arrayC.Length1 ==> localCentroids[d, c] == arrayC[c, d]
  {
    var numCentroids, dims := arrayC.Length0, arrayC.Length1;
    var i := 0;
    FlatBelow(numCentroids, dims);
    while i < numCentroids * dims
      invariant 0 <= i && (i <= numCentroids * dims || i == 0)
      invariant forall c, d :: 0 <= c < numCentroids && 0 <= d < dims && Flat(c, d, dims) < i ==>
        localCentroids[d, c] == arrayC[c, d]
    {
      FlatDecode(i, dims, numCentroids);
      localCentroids[i % dims, i / dims] := arrayC[i / dims, i % dims];
      i := i + 1;
    }
  }

  /** The point loop of one work-group of updateLabels (lines 164-182),
      flattened as in AssignPoints: every point of [lo, hi) is labelled with
      its nearest centroid, unconditionally; no other label changes. */
  method LabelPoints(arrayP: array2<real>, arrayPcluster: array<int>, localCentroids: array2<real>,
                     base: int, steps: int, ghost cs: seq<seq<real>>)
    requires arrayP.Length0 == arrayPcluster.Length
    requires localCentroids.Length0 == arrayP.Length1 && 1 <= localCentroids.Length1 == |cs|
    requires Rect(cs, arrayP.Length1)
    requires forall c, d :: 0 <= c < |cs| && 0 <= d < arrayP.Length1 ==> localCentroids[d, c] == cs[c][d]
    requires base >= 0 && steps >= 0
    modifies arrayPcluster
    ensures var ps, n := Rows(arrayP), arrayP.Length0;
      forall p :: 0 <= p < n ==>
        arrayPcluster[p] == if Min(n, base) <= p < Min(n, base + steps) then Label(ps, cs, p) else old(arrayPcluster[p])
  {
    ghost var ps, n := Rows(arrayP), arrayP.Length0;
    var t := 0;
    while t < steps
      invariant 0 <= t <= steps
      invariant forall p :: 0 <= p < n ==>
        arrayPcluster[p] == if Min(n, base) <= p < Min(n, base + t) then Label(ps, cs, p) else old(arrayPcluster[p])
    {
      var pointId := base + t;
      if pointId < arrayP.Length0 {
        var localP := LoadPoint(arrayP, pointId);
        var nearest := NearestCentroid(localP, localCentroids, cs);
        arrayPcluster[pointId] := nearest;
      }
      t := t + 1;
    }
  }

  /** One work-group of updateLabels: the centroids are staged transposed in
      fresh local memory and the group's points below N are labelled. */
  method UpdateLabelsGroup(arrayP: array2<real>, arrayPcluster: array<int>, arrayC: array2<real>,
                           grid: int, workPI: int, localSize: int)
    requires arrayP.Length0 == arrayPcluster.Length && arrayP.Length1 == arrayC.Length1 && 1 <= arrayC.Length0
    requires grid >= 0 && workPI >= 1 && localSize >= 1
    modifies arrayPcluster
    ensures var ps, cs, n := Rows(arrayP), Rows(arrayC), arrayP.Length0;
      var lo, hi := Min(n, grid * workPI * localSize), Min(n, grid * workPI * localSize + workPI * localSize);
      forall p :: 0 <= p < n ==> arrayPcluster[p] == if lo <= p < hi then Label(ps, cs, p) else old(arrayPcluster[p])
  {
    var localCentroids := new real[arrayC.Length1, arrayC.Length0];
    StageCentroids(arrayC, localCentroids);
    LabelPoints(arrayP, arrayPcluster, localCentroids, grid * workPI * localSize, workPI * localSize, Rows(arrayC));
  }

  /** The updateLabels launch over `numGroups` work-groups: exactly the
      points below min(N, numGroups * WorkPI * L) are relabelled with their
      nearest centroid. */
  method UpdateLabels(arrayP: array2<real>, arrayPcluster: array<int>, arrayC: array2<real>,
                      numGroups: int, workPI: int, localSize: int)
    requires arrayP.Length0 == arrayPcluster.Length && arrayP.Length1 == arrayC.Length1 && 1 <= arrayC.Length0
    requires numGroups >= 0 && workPI >= 1 && localSize >= 1
    modifies arrayPcluster
    ensures var ps, cs, n := Rows(arrayP), Rows(arrayC), arrayP.Length0;
      forall p :: 0 <= p < n ==>
        arrayPcluster[p] == if p < Min(n, numGroups * workPI * localSize) then Label(ps, cs, p) else old(arrayPcluster[p])
  {
    ghost var ps, cs, n := Rows(arrayP), Rows(arrayC), arrayP.Length0;
    var grid := 0;
    ghost var mid := 0;
    while grid < numGroups
      invariant 0 <= grid <= numGroups
      invariant mid == Min(n, grid * workPI * localSize) && 0 <= mid
      invariant forall p :: 0 <= p < n ==> arrayPcluster[p] == if p < mid then Label(ps, cs, p) else old(arrayPcluster[p])
    {
      UpdateLabelsGroup(arrayP, arrayPcluster, arrayC, grid, workPI, localSize);
      assert grid * workPI * localSize + workPI * localSize == (grid + 1) * workPI * localSize;
      grid := grid + 1;
      mid := Min(n, grid * workPI * localSize);
    }
  }
}
