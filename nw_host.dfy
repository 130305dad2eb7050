/** The host side of the Needleman-Wunsch benchmark (runTest in
    nw_sycl/_nw_sycl.cpp, lines 60-229): it fills the score matrix and the
    similarity matrix for two residue sequences, runs the two launch loops
    and walks the traceback. The sequences, which the source draws with
    rand(), are parameters here. */
module NwHost {
  import opened NwSpec
  import opened NwTile
  import opened NwWaves
  import opened NwTraceback

  /** Lines 86-90: every cell of `m` set to 0. */
  method ZeroFill(m: array2<int>)
    modifies m
    ensures forall y, x :: 0 <= y < m.Length0 && 0 <= x < m.Length1 ==> m[y, x] == 0
  {
    var i := 0;
    while i < m.Length0
      invariant 0 <= i <= m.Length0
      invariant forall y, x :: 0 <= y < i && 0 <= x < m.Length1 ==> m[y, x] == 0
    {
      var j := 0;
      while j < m.Length1
        invariant 0 <= j <= m.Length1
        invariant forall y, x :: 0 <= y < i && 0 <= x < m.Length1 ==> m[y, x] == 0
        invariant forall x :: 0 <= x < j ==> m[i, x] == 0
      {
        m[i, j] := 0;
        j := j + 1;
      }
      i := i + 1;
    }
  }

  /** Lines 99-104: the similarity of the residue stored at the head of
      row i and the one at the head of column j, looked up in the BLOSUM62
      table, goes to cell (i, j) of `reference`; row 0 and column 0 of
      `reference` are not written. */
  method FillReference(reference: array2<int>, items: array2<int>, ghost a: seq<int>, ghost b: seq<int>)
    requires Matrices(reference, items) && items.Length0 == |a| + 1 && |a| == |b|
    requires ValidSymbols(a) && ValidSymbols(b)
    requires forall i :: 1 <= i < items.Length0 ==> items[i, 0] == a[i - 1] && items[0, i] == b[i - 1]
    modifies reference
    ensures forall i, j :: 1 <= i < reference.Length0 && 1 <= j < reference.Length1 ==>
      reference[i, j] == Blosum62[a[i - 1]][b[j - 1]]
    ensures forall i, j :: 0 <= i < reference.Length0 && 0 <= j < reference.Length1 && (i == 0 || j == 0) ==>
      reference[i, j] == old(reference[i, j])
  {
    Blosum62Shape();
    var i := 1;
    while i < items.Length0
      invariant 1 <= i <= items.Length0
      invariant forall y, x :: 1 <= y < i && 1 <= x < reference.Length1 ==> reference[y, x] == Blosum62[a[y - 1]][b[x - 1]]
      invariant forall y, x :: 0 <= y < reference.Length0 && 0 <= x < reference.Length1 && (y == 0 || x == 0) ==>
        reference[y, x] == old(reference[y, x])
    {
      var j := 1;
      while j < items.Length0
        invariant 1 <= j <= items.Length0
        invariant forall y, x :: 1 <= y < i && 1 <= x < reference.Length1 ==> reference[y, x] == Blosum62[a[y - 1]][b[x - 1]]
        invariant forall x :: 1 <= x < j ==> reference[i, x] == Blosum62[a[i - 1]][b[x - 1]]
        invariant forall y, x :: 0 <= y < reference.Length0 && 0 <= x < reference.Length1 && (y == 0 || x == 0) ==>
          reference[y, x] == old(reference[y, x])
      {
        reference[i, j] := Blosum62[items[i, 0]][items[0, j]];
        j := j + 1;
      }
      i := i + 1;
    }
  }

  /** Lines 78-109 for sequences a (down column 0) and b (along row 0) of
      equal length n: both matrices are (n + 1) x (n + 1); the score
      matrix holds the gap penalties -k * penalty along row 0 and column 0
      and 0 inside, and the similarity matrix holds, from row 1 and column
      1 on, the similarities of a and b. */
  method Initialise(a: seq<int>, b: seq<int>, penalty: int) returns (reference: array2<int>, items: array2<int>)
    requires |a| == |b| && ValidSymbols(a) && ValidSymbols(b)
    ensures fresh(reference) && fresh(items)
    ensures Setting(reference, items, Similarity(a, b))
    ensures forall k :: 0 <= k < items.Length0 ==> items[0, k] == -k * penalty && items[k, 0] == -k * penalty
    ensures forall i, j :: 1 <= i < items.Length0 && 1 <= j < items.Length1 ==> items[i, j] == 0
  {
    var rows := |a| + 1;
    reference := new int[rows, rows];
    items := new int[rows, rows];
    ZeroFill(items);
    PlaceSequences(items, a, b);
    FillReference(reference, items, a, b);
    PlaceGaps(items, penalty);
  }

  /** Lines 92-97: the residues of a go down column 0 and those of b along
      row 0, below and right of the corner; nothing else changes. */
  method PlaceSequences(items: array2<int>, a: seq<int>, b: seq<int>)
    requires items.Length0 == items.Length1 == |a| + 1 && |a| == |b|
    modifies items
    ensures forall k :: 1 <= k < items.Length0 ==> items[k, 0] == a[k - 1] && items[0, k] == b[k - 1]
    ensures forall y, x :: 0 <= y < items.Length0 && 0 <= x < items.Length1 && (y == 0) == (x == 0) ==>
      items[y, x] == old(items[y, x])
  {
    var i := 1;
    while i < items.Length0
      invariant 1 <= i <= items.Length0
      invariant forall k :: 1 <= k < i ==> items[k, 0] == a[k - 1]
      invariant forall y, x :: 0 <= y < items.Length0 && 0 <= x < items.Length1 && (y == 0 || x != 0) ==>
        items[y, x] == old(items[y, x])
    {
      items[i, 0] := a[i - 1];
      i := i + 1;
    }
    var j := 1;
    while j < items.Length1
      invariant 1 <= j <= items.Length1
      invariant forall k :: 1 <= k < items.Length0 ==> items[k, 0] == a[k - 1]
      invariant forall k :: 1 <= k < j ==> items[0, k] == b[k - 1]
      invariant forall y, x :: 0 <= y < items.Length0 && 0 <= x < items.Length1 && (y == 0) == (x == 0) ==>
        items[y, x] == old(items[y, x])
    {
      items[0, j] := b[j - 1];
      j := j + 1;
    }
  }

  /** Lines 106-109: row 0 and column 0, from index 1 on, receive the gap
      penalties -k * penalty; nothing else changes. */
  method PlaceGaps(items: array2<int>, penalty: int)
    requires items.Length0 == items.Length1 >= 1
    modifies items
    ensures forall k :: 1 <= k < items.Length0 ==> items[k, 0] == -k * penalty && items[0, k] == -k * penalty
    ensures forall y, x :: 0 <= y < items.Length0 && 0 <= x < items.Length1 && (y == 0) == (x == 0) ==>
      items[y, x] == old(items[y, x])
  {
    var i := 1;
    while i < items.Length0
      invariant 1 <= i <= items.Length0
      invariant forall k :: 1 <= k < i ==> items[k, 0] == -k * penalty
      invariant forall y, x :: 0 <= y < items.Length0 && 0 <= x < items.Length1 && (y == 0 || x != 0) ==>
        items[y, x] == old(items[y, x])
    {
      items[i, 0] := -i * penalty;
      i := i + 1;
    }
    var j := 1;
    while j < items.Length1
      invariant 1 <= j <= items.Length1
      invariant forall k :: 1 <= k < items.Length0 ==> items[k, 0] == -k * penalty
      invariant forall k :: 1 <= k < j ==> items[0, k] == -k * penalty
      invariant forall y, x :: 0 <= y < items.Length0 && 0 <= x < items.Length1 && (y == 0) == (x == 0) ==>
        items[y, x] == old(items[y, x])
    {
      items[0, j] := -j * penalty;
      j := j + 1;
    }
  }

  /** Lines 111-224 once the matrices are initialised, for any similarity
      grid `sim` that `reference` holds: when the side n of the grid is a
      multiple of 16, every cell of `items` ends up holding its score, and
      the traceback walks from cell (n - 1, n - 1). */
  method Align(reference: array2<int>, items: array2<int>, penalty: int, ghost sim: seq<seq<int>>)
    returns (path: seq<(int, int)>)
    requires Setting(reference, items, sim) && |sim| % BlockSize == 0
    requires forall k :: 0 <= k < items.Length0 ==> items[0, k] == -k * penalty && items[k, 0] == -k * penalty
    modifies items
    ensures Scored(reference, items, sim, penalty)
    ensures path == Trace(reference, items, penalty, |sim| - 1, |sim| - 1)
  {
    RunWaves(reference, items, penalty, sim);
    assert BlockSize * ((items.Length0 - 1) / BlockSize) == |sim|;
    path := Traceback(reference, items, penalty);
  }

  /** runTest for two sequences of equal length n, a multiple of 16 as
      lines 71-72 require: the score matrix of a and b is computed and
      the traceback walks from cell (n - 1, n - 1). */
  method RunTest(a: seq<int>, b: seq<int>, penalty: int)
    returns (reference: array2<int>, items: array2<int>, path: seq<(int, int)>)
    requires |a| == |b| && |a| % BlockSize == 0 && ValidSymbols(a) && ValidSymbols(b)
    ensures fresh(reference) && fresh(items)
    ensures Scored(reference, items, Similarity(a, b), penalty)
    ensures path == Trace(reference, items, penalty, |a| - 1, |a| - 1)
  {
    reference, items := Initialise(a, b, penalty);
    path := Align(reference, items, penalty, Similarity(a, b));
  }

  /** A score matrix finished for the similarities of a and b holds, in
      every cell (i, j), the Needleman-Wunsch score of a[..i] against
      b[..j]. */
  lemma ScoredSequences(reference: array2<int>, items: array2<int>, a: seq<int>, b: seq<int>, penalty: int)
    requires |a| == |b| && ValidSymbols(a) && ValidSymbols(b)
    requires Scored(reference, items, Similarity(a, b), penalty)
    ensures items.Length0 == items.Length1 == |a| + 1
    ensures forall i, j :: 0 <= i <= |a| && 0 <= j <= |b| ==> items[i, j] == Score(a, b, penalty, i, j)
  {
  }
}
