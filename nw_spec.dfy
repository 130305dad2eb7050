/** The scoring side of the Needleman-Wunsch benchmark
    (nw_sycl/_nw_sycl.cpp and the commented-out tile kernels of
    nw_numba_dpex_k.py): the substitution table, the three-way maximum and the recurrence the score
    matrix satisfies, stated once for any grid whose row 0 and column 0 are
    given, so that the whole matrix and each 16 x 16 tile are instances of
    the same definition. */
module NwSpec {

  /** Side of a tile (nw_numba_dpex_k.py, line 8). */
  const BlockSize: int := 16

  /** The score that stands for a neighbour outside the matrix
      (nw_numba_dpex_k.py, line 9). */
  const Limit: int := -999

  /** The larger of three scores (nw_numba_dpex_k.py, lines 13-16): an
      upper bound of all three that is one of them. */
  function Maximum(a: int, b: int, c: int): (k: int)
    ensures k >= a && k >= b && k >= c
    ensures k == a || k == b || k == c
  {
    var k := if a > b then a else b;
    if c > k then c else k
  }

  /** The BLOSUM62 substitution table of _nw_sycl.cpp, lines 11-58. */
  const Blosum62: seq<seq<int>> := [
    [4, -1, -2, -2, 0, -1, -1, 0, -2, -1, -1, -1, -1, -2, -1, 1, 0, -3, -2, 0, -2, -1, 0, -4],
    [-1, 5, 0, -2, -3, 1, 0, -2, 0, -3, -2, 2, -1, -3, -2, -1, -1, -3, -2, -3, -1, 0, -1, -4],
    [-2, 0, 6, 1, -3, 0, 0, 0, 1, -3, -3, 0, -2, -3, -2, 1, 0, -4, -2, -3, 3, 0, -1, -4],
    [-2, -2, 1, 6, -3, 0, 2, -1, -1, -3, -4, -1, -3, -3, -1, 0, -1, -4, -3, -3, 4, 1, -1, -4],
    [0, -3, -3, -3, 9, -3, -4, -3, -3, -1, -1, -3, -1, -2, -3, -1, -1, -2, -2, -1, -3, -3, -2, -4],
    [-1, 1, 0, 0, -3, 5, 2, -2, 0, -3, -2, 1, 0, -3, -1, 0, -1, -2, -1, -2, 0, 3, -1, -4],
    [-1, 0, 0, 2, -4, 2, 5, -2, 0, -3, -3, 1, -2, -3, -1, 0, -1, -3, -2, -2, 1, 4, -1, -4],
    [0, -2, 0, -1, -3, -2, -2, 6, -2, -4, -4, -2, -3, -3, -2, 0, -2, -2, -3, -3, -1, -2, -1, -4],
    [-2, 0, 1, -1, -3, 0, 0, -2, 8, -3, -3, -1, -2, -1, -2, -1, -2, -2, 2, -3, 0, 0, -1, -4],
    [-1, -3, -3, -3, -1, -3, -3, -4, -3, 4, 2, -3, 1, 0, -3, -2, -1, -3, -1, 3, -3, -3, -1, -4],
    [-1, -2, -3, -4, -1, -2, -3, -4, -3, 2, 4, -2, 2, 0, -3, -2, -1, -2, -1, 1, -4, -3, -1, -4],
    [-1, 2, 0, -1, -3, 1, 1, -2, -1, -3, -2, 5, -1, -3, -1, 0, -1, -3, -2, -2, 0, 1, -1, -4],
    [-1, -1, -2, -3, -1, 0, -2, -3, -2, 1, 2, -1, 5, 0, -2, -1, -1, -1, -1, 1, -3, -1, -1, -4],
    [-2, -3, -3, -3, -2, -3, -3, -3, -1, 0, 0, -3, 0, 6, -4, -2, -2, 1, 3, -1, -3, -3, -1, -4],
    [-1, -2, -2, -1, -3, -1, -1, -2, -2, -3, -3, -1, -2, -4, 7, -1, -1, -4, -3, -2, -2, -1, -2, -4],
    [1, -1, 1, 0, -1, 0, 0, 0, -1, -2, -2, 0, -1, -2, -1, 4, 1, -3, -2, -2, 0, 0, 0, -4],
    [0, -1, 0, -1, -1, -1, -1, -2, -2, -1, -1, -1, -1, -2, -1, 1, 5, -2, -2, 0, -1, -1, 0, -4],
    [-3, -3, -4, -4, -2, -2, -3, -2, -2, -3, -2, -3, -1, 1, -4, -3, -2, 11, 2, -3, -4, -3, -2, -4],
    [-2, -2, -2, -3, -2, -1, -2, -3, 2, -1, -1, -2, -1, 3, -3, -2, -2, 2, 7, -1, -3, -2, -1, -4],
    [0, -3, -3, -3, -1, -2, -2, -3, -3, 3, 1, -2, 1, -1, -2, -2, 0, -3, -1, 4, -3, -2, -1, -4],
    [-2, -1, 3, 4, -3, 0, 1, -1, 0, -3, -4, 0, -3, -3, -2, 0, -1, -4, -3, -3, 4, 1, -1, -4],
    [-1, 0, 0, 1, -3, 3, 4, -2, 0, -3, -3, 1, -1, -3, -1, 0, -1, -3, -2, -2, 1, 4, -1, -4],
    [0, -1, -1, -1, -2, -1, -1, -1, -1, -1, -1, -1, -1, -1, -2, 0, 0, -2, -1, -1, -1, -1, -1, -4],
    [-4, -4, -4, -4, -4, -4, -4, -4, -4, -4, -4, -4, -4, -4, -4, -4, -4, -4, -4, -4, -4, -4, -4, 1]
  ]

  /** A rows x cols matrix of rows. */
  predicate Grid(m: seq<seq<int>>, rows: nat, cols: nat)
  {
    |m| == rows && forall r :: 0 <= r < rows ==> |m[r]| == cols
  }

  /** The table is 24 x 24. */
  lemma Blosum62Shape()
    ensures Grid(Blosum62, 24, 24)
  {
  }

  /** A residue as the benchmark draws it, `rand() % 10 + 1` (lines 92-97). */
  predicate ValidSymbols(s: seq<int>)
  {
    forall k :: 0 <= k < |s| ==> 1 <= s[k] <= 10
  }

  /** The similarity of residue a[r] of the first sequence (the one stored
      down column 0) and residue b[c] of the second (the one stored along
      row 0): the `referrence` entry of cell (r + 1, c + 1), lines 99-104. */
  function Similarity(a: seq<int>, b: seq<int>): (sim: seq<seq<int>>)
    requires ValidSymbols(a) && ValidSymbols(b)
    ensures Grid(sim, |a|, |b|)
    ensures forall r, c :: 0 <= r < |a| && 0 <= c < |b| ==> sim[r][c] == Blosum62[a[r]][b[c]]
  {
    Blosum62Shape();
    seq(|a|, r requires 0 <= r < |a| => seq(|b|, c requires 0 <= c < |b| => Blosum62[a[r]][b[c]]))
  }

  /** The gap penalties along an edge of the matrix: entry k is
      -k * penalty (lines 106-109). */
  function Gaps(len: nat, penalty: int): (g: seq<int>)
    ensures |g| == len + 1 && g[0] == 0
    ensures forall k :: 0 <= k <= len ==> g[k] == -k * penalty
  {
    seq(len + 1, k => -k * penalty)
  }

  /** The Needleman-Wunsch recurrence on a grid whose row 0 is `north` and
      whose column 0 is `west` below the corner north[0]: an inner cell
      (y, x) takes the best of the diagonal step scored by sim[y-1][x-1] and
      a gap step from the west or from the north, each costing `penalty`
      (nw_numba_dpex_k.py, lines 54-59). */
  function Dp(north: seq<int>, west: seq<int>, sim: seq<seq<int>>, penalty: int, y: nat, x: nat): int
    requires |north| >= 1 && |west| >= 1 && Grid(sim, |west| - 1, |north| - 1)
    requires y < |west| && x < |north|
    decreases y + x
  {
    if y == 0 then north[x]
    else if x == 0 then west[y]
    else Maximum(Dp(north, west, sim, penalty, y - 1, x - 1) + sim[y - 1][x - 1],
                 Dp(north, west, sim, penalty, y, x - 1) - penalty,
                 Dp(north, west, sim, penalty, y - 1, x) - penalty)
  }

  /** The score matrix of a rows x cols similarity grid with gap
      penalties along row 0 and column 0 (lines 106-109). */
  function GridScore(sim: seq<seq<int>>, rows: nat, cols: nat, penalty: int, i: nat, j: nat): int
    requires Grid(sim, rows, cols) && i <= rows && j <= cols
  {
    Dp(Gaps(cols, penalty), Gaps(rows, penalty), sim, penalty, i, j)
  }

  /** The score matrix the benchmark computes for sequences a (down column
      0) and b (along row 0). */
  function Score(a: seq<int>, b: seq<int>, penalty: int, i: nat, j: nat): int
    requires ValidSymbols(a) && ValidSymbols(b) && i <= |a| && j <= |b|
  {
    GridScore(Similarity(a, b), |a|, |b|, penalty, i, j)
  }

  /** Row 0 and column 0 of the score matrix are the gap penalties, and
      every inner cell is the best of its three candidates. */
  lemma GridScoreRecurrence(sim: seq<seq<int>>, rows: nat, cols: nat, penalty: int, i: nat, j: nat)
    requires Grid(sim, rows, cols) && i <= rows && j <= cols
    ensures i == 0 ==> GridScore(sim, rows, cols, penalty, i, j) == -(j as int) * penalty
    ensures i > 0 && j == 0 ==> GridScore(sim, rows, cols, penalty, i, j) == -(i as int) * penalty
    ensures i > 0 && j > 0 ==>
      GridScore(sim, rows, cols, penalty, i, j) ==
        Maximum(GridScore(sim, rows, cols, penalty, i - 1, j - 1) + sim[i - 1][j - 1],
                GridScore(sim, rows, cols, penalty, i, j - 1) - penalty,
                GridScore(sim, rows, cols, penalty, i - 1, j) - penalty)
  {
  }

  /** The grid (north', west', sim') sits at (oy, ox) in the grid
      (north, west, sim): its row 0 and column 0 hold the enclosing scores
      and its similarities are the enclosing ones. */
  predicate Embedded(north: seq<int>, west: seq<int>, sim: seq<seq<int>>, penalty: int, oy: nat, ox: nat,
                     north': seq<int>, west': seq<int>, sim': seq<seq<int>>)
  {
    && |north| >= 1 && |west| >= 1 && Grid(sim, |west| - 1, |north| - 1)
    && |north'| >= 1 && |west'| >= 1 && Grid(sim', |west'| - 1, |north'| - 1)
    && oy + |west'| <= |west| && ox + |north'| <= |north|
    && (forall k :: 0 <= k < |north'| ==> north'[k] == Dp(north, west, sim, penalty, oy, ox + k))
    && (forall k :: 0 <= k < |west'| ==> west'[k] == Dp(north, west, sim, penalty, oy + k, ox))
    && (forall r, c :: 0 <= r < |west'| - 1 && 0 <= c < |north'| - 1 ==> sim'[r][c] == sim[oy + r][ox + c])
  }

  /** Cell (y, x) of the sub-rectangle at (oy, ox) has its enclosing value. */
  predicate Agrees(north: seq<int>, west: seq<int>, sim: seq<seq<int>>, penalty: int, oy: nat, ox: nat,
                   north': seq<int>, west': seq<int>, sim': seq<seq<int>>, y: nat, x: nat)
    requires |north| >= 1 && |west| >= 1 && Grid(sim, |west| - 1, |north| - 1)
    requires |north'| >= 1 && |west'| >= 1 && Grid(sim', |west'| - 1, |north'| - 1)
    requires y < |west'| && x < |north'| && oy + y < |west| && ox + x < |north|
  {
    Dp(north', west', sim', penalty, y, x) == Dp(north, west, sim, penalty, oy + y, ox + x)
  }

  /** The recurrence is local: on a sub-rectangle with corner (oy, ox) whose
      row 0 and column 0 already hold the scores of the enclosing grid and
      whose similarities are the enclosing ones, it recomputes the enclosing
      scores. This is what lets a tile be computed from its borders alone. */
  lemma {:induction false} DpOfSubgrid(north: seq<int>, west: seq<int>, sim: seq<seq<int>>, penalty: int,
                                       oy: nat, ox: nat, north': seq<int>, west': seq<int>, sim': seq<seq<int>>,
                                       y: nat, x: nat)
    requires Embedded(north, west, sim, penalty, oy, ox, north', west', sim')
    requires y < |west'| && x < |north'|
    ensures Agrees(north, west, sim, penalty, oy, ox, north', west', sim', y, x)
    decreases y + x
  {
    if y > 0 && x > 0 {
      DpOfSubgrid(north, west, sim, penalty, oy, ox, north', west', sim', y - 1, x - 1);
      DpOfSubgrid(north, west, sim, penalty, oy, ox, north', west', sim', y, x - 1);
      DpOfSubgrid(north, west, sim, penalty, oy, ox, north', west', sim', y - 1, x);
      DpInnerAgrees(north, west, sim, penalty, oy, ox, north', west', sim', y, x);
    } else {
      DpBorderAgrees(north, west, sim, penalty, oy, ox, north', west', sim', y, x);
    }
  }

  /** A cell on row 0 or column 0 of a sub-rectangle at (oy, ox) has its
      enclosing value. */
  lemma DpBorderAgrees(north: seq<int>, west: seq<int>, sim: seq<seq<int>>, penalty: int, oy: nat, ox: nat,
                       north': seq<int>, west': seq<int>, sim': seq<seq<int>>, y: nat, x: nat)
    requires Embedded(north, west, sim, penalty, oy, ox, north', west', sim')
    requires y < |west'| && x < |north'| && (y == 0 || x == 0)
    ensures Agrees(north, west, sim, penalty, oy, ox, north', west', sim', y, x)
  {
    if y == 0 {
      assert Dp(north', west', sim', penalty, y, x) == north'[x];
      assert oy + y == oy;
    } else {
      assert Dp(north', west', sim', penalty, y, x) == west'[y];
      assert ox + x == ox;
    }
  }

  /** An inner cell of a sub-rectangle at (oy, ox) has its enclosing value
      when its three predecessors have theirs and its similarity is the
      enclosing one. */
  lemma DpInnerAgrees(north: seq<int>, west: seq<int>, sim: seq<seq<int>>, penalty: int, oy: nat, ox: nat,
                      north': seq<int>, west': seq<int>, sim': seq<seq<int>>, y: nat, x: nat)
    requires |north| >= 1 && |west| >= 1 && Grid(sim, |west| - 1, |north| - 1)
    requires |north'| >= 1 && |west'| >= 1 && Grid(sim', |west'| - 1, |north'| - 1)
    requires 1 <= y < |west'| && 1 <= x < |north'| && oy + y < |west| && ox + x < |north|
    requires Agrees(north, west, sim, penalty, oy, ox, north', west', sim', y - 1, x - 1)
    requires Agrees(north, west, sim, penalty, oy, ox, north', west', sim', y, x - 1)
    requires Agrees(north, west, sim, penalty, oy, ox, north', west', sim', y - 1, x)
    requires sim'[y - 1][x - 1] == sim[oy + y - 1][ox + x - 1]
    ensures Agrees(north, west, sim, penalty, oy, ox, north', west', sim', y, x)
  {
    var Y, X := oy + y, ox + x;
    assert Y - 1 == oy + (y - 1) && X - 1 == ox + (x - 1);
  }

  /* ---------------------------------------------------------------------
     What the recurrence computes: the best alignment score.
     --------------------------------------------------------------------- */

  /** A step of an alignment into a cell: residue against residue, or a
      gap in one of the sequences. */
  datatype Step = Diagonal | West | North

  /** The cell a step into (i, j) comes from. */
  function Source(s: Step, i: int, j: int): (int, int)
  {
    match s
    case Diagonal => (i - 1, j - 1)
    case West => (i, j - 1)
    case North => (i - 1, j)
  }

  /** `steps`, read backwards from (i, j), stay in the matrix and end at
      (0, 0): an alignment of a[..i] with b[..j]. */
  predicate IsAlignment(steps: seq<Step>, i: int, j: int)
    decreases |steps|
  {
    if steps == [] then i == 0 && j == 0
    else
      var (i', j') := Source(steps[0], i, j);
      0 <= i' && 0 <= j' && IsAlignment(steps[1..], i', j')
  }

  /** What a step into (i, j) adds to an alignment's score: the
      similarity of the residues it matches, or minus the gap penalty. */
  function Gain(sim: seq<seq<int>>, rows: nat, cols: nat, penalty: int, s: Step, i: int, j: int): int
    requires Grid(sim, rows, cols) && 0 <= i <= rows && 0 <= j <= cols
    requires s == Diagonal ==> i >= 1 && j >= 1
  {
    if s == Diagonal then sim[i - 1][j - 1] else -penalty
  }

  /** The score of an alignment: the similarity of every residue pair it
      matches, less the penalty for every gap. */
  function AlignmentScore(sim: seq<seq<int>>, rows: nat, cols: nat, penalty: int, steps: seq<Step>, i: int, j: int): int
    requires Grid(sim, rows, cols) && 0 <= i <= rows && 0 <= j <= cols
    requires IsAlignment(steps, i, j)
    decreases |steps|
  {
    if steps == [] then 0
    else
      var (i', j') := Source(steps[0], i, j);
      AlignmentScore(sim, rows, cols, penalty, steps[1..], i', j') + Gain(sim, rows, cols, penalty, steps[0], i, j)
  }

  /** The step a cell's score came from: its source's score plus the step's
      gain is the cell's score. */
  lemma BestStep(sim: seq<seq<int>>, rows: nat, cols: nat, penalty: int, i: nat, j: nat) returns (s: Step)
    requires Grid(sim, rows, cols) && i <= rows && j <= cols && (i, j) != (0, 0)
    ensures 0 <= Source(s, i, j).0 && 0 <= Source(s, i, j).1 && (s == Diagonal ==> i >= 1 && j >= 1)
    ensures GridScore(sim, rows, cols, penalty, Source(s, i, j).0, Source(s, i, j).1)
              + Gain(sim, rows, cols, penalty, s, i, j) == GridScore(sim, rows, cols, penalty, i, j)
  {
    if i == 0 {
      s := West;
      RowGap(sim, rows, cols, penalty, j);
    } else if j == 0 {
      s := North;
      ColumnGap(sim, rows, cols, penalty, i);
    } else {
      s := InnerBestStep(sim, rows, cols, penalty, i, j);
    }
  }

  /** BestStep for an inner cell: the first of the three candidates that
      attains the maximum. */
  lemma InnerBestStep(sim: seq<seq<int>>, rows: nat, cols: nat, penalty: int, i: nat, j: nat) returns (s: Step)
    requires Grid(sim, rows, cols) && 1 <= i <= rows && 1 <= j <= cols
    ensures GridScore(sim, rows, cols, penalty, Source(s, i, j).0, Source(s, i, j).1)
              + Gain(sim, rows, cols, penalty, s, i, j) == GridScore(sim, rows, cols, penalty, i, j)
  {
    GridScoreRecurrence(sim, rows, cols, penalty, i, j);
    if GridScore(sim, rows, cols, penalty, i, j) == GridScore(sim, rows, cols, penalty, i - 1, j - 1) + sim[i - 1][j - 1] {
      s := Diagonal;
    } else if GridScore(sim, rows, cols, penalty, i, j) == GridScore(sim, rows, cols, penalty, i, j - 1) - penalty {
      s := West;
    } else {
      s := North;
    }
  }

  /** Every step into a cell adds at most the cell's score to its source's. */
  lemma StepBound(sim: seq<seq<int>>, rows: nat, cols: nat, penalty: int, s: Step, i: nat, j: nat)
    requires Grid(sim, rows, cols) && i <= rows && j <= cols
    requires 0 <= Source(s, i, j).0 && 0 <= Source(s, i, j).1
    ensures GridScore(sim, rows, cols, penalty, Source(s, i, j).0, Source(s, i, j).1)
              + Gain(sim, rows, cols, penalty, s, i, j) <= GridScore(sim, rows, cols, penalty, i, j)
  {
    if i == 0 {
      assert s == West;
      RowGap(sim, rows, cols, penalty, j);
    } else if j == 0 {
      assert s == North;
      ColumnGap(sim, rows, cols, penalty, i);
    } else {
      GridScoreRecurrence(sim, rows, cols, penalty, i, j);
    }
  }

  /** Along row 0 each cell is its west neighbour less the penalty. */
  lemma RowGap(sim: seq<seq<int>>, rows: nat, cols: nat, penalty: int, j: nat)
    requires Grid(sim, rows, cols) && 1 <= j <= cols
    ensures GridScore(sim, rows, cols, penalty, 0, j) == GridScore(sim, rows, cols, penalty, 0, j - 1) - penalty
  {
    assert (j - 1) * penalty == j * penalty - penalty;
  }

  /** Down column 0 each cell is its north neighbour less the penalty. */
  lemma ColumnGap(sim: seq<seq<int>>, rows: nat, cols: nat, penalty: int, i: nat)
    requires Grid(sim, rows, cols) && 1 <= i <= rows
    ensures GridScore(sim, rows, cols, penalty, i, 0) == GridScore(sim, rows, cols, penalty, i - 1, 0) - penalty
  {
    assert (i - 1) * penalty == i * penalty - penalty;
  }

  /** No alignment scores more than the matrix cell. */
  lemma {:induction false} NoAlignmentBeatsScore(sim: seq<seq<int>>, rows: nat, cols: nat, penalty: int,
                                                 steps: seq<Step>, i: int, j: int)
    requires Grid(sim, rows, cols) && 0 <= i <= rows && 0 <= j <= cols
    requires IsAlignment(steps, i, j)
    ensures AlignmentScore(sim, rows, cols, penalty, steps, i, j) <= GridScore(sim, rows, cols, penalty, i, j)
    decreases |steps|
  {
    if steps != [] {
      var (i', j') := Source(steps[0], i, j);
      NoAlignmentBeatsScore(sim, rows, cols, penalty, steps[1..], i', j');
      StepBound(sim, rows, cols, penalty, steps[0], i, j);
    }
  }

  /** Some alignment scores exactly the matrix cell: with
      NoAlignmentBeatsScore, the cell is the best alignment score of the
      first i rows with the first j columns. */
  lemma {:induction false} BestAlignment(sim: seq<seq<int>>, rows: nat, cols: nat, penalty: int, i: nat, j: nat)
    returns (steps: seq<Step>)
    requires Grid(sim, rows, cols) && i <= rows && j <= cols
    ensures IsAlignment(steps, i, j)
    ensures AlignmentScore(sim, rows, cols, penalty, steps, i, j) == GridScore(sim, rows, cols, penalty, i, j)
    decreases i + j
  {
    if (i, j) == (0, 0) {
      steps := [];
    } else {
      var s := BestStep(sim, rows, cols, penalty, i, j);
      var (i', j') := Source(s, i, j);
      var rest := BestAlignment(sim, rows, cols, penalty, i', j');
      steps := [s] + rest;
      assert steps[1..] == rest;
    }
  }
}
