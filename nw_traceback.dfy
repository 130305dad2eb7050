/** The traceback that follows the score matrix back from cell
    (n - 1, n - 1), as line 171 of _nw_sycl.cpp starts it (lines 171-224,
    and the commented-out host of nw_numba_dpex_k.py, lines 189-233). It
    ends at (0, 0) or where its next step leaves the matrix. Each pass
    looks at the three neighbours of the current cell, picks a step and
    moves to that neighbour. Two things about the code as written are recorded here with
    the inputs that show them; the traceback proper uses the corrected
    choice of step and the C++ loop guard. */
module NwTraceback {
  import opened NwSpec
  import opened NwTile
  import opened NwWaves

  /* ---------------------------------------------------------------------
     One pass of the loop.
     --------------------------------------------------------------------- */

  /** The three neighbour scores a pass weighs: north-west, west, north. */
  datatype Around = Around(nw: int, w: int, n: int)

  /** The neighbours of cell (i, j) as lines 179-191 read them: on row 0
      the north and north-west neighbours are off the matrix and count as
      Limit, on column 0 the west and north-west ones. */
  function Neighbours(items: array2<int>, i: int, j: int): Around
    reads items
    requires 0 <= i < items.Length0 && 0 <= j < items.Length1 && (i > 0 || j > 0)
  {
    if i > 0 && j > 0 then Around(items[i - 1, j - 1], items[i, j - 1], items[i - 1, j])
    else if i == 0 then Around(Limit, items[i, j - 1], Limit)
    else Around(Limit, Limit, items[i - 1, j])
  }

  /** The neighbour score a step comes from. */
  function Neighbour(c: Around, s: Step): int
  {
    match s
    case Diagonal => c.nw
    case West => c.w
    case North => c.n
  }

  /** The candidate score through a step (lines 196-199): the diagonal
      neighbour plus the similarity `diag` of the cell, or a gap neighbour
      less the penalty. */
  function Through(c: Around, diag: int, penalty: int, s: Step): int
  {
    match s
    case Diagonal => c.nw + diag
    case West => c.w - penalty
    case North => c.n - penalty
  }

  /** The best of the three candidates (line 201; line 214 of the Python). */
  function Best(c: Around, diag: int, penalty: int): int
  {
    Maximum(Through(c, diag, penalty, Diagonal), Through(c, diag, penalty, West), Through(c, diag, penalty, North))
  }

  /** Lines 201-207 as written: three `if`s in a row, each comparing the
      value the previous one left with one candidate and replacing it by
      that candidate's neighbour score. Whatever the inputs, the value
      that comes out is one of the three neighbour scores, so the empty
      `else` of lines 222-223 is never reached and every pass moves. */
  function ChainAsWritten(c: Around, diag: int, penalty: int): (t: int)
    ensures t == c.nw || t == c.w || t == c.n
  {
    var t0 := Best(c, diag, penalty);
    var t1 := if t0 == Through(c, diag, penalty, Diagonal) then c.nw else t0;
    var t2 := if t1 == Through(c, diag, penalty, West) then c.w else t1;
    if t2 == Through(c, diag, penalty, North) then c.n else t2
  }

  /** The step of lines 209-221 as written: the first of north-west, west,
      north whose neighbour score equals the chain's value. */
  function StepAsWritten(c: Around, diag: int, penalty: int): (s: Step)
    ensures Neighbour(c, s) == ChainAsWritten(c, diag, penalty)
  {
    var t := ChainAsWritten(c, diag, penalty);
    if t == c.nw then Diagonal else if t == c.w then West else North
  }

  /** The step of the Python host as written (lines 214-233): an `elif`
      chain picks the neighbour whose candidate is the best, but the move
      is again chosen by comparing neighbour scores. */
  function PythonStep(c: Around, diag: int, penalty: int): (s: Step)
    ensures Through(c, diag, penalty, Diagonal) == Best(c, diag, penalty) ==> s == Diagonal
  {
    var m := Best(c, diag, penalty);
    var t := if m == Through(c, diag, penalty, Diagonal) then c.nw
             else if m == Through(c, diag, penalty, West) then c.w
             else c.n;
    if t == c.nw then Diagonal else if t == c.w then West else North
  }

  /** The step evidently intended by both: the first of diagonal, west,
      north whose candidate is the best, so that the step taken is one the
      cell's score came through. */
  function IntendedStep(c: Around, diag: int, penalty: int): (s: Step)
    ensures Through(c, diag, penalty, s) == Best(c, diag, penalty)
    ensures forall s' :: Through(c, diag, penalty, s') <= Through(c, diag, penalty, s)
  {
    var m := Best(c, diag, penalty);
    if m == Through(c, diag, penalty, Diagonal) then Diagonal
    else if m == Through(c, diag, penalty, West) then West
    else North
  }

  /** Choosing by value goes wrong when two neighbours tie: with
      north-west 5, west 5, north 4, similarity -3 and penalty 1 the
      candidates are 2, 4 and 3, the best is the west gap, but both the
      C++ and the Python code step diagonally, through a candidate worth
      2. */
  lemma StepAsWrittenMissesBest()
    ensures var c := Around(5, 5, 4);
      && Best(c, -3, 1) == 4
      && StepAsWritten(c, -3, 1) == Diagonal && PythonStep(c, -3, 1) == Diagonal
      && Through(c, -3, 1, Diagonal) == 2 < Best(c, -3, 1)
      && IntendedStep(c, -3, 1) == West
  {
    var c := Around(5, 5, 4);
    assert Through(c, -3, 1, Diagonal) == 2 && Through(c, -3, 1, West) == 4 && Through(c, -3, 1, North) == 3;
  }

  /** On a finished score matrix the corrected step from an inner cell goes
      to a neighbour whose score plus the step's gain is the cell's score,
      and the best candidate, which the Python host records in result[k]
      (line 215), is the cell's own score. */
  lemma IntendedStepOnScores(reference: array2<int>, items: array2<int>, sim: seq<seq<int>>, penalty: int, i: nat, j: nat)
    requires Scored(reference, items, sim, penalty)
    requires 1 <= i < items.Length0 && 1 <= j < items.Length1
    ensures var c := Neighbours(items, i, j);
      && Best(c, reference[i, j], penalty) == items[i, j]
      && var s := IntendedStep(c, reference[i, j], penalty);
         GridScore(sim, |sim|, |sim|, penalty, Source(s, i, j).0, Source(s, i, j).1)
           + Gain(sim, |sim|, |sim|, penalty, s, i, j) == GridScore(sim, |sim|, |sim|, penalty, i, j)
  {
    GridScoreRecurrence(sim, |sim|, |sim|, penalty, i, j);
    var c := Neighbours(items, i, j);
    assert c.nw == GridScore(sim, |sim|, |sim|, penalty, i - 1, j - 1);
    assert c.w == GridScore(sim, |sim|, |sim|, penalty, i, j - 1);
    assert c.n == GridScore(sim, |sim|, |sim|, penalty, i - 1, j);
  }

  /** `items` holds the finished score matrix of `sim`, whose similarities
      `reference` holds. */
  ghost predicate Scored(reference: array2<int>, items: array2<int>, sim: seq<seq<int>>, penalty: int)
    reads reference, items
  {
    && Setting(reference, items, sim)
    && forall y, x :: 0 <= y < items.Length0 && 0 <= x < items.Length1 ==>
         items[y, x] == GridScore(sim, |sim|, |sim|, penalty, y, x)
  }

  /* ---------------------------------------------------------------------
     The walk.
     --------------------------------------------------------------------- */

  /** The cell the corrected traceback moves to from (i, j). */
  function Next(reference: array2<int>, items: array2<int>, penalty: int, i: int, j: int): (int, int)
    reads reference, items
    requires Matrices(reference, items) && 0 <= i < items.Length0 && 0 <= j < items.Length1 && (i > 0 || j > 0)
  {
    Source(IntendedStep(Neighbours(items, i, j), reference[i, j], penalty), i, j)
  }

  /** The cells the traceback visits from (i, j): the loop of lines
      171-224 stops on reaching (0, 0) or once a step has left the
      matrix. */
  function Trace(reference: array2<int>, items: array2<int>, penalty: int, i: int, j: int): seq<(int, int)>
    reads reference, items
    requires Matrices(reference, items) && -1 <= i < items.Length0 && -1 <= j < items.Length1
    decreases i + j + 2
  {
    if i < 0 || j < 0 then []
    else if i == 0 && j == 0 then [(0, 0)]
    else
      var (i', j') := Next(reference, items, penalty, i, j);
      [(i, j)] + Trace(reference, items, penalty, i', j')
  }

  /** What the walk is: it starts at (i, j), visits only cells of the
      matrix, moves by one corrected step at a time, takes at most i + j
      steps, and ends at (0, 0) or on a cell whose step leaves the
      matrix. */
  lemma {:induction false} TraceShape(reference: array2<int>, items: array2<int>, penalty: int, i: int, j: int)
    requires Matrices(reference, items) && -1 <= i < items.Length0 && -1 <= j < items.Length1
    ensures var path := Trace(reference, items, penalty, i, j);
      && (path == [] <==> i < 0 || j < 0)
      && (path != [] ==> path[0] == (i, j) && |path| <= i + j + 1)
      && (forall k :: 0 <= k < |path| ==> 0 <= path[k].0 < items.Length0 && 0 <= path[k].1 < items.Length1)
      && (forall k :: 0 <= k < |path| - 1 ==>
            path[k] != (0, 0) && path[k + 1] == Next(reference, items, penalty, path[k].0, path[k].1))
      && (path != [] ==> Ends(reference, items, penalty, path[|path| - 1]))
    decreases i + j + 2
  {
    var path := Trace(reference, items, penalty, i, j);
    if i >= 0 && j >= 0 && (i > 0 || j > 0) {
      var (i', j') := Next(reference, items, penalty, i, j);
      TraceShape(reference, items, penalty, i', j');
      var rest := Trace(reference, items, penalty, i', j');
      assert path == [(i, j)] + rest;
      if rest == [] {
        assert Ends(reference, items, penalty, (i, j));
      } else {
        assert path[|path| - 1] == rest[|rest| - 1];
      }
      forall k | 0 <= k < |path| - 1
        ensures path[k] != (0, 0) && path[k + 1] == Next(reference, items, penalty, path[k].0, path[k].1)
      {
        if k > 0 {
          assert path[k] == rest[k - 1] && path[k + 1] == rest[k];
        }
      }
    }
  }

  /** On a finished score matrix every step the walk takes out of an inner
      cell is one the cell's score came through: the score of the cell it
      reaches plus the step's gain is the score of the cell it leaves. */
  lemma TraceFollowsScores(reference: array2<int>, items: array2<int>, sim: seq<seq<int>>, penalty: int, i: int, j: int)
    requires Scored(reference, items, sim, penalty) && -1 <= i < items.Length0 && -1 <= j < items.Length1
    ensures var path := Trace(reference, items, penalty, i, j);
      forall k :: 0 <= k < |path| - 1 && 0 < path[k].0 < items.Length0 && 0 < path[k].1 < items.Length1 ==>
        exists s: Step :: && path[k + 1] == Source(s, path[k].0, path[k].1)
                          && GridScore(sim, |sim|, |sim|, penalty, path[k + 1].0, path[k + 1].1)
                               + Gain(sim, |sim|, |sim|, penalty, s, path[k].0, path[k].1)
                             == GridScore(sim, |sim|, |sim|, penalty, path[k].0, path[k].1)
  {
    var path := Trace(reference, items, penalty, i, j);
    TraceShape(reference, items, penalty, i, j);
    forall k | 0 <= k < |path| - 1 && 0 < path[k].0 < items.Length0 && 0 < path[k].1 < items.Length1
      ensures exists s: Step :: && path[k + 1] == Source(s, path[k].0, path[k].1)
                                && GridScore(sim, |sim|, |sim|, penalty, path[k + 1].0, path[k + 1].1)
                                     + Gain(sim, |sim|, |sim|, penalty, s, path[k].0, path[k].1)
                                   == GridScore(sim, |sim|, |sim|, penalty, path[k].0, path[k].1)
    {
      var (y, x) := path[k];
      IntendedStepOnScores(reference, items, sim, penalty, y, x);
      var s := IntendedStep(Neighbours(items, y, x), reference[y, x], penalty);
      assert path[k + 1] == Source(s, y, x);
    }
  }

  /** A walk may end at cell p: it is (0, 0), or the step from it leaves
      the matrix. */
  predicate Ends(reference: array2<int>, items: array2<int>, penalty: int, p: (int, int))
    reads reference, items
    requires Matrices(reference, items) && 0 <= p.0 < items.Length0 && 0 <= p.1 < items.Length1
  {
    p == (0, 0) || Next(reference, items, penalty, p.0, p.1).0 < 0 || Next(reference, items, penalty, p.0, p.1).1 < 0
  }

  /** One pass of the loop of lines 179-221 at cell (i, j) other than
      (0, 0), with the corrected choice of step: the cell it moves to. */
  method Pass(reference: array2<int>, items: array2<int>, penalty: int, i: int, j: int) returns (i': int, j': int)
    requires Matrices(reference, items) && 0 <= i < items.Length0 && 0 <= j < items.Length1 && (i > 0 || j > 0)
    ensures (i', j') == Next(reference, items, penalty, i, j)
  {
    var nw, w, n := Limit, Limit, Limit;
    if i > 0 && j > 0 {
      nw, w, n := items[i - 1, j - 1], items[i, j - 1], items[i - 1, j];
    } else if i == 0 {
      w := items[i, j - 1];
    } else {
      n := items[i - 1, j];
    }
    assert Around(nw, w, n) == Neighbours(items, i, j);
    var newNw, newW, newN := nw + reference[i, j], w - penalty, n - penalty;
    var best := Maximum(newNw, newW, newN);
    if best == newNw {
      i', j' := i - 1, j - 1;
    } else if best == newW {
      i', j' := i, j - 1;
    } else {
      i', j' := i - 1, j;
    }
  }

  /** The walk from a cell other than (0, 0) is that cell followed by the
      walk from the cell its step leads to. */
  lemma TraceStep(reference: array2<int>, items: array2<int>, penalty: int, i: int, j: int)
    requires Matrices(reference, items) && 0 <= i < items.Length0 && 0 <= j < items.Length1 && (i > 0 || j > 0)
    ensures var (i', j') := Next(reference, items, penalty, i, j);
      Trace(reference, items, penalty, i, j) == [(i, j)] + Trace(reference, items, penalty, i', j')
  {
  }

  /** Appending a cell and then the rest of a walk is appending the walk
      that starts with that cell. */
  lemma Regroup(before: seq<(int, int)>, here: (int, int), rest: seq<(int, int)>)
    ensures (before + [here]) + rest == before + ([here] + rest)
  {
  }

  /** The loop of lines 171-224 with the corrected choice of step: from
      (max_rows - 2, max_rows - 2) it records every cell it visits. */
  method Traceback(reference: array2<int>, items: array2<int>, penalty: int) returns (path: seq<(int, int)>)
    requires Matrices(reference, items) && items.Length0 >= 1
    ensures path == Trace(reference, items, penalty, items.Length0 - 2, items.Length0 - 2)
  {
    var i, j := items.Length0 - 2, items.Length0 - 2;
    ghost var whole := Trace(reference, items, penalty, i, j);
    path := [];
    while i >= 0 && j >= 0
      invariant -1 <= i < items.Length0 && -1 <= j < items.Length1
      invariant path + Trace(reference, items, penalty, i, j) == whole
      decreases i + j
    {
      if i == 0 && j == 0 {
        path := path + [(0, 0)];
        break;
      }
      TraceStep(reference, items, penalty, i, j);
      ghost var before, here := path, (i, j);
      path := path + [(i, j)];
      i, j := Pass(reference, items, penalty, i, j);
      Regroup(before, here, Trace(reference, items, penalty, i, j));
    }
  }

  /* ---------------------------------------------------------------------
     The Python loop has no exit once it leaves the matrix.
     --------------------------------------------------------------------- */

  /** The cell reached from (i, j) by taking `steps` in turn. */
  function After(steps: seq<Step>, i: int, j: int): (int, int)
    decreases |steps|
  {
    if steps == [] then (i, j)
    else
      var (i', j') := Source(steps[0], i, j);
      After(steps[1..], i', j')
  }

  /** Steps only go up and left. */
  lemma {:induction false} AfterMovesBack(steps: seq<Step>, i: int, j: int)
    ensures After(steps, i, j).0 <= i && After(steps, i, j).1 <= j
    decreases |steps|
  {
    if steps != [] {
      var (i', j') := Source(steps[0], i, j);
      AfterMovesBack(steps[1..], i', j');
    }
  }

  /** The Python loop (lines 191-233, in a file that is commented out, so
      this is about its text) leaves only through the test
      `i == 0 and j == 0` of line 194 and moves on every pass; it has no
      `i >= 0 and j >= 0` guard like line 171 of the C++. Once a step has
      taken it to a negative row or column, no sequence of further steps,
      whatever the (wrapped-around) reads of lines 197-212 give, returns to
      (0, 0). The loop never reaches its exit: as i or j keeps falling, the
      read of line 210 passes below `-size` and ends in an IndexError. */
  lemma PythonNeverReturns(steps: seq<Step>, i: int, j: int)
    requires i < 0 || j < 0
    ensures After(steps, i, j) != (0, 0)
  {
    AfterMovesBack(steps, i, j);
  }

  /** Such a step happens on row 0 as soon as the west neighbour's score
      is below Limit by more than the penalty: at (0, 101) with penalty 10
      the west neighbour holds -1000, and with a similarity of 0 the
      north-west candidate Limit wins, so the Python host steps to
      (-1, 100). The C++ code takes the same step, and its guard then ends
      the loop. */
  lemma PythonLeavesRowZero()
    ensures var c := Around(Limit, -1000, Limit);
      && PythonStep(c, 0, 10) == Diagonal && Source(PythonStep(c, 0, 10), 0, 101) == (-1, 100)
      && StepAsWritten(c, 0, 10) == Diagonal
  {
    var c := Around(Limit, -1000, Limit);
    assert Through(c, 0, 10, Diagonal) == -999 && Through(c, 0, 10, West) == -1010 && Through(c, 0, 10, North) == -1009;
  }
}
