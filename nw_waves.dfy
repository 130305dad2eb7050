/** The block wavefront of the Needleman-Wunsch benchmark (runTest in
    nw_sycl/_nw_sycl.cpp, lines 119-167, with the block coordinates of
    nw_numba_dpex_k.py, lines 24-25 and 87-88): the inner cells of the
    score matrix are cut into 16 x 16 blocks, and the blocks of one
    anti-diagonal of blocks are computed by one kernel launch, one
    work-group per block. Launches i = 1 .. bw of the first kernel cover
    the top-left triangle, launches i = bw - 1 .. 1 of the second the
    bottom-right one.

    The work-groups of one launch are run one after another. This is
    faithful: they write disjoint blocks and read only blocks of earlier
    anti-diagonals. */
module NwWaves {
  import opened NwSpec
  import opened NwTile

  /** The block work-group g of launch i of the first kernel handles:
      row b_index_y = i - 1 - g, column b_index_x = g (lines 24-25). */
  function Kernel1Block(i: int, g: int): (int, int)
  {
    (i - 1 - g, g)
  }

  /** The block work-group g of launch i of the second kernel handles:
      row b_index_y = bw - g - 1, column b_index_x = g + bw - i (lines
      87-88). */
  function Kernel2Block(i: int, bw: int, g: int): (int, int)
  {
    (bw - g - 1, g + bw - i)
  }

  /** Block (blockY, blockX) lies in the bw x bw grid of blocks. */
  predicate InGrid(block: (int, int), bw: int)
  {
    0 <= block.0 < bw && 0 <= block.1 < bw
  }

  /** Launch i of the first kernel (1 <= i <= bw, i work-groups) handles
      exactly the blocks of anti-diagonal i - 1, one per work-group. */
  lemma Kernel1Wave(bw: int, i: int)
    requires 1 <= i <= bw
    ensures forall g :: 0 <= g < i ==> InGrid(Kernel1Block(i, g), bw) && Kernel1Block(i, g).0 + Kernel1Block(i, g).1 == i - 1
    ensures forall blockY, blockX :: InGrid((blockY, blockX), bw) && blockY + blockX == i - 1 ==> 0 <= blockX < i && Kernel1Block(i, blockX) == (blockY, blockX)
    ensures forall g, h :: 0 <= g < h < i ==> Kernel1Block(i, g) != Kernel1Block(i, h)
  {
  }

  /** Launch i of the second kernel (1 <= i < bw, i work-groups) handles
      exactly the blocks of anti-diagonal 2 bw - 1 - i, one per work-group. */
  lemma Kernel2Wave(bw: int, i: int)
    requires 1 <= i < bw
    ensures forall g :: 0 <= g < i ==>
      InGrid(Kernel2Block(i, bw, g), bw) && Kernel2Block(i, bw, g).0 + Kernel2Block(i, bw, g).1 == 2 * bw - 1 - i
    ensures forall blockY, blockX :: InGrid((blockY, blockX), bw) && blockY + blockX == 2 * bw - 1 - i ==>
      0 <= blockX - bw + i < i && Kernel2Block(i, bw, blockX - bw + i) == (blockY, blockX)
    ensures forall g, h :: 0 <= g < h < i ==> Kernel2Block(i, bw, g) != Kernel2Block(i, bw, h)
  {
  }

  /** Across both loops every block of the grid is handled by exactly one
      launch: the first kernel's launch blockY + blockX + 1 when the block lies on
      one of the first bw anti-diagonals, else the second kernel's launch
      2 bw - 1 - (blockY + blockX); as the launches run in order of their
      anti-diagonal, the blocks a block reads are done before it. */
  lemma EachBlockOnce(bw: int, blockY: int, blockX: int)
    requires InGrid((blockY, blockX), bw)
    ensures blockY + blockX < bw ==>
      && Kernel1Block(blockY + blockX + 1, blockX) == (blockY, blockX)
      && forall i, g :: 1 <= i < bw && 0 <= g < i ==> Kernel2Block(i, bw, g) != (blockY, blockX)
    ensures blockY + blockX >= bw ==>
      && Kernel2Block(2 * bw - 1 - (blockY + blockX), bw, blockX - bw + (2 * bw - 1 - (blockY + blockX))) == (blockY, blockX)
      && 1 <= 2 * bw - 1 - (blockY + blockX) < bw
      && forall i, g :: 1 <= i <= bw && 0 <= g < i ==> Kernel1Block(i, g) != (blockY, blockX)
  {
  }

  /* ---------------------------------------------------------------------
     The host loops.
     --------------------------------------------------------------------- */

  /** Block (blockY, blockX) is done once the wave has passed it: it lies before
      anti-diagonal d, or on d left of column xs. */
  predicate BlockDone(d: int, xs: int, blockY: int, blockX: int)
  {
    blockY + blockX < d || (blockY + blockX == d && blockX < xs)
  }

  /** Cell (y, x) is final: it is on row 0 or column 0, or in a done block
      of the bw x bw grid. */
  predicate CellDone(bw: int, d: int, xs: int, y: int, x: int)
  {
    || y == 0 || x == 0
    || (1 <= y <= BlockSize * bw && 1 <= x <= BlockSize * bw && BlockDone(d, xs, (y - 1) / BlockSize, (x - 1) / BlockSize))
  }

  /** The score matrix `items` of n + 1 rows and columns, and the n x n
      similarities `sim` that the matrix `reference` holds from row 1 and
      column 1 on. */
  ghost predicate Setting(reference: array2<int>, items: array2<int>, sim: seq<seq<int>>)
    reads reference
  {
    && Matrices(reference, items) && items.Length0 == |sim| + 1 && Grid(sim, |sim|, |sim|)
    && (forall i, j :: 1 <= i < reference.Length0 && 1 <= j < reference.Length1 ==>
          reference[i, j] == sim[i - 1][j - 1])
  }

  /** Every final cell holds its score. */
  ghost predicate Computed(reference: array2<int>, items: array2<int>, sim: seq<seq<int>>, penalty: int,
                           bw: int, d: int, xs: int)
    reads reference, items
    requires Setting(reference, items, sim)
  {
    forall y, x :: 0 <= y < items.Length0 && 0 <= x < items.Length1 && CellDone(bw, d, xs, y, x) ==>
      items[y, x] == GridScore(sim, |sim|, |sim|, penalty, y, x)
  }

  /** The cells of block (blockY, blockX) are those whose block coordinates are
      (blockY, blockX). */
  lemma BlockOfCell(blockY: int, blockX: int, y: int, x: int)
    requires y >= 1 && x >= 1
    ensures InBlock(blockY, blockX, y, x) <==> (y - 1) / BlockSize == blockY && (x - 1) / BlockSize == blockX
  {
  }

  /** The tile recurrence started from the scores on a block's top row and
      left column, with the block's similarities, reproduces the scores of
      every cell of the block. */
  lemma TileScores(sim: seq<seq<int>>, penalty: int, oy: nat, ox: nat,
                   north: seq<int>, west: seq<int>, simTile: seq<seq<int>>)
    requires Grid(sim, |sim|, |sim|) && oy + BlockSize <= |sim| && ox + BlockSize <= |sim|
    requires |north| == BlockSize + 1 && |west| == BlockSize + 1 && Grid(simTile, BlockSize, BlockSize)
    requires forall k :: 0 <= k <= BlockSize ==> north[k] == GridScore(sim, |sim|, |sim|, penalty, oy, ox + k)
    requires forall k :: 0 <= k <= BlockSize ==> west[k] == GridScore(sim, |sim|, |sim|, penalty, oy + k, ox)
    requires forall r, c :: 0 <= r < BlockSize && 0 <= c < BlockSize ==> simTile[r][c] == sim[oy + r][ox + c]
    ensures forall y, x :: 0 <= y <= BlockSize && 0 <= x <= BlockSize ==>
      Dp(north, west, simTile, penalty, y, x) == GridScore(sim, |sim|, |sim|, penalty, oy + y, ox + x)
  {
    var top, left := Gaps(|sim|, penalty), Gaps(|sim|, penalty);
    forall y, x | 0 <= y <= BlockSize && 0 <= x <= BlockSize
      ensures Dp(north, west, simTile, penalty, y, x) == GridScore(sim, |sim|, |sim|, penalty, oy + y, ox + x)
    {
      DpOfSubgrid(top, left, sim, penalty, oy, ox, north, west, simTile, y, x);
    }
  }

  /** The inputs of block (blockY, blockX) once the blocks before it are
      final: its top row and left column of `items` hold their scores, and
      the matching tile of `reference` holds the similarities. */
  lemma BlockInputs(reference: array2<int>, items: array2<int>, sim: seq<seq<int>>, penalty: int,
                    bw: int, blockY: int, blockX: int)
    returns (north: seq<int>, west: seq<int>, simTile: seq<seq<int>>)
    requires Setting(reference, items, sim) && BlockSize * bw < items.Length0
    requires InGrid((blockY, blockX), bw)
    requires Computed(reference, items, sim, penalty, bw, blockY + blockX, blockX)
    ensures |north| == BlockSize + 1 && |west| == BlockSize + 1 && Grid(simTile, BlockSize, BlockSize)
    ensures forall k :: 0 <= k <= BlockSize ==> north[k] == GridScore(sim, |sim|, |sim|, penalty, BlockSize * blockY, BlockSize * blockX + k)
    ensures forall k :: 0 <= k <= BlockSize ==> west[k] == GridScore(sim, |sim|, |sim|, penalty, BlockSize * blockY + k, BlockSize * blockX)
    ensures forall r, c :: 0 <= r < BlockSize && 0 <= c < BlockSize ==>
      simTile[r][c] == sim[BlockSize * blockY + r][BlockSize * blockX + c]
    ensures forall x :: 0 <= x <= BlockSize ==> items[BlockSize * blockY, BlockSize * blockX + x] == north[x]
    ensures forall y :: 1 <= y <= BlockSize ==> items[BlockSize * blockY + y, BlockSize * blockX] == west[y]
    ensures forall r, c :: 0 <= r < BlockSize && 0 <= c < BlockSize ==>
      reference[BlockSize * blockY + r + 1, BlockSize * blockX + c + 1] == simTile[r][c]
  {
    var oy, ox := BlockSize * blockY, BlockSize * blockX;
    north := seq(BlockSize + 1, k requires 0 <= k <= BlockSize => GridScore(sim, |sim|, |sim|, penalty, oy, ox + k));
    west := seq(BlockSize + 1, k requires 0 <= k <= BlockSize => GridScore(sim, |sim|, |sim|, penalty, oy + k, ox));
    simTile := seq(BlockSize, r requires 0 <= r < BlockSize =>
                 seq(BlockSize, c requires 0 <= c < BlockSize => sim[oy + r][ox + c]));
    forall x | 0 <= x <= BlockSize
      ensures items[oy, ox + x] == north[x]
    {
      TopRowDone(bw, blockY, blockX, x);
    }
    forall y | 1 <= y <= BlockSize
      ensures items[oy + y, ox] == west[y]
    {
      LeftColumnDone(bw, blockY, blockX, y);
    }
  }

  /** The cells above block (blockY, blockX) are final when the wave reaches it. */
  lemma TopRowDone(bw: int, blockY: int, blockX: int, x: int)
    requires InGrid((blockY, blockX), bw) && 0 <= x <= BlockSize
    ensures CellDone(bw, blockY + blockX, blockX, BlockSize * blockY, BlockSize * blockX + x)
  {
    var oy, ox := BlockSize * blockY, BlockSize * blockX;
    if blockY > 0 && ox + x > 0 {
      BlockOfCell(blockY - 1, if x == 0 then blockX - 1 else blockX, oy, ox + x);
    }
  }

  /** The cells left of block (blockY, blockX) are final when the wave reaches it. */
  lemma LeftColumnDone(bw: int, blockY: int, blockX: int, y: int)
    requires InGrid((blockY, blockX), bw) && 1 <= y <= BlockSize
    ensures CellDone(bw, blockY + blockX, blockX, BlockSize * blockY + y, BlockSize * blockX)
  {
    if blockX > 0 {
      BlockOfCell(blockY, blockX - 1, BlockSize * blockY + y, BlockSize * blockX);
    }
  }

  /** Once the cells of block (blockY, blockX) hold their scores, as do the
      cells final before it, the wave has moved past the block. */
  lemma BlockFinal(reference: array2<int>, items: array2<int>, sim: seq<seq<int>>, penalty: int,
                   bw: int, blockY: int, blockX: int)
    requires Setting(reference, items, sim) && BlockSize * bw < items.Length0
    requires InGrid((blockY, blockX), bw)
    requires forall y, x :: 0 <= y < items.Length0 && 0 <= x < items.Length1 && InBlock(blockY, blockX, y, x) ==>
      items[y, x] == GridScore(sim, |sim|, |sim|, penalty, y, x)
    requires forall y, x ::
      && 0 <= y < items.Length0 && 0 <= x < items.Length1
      && !InBlock(blockY, blockX, y, x) && CellDone(bw, blockY + blockX, blockX, y, x)
      ==> items[y, x] == GridScore(sim, |sim|, |sim|, penalty, y, x)
    ensures Computed(reference, items, sim, penalty, bw, blockY + blockX, blockX + 1)
  {
    forall y, x | 0 <= y < items.Length0 && 0 <= x < items.Length1 && CellDone(bw, blockY + blockX, blockX + 1, y, x)
      ensures items[y, x] == GridScore(sim, |sim|, |sim|, penalty, y, x)
    {
      if !InBlock(blockY, blockX, y, x) && y > 0 && x > 0 {
        BlockOfCell(blockY, blockX, y, x);
        assert CellDone(bw, blockY + blockX, blockX, y, x);
      }
    }
  }

  /** One work-group of a launch: block (blockY, blockX) of anti-diagonal d is
      computed from the finished blocks before it, and then is final
      itself; no cell outside the block changes. */
  method ProcessWaveBlock(reference: array2<int>, items: array2<int>, penalty: int, ghost sim: seq<seq<int>>,
                          bw: int, blockY: int, blockX: int)
    requires Setting(reference, items, sim) && BlockSize * bw < items.Length0
    requires InGrid((blockY, blockX), bw)
    requires Computed(reference, items, sim, penalty, bw, blockY + blockX, blockX)
    modifies items
    ensures Computed(reference, items, sim, penalty, bw, blockY + blockX, blockX + 1)
    ensures forall y, x :: 0 <= y < items.Length0 && 0 <= x < items.Length1 && !InBlock(blockY, blockX, y, x) ==>
      items[y, x] == old(items[y, x])
  {
    ghost var north, west, simTile := BlockInputs(reference, items, sim, penalty, bw, blockY, blockX);
    ProcessBlock(reference, items, penalty, blockY, blockX, north, west, simTile);
    TileScores(sim, penalty, BlockSize * blockY, BlockSize * blockX, north, west, simTile);
    BlockFinal(reference, items, sim, penalty, bw, blockY, blockX);
  }

  /** Cell (y, x) lies beyond the last whole block of the bw x bw grid. */
  predicate Beyond(bw: int, y: int, x: int)
  {
    y > BlockSize * bw || x > BlockSize * bw
  }

  /** The two launch loops of runTest (lines 121-167) over a score matrix
      whose row 0 and column 0 hold the gap penalties and whose
      similarities are those of sim: every cell of the bw x bw blocks,
      bw = (max_cols - 1) / 16, ends up holding its score; cells beyond
      the last whole block keep their values. */
  method RunWaves(reference: array2<int>, items: array2<int>, penalty: int, ghost sim: seq<seq<int>>)
    requires Setting(reference, items, sim)
    requires forall k :: 0 <= k < items.Length0 ==> items[0, k] == -k * penalty && items[k, 0] == -k * penalty
    modifies items
    ensures forall y, x :: 0 <= y < items.Length0 && 0 <= x < items.Length1 ==>
      items[y, x] == if y <= BlockSize * ((items.Length0 - 1) / BlockSize) && x <= BlockSize * ((items.Length0 - 1) / BlockSize)
                     then GridScore(sim, |sim|, |sim|, penalty, y, x) else old(items[y, x])
  {
    var blockWidth := (items.Length0 - 1) / BlockSize;
    forall k | 0 <= k < items.Length0
      ensures items[0, k] == GridScore(sim, |sim|, |sim|, penalty, 0, k) && items[k, 0] == GridScore(sim, |sim|, |sim|, penalty, k, 0)
    {
      GridScoreRecurrence(sim, |sim|, |sim|, penalty, 0, k);
      GridScoreRecurrence(sim, |sim|, |sim|, penalty, k, 0);
    }
    var i := 1;
    while i <= blockWidth
      invariant 1 <= i <= blockWidth + 1
      invariant Computed(reference, items, sim, penalty, blockWidth, i - 1, 0)
      invariant forall y, x :: 0 <= y < items.Length0 && 0 <= x < items.Length1 && Beyond(blockWidth, y, x) ==> items[y, x] == old(items[y, x])
    {
      var g := 0;
      while g < i
        invariant 0 <= g <= i
        invariant Computed(reference, items, sim, penalty, blockWidth, i - 1, g)
        invariant forall y, x :: 0 <= y < items.Length0 && 0 <= x < items.Length1 && Beyond(blockWidth, y, x) ==> items[y, x] == old(items[y, x])
      {
        var (blockY, blockX) := Kernel1Block(i, g);
        ProcessWaveBlock(reference, items, penalty, sim, blockWidth, blockY, blockX);
        g := g + 1;
      }
      i := i + 1;
    }
    i := blockWidth - 1;
    while i >= 1
      invariant 0 <= i <= blockWidth - 1 || (i == -1 && blockWidth == 0)
      invariant Computed(reference, items, sim, penalty, blockWidth, 2 * blockWidth - 1 - i, 0)
      invariant forall y, x :: 0 <= y < items.Length0 && 0 <= x < items.Length1 && Beyond(blockWidth, y, x) ==> items[y, x] == old(items[y, x])
    {
      var g := 0;
      while g < i
        invariant 0 <= g <= i
        invariant Computed(reference, items, sim, penalty, blockWidth, 2 * blockWidth - 1 - i, g + blockWidth - i)
        invariant forall y, x :: 0 <= y < items.Length0 && 0 <= x < items.Length1 && Beyond(blockWidth, y, x) ==> items[y, x] == old(items[y, x])
      {
        var (blockY, blockX) := Kernel2Block(i, blockWidth, g);
        ProcessWaveBlock(reference, items, penalty, sim, blockWidth, blockY, blockX);
        g := g + 1;
      }
      i := i - 1;
    }
    forall y, x | 0 <= y < items.Length0 && 0 <= x < items.Length1 && y <= BlockSize * blockWidth && x <= BlockSize * blockWidth
      ensures items[y, x] == GridScore(sim, |sim|, |sim|, penalty, y, x)
    {
      if y > 0 && x > 0 {
        BlockOfCell((y - 1) / BlockSize, (x - 1) / BlockSize, y, x);
      }
      assert CellDone(blockWidth, 2 * blockWidth - 1 - i, 0, y, x);
    }
  }
}
