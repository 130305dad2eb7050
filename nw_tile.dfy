/** One work-group of the Needleman-Wunsch tile kernels. _nw_sycl.cpp
    launches `needle_cuda_shared_1/2` on lines 139-142 and 161-164; their
    file, _nw_kernel.hpp, is not part of this model, and the tile here
    follows instead `neddle_kernel_1` and `neddle_kernel_2` of
    nw_numba_dpex_k.py, a file commented out in its entirety, read as text.
    16 work-items load the borders of a 16 x 16 block of the score matrix
    and the block's similarities into local tiles, fill the tile one
    anti-diagonal at a time, and write the block back.

    The work-items are run in lock-step: for every step between two
    barriers, each work-item in turn in increasing local id. This is
    faithful: in one step of a sweep every work-item writes its own cell
    of the current anti-diagonal and reads only cells of the two earlier
    ones, and the load and write-back steps touch one cell per work-item
    and step. The matrices are two-dimensional arrays; KernelAddresses
    shows that the kernels' flat row-major addresses name the same cells. */
module NwTile {
  import opened NwSpec

  /* ---------------------------------------------------------------------
     Addressing.
     --------------------------------------------------------------------- */

  /** The row-major address of cell (r, c) in a matrix of `cols` columns,
      as the host and the kernels compute it (`i * max_cols + j`). */
  function Flat(r: int, c: int, cols: int): int
  {
    r * cols + c
  }

  /** Row-major addressing is one-to-one onto the buffer: the address of a
      cell lies in the buffer and gives back its row and column. */
  lemma FlatIsRowMajor(r: int, c: int, rows: int, cols: int)
    requires 0 <= r < rows && 0 <= c < cols
    ensures 0 <= Flat(r, c, cols) < rows * cols
    ensures Flat(r, c, cols) / cols == r && Flat(r, c, cols) % cols == c
  {
    var f := Flat(r, c, cols);
    var q, m := f / cols, f % cols;
    assert (q - r) * cols == c - m;
    MulSmall(q - r, cols);
    assert r * cols >= 0;
    assert rows * cols - r * cols == (rows - r) * cols;
    MulAtLeast(rows - r, cols);
  }

  lemma MulAtLeast(k: int, d: int)
    requires k >= 1 && d > 0
    ensures k * d >= d
  {
    assert (k - 1) * d >= 0;
  }

  lemma MulAtMost(k: int, d: int)
    requires k <= -1 && d > 0
    ensures k * d <= -d
  {
    assert (-k - 1) * d >= 0;
  }

  /** A multiple of d strictly between -d and d is 0. */
  lemma MulSmall(k: int, d: int)
    requires d > 0 && -d < k * d < d
    ensures k == 0
  {
    if k >= 1 {
      MulAtLeast(k, d);
      assert false;
    } else if k <= -1 {
      MulAtMost(k, d);
      assert false;
    }
  }

  /** The addresses of nw_numba_dpex_k.py, lines 27-32 (and 90-95), for
      block (blockY, blockX) and work-item tx: `index + cols * ty` is cell
      (16 blockY + ty + 1, 16 blockX + tx + 1) of the block's interior, `index_n`
      the cell above column tx, `index_w + cols * tx` the cell left of row
      tx, and `index_nw` the corner. */
  lemma KernelAddresses(cols: int, blockY: int, blockX: int, tx: int, ty: int)
    ensures var index := cols * BlockSize * blockY + BlockSize * blockX + tx + (cols + 1);
      index + cols * ty == Flat(BlockSize * blockY + ty + 1, BlockSize * blockX + tx + 1, cols)
    ensures cols * BlockSize * blockY + BlockSize * blockX + tx + 1 == Flat(BlockSize * blockY, BlockSize * blockX + tx + 1, cols)
    ensures cols * BlockSize * blockY + BlockSize * blockX + cols + cols * tx == Flat(BlockSize * blockY + tx + 1, BlockSize * blockX, cols)
    ensures cols * BlockSize * blockY + BlockSize * blockX == Flat(BlockSize * blockY, BlockSize * blockX, cols)
  {
    assert (BlockSize * blockY + ty + 1) * cols == cols * BlockSize * blockY + cols * ty + cols;
    assert (BlockSize * blockY + tx + 1) * cols == cols * BlockSize * blockY + cols * tx + cols;
    assert (BlockSize * blockY) * cols == cols * BlockSize * blockY;
  }

  /* ---------------------------------------------------------------------
     The local tiles.
     --------------------------------------------------------------------- */

  /** The tiles of one work-group and the values they stand for: `temp`
      (17 x 17) holds the block's scores with its north row and west column,
      `ref` (16 x 16) the block's similarities. */
  ghost predicate TileShapes(temp: array2<int>, ref: array2<int>, north: seq<int>, west: seq<int>, sim: seq<seq<int>>)
  {
    && temp.Length0 == BlockSize + 1 && temp.Length1 == BlockSize + 1
    && ref.Length0 == BlockSize && ref.Length1 == BlockSize
    && temp != ref
    && |north| == BlockSize + 1 && |west| == BlockSize + 1 && Grid(sim, BlockSize, BlockSize)
  }

  /** Row 0 of `temp` is `north` and column 0 below the corner is `west`;
      `ref` holds `sim`. */
  ghost predicate Loaded(temp: array2<int>, ref: array2<int>, north: seq<int>, west: seq<int>, sim: seq<seq<int>>)
    reads temp, ref
    requires TileShapes(temp, ref, north, west, sim)
  {
    && (forall x :: 0 <= x <= BlockSize ==> temp[0, x] == north[x])
    && (forall y :: 1 <= y <= BlockSize ==> temp[y, 0] == west[y])
    && (forall r, c :: 0 <= r < BlockSize && 0 <= c < BlockSize ==> ref[r, c] == sim[r][c])
  }

  /** Every inner cell of `temp` before anti-diagonal d, and those of
      anti-diagonal d left of column xs, hold their scores. */
  ghost predicate Swept(temp: array2<int>, ref: array2<int>, north: seq<int>, west: seq<int>, sim: seq<seq<int>>,
                        penalty: int, d: int, xs: int)
    reads temp, ref
    requires TileShapes(temp, ref, north, west, sim)
  {
    forall y, x :: 1 <= y <= BlockSize && 1 <= x <= BlockSize && (y + x < d || (y + x == d && x < xs)) ==>
      temp[y, x] == Dp(north, west, sim, penalty, y, x)
  }

  /** The work of one work-item in one sweep step (nw_numba_dpex_k.py,
      lines 54-59): cell (y, x) of anti-diagonal y + x becomes the maximum
      of its three candidates, all of which are final. */
  method SweepCell(temp: array2<int>, ref: array2<int>, penalty: int,
                   ghost north: seq<int>, ghost west: seq<int>, ghost sim: seq<seq<int>>, y: int, x: int)
    requires TileShapes(temp, ref, north, west, sim) && Loaded(temp, ref, north, west, sim)
    requires 1 <= y <= BlockSize && 1 <= x <= BlockSize
    requires Swept(temp, ref, north, west, sim, penalty, y + x, x)
    modifies temp
    ensures Loaded(temp, ref, north, west, sim) && Swept(temp, ref, north, west, sim, penalty, y + x, x + 1)
    ensures temp[y, x] == Dp(north, west, sim, penalty, y, x)
    ensures forall r, c :: 0 <= r <= BlockSize && 0 <= c <= BlockSize && (r != y || c != x) ==> temp[r, c] == old(temp[r, c])
  {
    assert temp[y - 1, x - 1] == Dp(north, west, sim, penalty, y - 1, x - 1);
    assert temp[y, x - 1] == Dp(north, west, sim, penalty, y, x - 1);
    assert temp[y - 1, x] == Dp(north, west, sim, penalty, y - 1, x);
    temp[y, x] := Maximum(temp[y - 1, x - 1] + ref[y - 1, x - 1], temp[y, x - 1] - penalty, temp[y - 1, x] - penalty);
  }

  function Min(a: int, b: int): int { if a < b then a else b }

  /** The two sweeps of nw_numba_dpex_k.py, lines 50-74: the first fills
      anti-diagonals 2..17 of the tile from the top-left corner, work-item
      tx taking cell (m - tx + 1, tx + 1) in step m; the second fills
      anti-diagonals 18..32, work-item tx taking cell (16 - tx, tx + 16 - m)
      in step m = 14 down to 0. Afterwards every inner cell holds the score
      the recurrence gives it from the loaded borders. */
  method Sweep(temp: array2<int>, ref: array2<int>, penalty: int,
               ghost north: seq<int>, ghost west: seq<int>, ghost sim: seq<seq<int>>)
    requires TileShapes(temp, ref, north, west, sim) && Loaded(temp, ref, north, west, sim)
    modifies temp
    ensures Loaded(temp, ref, north, west, sim)
    ensures forall y, x :: 1 <= y <= BlockSize && 1 <= x <= BlockSize ==> temp[y, x] == Dp(north, west, sim, penalty, y, x)
  {
    var m := 0;
    while m < BlockSize
      invariant 0 <= m <= BlockSize
      invariant Loaded(temp, ref, north, west, sim) && Swept(temp, ref, north, west, sim, penalty, m + 2, 0)
    {
      var tx := 0;
      while tx < BlockSize
        invariant 0 <= tx <= BlockSize
        invariant Loaded(temp, ref, north, west, sim)
        invariant Swept(temp, ref, north, west, sim, penalty, m + 2, Min(tx, m + 1) + 1)
      {
        if tx <= m {
          SweepCell(temp, ref, penalty, north, west, sim, m - tx + 1, tx + 1);
        }
        tx := tx + 1;
      }
      m := m + 1;
    }
    m := BlockSize - 2;
    while m >= 0
      invariant -1 <= m <= BlockSize - 2
      invariant Loaded(temp, ref, north, west, sim) && Swept(temp, ref, north, west, sim, penalty, 2 * BlockSize - m, 0)
    {
      var tx := 0;
      while tx < BlockSize
        invariant 0 <= tx <= BlockSize
        invariant Loaded(temp, ref, north, west, sim)
        invariant Swept(temp, ref, north, west, sim, penalty, 2 * BlockSize - m, Min(tx, m + 1) + BlockSize - m)
      {
        if tx <= m {
          SweepCell(temp, ref, penalty, north, west, sim, BlockSize - tx, tx + BlockSize - m);
        }
        tx := tx + 1;
      }
      m := m - 1;
    }
  }

  /* ---------------------------------------------------------------------
     One work-group.
     --------------------------------------------------------------------- */

  /** Score and similarity matrices of the same square size. */
  predicate Matrices(reference: array2<int>, items: array2<int>)
  {
    && reference.Length0 == reference.Length1 == items.Length0 == items.Length1
    && reference != items
  }

  /** Block (blockY, blockX) and its borders lie in a matrix of `cols` columns. */
  predicate BlockFits(cols: int, blockY: int, blockX: int)
  {
    0 <= blockY && 0 <= blockX && BlockSize * blockY + BlockSize < cols && BlockSize * blockX + BlockSize < cols
  }

  /** Cell (y, x) is an inner cell of block (blockY, blockX). */
  predicate InBlock(blockY: int, blockX: int, y: int, x: int)
  {
    BlockSize * blockY + 1 <= y <= BlockSize * blockY + BlockSize && BlockSize * blockX + 1 <= x <= BlockSize * blockX + BlockSize
  }

  /** The load steps of nw_numba_dpex_k.py, lines 34-46 (in kernel 2, lines
      97-109, in another order that no work-item can observe): the corner,
      the west column and the north row of the block go to `temp`, the
      block's similarities to `ref`. The inner cells of `temp` are local
      memory nobody has written. */
  method LoadTile(reference: array2<int>, items: array2<int>, blockY: int, blockX: int)
    returns (temp: array2<int>, ref: array2<int>)
    requires Matrices(reference, items) && BlockFits(items.Length0, blockY, blockX)
    ensures fresh(temp) && fresh(ref)
    ensures temp.Length0 == BlockSize + 1 && temp.Length1 == BlockSize + 1
    ensures ref.Length0 == BlockSize && ref.Length1 == BlockSize && temp != ref
    ensures forall x :: 0 <= x <= BlockSize ==> temp[0, x] == items[BlockSize * blockY, BlockSize * blockX + x]
    ensures forall y :: 1 <= y <= BlockSize ==> temp[y, 0] == items[BlockSize * blockY + y, BlockSize * blockX]
    ensures forall r, c :: 0 <= r < BlockSize && 0 <= c < BlockSize ==>
      ref[r, c] == reference[BlockSize * blockY + r + 1, BlockSize * blockX + c + 1]
  {
    temp := new int[BlockSize + 1, BlockSize + 1];
    ref := new int[BlockSize, BlockSize];
    temp[0, 0] := items[BlockSize * blockY, BlockSize * blockX];
    var ty := 0;
    while ty < BlockSize
      modifies ref
      invariant 0 <= ty <= BlockSize
      invariant forall r, c :: 0 <= r < ty && 0 <= c < BlockSize ==>
        ref[r, c] == reference[BlockSize * blockY + r + 1, BlockSize * blockX + c + 1]
    {
      var tx := 0;
      while tx < BlockSize
        modifies ref
        invariant 0 <= tx <= BlockSize
        invariant forall r, c :: 0 <= r < BlockSize && 0 <= c < BlockSize && (r < ty || (r == ty && c < tx)) ==>
          ref[r, c] == reference[BlockSize * blockY + r + 1, BlockSize * blockX + c + 1]
      {
        ref[ty, tx] := reference[BlockSize * blockY + ty + 1, BlockSize * blockX + tx + 1];
        tx := tx + 1;
      }
      ty := ty + 1;
    }
    var tx := 0;
    while tx < BlockSize
      modifies temp
      invariant 0 <= tx <= BlockSize
      invariant temp[0, 0] == items[BlockSize * blockY, BlockSize * blockX]
      invariant forall y :: 1 <= y <= tx ==> temp[y, 0] == items[BlockSize * blockY + y, BlockSize * blockX]
    {
      temp[tx + 1, 0] := items[BlockSize * blockY + tx + 1, BlockSize * blockX];
      tx := tx + 1;
    }
    tx := 0;
    while tx < BlockSize
      modifies temp
      invariant 0 <= tx <= BlockSize
      invariant forall x :: 0 <= x <= tx ==> temp[0, x] == items[BlockSize * blockY, BlockSize * blockX + x]
      invariant forall y :: 1 <= y <= BlockSize ==> temp[y, 0] == items[BlockSize * blockY + y, BlockSize * blockX]
    {
      temp[0, tx + 1] := items[BlockSize * blockY, BlockSize * blockX + tx + 1];
      tx := tx + 1;
    }
  }

  /** The write-back of nw_numba_dpex_k.py, lines 76-77: the inner cells of
      `temp` go to the block's cells of the score matrix, and nothing else
      changes. */
  method WriteBack(items: array2<int>, temp: array2<int>, blockY: int, blockX: int)
    requires BlockFits(items.Length0, blockY, blockX) && items.Length0 == items.Length1
    requires temp.Length0 == BlockSize + 1 && temp.Length1 == BlockSize + 1 && temp != items
    modifies items
    ensures forall y, x :: 0 <= y < items.Length0 && 0 <= x < items.Length1 ==>
      items[y, x] == if InBlock(blockY, blockX, y, x) then temp[y - BlockSize * blockY, x - BlockSize * blockX] else old(items[y, x])
  {
    var ty := 0;
    while ty < BlockSize
      invariant 0 <= ty <= BlockSize
      invariant forall y, x :: 0 <= y < items.Length0 && 0 <= x < items.Length1 ==>
        items[y, x] == if InBlock(blockY, blockX, y, x) && y <= BlockSize * blockY + ty then temp[y - BlockSize * blockY, x - BlockSize * blockX] else old(items[y, x])
    {
      var tx := 0;
      while tx < BlockSize
        invariant 0 <= tx <= BlockSize
        invariant forall y, x :: 0 <= y < items.Length0 && 0 <= x < items.Length1 ==>
          items[y, x] == if InBlock(blockY, blockX, y, x) && (y <= BlockSize * blockY + ty || (y == BlockSize * blockY + ty + 1 && x <= BlockSize * blockX + tx))
                         then temp[y - BlockSize * blockY, x - BlockSize * blockX] else old(items[y, x])
      {
        items[BlockSize * blockY + ty + 1, BlockSize * blockX + tx + 1] := temp[ty + 1, tx + 1];
        tx := tx + 1;
      }
      ty := ty + 1;
    }
  }

  /** One work-group on block (blockY, blockX): given that the block's north row,
      west column and similarities are `north`, `west` and `sim`, its inner
      cells end up holding the recurrence's scores over those borders, and
      no other cell of the matrix changes. */
  method ProcessBlock(reference: array2<int>, items: array2<int>, penalty: int, blockY: int, blockX: int,
                      ghost north: seq<int>, ghost west: seq<int>, ghost sim: seq<seq<int>>)
    requires Matrices(reference, items) && BlockFits(items.Length0, blockY, blockX)
    requires |north| == BlockSize + 1 && |west| == BlockSize + 1 && Grid(sim, BlockSize, BlockSize)
    requires forall x :: 0 <= x <= BlockSize ==> items[BlockSize * blockY, BlockSize * blockX + x] == north[x]
    requires forall y :: 1 <= y <= BlockSize ==> items[BlockSize * blockY + y, BlockSize * blockX] == west[y]
    requires forall r, c :: 0 <= r < BlockSize && 0 <= c < BlockSize ==>
      reference[BlockSize * blockY + r + 1, BlockSize * blockX + c + 1] == sim[r][c]
    modifies items
    ensures forall y, x :: 0 <= y < items.Length0 && 0 <= x < items.Length1 ==>
      items[y, x] == if InBlock(blockY, blockX, y, x) then Dp(north, west, sim, penalty, y - BlockSize * blockY, x - BlockSize * blockX)
                     else old(items[y, x])
  {
    var temp, ref := LoadTile(reference, items, blockY, blockX);
    assert TileShapes(temp, ref, north, west, sim);
    assert Loaded(temp, ref, north, west, sim);
    Sweep(temp, ref, penalty, north, west, sim);
    WriteBack(items, temp, blockY, blockX);
  }
}
