/**
 * The selection geometry shared by the descriptor builder and the formatter: which
 * cells of an R×C matrix are kept, and the same cells described block by block as
 * (row, first column, run length).
 */
module Geometry {
  import opened Matrices
  import opened RowMajor

  /**
   * Cell (i, j) is kept: all of row 0; for rows 1 .. m-2, where m = min(R, C), the
   * diagonal cell and the last-column cell; for row m-1, the run from the diagonal
   * to the end of the row. When m < 2 only row 0 is kept.
   */
  predicate Selected(R: nat, C: nat, i: nat, j: nat) {
    var m := Min(R, C);
    || i == 0
    || (2 <= m && 1 <= i < m - 1 && (j == i || j == C - 1))
    || (2 <= m && i == m - 1 && m - 1 <= j)
  }

  /** Number of blocks: one for row 0, two per middle row, one for row m-1. */
  function NumBlocks(R: nat, C: nat): int {
    2 * Min(R, C) - 2
  }

  /** The matrix row block k lies in. */
  function BlockRow(R: nat, C: nat, k: nat): nat
    requires 2 <= Min(R, C) && k < NumBlocks(R, C)
  {
    if k == 0 then 0
    else if k == NumBlocks(R, C) - 1 then Min(R, C) - 1
    else (k + 1) / 2
  }

  /** The column of the first cell of block k: odd middle blocks are diagonal cells, even ones last-column cells. */
  function BlockCol(R: nat, C: nat, k: nat): nat
    requires 2 <= Min(R, C) && k < NumBlocks(R, C)
  {
    if k == 0 then 0
    else if k == NumBlocks(R, C) - 1 then Min(R, C) - 1
    else if k % 2 == 1 then (k + 1) / 2
    else C - 1
  }

  /** The number of cells in block k: a whole row, the run to the end of row m-1, or one cell. */
  function BlockLen(R: nat, C: nat, k: nat): nat
    requires 2 <= Min(R, C) && k < NumBlocks(R, C)
  {
    if k == 0 then C
    else if k == NumBlocks(R, C) - 1 then C - Min(R, C) + 1
    else 1
  }

  /** Row-major index of the first cell of block k. */
  function BlockStart(R: nat, C: nat, k: nat): nat
    requires 2 <= Min(R, C) && k < NumBlocks(R, C)
  {
    Index(BlockRow(R, C, k), BlockCol(R, C, k), C)
  }

  /** Every cell of every block is a kept cell inside the matrix. */
  lemma BlockCellsSelected(R: nat, C: nat, k: nat, t: nat)
    requires 2 <= Min(R, C) && k < NumBlocks(R, C) && t < BlockLen(R, C, k)
    ensures BlockRow(R, C, k) < R && BlockCol(R, C, k) + t < C
    ensures Selected(R, C, BlockRow(R, C, k), BlockCol(R, C, k) + t)
  {
  }

  /** The block that holds a kept cell (i, j): the converse of BlockCellsSelected. */
  function BlockOf(R: nat, C: nat, i: nat, j: nat): (k: nat)
    requires 2 <= Min(R, C) && i < R && j < C && Selected(R, C, i, j)
    ensures k < NumBlocks(R, C)
    ensures BlockRow(R, C, k) == i
    ensures BlockCol(R, C, k) <= j < BlockCol(R, C, k) + BlockLen(R, C, k)
  {
    if i == 0 then 0
    else if i < Min(R, C) - 1 then (if j == i then 2 * i - 1 else 2 * i)
    else NumBlocks(R, C) - 1
  }
}
