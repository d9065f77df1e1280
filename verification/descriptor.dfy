/**
 * `createBlockSizes` and `createBlockOffsets`: the block lengths and displacements of
 * the indexed datatype that picks the kept cells out of the row-major R×C matrix.
 */
module Descriptor {
  import opened Results
  import opened Matrices
  import opened RowMajor
  import opened Geometry
  import opened IndexedGather

  /**
   * `createBlockSizes`. The array has `min * 2 - 2` entries, computed as a Java `int`: a
   * negative length when min is 0, none to write entry 0 into when min is 1, and a
   * length that wraps negative when min exceeds 2^30.
   */
  function BlockSizes(R: nat, C: nat): (r: Result<seq<int>>)
    ensures Min(R, C) == 0 ==> r == Failure(NegativeArraySize)
    ensures Min(R, C) == 1 ==> r == Failure(IndexOutOfBounds)
    ensures 0x4000_0000 < Min(R, C) <= MaxInt ==> r == Failure(NegativeArraySize)
    ensures 2 <= Min(R, C) <= 0x4000_0000 ==> r.Success? && |r.value| == NumBlocks(R, C)
    ensures 2 <= Min(R, C) <= 0x4000_0000 ==>
      forall k :: 0 <= k < NumBlocks(R, C) ==> r.value[k] == BlockLen(R, C, k)
  {
    var len := Int32(Min(R, C) * 2 - 2);
    if len < 0 then Failure(NegativeArraySize)
    else if len == 0 then Failure(IndexOutOfBounds)
    else
      var ones := seq(len, _ => 1);
      Success(ones[0 := C][len - 1 := Max(1, C - R + 1)])
  }

  /**
   * The `for (int i = 1; i < min - 1; ++i)` loop of `createBlockOffsets`, from
   * iteration i on: it writes the diagonal cell (Java's running `offset`) at 2i - 1
   * and the last-column cell `cols * (i + 1) - 1` at 2i.
   */
  function FillPairs(R: nat, C: nat, i: nat, a: seq<int>): (r: seq<int>)
    requires 2 <= Min(R, C) && |a| == NumBlocks(R, C)
    requires 1 <= i <= Min(R, C) - 1
    decreases Min(R, C) - i
    ensures |r| == |a|
    ensures forall k :: 0 <= k < |a| ==> r[k] == if 2 * i - 1 <= k < NumBlocks(R, C) - 1 then BlockStart(R, C, k) else a[k]
  {
    if i >= Min(R, C) - 1 then a
    else
      var j := 2 * i - 1;
      assert BlockStart(R, C, j) == Index(i, i, C);
      assert BlockStart(R, C, j + 1) == Index(i, C - 1, C) == C * (i + 1) - 1;
      FillPairs(R, C, i + 1, a[j := Index(i, i, C)][j + 1 := C * (i + 1) - 1])
  }

  /** The displacement Java stores for the last block, from its two-branch conditional. */
  function LastOffset(R: nat, C: nat): int {
    if C < R then C * C - 1 else R * C - Max(0, C - R) - 1
  }

  /** Both branches of the conditional name the diagonal cell of row min(R, C) - 1. */
  lemma LastOffsetIsDiagonal(R: nat, C: nat)
    requires 2 <= Min(R, C)
    ensures LastOffset(R, C) == BlockStart(R, C, NumBlocks(R, C) - 1)
  {
  }

  /**
   * `createBlockOffsets`. Fails like `createBlockSizes` when min(R, C) < 2; otherwise
   * entry k is the row-major index of the first cell of block k.
   */
  function BlockOffsets(R: nat, C: nat): (r: Result<seq<int>>)
    requires FitsInt(R, C)
    ensures Min(R, C) == 0 ==> r == Failure(NegativeArraySize)
    ensures Min(R, C) == 1 ==> r == Failure(IndexOutOfBounds)
    ensures Min(R, C) >= 2 ==> r.Success? && |r.value| == NumBlocks(R, C)
    ensures Min(R, C) >= 2 ==> forall k :: 0 <= k < NumBlocks(R, C) ==> r.value[k] == BlockStart(R, C, k)
  {
    var len := 2 * Min(R, C) - 2;
    if len < 0 then Failure(NegativeArraySize)
    else if len == 0 then Failure(IndexOutOfBounds)
    else
      var initial := seq(len, _ => 0)[0 := 0];
      assert BlockStart(R, C, 0) == 0;
      var filled := FillPairs(R, C, 1, initial);
      LastOffsetIsDiagonal(R, C);
      Success(filled[len - 1 := LastOffset(R, C)])
  }

  /** `createBlockOffsets` as written, with its array and its loop. */
  method CreateBlockOffsets(R: nat, C: nat) returns (r: Result<seq<int>>)
    requires FitsInt(R, C)
    ensures r == BlockOffsets(R, C)
  {
    var m := Min(R, C);
    if 2 * m - 2 < 0 {
      return Failure(NegativeArraySize);
    }
    var len := 2 * m - 2;
    if len == 0 {
      return Failure(IndexOutOfBounds);
    }
    var blockOffset := new int[len](_ => 0);
    blockOffset[0] := 0;
    ghost var initial := blockOffset[..];
    assert initial == seq(len, _ => 0)[0 := 0];
    var offset := C + 1;
    var j := 1;
    var i := 1;
    assert offset == Index(1, 1, C);
    while i < m - 1
      invariant 1 <= i <= m - 1 && j == 2 * i - 1
      invariant offset == Index(i, i, C)
      invariant FillPairs(R, C, i, blockOffset[..]) == FillPairs(R, C, 1, initial)
      decreases m - i
    {
      ghost var before := blockOffset[..];
      blockOffset[j] := offset;
      blockOffset[j + 1] := C * (i + 1) - 1;
      assert blockOffset[..] == before[j := offset][j + 1 := C * (i + 1) - 1];
      assert offset + C + 1 == Index(i + 1, i + 1, C);
      offset := offset + C + 1;
      j := j + 2;
      i := i + 1;
    }
    assert FillPairs(R, C, i, blockOffset[..]) == blockOffset[..];
    blockOffset[len - 1] := LastOffset(R, C);
    return Success(blockOffset[..]);
  }

  /** The descriptors the code builds for 3×3, 2×4 and 4×2; in the 3×3 one, blocks 1 and 2 touch. */
  lemma WorkedDescriptors()
    ensures BlockSizes(3, 3) == Success([3, 1, 1, 1]) && BlockOffsets(3, 3) == Success([0, 4, 5, 8])
    ensures BlockSizes(2, 4) == Success([4, 3]) && BlockOffsets(2, 4) == Success([0, 5])
    ensures BlockSizes(4, 2) == Success([2, 1]) && BlockOffsets(4, 2) == Success([0, 3])
    ensures BlockOffsets(3, 3).value[1] + BlockSizes(3, 3).value[1] == BlockOffsets(3, 3).value[2]
  {
    assert BlockSizes(3, 3).value == [3, 1, 1, 1];
    assert BlockOffsets(3, 3).value == [0, 4, 5, 8];
    assert BlockSizes(2, 4).value == [4, 3];
    assert BlockOffsets(2, 4).value == [0, 5];
    assert BlockSizes(4, 2).value == [2, 1];
    assert BlockOffsets(4, 2).value == [0, 3];
  }

  /** Block k ends at or before the start of block k + 1, which starts strictly later than block k. */
  lemma BlockBeforeNext(R: nat, C: nat, k: nat)
    requires 2 <= Min(R, C) && k + 1 < NumBlocks(R, C)
    ensures BlockStart(R, C, k) + BlockLen(R, C, k) <= BlockStart(R, C, k + 1)
    ensures BlockStart(R, C, k) < BlockStart(R, C, k + 1)
  {
    if k > 0 && k % 2 == 0 {
      RowBefore(k / 2 + 1, C);
    }
  }

  /**
   * The descriptor lists its blocks by strictly increasing displacement, every block
   * holds at least one element, and no two blocks overlap.
   */
  lemma DescriptorOrdered(R: nat, C: nat)
    requires FitsInt(R, C) && 2 <= Min(R, C)
    ensures var sizes, offsets := BlockSizes(R, C).value, BlockOffsets(R, C).value;
      && Ordered(sizes, offsets)
      && (forall k :: 0 <= k < |sizes| ==> sizes[k] >= 1)
      && (forall k :: 0 <= k < |offsets| - 1 ==> offsets[k] < offsets[k + 1])
      && (forall k, l :: 0 <= k < l < |offsets| ==> offsets[k] + sizes[k] <= offsets[l])
  {
    var sizes, offsets := BlockSizes(R, C).value, BlockOffsets(R, C).value;
    forall k | 0 <= k < NumBlocks(R, C) - 1
      ensures BlockStart(R, C, k) + BlockLen(R, C, k) <= BlockStart(R, C, k + 1)
      ensures BlockStart(R, C, k) < BlockStart(R, C, k + 1)
    {
      BlockBeforeNext(R, C, k);
    }
    forall k, l | 0 <= k < l < |offsets|
      ensures offsets[k] + sizes[k] <= offsets[l]
    {
      OrderedDisjoint(sizes, offsets, k, l);
    }
  }

  /** Block k lies inside its own row, so inside the matrix. */
  lemma BlockInsideRow(R: nat, C: nat, k: nat)
    requires 2 <= Min(R, C) && k < NumBlocks(R, C)
    ensures BlockStart(R, C, k) + BlockLen(R, C, k) <= Index(BlockRow(R, C, k) + 1, 0, C) <= R * C
  {
    var row := BlockRow(R, C, k);
    RowBefore(row + 1, C);
    MulMonotone(row + 1, R, C);
  }

  /**
   * Every block lies inside the R * C flattened matrix, and the last block ends exactly
   * at the end of row min(R, C) - 1.
   */
  lemma DescriptorWithin(R: nat, C: nat)
    requires FitsInt(R, C) && 2 <= Min(R, C)
    ensures var sizes, offsets := BlockSizes(R, C).value, BlockOffsets(R, C).value;
      && BlocksWithin(sizes, offsets, R * C)
      && offsets[|offsets| - 1] + sizes[|sizes| - 1] == Min(R, C) * C
  {
    forall k | 0 <= k < NumBlocks(R, C)
      ensures BlockStart(R, C, k) + BlockLen(R, C, k) <= R * C
    {
      BlockInsideRow(R, C, k);
    }
    RowBefore(Min(R, C), C);
  }

  /**
   * A cell is covered by some block exactly when it is a kept cell: the descriptor
   * selects the intended geometry, no more and no less.
   */
  lemma DescriptorCoverage(R: nat, C: nat, i: nat, j: nat)
    requires FitsInt(R, C) && 2 <= Min(R, C) && i < R && j < C
    ensures var sizes, offsets := BlockSizes(R, C).value, BlockOffsets(R, C).value;
      Selected(R, C, i, j) <==>
        exists k :: 0 <= k < |offsets| && offsets[k] <= Index(i, j, C) < offsets[k] + sizes[k]
  {
    var sizes, offsets := BlockSizes(R, C).value, BlockOffsets(R, C).value;
    if Selected(R, C, i, j) {
      var k := BlockOf(R, C, i, j);
      assert offsets[k] <= Index(i, j, C) < offsets[k] + sizes[k];
    }
    if k :| 0 <= k < |offsets| && offsets[k] <= Index(i, j, C) < offsets[k] + sizes[k] {
      var t := Index(i, j, C) - offsets[k];
      BlockCellsSelected(R, C, k, t);
      var row, col := BlockRow(R, C, k), BlockCol(R, C, k);
      assert Index(i, j, C) == Index(row, col + t, C);
      CellUnique(i, j, row, col + t, C);
    }
  }

  /** Kept cell (i, j) is element j - BlockCol(k) of the block k that BlockOf names. */
  lemma BlockOfCell(R: nat, C: nat, i: nat, j: nat)
    requires FitsInt(R, C) && 2 <= Min(R, C) && i < R && j < C && Selected(R, C, i, j)
    ensures var sizes, offsets := BlockSizes(R, C).value, BlockOffsets(R, C).value;
      var k := BlockOf(R, C, i, j);
      && k < |sizes| == |offsets|
      && j - BlockCol(R, C, k) < sizes[k]
      && offsets[k] + (j - BlockCol(R, C, k)) == Index(i, j, C)
  {
  }

  /** Blocks before block k hold C elements for row 0 and one for each middle block. */
  lemma {:induction false} SizePrefixSum(R: nat, C: nat, k: nat)
    requires FitsInt(R, C) && 2 <= Min(R, C) && k < NumBlocks(R, C)
    ensures Sum(BlockSizes(R, C).value[..k]) == if k == 0 then 0 else C + k - 1
  {
    var sizes := BlockSizes(R, C).value;
    if k > 0 {
      SizePrefixSum(R, C, k - 1);
      assert sizes[..k][..k - 1] == sizes[..k - 1];
    }
  }

  /**
   * The descriptor selects C + 2 * (m - 2) + max(1, C - R + 1) elements, where
   * m = min(R, C), and they fit the R * C receive buffer.
   */
  lemma SumOfSizes(R: nat, C: nat)
    requires FitsInt(R, C) && 2 <= Min(R, C)
    ensures Sum(BlockSizes(R, C).value) == C + 2 * (Min(R, C) - 2) + Max(1, C - R + 1)
    ensures Sum(BlockSizes(R, C).value) <= R * C
  {
    var sizes, offsets := BlockSizes(R, C).value, BlockOffsets(R, C).value;
    var n := |sizes| - 1;
    SizePrefixSum(R, C, n);
    assert sizes[..n + 1] == sizes;
    DescriptorOrdered(R, C);
    DescriptorWithin(R, C);
    SumWithinSpan(sizes, offsets);
    MulMonotone(Min(R, C), R, C);
  }
}
