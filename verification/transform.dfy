/**
 * `main` from `createBlockSizes` on: build the indexed datatype, send the flattened
 * matrix through it to the same process, and format what arrives. The descriptor and
 * the formatter are two independent derivations of one geometry; this module proves
 * that they agree.
 */
module Transform {
  import opened Results
  import opened Matrices
  import opened RowMajor
  import opened Geometry
  import opened IndexedGather
  import opened Descriptor
  import opened Flattening
  import opened Formatter

  /** The intended picture: each kept cell shows its matrix value, every other cell the placeholder. */
  function Masked(M: Matrix, R: nat, C: nat): Grid
    requires IsMatrix(M, R, C)
  {
    seq(R, i requires 0 <= i < R =>
      seq(C, j requires 0 <= j < C => if Selected(R, C, i, j) then Val(M[i][j]) else Placeholder))
  }

  /** The formatter reads exactly as many values as the descriptor sends. */
  lemma ReadLengthIsMessageLength(R: nat, C: nat)
    requires FitsInt(R, C) && 2 <= Min(R, C)
    ensures ReadLength(R, C) == Sum(BlockSizes(R, C).value)
  {
    SumOfSizes(R, C);
  }

  /**
   * The formatter's cursor reads kept cell (i, j) from the message position at which
   * the gather put it: element j - BlockCol(k) of the block k holding the cell.
   */
  lemma CursorMatchesGather(R: nat, C: nat, i: nat, j: nat)
    requires FitsInt(R, C) && 2 <= Min(R, C) && i < R && j < C && Selected(R, C, i, j)
    ensures var k := BlockOf(R, C, i, j);
      Pos(R, C, i, j) == Sum(BlockSizes(R, C).value[..k]) + (j - BlockCol(R, C, k))
  {
    SizePrefixSum(R, C, BlockOf(R, C, i, j));
  }

  /** The grid shows exactly as many values as the descriptor selects. */
  lemma KeptCellsMatchMessage(R: nat, C: nat)
    requires FitsInt(R, C) && 2 <= Min(R, C)
    ensures |KeptCells(R, C)| == Sum(BlockSizes(R, C).value)
  {
    KeptCellCount(R, C);
    ReadLengthIsMessageLength(R, C);
  }

  /** The gather puts the value of kept cell (i, j) at the position the formatter's cursor reads it from. */
  lemma GatheredCell(M: Matrix, R: nat, C: nat, i: nat, j: nat)
    requires IsMatrix(M, R, C) && FitsInt(R, C) && 2 <= Min(R, C)
    requires i < R && j < C && Selected(R, C, i, j)
    ensures Flatten(M).Success? && |Flatten(M).value| == R * C
    ensures var sizes, offsets := BlockSizes(R, C).value, BlockOffsets(R, C).value;
      && BlocksWithin(sizes, offsets, R * C)
      && Pos(R, C, i, j) < |Gather(Flatten(M).value, sizes, offsets)|
      && Gather(Flatten(M).value, sizes, offsets)[Pos(R, C, i, j)] == M[i][j]
  {
    var sizes, offsets := BlockSizes(R, C).value, BlockOffsets(R, C).value;
    FlattenShape(M, R, C);
    var flat := Flatten(M).value;
    DescriptorWithin(R, C);
    BlockOfCell(R, C, i, j);
    CursorMatchesGather(R, C, i, j);
    var k := BlockOf(R, C, i, j);
    var t := j - BlockCol(R, C, k);
    GatherAt(flat, sizes, offsets, k, t, Pos(R, C, i, j), Index(i, j, C));
  }

  /**
   * Gathering the flattened matrix through the descriptor, receiving it into the R * C
   * buffer and formatting the buffer reproduces every kept cell's value in place and
   * the placeholder everywhere else.
   */
  lemma TransformAgreement(M: Matrix, R: nat, C: nat)
    requires IsMatrix(M, R, C) && FitsInt(R, C) && 2 <= Min(R, C)
    ensures Flatten(M).Success? && |Flatten(M).value| == R * C
    ensures var sizes, offsets := BlockSizes(R, C).value, BlockOffsets(R, C).value;
      && BlocksWithin(sizes, offsets, R * C)
      && Sum(sizes) <= R * C
      && Format(Receive(Gather(Flatten(M).value, sizes, offsets), R * C), R, C) == Success(Masked(M, R, C))
  {
    var sizes, offsets := BlockSizes(R, C).value, BlockOffsets(R, C).value;
    FlattenShape(M, R, C);
    var flat := Flatten(M).value;
    DescriptorWithin(R, C);
    SumOfSizes(R, C);
    ReadLengthIsMessageLength(R, C);
    var message := Gather(flat, sizes, offsets);
    var buf := Receive(message, R * C);
    var grid := Format(buf, R, C).value;
    var masked := Masked(M, R, C);
    forall i, j | 0 <= i < R && 0 <= j < C
      ensures grid[i][j] == masked[i][j]
    {
      if Selected(R, C, i, j) {
        GatheredCell(M, R, C, i, j);
      }
    }
    forall i | 0 <= i < R
      ensures grid[i] == masked[i]
    {
    }
    assert grid == masked;
  }

  /**
   * `main` after argument parsing, for the matrix `M` that `randMatrix` produced: the
   * descriptor arrays cannot be built unless both dimensions are at least 2, and
   * otherwise the printed grid is the intended picture.
   */
  function Run(M: Matrix, R: nat, C: nat): (r: Result<Grid>)
    requires IsMatrix(M, R, C) && FitsInt(R, C)
    ensures Min(R, C) == 0 ==> r == Failure(NegativeArraySize)
    ensures Min(R, C) == 1 ==> r == Failure(IndexOutOfBounds)
    ensures Min(R, C) >= 2 ==> r == Success(Masked(M, R, C))
  {
    var sizes :- BlockSizes(R, C);
    // createBlockOffsets fails exactly when createBlockSizes does, so it succeeds here,
    // and so does flatMatrix, since the matrix has a row 0.
    var offsets := BlockOffsets(R, C).value;
    TransformAgreement(M, R, C);
    var flat := Flatten(M).value;
    var received := Receive(Gather(flat, sizes, offsets), R * C);
    Format(received, R, C)
  }
}
