# Matrix transformation through an MPI indexed datatype — a Dafny model

`ru.vsu.mpi.MatrixTransform` builds an R×C matrix of random ints and flattens it
row-major. It then describes a selection of its cells as an MPI indexed datatype,
given as block lengths and block displacements. It sends the flattened matrix
through that datatype to its own rank and formats the received buffer as a grid.
The grid shows each selected value in its original place and `"* "` everywhere
else.

With m = min(R, C), the selection is:

- all of row 0;
- for rows 1 .. m-2, the diagonal cell and the last-column cell;
- for row m-1, the run from the diagonal cell to the end of the row.

Two independently written pieces of index arithmetic describe this selection.
`createBlockSizes`/`createBlockOffsets` build the descriptor. `formatTransformation`
walks the received buffer with a cursor. This model proves that the two agree.

Modules, one per component:

- `Results`: the JVM exceptions the core can raise, as `Failure(NegativeArraySize)` or
  `Failure(IndexOutOfBounds)`.
- `Matrices`, `RowMajor`: matrices, display cells (`Val(v)` or `Placeholder`), Java's
  32-bit `int` wrap-around (`Int32`), and the row-major index `Index(i, j, C) = i * C + j`
  with its uniqueness and bound facts.
- `Flattening`: `flatMatrix` and `unflatMatrix`, both modelled on their loops, with both
  round trips.
- `Geometry`: the selection once, as a cell predicate `Selected`. It is also given
  block by block as (row, first column, length), with `BlockOf` mapping a cell to its block.
- `Descriptor`: `createBlockSizes` and `createBlockOffsets` as written, including the
  loop (as a recursive function and as a method over an array). It proves that they
  describe exactly the geometry and are ordered, disjoint and inside the matrix.
- `IndexedGather`: the message an indexed datatype selects (MPI_TYPE_INDEXED, section
  4.1.2 of the MPI-3.1 standard), and the receive into a buffer of fixed capacity.
- `Formatter`: `formatTransformation` as a cursor walk. Its result is described cell by
  cell through the cursor position `Pos` of each kept cell. `Pos` is a bijection onto
  the values read.
- `Transform`: `main` from the descriptor on. The end-to-end theorem says the printed
  grid is the masked matrix whenever min(R, C) >= 2. Otherwise it is the exception the
  code raises.

## Model

| member | source | states |
|---|---|---|
| `Flattening.Flatten` | src/ru/vsu/mpi/MatrixTransform.java:81-88 | a rectangular matrix with at least one row flattens to R*C values with cell (i, j) at index i*C+j; a matrix with no rows throws (index out of bounds on row 0) |
| `Flattening.UnflattenFrom` | src/ru/vsu/mpi/MatrixTransform.java:94-102 | the for-each walk from element k with the cursor at (row, col): any result it returns is an R×C matrix, and its only failure is an index out of bounds (a write past the last row or column) |
| `Flattening.UnflattenFromCells` | src/ru/vsu/mpi/MatrixTransform.java:94-102 | loop invariant of `UnflattenFrom`, the for-each walk: while the cursor (row, col) is the cell of index k, the walk succeeds exactly when the array fits R*C, and writes a[p] into the cell of index p for every p >= k, leaving the other cells alone |
| `Flattening.Unflatten` | src/ru/vsu/mpi/MatrixTransform.java:90-104 | succeeds exactly when the array has at most R*C values; cell (i, j) holds a[i*C+j] when that index exists and 0 otherwise; a longer array throws |
| `Flattening.UnflattenFlatten` | src/ru/vsu/mpi/MatrixTransform.java:81-104 | unflattening a flattened R×C matrix (R >= 1) gives the matrix back |
| `Flattening.FlattenUnflatten` | src/ru/vsu/mpi/MatrixTransform.java:81-104 | flattening an unflattened array of exactly R*C values gives the array back |
| `Geometry.BlockCellsSelected` | src/ru/vsu/mpi/MatrixTransform.java:106-130 | every cell of every block lies in the matrix and is a kept cell |
| `Geometry.BlockOf` | src/ru/vsu/mpi/MatrixTransform.java:106-130 | every kept cell lies in some block: the block's row is the cell's row and the cell's column is within the block's run |
| `Descriptor.BlockSizes` | src/ru/vsu/mpi/MatrixTransform.java:106-113 | min 0 throws a negative array size, min 1 throws on the write to entry 0, and a min above 2^30 (up to 2^31-1) throws a negative array size because the Java `int` `min * 2 - 2` wraps below 0; otherwise 2m-2 entries, entry k being the length of block k (C for row 0, C-m+1 for the run of row m-1, else 1) |
| `Descriptor.FillPairs` | src/ru/vsu/mpi/MatrixTransform.java:120-127 | from iteration i on, the loop writes at entries 2i-1 .. 2m-4 the starts of the diagonal and last-column blocks and leaves every other entry unchanged |
| `Descriptor.LastOffsetIsDiagonal` | src/ru/vsu/mpi/MatrixTransform.java:128 | both branches of `LastOffset`, the conditional at line 128, give the diagonal cell (m-1)*C+(m-1) of row m-1 |
| `Descriptor.BlockOffsets` | src/ru/vsu/mpi/MatrixTransform.java:116-130 | fails as createBlockSizes does when m < 2; otherwise entry k is the row-major index of the first cell of block k |
| `Descriptor.CreateBlockOffsets` | src/ru/vsu/mpi/MatrixTransform.java:116-130 | the array-and-loop version computes the same descriptor (or the same exception) as the functional one |
| `Descriptor.WorkedDescriptors` | src/ru/vsu/mpi/MatrixTransform.java:106-130 | 3×3 gives sizes [3,1,1,1] and offsets [0,4,5,8]; 2×4 gives [4,3] and [0,5]; 4×2 gives [2,1] and [0,3]; blocks 1 and 2 of the 3×3 descriptor touch |
| `Descriptor.BlockBeforeNext` | src/ru/vsu/mpi/MatrixTransform.java:106-130 | block k ends at or before the start of block k+1, and block k+1 starts strictly later |
| `Descriptor.DescriptorOrdered` | src/ru/vsu/mpi/MatrixTransform.java:106-130 | the built descriptor has strictly increasing offsets, sizes >= 1, and offset_k + size_k <= offset_l for every k < l: any two blocks are disjoint, listed in order |
| `Descriptor.BlockInsideRow` | src/ru/vsu/mpi/MatrixTransform.java:106-130 | each block ends no later than the end of its own row, which is within R*C |
| `Descriptor.DescriptorWithin` | src/ru/vsu/mpi/MatrixTransform.java:106-130 | every block lies in [0, R*C), and the last block ends exactly at m*C |
| `Descriptor.BlockOfCell` | src/ru/vsu/mpi/MatrixTransform.java:106-130 | a kept cell (i, j) is element j - BlockCol(k) of the built block k = BlockOf(i, j), at flat index i*C+j |
| `Descriptor.DescriptorCoverage` | src/ru/vsu/mpi/MatrixTransform.java:106-130 | a cell is covered by some block of the built descriptor if and only if it is a kept cell |
| `Descriptor.SizePrefixSum` | src/ru/vsu/mpi/MatrixTransform.java:106-113 | the blocks before block k hold 0 elements for k = 0 and C + k - 1 elements otherwise |
| `RowMajor.ProductBoundSuffices` | src/ru/vsu/mpi/MatrixTransform.java:108 | the bound rows*cols <= 2^31-1 alone makes the descriptor length min*2-2 fit a Java `int`, so `FitsInt` is exactly that product bound |
| `Descriptor.SumOfSizes` | src/ru/vsu/mpi/MatrixTransform.java:106-130 | the descriptor selects C + 2(m-2) + max(1, C-R+1) elements, at most R*C |
| `IndexedGather.Gather` | src/ru/vsu/mpi/MatrixTransform.java:32-37 | the message of an indexed datatype has sum(sizes) elements |
| `IndexedGather.GatherBlock` | src/ru/vsu/mpi/MatrixTransform.java:32-37 | element t of block k sits at message position sum(sizes[..k]) + t and equals flat[offset_k + t] |
| `IndexedGather.OrderedDisjoint` | src/ru/vsu/mpi/MatrixTransform.java:33-37 | when each block ends at or before the next one starts and no size is negative, block k ends at or before block l starts for every k < l |
| `IndexedGather.SumWithinSpan` | src/ru/vsu/mpi/MatrixTransform.java:33-37 | ordered blocks hold no more elements than the span from the first start to the last end |
| `IndexedGather.Receive` | src/ru/vsu/mpi/MatrixTransform.java:33-37 | a message that fits the receive buffer fills its front, and the rest stays 0 |
| `Formatter.Pos` | src/ru/vsu/mpi/MatrixTransform.java:140-153 | the cursor position of every kept cell is below the number of values the formatter reads |
| `Formatter.FormatRows` | src/ru/vsu/mpi/MatrixTransform.java:140-153 | the row loop from row i with the cursor at C + 2(i-1) succeeds exactly when the buffer holds all values still to be read; it then fills each kept cell of rows i .. m-1 from its cursor position and leaves every other cell alone |
| `Formatter.Format` | src/ru/vsu/mpi/MatrixTransform.java:132-155 | succeeds exactly when there is a row 0 (or no column) and the buffer has the values the cursor reads, and throws otherwise; then each kept cell shows the value read for it and every other cell shows the placeholder |
| `Formatter.CellOf` | src/ru/vsu/mpi/MatrixTransform.java:140-153 | every value the formatter reads is placed in some kept cell whose cursor position it is |
| `Formatter.PosInjective` | src/ru/vsu/mpi/MatrixTransform.java:140-153 | distinct kept cells are read from distinct cursor positions |
| `Formatter.FormatReadsPrefix` | src/ru/vsu/mpi/MatrixTransform.java:132-155 | the formatter reads only the first ReadLength values: buffers that agree there give the same grid |
| `Formatter.FormatDegenerate` | src/ru/vsu/mpi/MatrixTransform.java:132-141 | with a single row or column only row 0 is read, from C values, and every other row is placeholders |
| `Formatter.CellsOfPrefix` | src/ru/vsu/mpi/MatrixTransform.java:140-153 | the first n cursor positions fill n distinct cells |
| `Formatter.KeptCellCount` | src/ru/vsu/mpi/MatrixTransform.java:132-155 | the number of kept cells equals the number of values the formatter reads |
| `Transform.ReadLengthIsMessageLength` | src/ru/vsu/mpi/MatrixTransform.java:106-155 | the formatter reads exactly sum(sizes) values: max(C-R,0)+1 == max(1, C-R+1) |
| `Transform.CursorMatchesGather` | src/ru/vsu/mpi/MatrixTransform.java:106-155 | the formatter's cursor position of a kept cell equals the message position at which the indexed gather puts that cell |
| `Transform.KeptCellsMatchMessage` | src/ru/vsu/mpi/MatrixTransform.java:106-155 | the grid shows exactly as many values as the descriptor selects |
| `Transform.GatheredCell` | src/ru/vsu/mpi/MatrixTransform.java:32-38 | the gathered message holds M[i][j] at the position from which the formatter reads kept cell (i, j) |
| `Transform.TransformAgreement` | src/ru/vsu/mpi/MatrixTransform.java:32-38 | for min(R, C) >= 2, formatting the received buffer yields M[i][j] at every kept cell and the placeholder at every other cell |
| `Transform.Run` | src/ru/vsu/mpi/MatrixTransform.java:32-38 | the transform throws a negative array size when a dimension is 0 and an index out of bounds when min(R, C) is 1; otherwise it prints the masked matrix |

## Left out

- MPI runtime: `MPI.Init`, `MPI.Finalize`, `COMM_WORLD.Rank` and the `Sendrecv` transport itself (lines 23-25, 34-37, 42) are library calls. The transport is replaced by `Gather` and `Receive`, which follow the indexed-datatype semantics.
- `randMatrix` (lines 58-67) draws from `java.util.Random`. `Run` and `TransformAgreement` take the matrix as a parameter and hold for every matrix.
- `printMatrix`, `getDelimiter` and the console output (lines 29-30, 38, 69-79, 157-159) are presentation only. `String.valueOf` rendering is replaced by the cell datatype `Val(v) | Placeholder`.
- `validateCla` and the parsing of `args[3]`/`args[4]` (lines 24, 26-27, 46-56) are launcher plumbing. Dimensions are `nat`, since the digit-only pattern admits no sign. That pattern also admits `0`, and `Run` models where that leads. `parseInt` overflow is not modelled.
- Exception handling in `main`: only `IllegalArgumentException` is caught. The runtime exceptions of the core are modelled as `Failure` values. What the JVM does with them after that is not modelled.
- BlockOffsets: requires R*C <= 2^31-1 (`FitsInt`; `RowMajor.ProductBoundSuffices` shows that this single bound is all it asks). Java's wrap-around of `cols * cols`, `cols * (i + 1)` and `rows * cols` beyond that bound is not modelled.
- Run: requires R*C <= 2^31-1 for the same reason. `new int[rows * cols]` overflowing is not modelled.
- Flatten: requires a rectangular matrix. `randMatrix` only builds rectangular ones. A ragged `int[][]` and the overflow of `matr.length * matr[0].length` are not modelled.
- Receive: requires the message to fit the receive buffer. MPI's truncation error is therefore not modelled. `SumOfSizes` proves that the descriptor's message always fits.
- The commented-out `Datatype.Vector` transpose (lines 161-162) is dead code.
- `unflatMatrix` is never called by `main`. It is modelled and proved all the same.

## Behaviour of the code worth knowing

- For a 3×3 matrix the code builds four blocks: sizes [3,1,1,1] and offsets [0,4,5,8] (`Descriptor.WorkedDescriptors`).
- Consecutive blocks never overlap, but they can touch: offset_k + size_k <= offset_{k+1} holds, sometimes with equality. In 3×3, the diagonal cell of row 1 (index 4) is immediately followed by the last-column cell (index 5).
- When min(R, C) is 1, `createBlockSizes` allocates an array of length 0 and throws on the write to entry 0 (src/ru/vsu/mpi/MatrixTransform.java:110). When a dimension is 0, the length is -2 and the allocation throws (line 108). The formatter on its own handles min(R, C) == 1 without an out-of-range access (`Formatter.FormatDegenerate`).
- `unflatMatrix` fills a short array's missing cells with 0 and throws only on an array longer than R*C.
