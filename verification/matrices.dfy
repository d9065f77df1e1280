/** Matrices, display cells and the integer helpers shared by the whole model. */
module Matrices {

  /** A Java `int[][]`, read as rows of values. */
  type Matrix = seq<seq<int>>

  /** A display cell: a value rendered by `String.valueOf`, or the placeholder "* ". */
  datatype Cell = Val(value: int) | Placeholder

  /** A Java `String[][]` produced by the formatter. */
  type Grid = seq<seq<Cell>>

  /** Largest Java `int`. */
  const MaxInt: int := 0x7fff_ffff

  /** `M` has exactly `R` rows of exactly `C` entries each. */
  predicate IsMatrix<T>(M: seq<seq<T>>, R: nat, C: nat) {
    |M| == R && forall i :: 0 <= i < R ==> |M[i]| == C
  }

  /** Every row has the length of every other row. */
  predicate Rectangular<T>(M: seq<seq<T>>) {
    forall i, j :: 0 <= i < |M| && 0 <= j < |M| ==> |M[i]| == |M[j]|
  }

  /** `Math.min` on Java ints. */
  function Min(a: int, b: int): int {
    if a <= b then a else b
  }

  /** `Math.max` on Java ints. */
  function Max(a: int, b: int): int {
    if a >= b then a else b
  }

  /** A mathematical integer as a Java `int`: two's-complement wrap-around to 32 bits. */
  function Int32(x: int): (r: int)
    ensures -MaxInt - 1 <= r <= MaxInt
    ensures -MaxInt - 1 <= x <= MaxInt ==> r == x
    ensures MaxInt < x < 0x1_0000_0000 + MaxInt ==> r == x - 0x1_0000_0000
  {
    (x + MaxInt + 1) % 0x1_0000_0000 - MaxInt - 1
  }

  /**
   * The values the core computes from the dimensions fit a Java `int`: `rows * cols`
   * (which bounds `cols * cols` and `cols * (i + 1)`) and the descriptor length
   * `min * 2 - 2`.
   */
  predicate FitsInt(R: nat, C: nat) {
    R * C <= MaxInt && 2 * Min(R, C) - 2 <= MaxInt
  }
}

/** Facts about the row-major index `i * C + j` of cell (i, j). */
module RowMajor {
  import opened Matrices

  /** Row-major index of cell (i, j) in a matrix with C columns. */
  function Index(i: nat, j: nat, C: nat): nat {
    i * C + j
  }

  lemma MulMonotone(a: int, b: int, c: nat)
    requires a <= b
    ensures a * c <= b * c
  {
    assert b * c - a * c == (b - a) * c;
  }

  /** Row `b` starts at or after the end of any earlier row `a`. */
  lemma RowAfter(a: int, b: int, c: nat)
    requires a < b
    ensures a * c + c <= b * c
  {
    MulMonotone(a + 1, b, c);
    assert (a + 1) * c == a * c + c;
  }

  /** Row a - 1 starts C cells before row a. */
  lemma RowBefore(a: nat, c: nat)
    requires a >= 1
    ensures Index(a - 1, 0, c) == a * c - c
  {
    assert a * c == (a - 1) * c + c;
  }

  /** A cell of an R×C matrix has its row-major index below R * C. */
  lemma CellInBounds(i: nat, j: nat, R: nat, C: nat)
    requires i < R && j < C
    ensures Index(i, j, C) < R * C
  {
    RowAfter(i, R, C);
  }

  /** Distinct cells have distinct row-major indices. */
  lemma CellUnique(i: nat, j: nat, i': nat, j': nat, C: nat)
    requires j < C && j' < C
    requires Index(i, j, C) == Index(i', j', C)
    ensures i == i' && j == j'
  {
    if i < i' {
      RowAfter(i, i', C);
      assert false;
    } else if i' < i {
      RowAfter(i', i, C);
      assert false;
    }
  }

  /** Every index below R * C is the row-major index of a cell. */
  lemma IndexIsCell(p: nat, R: nat, C: nat)
    requires p < R * C
    ensures C > 0 && p / C < R && p % C < C && p == Index(p / C, p % C, C)
  {
    if C == 0 {
      assert false;
    }
    if p / C >= R {
      MulMonotone(R, p / C, C);
      assert false;
    }
  }

  /**
   * When `rows * cols` fits a Java `int`, so does the descriptor length `min * 2 - 2`:
   * for min >= 2 it lies below min * min <= rows * cols.
   */
  lemma ProductBoundSuffices(R: nat, C: nat)
    ensures FitsInt(R, C) <==> R * C <= MaxInt
  {
  }
}
