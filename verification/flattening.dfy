/** `flatMatrix` and `unflatMatrix`: row-major linearisation of a matrix and its inverse. */
module Flattening {
  import opened Results
  import opened Matrices
  import opened RowMajor

  /** The rows of `M`, each `C` long, laid end to end. */
  function Concat(M: Matrix, C: nat): (flat: seq<int>)
    requires IsMatrix(M, |M|, C)
    ensures |flat| == |M| * C
  {
    if |M| == 0 then []
    else
      assert |M| * C == C + (|M| - 1) * C;
      M[0] + Concat(M[1..], C)
  }

  /** Cell (i, j) of `M` sits at index Index(i, j, C) of its concatenation. */
  lemma {:induction false} ConcatCell(M: Matrix, C: nat, i: nat, j: nat)
    requires IsMatrix(M, |M|, C) && i < |M| && j < C
    ensures Index(i, j, C) < |Concat(M, C)| && Concat(M, C)[Index(i, j, C)] == M[i][j]
  {
    CellInBounds(i, j, |M|, C);
    if i > 0 {
      ConcatCell(M[1..], C, i - 1, j);
      assert Index(i, j, C) == C + Index(i - 1, j, C);
    }
  }

  lemma ConcatCells(M: Matrix, C: nat)
    requires IsMatrix(M, |M|, C)
    ensures forall i, j :: 0 <= i < |M| && 0 <= j < C ==>
      Index(i, j, C) < |Concat(M, C)| && Concat(M, C)[Index(i, j, C)] == M[i][j]
  {
    forall i, j | 0 <= i < |M| && 0 <= j < C
      ensures Index(i, j, C) < |Concat(M, C)| && Concat(M, C)[Index(i, j, C)] == M[i][j]
    {
      ConcatCell(M, C, i, j);
    }
  }

  /**
   * `flatMatrix`: a row-major copy of a rectangular matrix. The length is taken
   * from row 0, so a matrix without rows makes the JVM throw.
   */
  function Flatten(M: Matrix): (r: Result<seq<int>>)
    requires Rectangular(M)
    ensures r.Failure? <==> |M| == 0
    ensures r.Failure? ==> r.error == IndexOutOfBounds
    ensures r.Success? ==> |r.value| == |M| * |M[0]|
    ensures r.Success? ==> forall i, j :: 0 <= i < |M| && 0 <= j < |M[0]| ==>
      Index(i, j, |M[0]|) < |r.value| && r.value[Index(i, j, |M[0]|)] == M[i][j]
  {
    if |M| == 0 then Failure(IndexOutOfBounds)
    else
      var C := |M[0]|;
      assert IsMatrix(M, |M|, C);
      ConcatCells(M, C);
      Success(Concat(M, C))
  }

  /** Flatten on a matrix of known shape R×C, R >= 1. */
  lemma FlattenShape(M: Matrix, R: nat, C: nat)
    requires IsMatrix(M, R, C) && R >= 1
    ensures Flatten(M).Success? && |Flatten(M).value| == R * C
    ensures forall i, j :: 0 <= i < R && 0 <= j < C ==>
      Index(i, j, C) < |Flatten(M).value| && Flatten(M).value[Index(i, j, C)] == M[i][j]
  {
  }

  /** The zero-filled `new int[R][C]`. */
  function Zeros(R: nat, C: nat): (g: Matrix)
    ensures IsMatrix(g, R, C)
    ensures forall i, j :: 0 <= i < R && 0 <= j < C ==> g[i][j] == 0
  {
    seq(R, _ => seq(C, _ => 0))
  }

  /**
   * The `for (int value : array)` loop of `unflatMatrix` from element `k` on, with the
   * cursor at (`row`, `col`) and the partly filled matrix `g`. A write outside `g`
   * makes the JVM throw.
   */
  function UnflattenFrom(a: seq<int>, R: nat, C: nat, k: nat, row: nat, col: nat, g: Matrix): (r: Result<Matrix>)
    requires k <= |a| && IsMatrix(g, R, C)
    decreases |a| - k
    ensures r.Success? ==> IsMatrix(r.value, R, C)
    ensures r.Failure? ==> r.error == IndexOutOfBounds
  {
    if k == |a| then Success(g)
    else if row >= R || col >= C then Failure(IndexOutOfBounds)
    else
      var g' := g[row := g[row][col := a[k]]];
      if col == C - 1 then UnflattenFrom(a, R, C, k + 1, row + 1, 0, g')
      else UnflattenFrom(a, R, C, k + 1, row, col + 1, g')
  }

  /**
   * While the cursor (`row`, `col`) is the cell whose row-major index is `k`, the loop
   * succeeds exactly when `a` fits the matrix, and it writes `a[p]` into the cell with
   * index p for every p from k on, leaving the other cells of `g` alone.
   */
  lemma {:induction false} UnflattenFromCells(a: seq<int>, R: nat, C: nat, k: nat, row: nat, col: nat, g: Matrix)
    requires k <= |a| && IsMatrix(g, R, C)
    requires Index(row, col, C) == k && (col < C || C == 0)
    requires k <= R * C
    decreases |a| - k
    ensures UnflattenFrom(a, R, C, k, row, col, g).Success? <==> |a| <= R * C
    ensures UnflattenFrom(a, R, C, k, row, col, g).Success? ==>
      forall i, j :: 0 <= i < R && 0 <= j < C ==>
        UnflattenFrom(a, R, C, k, row, col, g).value[i][j] == if k <= Index(i, j, C) < |a| then a[Index(i, j, C)] else g[i][j]
  {
    if k == |a| {
    } else if row >= R || col >= C {
      if C > 0 {
        MulMonotone(R, row, C);
      }
    } else {
      var g' := g[row := g[row][col := a[k]]];
      CellInBounds(row, col, R, C);
      var next := if col == C - 1 then (row + 1, 0) else (row, col + 1);
      assert Index(next.0, next.1, C) == k + 1;
      UnflattenFromCells(a, R, C, k + 1, next.0, next.1, g');
      var r := UnflattenFrom(a, R, C, k, row, col, g);
      assert r == UnflattenFrom(a, R, C, k + 1, next.0, next.1, g');
      if r.Success? {
        forall i, j | 0 <= i < R && 0 <= j < C
          ensures r.value[i][j] == if k <= Index(i, j, C) < |a| then a[Index(i, j, C)] else g[i][j]
        {
          if Index(i, j, C) == k {
            CellUnique(i, j, row, col, C);
          } else if i == row && j == col {
            assert false;
          }
        }
      }
    }
  }

  lemma UnflattenCells(a: seq<int>, R: nat, C: nat)
    ensures var r := UnflattenFrom(a, R, C, 0, 0, 0, Zeros(R, C));
      && (r.Success? <==> |a| <= R * C)
      && (r.Success? ==> forall i, j :: 0 <= i < R && 0 <= j < C ==>
            r.value[i][j] == if Index(i, j, C) < |a| then a[Index(i, j, C)] else 0)
  {
    assert Index(0, 0, C) == 0;
    UnflattenFromCells(a, R, C, 0, 0, 0, Zeros(R, C));
  }

  /**
   * `unflatMatrix`: refills an R×C matrix row by row from `a`; cells past the end of
   * `a` keep their initial 0, and an `a` longer than R * C makes the JVM throw.
   */
  function Unflatten(a: seq<int>, R: nat, C: nat): (r: Result<Matrix>)
    ensures r.Success? <==> |a| <= R * C
    ensures r.Failure? ==> r.error == IndexOutOfBounds
    ensures r.Success? ==> IsMatrix(r.value, R, C)
    ensures r.Success? ==> forall i, j :: 0 <= i < R && 0 <= j < C ==>
      r.value[i][j] == if Index(i, j, C) < |a| then a[Index(i, j, C)] else 0
  {
    UnflattenCells(a, R, C);
    UnflattenFrom(a, R, C, 0, 0, 0, Zeros(R, C))
  }

  /** Unflattening a flattened matrix gives the matrix back. */
  lemma UnflattenFlatten(M: Matrix, R: nat, C: nat)
    requires IsMatrix(M, R, C) && R >= 1
    ensures Flatten(M).Success?
    ensures Unflatten(Flatten(M).value, R, C) == Success(M)
  {
    var flat := Flatten(M).value;
    var u := Unflatten(flat, R, C).value;
    forall i | 0 <= i < R
      ensures u[i] == M[i]
    {
      forall j | 0 <= j < C
        ensures u[i][j] == M[i][j]
      {
        CellInBounds(i, j, R, C);
        assert flat[Index(i, j, C)] == M[i][j];
      }
    }
    assert u == M;
  }

  /** Flattening an unflattened array of exactly R * C values gives the array back. */
  lemma FlattenUnflatten(a: seq<int>, R: nat, C: nat)
    requires |a| == R * C && R >= 1
    ensures Unflatten(a, R, C).Success?
    ensures Flatten(Unflatten(a, R, C).value) == Success(a)
  {
    var M := Unflatten(a, R, C).value;
    assert |M[0]| == C;
    var flat := Flatten(M).value;
    forall p | 0 <= p < |a|
      ensures flat[p] == a[p]
    {
      IndexIsCell(p, R, C);
      var i, j := p / C, p % C;
      assert flat[Index(i, j, C)] == M[i][j];
    }
    assert flat == a;
  }
}
