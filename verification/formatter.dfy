/**
 * `formatTransformation`: the hand-written inverse of the descriptor. It walks the
 * received buffer with a cursor and puts each value back at its (row, column); every
 * other cell below row 0 shows the placeholder.
 */
module Formatter {
  import opened Results
  import opened Matrices
  import opened Geometry

  /** How many leading values of the received buffer the formatter reads. */
  function ReadLength(R: nat, C: nat): nat {
    var m := Min(R, C);
    if m >= 2 then C + 2 * (m - 2) + Max(C - R, 0) + 1 else C
  }

  /** The cursor position at which the formatter reads the value of kept cell (i, j). */
  function Pos(R: nat, C: nat, i: nat, j: nat): (p: nat)
    requires i < R && j < C && Selected(R, C, i, j)
    ensures p < ReadLength(R, C)
  {
    var m := Min(R, C);
    if i == 0 then j
    else if i < m - 1 then C + 2 * (i - 1) + (if j == i then 0 else 1)
    else C + 2 * (m - 2) + (j - (m - 1))
  }

  /**
   * The `for (int i = 1; i < min; ++i)` loop from row i on, with the cursor at `offset`
   * and the partly filled grid `g`. A read past the end of `res` makes the JVM throw.
   */
  function FormatRows(res: seq<int>, R: nat, C: nat, i: nat, offset: nat, g: Grid): (r: Result<Grid>)
    requires IsMatrix(g, R, C) && 1 <= i
    requires i <= Min(R, C) - 1 ==> offset == C + 2 * (i - 1)
    decreases Min(R, C) - i
    ensures r.Failure? ==> r.error == IndexOutOfBounds
    ensures r.Success? <==> i >= Min(R, C) || |res| >= ReadLength(R, C)
    ensures r.Success? ==> IsMatrix(r.value, R, C) && forall a, b :: 0 <= a < R && 0 <= b < C ==>
      r.value[a][b] == if i <= a < Min(R, C) && Selected(R, C, a, b) then Val(res[Pos(R, C, a, b)]) else g[a][b]
  {
    var m := Min(R, C);
    if i >= m then Success(g)
    else if i == m - 1 then
      var n := Max(C - R, 0) + 1;
      if |res| < offset + n then Failure(IndexOutOfBounds)
      else
        var run := seq(n, k requires 0 <= k < n => Val(res[offset + k]));
        FormatRows(res, R, C, i + 1, offset + n, g[i := g[i][..i] + run])
    else if |res| < offset + 2 then Failure(IndexOutOfBounds)
    else
      FormatRows(res, R, C, i + 1, offset + 2, g[i := g[i][i := Val(res[offset])][C - 1 := Val(res[offset + 1])]])
  }

  /**
   * `formatTransformation`. Succeeds exactly when there is a row 0 to fill (or nothing
   * to fill) and the buffer holds the ReadLength values the cursor walks over; then a
   * kept cell shows the value read for it and every other cell the placeholder.
   */
  function Format(res: seq<int>, R: nat, C: nat): (r: Result<Grid>)
    ensures r.Success? <==> (R >= 1 || C == 0) && |res| >= ReadLength(R, C)
    ensures r.Failure? ==> r.error == IndexOutOfBounds
    ensures r.Success? ==> IsMatrix(r.value, R, C) && forall i, j :: 0 <= i < R && 0 <= j < C ==>
      r.value[i][j] == if Selected(R, C, i, j) then Val(res[Pos(R, C, i, j)]) else Placeholder
  {
    if R == 0 && C > 0 then Failure(IndexOutOfBounds)
    else if |res| < C then Failure(IndexOutOfBounds)
    else
      var first := seq(C, j requires 0 <= j < C => Val(res[j]));
      var g := if R == 0 then [] else [first] + seq(R - 1, _ => seq(C, _ => Placeholder));
      FormatRows(res, R, C, 1, C, g)
  }

  /** The kept cell the formatter fills from cursor position p: the inverse of Pos. */
  function CellOf(R: nat, C: nat, p: nat): (cell: (nat, nat))
    requires R >= 1 && p < ReadLength(R, C)
    ensures cell.0 < R && cell.1 < C && Selected(R, C, cell.0, cell.1)
    ensures Pos(R, C, cell.0, cell.1) == p
  {
    var m := Min(R, C);
    if p < C then (0, p)
    else if p - C < 2 * (m - 2) then
      var row := (p - C) / 2 + 1;
      (row, if (p - C) % 2 == 0 then row else C - 1)
    else (m - 1, m - 1 + (p - C - 2 * (m - 2)))
  }

  /** Distinct kept cells are read from distinct cursor positions. */
  lemma PosInjective(R: nat, C: nat, i: nat, j: nat, i': nat, j': nat)
    requires i < R && j < C && Selected(R, C, i, j)
    requires i' < R && j' < C && Selected(R, C, i', j')
    requires Pos(R, C, i, j) == Pos(R, C, i', j')
    ensures i == i' && j == j'
  {
  }

  /** The formatter reads exactly the first ReadLength values: what follows them is never looked at. */
  lemma FormatReadsPrefix(res: seq<int>, res': seq<int>, R: nat, C: nat)
    requires |res| >= ReadLength(R, C) && |res'| >= ReadLength(R, C)
    requires res[..ReadLength(R, C)] == res'[..ReadLength(R, C)]
    ensures Format(res, R, C) == Format(res', R, C)
  {
    var r, r' := Format(res, R, C), Format(res', R, C);
    if r.Success? {
      forall i | 0 <= i < R
        ensures r.value[i] == r'.value[i]
      {
        forall j | 0 <= j < C
          ensures r.value[i][j] == r'.value[i][j]
        {
          if Selected(R, C, i, j) {
            var p := Pos(R, C, i, j);
            assert res[..ReadLength(R, C)][p] == res'[..ReadLength(R, C)][p];
          }
        }
      }
      assert r.value == r'.value;
    }
  }

  /**
   * With a single row or a single column only row 0 is read: the formatter needs just
   * C values and leaves every other row as placeholders.
   */
  lemma FormatDegenerate(res: seq<int>, R: nat, C: nat)
    requires Min(R, C) == 1 && |res| >= C
    ensures Format(res, R, C).Success?
    ensures forall i, j :: 0 <= i < R && 0 <= j < C ==>
      Format(res, R, C).value[i][j] == if i == 0 then Val(res[j]) else Placeholder
  {
  }

  /** The kept cells of an R×C matrix. */
  function KeptCells(R: nat, C: nat): set<(nat, nat)> {
    set i: nat, j: nat | i < R && j < C && Selected(R, C, i, j) :: (i, j)
  }

  /** The cells filled from the first n cursor positions. */
  function CellsUpTo(R: nat, C: nat, n: nat): set<(nat, nat)>
    requires R >= 1 && n <= ReadLength(R, C)
  {
    set p: nat | p < n :: CellOf(R, C, p)
  }

  /** The first n cursor positions fill n distinct cells. */
  lemma {:induction false} CellsOfPrefix(R: nat, C: nat, n: nat)
    requires R >= 1 && n <= ReadLength(R, C)
    ensures |CellsUpTo(R, C, n)| == n
  {
    if n > 0 {
      var before := CellsUpTo(R, C, n - 1);
      var cell := CellOf(R, C, n - 1);
      assert CellsUpTo(R, C, n) == before + {cell};
      assert cell !in before by {
        forall p: nat | p < n - 1
          ensures CellOf(R, C, p) != cell
        {
          assert Pos(R, C, CellOf(R, C, p).0, CellOf(R, C, p).1) == p;
        }
      }
      CellsOfPrefix(R, C, n - 1);
    }
  }

  /** The grid shows exactly ReadLength values: one kept cell per value read. */
  lemma KeptCellCount(R: nat, C: nat)
    requires R >= 1
    ensures |KeptCells(R, C)| == ReadLength(R, C)
  {
    var image := CellsUpTo(R, C, ReadLength(R, C));
    forall cell | cell in KeptCells(R, C)
      ensures cell in image
    {
      var p := Pos(R, C, cell.0, cell.1);
      var back := CellOf(R, C, p);
      PosInjective(R, C, cell.0, cell.1, back.0, back.1);
    }
    assert KeptCells(R, C) == image;
    CellsOfPrefix(R, C, ReadLength(R, C));
  }
}
