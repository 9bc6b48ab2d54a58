/** Cell grids as values, and the bridge from the two-dimensional arrays that hold them. */
module Grids {

  datatype Option<T> = None | Some(value: T)

  /** A grid of cell ages, row by row: 0 is a dead cell, 1..255 the age of a live one. */
  type Grid = seq<seq<int>>

  /** Width of a grid (0 for a grid without rows). */
  function Cols(g: Grid): nat
  {
    if |g| == 0 then 0 else |g[0]|
  }

  /** Every row has the same length, as in a two-dimensional array. */
  ghost predicate Rect(g: Grid)
  {
    forall i :: 0 <= i < |g| ==> |g[i]| == Cols(g)
  }

  /** `g` has exactly `rows` rows of `cols` cells. */
  ghost predicate HasShape(g: Grid, rows: nat, cols: nat)
  {
    |g| == rows && forall i :: 0 <= i < rows ==> |g[i]| == cols
  }

  /** Every cell holds an unsigned 8-bit value. */
  ghost predicate InRange(g: Grid)
  {
    forall i, j :: 0 <= i < |g| && 0 <= j < |g[i]| ==> 0 <= g[i][j] <= 255
  }

  /** Every cell is dead. */
  ghost predicate AllZero(g: Grid)
  {
    forall i, j :: 0 <= i < |g| && 0 <= j < |g[i]| ==> g[i][j] == 0
  }

  /** The all-dead grid of a given size. */
  function Zeros(rows: nat, cols: nat): (g: Grid)
    ensures HasShape(g, rows, cols) && AllZero(g)
  {
    seq(rows, _ => seq(cols, _ => 0))
  }

  /** The liveness of each cell: 1 where the age is nonzero, 0 elsewhere. */
  function Liveness(g: Grid): (l: Grid)
    ensures |l| == |g| && forall i :: 0 <= i < |g| ==> |l[i]| == |g[i]|
    ensures forall i, j :: 0 <= i < |g| && 0 <= j < |g[i]| ==> (l[i][j] == 1 <==> g[i][j] != 0)
    ensures forall i, j :: 0 <= i < |g| && 0 <= j < |g[i]| ==> (l[i][j] == 0 <==> g[i][j] == 0)
  {
    seq(|g|, i requires 0 <= i < |g| => seq(|g[i]|, j requires 0 <= j < |g[i]| => if g[i][j] == 0 then 0 else 1))
  }

  /** The contents of a two-dimensional array, as a grid value. */
  function Snapshot(a: array2<int>): (g: Grid)
    reads a
    ensures HasShape(g, a.Length0, a.Length1)
    ensures forall i, j :: 0 <= i < a.Length0 && 0 <= j < a.Length1 ==> g[i][j] == a[i, j]
  {
    seq(a.Length0, i requires 0 <= i < a.Length0 reads a =>
      seq(a.Length1, j requires 0 <= j < a.Length1 reads a => a[i, j]))
  }

  /** An array whose cells agree with a grid of its shape has that grid as its snapshot. */
  lemma SnapshotIs(a: array2<int>, g: Grid)
    requires HasShape(g, a.Length0, a.Length1)
    requires forall i, j :: 0 <= i < a.Length0 && 0 <= j < a.Length1 ==> a[i, j] == g[i][j]
    ensures Snapshot(a) == g
  {
    var s := Snapshot(a);
    forall i | 0 <= i < a.Length0
      ensures s[i] == g[i]
    {
      assert |s[i]| == |g[i]|;
    }
  }
}
