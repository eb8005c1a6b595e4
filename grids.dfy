/** Two-dimensional masks (`unsigned char **` / `int **` buffers indexed
    `[row][col]`) seen as values: a grid is a sequence of rows. */
module Grids {

  type Grid = seq<seq<int>>

  function Rows<T>(g: seq<seq<T>>): nat { |g| }

  function Cols<T>(g: seq<seq<T>>): nat { if g == [] then 0 else |g[0]| }

  predicate Rectangular<T>(g: seq<seq<T>>) {
    forall i :: 0 <= i < |g| ==> |g[i]| == Cols(g)
  }

  /** The contents of a two-dimensional array as a sequence of rows. */
  function Snapshot<T>(mask: array2<T>): (g: seq<seq<T>>)
    reads mask
    ensures Rows(g) == mask.Length0 && Rectangular(g) && (mask.Length0 > 0 ==> Cols(g) == mask.Length1)
    ensures forall i, j :: 0 <= i < mask.Length0 && 0 <= j < mask.Length1 ==> g[i][j] == mask[i, j]
  {
    seq(mask.Length0, i requires 0 <= i < mask.Length0 reads mask =>
      seq(mask.Length1, j requires 0 <= j < mask.Length1 reads mask => mask[i, j]))
  }

  /** Two grids of the same shape with the same cells are equal. */
  lemma SameGrid<T>(a: seq<seq<T>>, b: seq<seq<T>>)
    requires |a| == |b| && forall i :: 0 <= i < |a| ==> |a[i]| == |b[i]|
    requires forall i, j :: 0 <= i < |a| && 0 <= j < |a[i]| ==> a[i][j] == b[i][j]
    ensures a == b
  {
    forall i | 0 <= i < |a|
      ensures a[i] == b[i]
    {
      assert forall j :: 0 <= j < |a[i]| ==> a[i][j] == b[i][j];
    }
  }

  /** Number of entries of `row` equal to `v`. */
  function CountIn(row: seq<int>, v: int): (n: nat)
    ensures n <= |row|
  {
    if row == [] then 0 else CountIn(row[..|row| - 1], v) + (if row[|row| - 1] == v then 1 else 0)
  }

  /** Number of cells of `g` equal to `v`. */
  function CountCells(g: Grid, v: int): (n: nat)
  {
    if g == [] then 0 else CountCells(g[..|g| - 1], v) + CountIn(g[|g| - 1], v)
  }

  /** Extending a row prefix by one cell. */
  lemma CountInStep(row: seq<int>, j: nat, v: int)
    requires j < |row|
    ensures CountIn(row[..j + 1], v) == CountIn(row[..j], v) + (if row[j] == v then 1 else 0)
  {
    assert row[..j + 1][..j] == row[..j];
  }

  /** Extending a prefix of rows by one row. */
  lemma CountCellsStep(g: Grid, i: nat, v: int)
    requires i < |g|
    ensures CountCells(g[..i + 1], v) == CountCells(g[..i], v) + CountIn(g[i], v)
  {
    assert g[..i + 1][..i] == g[..i];
  }

  /** Every cell of `g` equal to `v` sits where `h` holds `w`: `h` has at
      least as many `w` cells as `g` has `v` cells. */
  lemma {:induction false} CountInMonotone(a: seq<int>, b: seq<int>, v: int, w: int)
    requires |a| == |b|
    requires forall j :: 0 <= j < |a| && a[j] == v ==> b[j] == w
    ensures CountIn(a, v) <= CountIn(b, w)
    decreases |a|
  {
    if a != [] {
      CountInMonotone(a[..|a| - 1], b[..|b| - 1], v, w);
    }
  }

  lemma {:induction false} CountCellsMonotone(g: Grid, h: Grid, v: int, w: int)
    requires |g| == |h| && forall i :: 0 <= i < |g| ==> |g[i]| == |h[i]|
    requires forall i, j :: 0 <= i < |g| && 0 <= j < |g[i]| && g[i][j] == v ==> h[i][j] == w
    ensures CountCells(g, v) <= CountCells(h, w)
    decreases |g|
  {
    if g != [] {
      CountCellsMonotone(g[..|g| - 1], h[..|h| - 1], v, w);
      CountInMonotone(g[|g| - 1], h[|h| - 1], v, w);
    }
  }
}
