/** Value views of the fixed-size two-dimensional arrays the three games
    mutate in place.  Specifications are written over these values; methods
    work on the arrays and are tied to the values through `Snapshot`. */
module Grids {

  /** A grid as a value: a sequence of rows. */
  type Grid<T> = seq<seq<T>>

  /** `g` has `h` rows of `w` cells each. */
  predicate IsGrid<T>(g: Grid<T>, h: int, w: int)
  {
    |g| == h && forall y :: 0 <= y < |g| ==> |g[y]| == w
  }

  /** The current contents of `a`, row by row. */
  ghost function Snapshot<T>(a: array2<T>): (g: Grid<T>)
    reads a
    ensures IsGrid(g, a.Length0, a.Length1)
    ensures forall y, x :: 0 <= y < a.Length0 && 0 <= x < a.Length1 ==> g[y][x] == a[y, x]
  {
    seq(a.Length0, y requires 0 <= y < a.Length0 reads a =>
      seq(a.Length1, x requires 0 <= x < a.Length1 reads a => a[y, x]))
  }

  /** Two grids of the same shape that agree on every cell are equal. */
  lemma GridExt<T>(g: Grid<T>, k: Grid<T>, h: int, w: int)
    requires IsGrid(g, h, w) && IsGrid(k, h, w)
    requires forall y, x :: 0 <= y < h && 0 <= x < w ==> g[y][x] == k[y][x]
    ensures g == k
  {
    forall y | 0 <= y < h
      ensures g[y] == k[y]
    {
      assert forall x :: 0 <= x < w ==> g[y][x] == k[y][x];
    }
  }

  /** An array whose cells match a grid value has that value as snapshot. */
  lemma SnapshotIs<T>(a: array2<T>, g: Grid<T>)
    requires IsGrid(g, a.Length0, a.Length1)
    requires forall y, x :: 0 <= y < a.Length0 && 0 <= x < a.Length1 ==> a[y, x] == g[y][x]
    ensures Snapshot(a) == g
  {
    GridExt(Snapshot(a), g, a.Length0, a.Length1);
  }
}
