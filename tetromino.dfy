/** The tetromino catalog and its rotation (Tetris/Tetromino.c, the `bool`
    version).  A tetromino is a 4x4 occupancy matrix.  The methods fill fresh
    4x4 arrays cell by cell as the source does; each is specified by a
    function on the matrix value, and the facts the game relies on are lemmas
    about those functions. */
module Tetromino {
  import opened Grids

  /** A 4x4 occupancy matrix, row-major: `s[i][j]` is row `i`, column `j`. */
  type Shape = Grid<bool>

  predicate IsShape(s: Shape)
  {
    IsGrid(s, 4, 4)
  }

  // The seven shapes of `g_tetrominos`.
  const I: Shape := [[true, true, true, true], [false, false, false, false], [false, false, false, false], [false, false, false, false]]
  const O: Shape := [[true, true, false, false], [true, true, false, false], [false, false, false, false], [false, false, false, false]]
  const T: Shape := [[true, true, true, false], [false, true, false, false], [false, false, false, false], [false, false, false, false]]
  const L: Shape := [[true, false, false, false], [true, false, false, false], [true, true, false, false], [false, false, false, false]]
  const J: Shape := [[false, true, false, false], [false, true, false, false], [true, true, false, false], [false, false, false, false]]
  const S: Shape := [[false, true, true, false], [true, true, false, false], [false, false, false, false], [false, false, false, false]]
  const Z: Shape := [[true, true, false, false], [false, true, true, false], [false, false, false, false], [false, false, false, false]]

  /** `g_tetrominos`: the seven shapes I, O, T, L, J, S, Z, in catalog order. */
  const Catalog: seq<Shape> := [I, O, T, L, J, S, Z]

  function Bit(b: bool): nat
  {
    if b then 1 else 0
  }

  /** Number of filled cells of one row. */
  function RowCount(r: seq<bool>): nat
    requires |r| == 4
  {
    Bit(r[0]) + Bit(r[1]) + Bit(r[2]) + Bit(r[3])
  }

  /** Number of filled cells of a shape. */
  function CountFilled(s: Shape): nat
    requires IsShape(s)
  {
    RowCount(s[0]) + RowCount(s[1]) + RowCount(s[2]) + RowCount(s[3])
  }

  predicate RowFilled(s: Shape, i: int)
    requires IsShape(s) && 0 <= i < 4
  {
    s[i][0] || s[i][1] || s[i][2] || s[i][3]
  }

  predicate ColFilled(s: Shape, j: int)
    requires IsShape(s) && 0 <= j < 4
  {
    s[0][j] || s[1][j] || s[2][j] || s[3][j]
  }

  /** Number of consecutive filled rows starting at row `i`. */
  function LeadingRows(s: Shape, i: nat): (n: nat)
    requires IsShape(s) && i <= 4
    ensures i + n <= 4
    ensures forall k :: i <= k < i + n ==> RowFilled(s, k)
    ensures i + n < 4 ==> !RowFilled(s, i + n)
    decreases 4 - i
  {
    if i < 4 && RowFilled(s, i) then 1 + LeadingRows(s, i + 1) else 0
  }

  /** Number of consecutive filled columns starting at column `j`. */
  function LeadingCols(s: Shape, j: nat): (n: nat)
    requires IsShape(s) && j <= 4
    ensures j + n <= 4
    ensures forall k :: j <= k < j + n ==> ColFilled(s, k)
    ensures j + n < 4 ==> !ColFilled(s, j + n)
    decreases 4 - j
  {
    if j < 4 && ColFilled(s, j) then 1 + LeadingCols(s, j + 1) else 0
  }

  /** `get_height`: the rows 0..h-1 all hold a filled cell and row h (if
      any) holds none.  This is the leading-fill convention of the source,
      not a bounding box. */
  function Height(s: Shape): (h: nat)
    requires IsShape(s)
    ensures h <= 4
    ensures forall i :: 0 <= i < h ==> RowFilled(s, i)
    ensures h < 4 ==> !RowFilled(s, h)
  {
    LeadingRows(s, 0)
  }

  /** `get_width`: the columns 0..w-1 all hold a filled cell and column w
      (if any) holds none. */
  function Width(s: Shape): (w: nat)
    requires IsShape(s)
    ensures w <= 4
    ensures forall j :: 0 <= j < w ==> ColFilled(s, j)
    ensures w < 4 ==> !ColFilled(s, w)
  {
    LeadingCols(s, 0)
  }

  /** Every filled cell lies left of column `Width(s)`: exactly the
      condition under which `rotate` writes only inside its 4x4 result. */
  predicate InBounds(s: Shape)
    requires IsShape(s)
  {
    forall i, j :: 0 <= i < 4 && 0 <= j < 4 && s[i][j] ==> j < Width(s)
  }

  /** Cell (a, b) of the rotated matrix: it was written by source cell
      (b, shift - a) when that cell exists and is filled. */
  function RotCell(s: Shape, shift: int, a: int, b: int): bool
    requires IsShape(s) && 0 <= b < 4
  {
    0 <= shift - a < 4 && s[b][shift - a]
  }

  /** `rotate` as a value: cleared 4x4 matrix, then cell (shift - j, i) set
      for every filled source cell (i, j), where shift = Width(s) - 1. */
  function Rotated(s: Shape): (r: Shape)
    requires IsShape(s)
    ensures IsShape(r)
  {
    var shift := Width(s) - 1;
    seq(4, a requires 0 <= a < 4 => seq(4, b requires 0 <= b < 4 => RotCell(s, shift, a, b)))
  }

  /** Each of the seven catalog shapes has exactly four filled cells. */
  lemma CatalogHasFourCells()
    ensures |Catalog| == 7
    ensures forall k :: 0 <= k < 7 ==> IsShape(Catalog[k]) && CountFilled(Catalog[k]) == 4
  {
  }

  /** The filled cells hug the top-left corner: none lies below row
      `Height(s)` or right of column `Width(s)`.  Together with the
      definitions of `Height` and `Width` this says the filled cells span
      exactly the box `Height(s) x Width(s)` with no empty leading row or
      column. */
  predicate Aligned(s: Shape)
    requires IsShape(s)
  {
    forall i, j :: 0 <= i < 4 && 0 <= j < 4 && s[i][j] ==> i < Height(s) && j < Width(s)
  }

  /** Cell (a, b) of `Rotated(s)`. */
  lemma RotatedAt(s: Shape, a: int, b: int)
    requires IsShape(s) && 0 <= a < 4 && 0 <= b < 4
    ensures Rotated(s)[a][b] == RotCell(s, Width(s) - 1, a, b)
  {
  }

  /** The filled cells of `Rotated(s)` are exactly the cells (shift - j, i)
      for the filled source cells (i, j), where shift = Width(s) - 1; every
      other cell is empty. */
  lemma RotatedCells(s: Shape)
    requires IsShape(s)
    ensures forall a, b :: 0 <= a < 4 && 0 <= b < 4 ==>
      (Rotated(s)[a][b] <==>
        exists i, j :: 0 <= i < 4 && 0 <= j < 4 && s[i][j] && a == Width(s) - 1 - j && b == i)
  {
    forall a, b | 0 <= a < 4 && 0 <= b < 4
      ensures Rotated(s)[a][b] <==>
        exists i, j :: 0 <= i < 4 && 0 <= j < 4 && s[i][j] && a == Width(s) - 1 - j && b == i
    {
      RotatedAt(s, a, b);
      if Rotated(s)[a][b] {
        var i, j := b, Width(s) - 1 - a;
        assert 0 <= i < 4 && 0 <= j < 4 && s[i][j] && a == Width(s) - 1 - j && b == i;
      }
    }
  }

  /** When every filled cell lies left of column `Width(s)`, no write of
      `rotate` falls outside the matrix, so rotation keeps the number of
      filled cells. */
  lemma RotatedCount(s: Shape)
    requires IsShape(s) && InBounds(s)
    ensures CountFilled(Rotated(s)) == CountFilled(s)
  {
    var r, w := Rotated(s), Width(s);
    forall a | 0 <= a < 4
      ensures RowCount(r[a]) == if a < w then ColCount(s, w - 1 - a) else 0
    {
      RotatedAt(s, a, 0);
      RotatedAt(s, a, 1);
      RotatedAt(s, a, 2);
      RotatedAt(s, a, 3);
    }
    forall j | w <= j < 4
      ensures ColCount(s, j) == 0
    {
      assert !s[0][j] && !s[1][j] && !s[2][j] && !s[3][j];
    }
    CountByCols(s);
  }

  /** Number of filled cells of column `j`. */
  function ColCount(s: Shape, j: int): nat
    requires IsShape(s) && 0 <= j < 4
  {
    Bit(s[0][j]) + Bit(s[1][j]) + Bit(s[2][j]) + Bit(s[3][j])
  }

  lemma CountByCols(s: Shape)
    requires IsShape(s)
    ensures CountFilled(s) == ColCount(s, 0) + ColCount(s, 1) + ColCount(s, 2) + ColCount(s, 3)
  {
  }

  /** Quarter-turning an aligned shape swaps its height and width and
      leaves it aligned. */
  lemma RotatedAligned(s: Shape)
    requires IsShape(s) && Aligned(s)
    ensures Aligned(Rotated(s))
    ensures Width(Rotated(s)) == Height(s) && Height(Rotated(s)) == Width(s)
  {
    var r, w, h := Rotated(s), Width(s), Height(s);
    forall a, b | 0 <= a < 4 && 0 <= b < 4
      ensures r[a][b] <==> a < w && b < 4 && s[b][w - 1 - a]
    {
      RotatedAt(s, a, b);
    }
    // column b of r is filled iff row b of s is, and row a of r iff
    // column w - 1 - a of s
    assert forall b :: 0 <= b < 4 ==> (ColFilled(r, b) <==> RowFilled(s, b));
    assert forall a :: 0 <= a < 4 ==> (RowFilled(r, a) <==> a < w && ColFilled(s, w - 1 - a));
    LeadingUnique(r, h, true);
    LeadingUnique(r, w, false);
  }

  /** The leading-fill count is the unique n with lines 0..n-1 filled and
      line n (if any) empty; `cols` picks columns, otherwise rows. */
  lemma LeadingUnique(s: Shape, n: int, cols: bool)
    requires IsShape(s) && 0 <= n <= 4
    requires forall k :: 0 <= k < n ==> (if cols then ColFilled(s, k) else RowFilled(s, k))
    requires n < 4 ==> !(if cols then ColFilled(s, n) else RowFilled(s, n))
    ensures (if cols then Width(s) else Height(s)) == n
  {
  }

  /** Two quarter turns of an aligned shape turn it half way round inside
      its `Height(s) x Width(s)` box. */
  lemma HalfTurn(s: Shape)
    requires IsShape(s) && Aligned(s)
    ensures Aligned(Rotated(Rotated(s)))
    ensures Width(Rotated(Rotated(s))) == Width(s) && Height(Rotated(Rotated(s))) == Height(s)
    ensures forall a, b :: 0 <= a < 4 && 0 <= b < 4 ==>
      (Rotated(Rotated(s))[a][b] <==>
        a < Height(s) && b < Width(s) && s[Height(s) - 1 - a][Width(s) - 1 - b])
  {
    var r1 := Rotated(s);
    RotatedAligned(s);
    RotatedAligned(r1);
  }

  /** Four quarter turns give back any aligned shape. */
  lemma FourRotations(s: Shape)
    requires IsShape(s) && Aligned(s)
    ensures Rotated(Rotated(Rotated(Rotated(s)))) == s
  {
    forall a, b | 0 <= a < 4 && 0 <= b < 4
      ensures Rotated(Rotated(Rotated(Rotated(s))))[a][b] == s[a][b]
    {
      FourRotationsAt(s, a, b);
    }
    GridExt(Rotated(Rotated(Rotated(Rotated(s)))), s, 4, 4);
  }

  /** Cell (a, b) after four quarter turns, followed back through the
      intermediate turns to cell (a, b) of `s`; widths and heights swap at
      each turn. */
  lemma FourRotationsAt(s: Shape, a: int, b: int)
    requires IsShape(s) && Aligned(s) && 0 <= a < 4 && 0 <= b < 4
    ensures Rotated(Rotated(Rotated(Rotated(s))))[a][b] == s[a][b]
  {
    TurnWidths(s);
    if a < Height(s) && b < Width(s) {
      FourRotationsInside(s, a, b);
    } else {
      RotatedAt(Rotated(Rotated(Rotated(s))), a, b);
      if a < Height(s) {
        RotatedAt(Rotated(Rotated(s)), b, Height(s) - 1 - a);
      }
    }
  }

  /** A cell inside the `Height(s) x Width(s)` box, traced back through
      each quarter turn. */
  lemma FourRotationsInside(s: Shape, a: int, b: int)
    requires IsShape(s) && 0 <= a < Height(s) && 0 <= b < Width(s) && Height(s) <= 4
    requires Width(Rotated(s)) == Height(s)
    requires Width(Rotated(Rotated(s))) == Width(s)
    requires Width(Rotated(Rotated(Rotated(s)))) == Height(s)
    ensures Rotated(Rotated(Rotated(Rotated(s))))[a][b] == s[a][b]
  {
    var r1 := Rotated(s);
    var r2 := Rotated(r1);
    var h, w := Height(s), Width(s);
    RotatedAt(Rotated(r2), a, b);
    RotatedAt(r2, b, h - 1 - a);
    RotatedAt(r1, h - 1 - a, w - 1 - b);
    RotatedAt(s, w - 1 - b, a);
  }

  /** The widths of the first three quarter turns of an aligned shape
      alternate between its height and its width. */
  lemma TurnWidths(s: Shape)
    requires IsShape(s) && Aligned(s)
    ensures Width(Rotated(s)) == Height(s)
    ensures Width(Rotated(Rotated(s))) == Width(s)
    ensures Width(Rotated(Rotated(Rotated(s)))) == Height(s)
  {
    RotatedAligned(s);
    RotatedAligned(Rotated(s));
    RotatedAligned(Rotated(Rotated(s)));
  }

  /** Every catalog shape hugs the top-left corner of its matrix, so the
      game may rotate it any number of times. */
  lemma CatalogAligned(k: int)
    requires 0 <= k < |Catalog|
    ensures IsShape(Catalog[k]) && Aligned(Catalog[k])
  {
    var s := Catalog[k];
    if k == 0 {
      LeadingUnique(s, 4, true);
      LeadingUnique(s, 1, false);
    } else if k == 1 {
      LeadingUnique(s, 2, true);
      LeadingUnique(s, 2, false);
    } else if k == 2 {
      LeadingUnique(s, 3, true);
      LeadingUnique(s, 2, false);
    } else if k == 3 || k == 4 {
      LeadingUnique(s, 2, true);
      LeadingUnique(s, 3, false);
    } else {
      LeadingUnique(s, 3, true);
      LeadingUnique(s, 2, false);
    }
  }

  /** Four quarter turns give back every catalog shape, and each of the
      shapes turned on the way keeps every write of `rotate` inside the
      matrix. */
  lemma CatalogFourRotations(k: int)
    requires 0 <= k < |Catalog|
    ensures var s := Catalog[k];
      && InBounds(s) && InBounds(Rotated(s)) && InBounds(Rotated(Rotated(s)))
      && InBounds(Rotated(Rotated(Rotated(s))))
      && Rotated(Rotated(Rotated(Rotated(s)))) == s
  {
    var s := Catalog[k];
    CatalogAligned(k);
    RotatedAligned(s);
    RotatedAligned(Rotated(s));
    RotatedAligned(Rotated(Rotated(s)));
    AlignedInBounds(s);
    AlignedInBounds(Rotated(s));
    AlignedInBounds(Rotated(Rotated(s)));
    AlignedInBounds(Rotated(Rotated(Rotated(s))));
    FourRotations(s);
  }

  /** An aligned shape keeps every write of `rotate` inside the matrix. */
  lemma AlignedInBounds(s: Shape)
    requires IsShape(s) && Aligned(s)
    ensures InBounds(s)
  {
  }

  /** `get_copy`: a fresh 4x4 matrix holding catalog shape `n mod 7`.  The
      source reduces `n` with C's `%`, which agrees with Dafny's for the
      non-negative `n` it is called with; a negative `n` would index
      outside the catalog. */
  method GetCopy(n: int) returns (c: array2<bool>)
    requires 0 <= n
    ensures fresh(c) && c.Length0 == 4 && c.Length1 == 4
    ensures Snapshot(c) == Catalog[n % |Catalog|]
  {
    var k := n % |Catalog|;
    var src := Catalog[k];
    c := new bool[4, 4];
    for i := 0 to 4
      invariant forall y, x :: 0 <= y < i && 0 <= x < 4 ==> c[y, x] == src[y][x]
    {
      for j := 0 to 4
        invariant forall y, x :: 0 <= y < i && 0 <= x < 4 ==> c[y, x] == src[y][x]
        invariant forall x :: 0 <= x < j ==> c[i, x] == src[i][x]
      {
        c[i, j] := src[i][j];
      }
    }
    SnapshotIs(c, src);
  }

  /** `get_height`: scans rows from the top, stopping at the first empty
      one. */
  method GetHeight(t: array2<bool>) returns (h: int)
    requires t.Length0 == 4 && t.Length1 == 4
    ensures h == Height(Snapshot(t))
  {
    ghost var s := Snapshot(t);
    h := 0;
    for i := 0 to 4
      invariant h == i
      invariant forall k :: 0 <= k < i ==> RowFilled(s, k)
    {
      var tmp := false;
      var j := 0;
      while j < 4 && !tmp
        invariant 0 <= j <= 4
        invariant tmp <==> exists x :: 0 <= x < j && t[i, x]
      {
        tmp := tmp || t[i, j];
        j := j + 1;
      }
      if tmp {
        h := h + 1;
      } else {
        LeadingUnique(s, h, false);
        return;
      }
    }
    LeadingUnique(s, h, false);
  }

  /** `get_width`: scans columns from the left, stopping at the first empty
      one. */
  method GetWidth(t: array2<bool>) returns (w: int)
    requires t.Length0 == 4 && t.Length1 == 4
    ensures w == Width(Snapshot(t))
  {
    ghost var s := Snapshot(t);
    w := 0;
    for j := 0 to 4
      invariant w == j
      invariant forall k :: 0 <= k < j ==> ColFilled(s, k)
    {
      var tmp := false;
      var i := 0;
      while i < 4 && !tmp
        invariant 0 <= i <= 4
        invariant tmp <==> exists y :: 0 <= y < i && t[y, j]
      {
        tmp := tmp || t[i, j];
        i := i + 1;
      }
      if tmp {
        w := w + 1;
      } else {
        LeadingUnique(s, w, true);
        return;
      }
    }
    LeadingUnique(s, w, true);
  }

  /** `rotate`: a fresh cleared matrix in which cell (shift - j, i) is set
      for every filled cell (i, j) of `t`.  The source writes outside the
      matrix when a filled cell lies right of `Width`, so `InBounds` is
      required; `AlignedInBounds` and `CatalogAligned` discharge it for
      every shape the game builds. */
  method Rotate(t: array2<bool>) returns (r: array2<bool>)
    requires t.Length0 == 4 && t.Length1 == 4 && InBounds(Snapshot(t))
    ensures fresh(r) && r.Length0 == 4 && r.Length1 == 4
    ensures Snapshot(r) == Rotated(Snapshot(t))
  {
    ghost var s := Snapshot(t);
    r := new bool[4, 4]((y, x) => false);
    var shift := GetWidth(t);
    shift := shift - 1;
    for i := 0 to 4
      invariant forall a, b :: 0 <= a < 4 && 0 <= b < 4 ==>
        r[a, b] == (RotCell(s, shift, a, b) && b < i)
    {
      for j := 0 to 4
        invariant forall a, b :: 0 <= a < 4 && 0 <= b < 4 ==>
          r[a, b] == (RotCell(s, shift, a, b) && (b < i || (b == i && shift - a < j)))
      {
        if t[i, j] {
          r[shift - j, i] := true;
        }
      }
    }
    SnapshotIs(r, Rotated(s));
  }
}
