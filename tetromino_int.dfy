/** The `int` variant of the tetromino code (Tetris/tetromino.c), where a
    matrix cell is an `int` and any non-zero value counts as filled.  Every
    operation is specified through the occupancy of its matrix, so the
    shape functions of `Tetromino` are defined once for both variants. */
module TetrominoInt {
  import opened Grids
  import opened Tetromino

  /** A 4x4 matrix of `int` cells. */
  type Matrix = Grid<int>

  // The seven matrices of the `int` `g_tetrominos`.
  const IntCatalog: seq<Matrix> := [
    [[1, 1, 1, 1], [0, 0, 0, 0], [0, 0, 0, 0], [0, 0, 0, 0]],
    [[1, 1, 0, 0], [1, 1, 0, 0], [0, 0, 0, 0], [0, 0, 0, 0]],
    [[1, 1, 1, 0], [0, 1, 0, 0], [0, 0, 0, 0], [0, 0, 0, 0]],
    [[1, 0, 0, 0], [1, 0, 0, 0], [1, 1, 0, 0], [0, 0, 0, 0]],
    [[0, 1, 0, 0], [0, 1, 0, 0], [1, 1, 0, 0], [0, 0, 0, 0]],
    [[0, 1, 1, 0], [1, 1, 0, 0], [0, 0, 0, 0], [0, 0, 0, 0]],
    [[1, 1, 0, 0], [0, 1, 1, 0], [0, 0, 0, 0], [0, 0, 0, 0]]]

  /** The shape a matrix stands for: a cell is filled when it is non-zero. */
  function Occupancy(m: Matrix): (s: Shape)
    requires IsGrid(m, 4, 4)
    ensures IsShape(s)
    ensures forall i, j :: 0 <= i < 4 && 0 <= j < 4 ==> (s[i][j] <==> m[i][j] != 0)
  {
    seq(4, i requires 0 <= i < 4 => seq(4, j requires 0 <= j < 4 => m[i][j] != 0))
  }

  /** The 0/1 matrix of a shape, as `rotate` produces it. */
  function Ones(s: Shape): (m: Matrix)
    requires IsShape(s)
    ensures IsGrid(m, 4, 4)
    ensures forall i, j :: 0 <= i < 4 && 0 <= j < 4 ==> m[i][j] == Bit(s[i][j])
  {
    seq(4, i requires 0 <= i < 4 => seq(4, j requires 0 <= j < 4 => Bit(s[i][j])))
  }

  /** Reading back the 0/1 matrix of a shape gives the shape. */
  lemma OccupancyOfOnes(s: Shape)
    requires IsShape(s)
    ensures Occupancy(Ones(s)) == s
  {
    GridExt(Occupancy(Ones(s)), s, 4, 4);
  }

  /** The `int` catalog holds, entry by entry, the 0/1 matrices of the
      `bool` catalog: both variants start from the same seven shapes. */
  lemma CatalogsAgree(k: int)
    requires 0 <= k < 7
    ensures IsGrid(IntCatalog[k], 4, 4)
    ensures IntCatalog[k] == Ones(Catalog[k])
  {
    GridExt(IntCatalog[k], Ones(Catalog[k]), 4, 4);
  }

  /** `rotate` on an `int` matrix, as a value: the 0/1 matrix of the
      quarter turn of the shape the matrix stands for. */
  function IntRotated(m: Matrix): (r: Matrix)
    requires IsGrid(m, 4, 4)
    ensures IsGrid(r, 4, 4)
  {
    Ones(Rotated(Occupancy(m)))
  }

  /** Four rotations give back every `int` catalog matrix, and each matrix
      turned on the way keeps every write of `rotate` inside the matrix. */
  lemma IntFourRotations(k: int)
    requires 0 <= k < 7
    ensures var m := IntCatalog[k];
      && IsGrid(m, 4, 4)
      && InBounds(Occupancy(m)) && InBounds(Occupancy(IntRotated(m)))
      && InBounds(Occupancy(IntRotated(IntRotated(m))))
      && InBounds(Occupancy(IntRotated(IntRotated(IntRotated(m)))))
      && IntRotated(IntRotated(IntRotated(IntRotated(m)))) == m
  {
    var s := Catalog[k];
    CatalogsAgree(k);
    CatalogFourRotations(k);
    OccupancyOfOnes(s);
    OccupancyOfOnes(Rotated(s));
    OccupancyOfOnes(Rotated(Rotated(s)));
    OccupancyOfOnes(Rotated(Rotated(Rotated(s))));
  }

  /** `get_copy`: a fresh matrix holding catalog entry `n mod 7` (for the
      non-negative `n` the game passes). */
  method GetCopy(n: int) returns (c: array2<int>)
    requires 0 <= n
    ensures fresh(c) && c.Length0 == 4 && c.Length1 == 4
    ensures Snapshot(c) == IntCatalog[n % |IntCatalog|]
  {
    var k := n % |IntCatalog|;
    var src := IntCatalog[k];
    CatalogsAgree(k);
    c := new int[4, 4];
    for i := 0 to 4
      invariant forall y, x :: 0 <= y < i && 0 <= x < 4 ==> c[y, x] == src[y][x]
    {
      for j := 0 to 4
        invariant forall y, x :: 0 <= y < i && 0 <= x < 4 ==> c[y, x] == src[y][x]
        invariant forall x :: 0 <= x < j ==> c[i, x] == src[i][x]
      {
        c[i, j] := src[i][j];
      }
    }
    SnapshotIs(c, src);
  }

  /** `get_height`: the height of the shape the matrix stands for. */
  method GetHeight(t: array2<int>) returns (h: int)
    requires t.Length0 == 4 && t.Length1 == 4
    ensures h == Height(Occupancy(Snapshot(t)))
  {
    ghost var s := Occupancy(Snapshot(t));
    h := 0;
    for i := 0 to 4
      invariant h == i
      invariant forall k :: 0 <= k < i ==> RowFilled(s, k)
    {
      var tmp := 0;
      var j := 0;
      while j < 4 && tmp == 0
        invariant 0 <= j <= 4
        invariant tmp == 0 || tmp == 1
        invariant tmp != 0 <==> exists x :: 0 <= x < j && t[i, x] != 0
      {
        tmp := if tmp != 0 || t[i, j] != 0 then 1 else 0;
        j := j + 1;
      }
      if tmp != 0 {
        h := h + 1;
      } else {
        LeadingUnique(s, h, false);
        return;
      }
    }
    LeadingUnique(s, h, false);
  }

  /** `get_width`: the width of the shape the matrix stands for. */
  method GetWidth(t: array2<int>) returns (w: int)
    requires t.Length0 == 4 && t.Length1 == 4
    ensures w == Width(Occupancy(Snapshot(t)))
  {
    ghost var s := Occupancy(Snapshot(t));
    w := 0;
    for j := 0 to 4
      invariant w == j
      invariant forall k :: 0 <= k < j ==> ColFilled(s, k)
    {
      var tmp := 0;
      var i := 0;
      while i < 4 && tmp == 0
        invariant 0 <= i <= 4
        invariant tmp == 0 || tmp == 1
        invariant tmp != 0 <==> exists y :: 0 <= y < i && t[y, j] != 0
      {
        tmp := if tmp != 0 || t[i, j] != 0 then 1 else 0;
        i := i + 1;
      }
      if tmp != 0 {
        w := w + 1;
      } else {
        LeadingUnique(s, w, true);
        return;
      }
    }
    LeadingUnique(s, w, true);
  }

  /** One pass of the outer loop of `rotate`: writes the rotated cells
      that come from row `i` of `t`. */
  method RotateRow(t: array2<int>, r: array2<int>, i: int, shift: int, ghost s: Shape)
    requires t.Length0 == 4 && t.Length1 == 4 && r.Length0 == 4 && r.Length1 == 4 && r != t
    requires 0 <= i < 4 && s == Occupancy(Snapshot(t)) && InBounds(s) && shift == Width(s) - 1
    requires forall a, b :: 0 <= a < 4 && 0 <= b < 4 ==> r[a, b] == Bit(RotCell(s, shift, a, b) && b < i)
    modifies r
    ensures forall a, b :: 0 <= a < 4 && 0 <= b < 4 ==> r[a, b] == Bit(RotCell(s, shift, a, b) && b < i + 1)
  {
    for j := 0 to 4
      invariant forall a, b :: 0 <= a < 4 && 0 <= b < 4 ==>
        r[a, b] == Bit(RotCell(s, shift, a, b) && (b < i || (b == i && shift - a < j)))
    {
      if t[i, j] != 0 {
        r[shift - j, i] := 1;
      }
    }
  }

  /** `rotate`: a fresh 0/1 matrix of the quarter-turned shape. */
  method Rotate(t: array2<int>) returns (r: array2<int>)
    requires t.Length0 == 4 && t.Length1 == 4 && InBounds(Occupancy(Snapshot(t)))
    ensures fresh(r) && r.Length0 == 4 && r.Length1 == 4
    ensures Snapshot(r) == Ones(Rotated(Occupancy(Snapshot(t))))
  {
    ghost var s := Occupancy(Snapshot(t));
    r := new int[4, 4]((y, x) => 0);
    var shift := GetWidth(t);
    shift := shift - 1;
    for i := 0 to 4
      invariant forall a, b :: 0 <= a < 4 && 0 <= b < 4 ==>
        r[a, b] == Bit(RotCell(s, shift, a, b) && b < i)
    {
      RotateRow(t, r, i, shift, s);
    }
    SnapshotIs(r, Ones(Rotated(s)));
  }
}
