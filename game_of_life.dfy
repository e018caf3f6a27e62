/** One generation of the Game of Life (GameOfLife/game_of_life.c).  The
    global grid of cells is modelled as two arrays of the same shape, one
    for the `alive` flags and one for the `neighbors` counts the step
    records; `rows` and `cols` are their dimensions. */
module GameOfLife {
  import opened Grids

  /** `is_valid`: a cell that is counted as a neighbour.  Row 0 and column 0
      are left out. */
  predicate IsValid(rows: int, cols: int, y: int, x: int)
  {
    y > 0 && x > 0 && y < rows && x < cols
  }

  /** 1 for an alive cell that is counted as a neighbour, 0 otherwise. */
  function AliveAt(g: Grid<bool>, rows: int, cols: int, y: int, x: int): (n: int)
    requires IsGrid(g, rows, cols)
    ensures 0 <= n <= 1
    ensures n == 1 <==> IsValid(rows, cols, y, x) && g[y][x]
  {
    if IsValid(rows, cols, y, x) && g[y][x] then 1 else 0
  }

  /** What the inner loop of `alive_neighbors` adds up for row `i`: the
      cells of columns `c - 1 .. j - 1`. */
  function RowSpan(g: Grid<bool>, rows: int, cols: int, i: int, c: int, j: int): (n: int)
    requires IsGrid(g, rows, cols)
    ensures 0 <= n <= if j < c - 1 then 0 else j - c + 1
    decreases j - c + 1
  {
    if j <= c - 1 then 0 else RowSpan(g, rows, cols, i, c, j - 1) + AliveAt(g, rows, cols, i, j - 1)
  }

  /** What the outer loop of `alive_neighbors` adds up: the three cells
      around column `c` of rows `r - 1 .. i - 1`. */
  function BlockSpan(g: Grid<bool>, rows: int, cols: int, r: int, c: int, i: int): (n: int)
    requires IsGrid(g, rows, cols)
    ensures 0 <= n <= if i < r - 1 then 0 else 3 * (i - r + 1)
    decreases i - r + 1
  {
    if i <= r - 1 then 0 else BlockSpan(g, rows, cols, r, c, i - 1) + RowSpan(g, rows, cols, i - 1, c, c + 2)
  }

  /** `alive_neighbors(r, c)`: the counted alive cells of the 3 x 3 block
      around (r, c), less the cell's own `alive` flag. */
  function Neighbors(g: Grid<bool>, rows: int, cols: int, r: int, c: int): int
    requires IsGrid(g, rows, cols) && 0 <= r < rows && 0 <= c < cols
  {
    BlockSpan(g, rows, cols, r, c, r + 2) - (if g[r][c] then 1 else 0)
  }

  /** The eight cells around (r, c) that are counted and alive, one by
      one. */
  function Around(g: Grid<bool>, rows: int, cols: int, r: int, c: int): (n: int)
    requires IsGrid(g, rows, cols)
    ensures 0 <= n <= 8
  {
    AliveAt(g, rows, cols, r - 1, c - 1) + AliveAt(g, rows, cols, r - 1, c) + AliveAt(g, rows, cols, r - 1, c + 1)
    + AliveAt(g, rows, cols, r, c - 1) + AliveAt(g, rows, cols, r, c + 1)
    + AliveAt(g, rows, cols, r + 1, c - 1) + AliveAt(g, rows, cols, r + 1, c) + AliveAt(g, rows, cols, r + 1, c + 1)
  }

  /** `alive_neighbors` counts the eight cells around (r, c), except that
      an alive cell in row 0 or column 0, which is not counted, is still
      subtracted: the result lies in -1..8, and -1 only for such a cell. */
  lemma NeighborsAround(g: Grid<bool>, rows: int, cols: int, r: int, c: int)
    requires IsGrid(g, rows, cols) && 0 <= r < rows && 0 <= c < cols
    ensures Neighbors(g, rows, cols, r, c)
      == Around(g, rows, cols, r, c) - (if g[r][c] && !IsValid(rows, cols, r, c) then 1 else 0)
    ensures -1 <= Neighbors(g, rows, cols, r, c) <= 8
    ensures Neighbors(g, rows, cols, r, c) == -1 ==> g[r][c] && (r == 0 || c == 0)
  {
    assert BlockSpan(g, rows, cols, r, c, r - 1) == 0;
    assert BlockSpan(g, rows, cols, r, c, r + 1)
      == RowSpan(g, rows, cols, r - 1, c, c + 2) + RowSpan(g, rows, cols, r, c, c + 2);
    RowSpanThree(g, rows, cols, r - 1, c);
    RowSpanThree(g, rows, cols, r, c);
    RowSpanThree(g, rows, cols, r + 1, c);
  }

  /** A row of the block is its three cells. */
  lemma RowSpanThree(g: Grid<bool>, rows: int, cols: int, i: int, c: int)
    requires IsGrid(g, rows, cols)
    ensures RowSpan(g, rows, cols, i, c, c + 2)
      == AliveAt(g, rows, cols, i, c - 1) + AliveAt(g, rows, cols, i, c) + AliveAt(g, rows, cols, i, c + 1)
  {
    assert RowSpan(g, rows, cols, i, c, c) == AliveAt(g, rows, cols, i, c - 1);
  }

  /** `alive_neighbors`. */
  method AliveNeighbors(alive: array2<bool>, r: int, c: int) returns (n: int)
    requires 0 <= r < alive.Length0 && 0 <= c < alive.Length1
    ensures n == Neighbors(Snapshot(alive), alive.Length0, alive.Length1, r, c)
  {
    ghost var g := Snapshot(alive);
    var rows, cols := alive.Length0, alive.Length1;
    n := 0;
    var i := r - 1;
    while i < r + 2
      invariant r - 1 <= i <= r + 2
      invariant n == BlockSpan(g, rows, cols, r, c, i)
    {
      var j := c - 1;
      while j < c + 2
        invariant c - 1 <= j <= c + 2
        invariant n == BlockSpan(g, rows, cols, r, c, i) + RowSpan(g, rows, cols, i, c, j)
      {
        if IsValid(rows, cols, i, j) {
          n := n + if alive[i, j] then 1 else 0;
        }
        j := j + 1;
      }
      i := i + 1;
    }
    n := n - if alive[r, c] then 1 else 0;
  }

  // ---------------------------------------------------------------------
  // step

  /** The rule `step` applies to a cell with `n` neighbours: an alive cell
      with fewer than two or more than three dies, a dead cell with three
      is born, any other cell stays as it is.  So a cell is alive afterwards
      exactly when it has three neighbours, or is alive and has two. */
  function Rule(alive: bool, n: int): (b: bool)
    ensures b <==> n == 3 || (alive && n == 2)
  {
    if alive && (n < 2 || n > 3) then false
    else if !alive && n == 3 then true
    else alive
  }

  /** The counts the first pass of `step` records. */
  function Counts(g: Grid<bool>, rows: nat, cols: nat): (k: Grid<int>)
    requires IsGrid(g, rows, cols)
    ensures IsGrid(k, rows, cols)
    ensures forall y, x :: 0 <= y < rows && 0 <= x < cols ==> k[y][x] == Neighbors(g, rows, cols, y, x)
  {
    seq(rows, y requires 0 <= y < rows => seq(cols, x requires 0 <= x < cols => Neighbors(g, rows, cols, y, x)))
  }

  /** The next generation: every cell by the rule, from the counts of the
      grid before the step. */
  function Generation(g: Grid<bool>, rows: nat, cols: nat): (h: Grid<bool>)
    requires IsGrid(g, rows, cols)
    ensures IsGrid(h, rows, cols)
    ensures forall y, x :: 0 <= y < rows && 0 <= x < cols ==> h[y][x] == Rule(g[y][x], Neighbors(g, rows, cols, y, x))
  {
    seq(rows, y requires 0 <= y < rows => seq(cols, x requires 0 <= x < cols => Rule(g[y][x], Neighbors(g, rows, cols, y, x))))
  }

  /** The number of alive cells of a row. */
  function RowPopulation(s: seq<bool>): (k: nat)
    ensures k <= |s|
  {
    if s == [] then 0 else RowPopulation(s[..|s| - 1]) + (if s[|s| - 1] then 1 else 0)
  }

  /** The number of alive cells of a grid. */
  function Population(g: Grid<bool>): (k: nat)
  {
    if g == [] then 0 else Population(g[..|g| - 1]) + RowPopulation(g[|g| - 1])
  }

  /** A grid has at most `rows * cols` alive cells. */
  lemma {:induction false} PopulationBound(g: Grid<bool>, rows: nat, cols: nat)
    requires IsGrid(g, rows, cols)
    ensures Population(g) <= rows * cols
  {
    if g != [] {
      PopulationBound(g[..|g| - 1], rows - 1, cols);
      assert (rows - 1) * cols + cols == rows * cols;
    }
  }

  /** Counting the cells of row `y` up to column `x` and then one more. */
  lemma RowPopulationNext(s: seq<bool>, x: nat)
    requires x < |s|
    ensures RowPopulation(s[..x + 1]) == RowPopulation(s[..x]) + (if s[x] then 1 else 0)
  {
    assert s[..x + 1][..x] == s[..x];
  }

  /** The cells after the second pass of `step`, which applies the rule
      to every cell with the count recorded for it. */
  function Apply(g: Grid<bool>, k: Grid<int>, rows: nat, cols: nat): (h: Grid<bool>)
    requires IsGrid(g, rows, cols) && IsGrid(k, rows, cols)
    ensures IsGrid(h, rows, cols)
    ensures forall y, x :: 0 <= y < rows && 0 <= x < cols ==> h[y][x] == Rule(g[y][x], k[y][x])
  {
    seq(rows, y requires 0 <= y < rows => seq(cols, x requires 0 <= x < cols => Rule(g[y][x], k[y][x])))
  }

  /** Because every count is recorded before any cell changes, the two
      passes make the next generation of the grid as it was before. */
  lemma TwoPasses(g: Grid<bool>, rows: nat, cols: nat)
    requires IsGrid(g, rows, cols)
    ensures Apply(g, Counts(g, rows, cols), rows, cols) == Generation(g, rows, cols)
  {
    GridExt(Apply(g, Counts(g, rows, cols), rows, cols), Generation(g, rows, cols), rows, cols);
  }

  /** The first pass of `step`: the neighbour count of every cell. */
  method CountNeighbors(alive: array2<bool>, neighbors: array2<int>)
    requires neighbors.Length0 == alive.Length0 && neighbors.Length1 == alive.Length1
    modifies neighbors
    ensures Snapshot(neighbors) == Counts(Snapshot(alive), alive.Length0, alive.Length1)
  {
    ghost var g := Snapshot(alive);
    var rows, cols := alive.Length0, alive.Length1;
    for i := 0 to rows
      invariant forall y, x :: 0 <= y < i && 0 <= x < cols ==> neighbors[y, x] == Neighbors(g, rows, cols, y, x)
    {
      for j := 0 to cols
        invariant forall y, x :: 0 <= y < i && 0 <= x < cols ==> neighbors[y, x] == Neighbors(g, rows, cols, y, x)
        invariant forall x :: 0 <= x < j ==> neighbors[i, x] == Neighbors(g, rows, cols, i, x)
      {
        neighbors[i, j] := AliveNeighbors(alive, i, j);
      }
    }
    SnapshotIs(neighbors, Counts(g, rows, cols));
  }

  /** One row of the second pass of `step`: row `i` becomes `want`, the
      rule applied to each of its cells with its recorded count; `count`
      is the number of alive cells of the new row. */
  method UpdateRow(alive: array2<bool>, neighbors: array2<int>, i: int, ghost want: seq<bool>) returns (count: int)
    requires neighbors.Length0 == alive.Length0 && neighbors.Length1 == alive.Length1
    requires 0 <= i < alive.Length0 && |want| == alive.Length1
    requires forall x :: 0 <= x < alive.Length1 ==> want[x] == Rule(alive[i, x], neighbors[i, x])
    modifies alive
    ensures forall x :: 0 <= x < alive.Length1 ==> alive[i, x] == want[x]
    ensures forall y, x :: 0 <= y < alive.Length0 && y != i && 0 <= x < alive.Length1 ==> alive[y, x] == old(alive[y, x])
    ensures count == RowPopulation(want)
  {
    count := 0;
    for j := 0 to alive.Length1
      invariant forall x :: 0 <= x < j ==> alive[i, x] == want[x]
      invariant forall x :: j <= x < alive.Length1 ==> want[x] == Rule(alive[i, x], neighbors[i, x])
      invariant forall y, x :: 0 <= y < alive.Length0 && y != i && 0 <= x < alive.Length1 ==> alive[y, x] == old(alive[y, x])
      invariant count == RowPopulation(want[..j])
    {
      var n := neighbors[i, j];
      if alive[i, j] && (n < 2 || n > 3) {
        alive[i, j] := false;
      } else if !alive[i, j] && n == 3 {
        alive[i, j] := true;
      }
      RowPopulationNext(want, j);
      count := count + if alive[i, j] then 1 else 0;
    }
    assert want[..alive.Length1] == want;
  }

  /** The second pass of `step`: every cell by the rule with its recorded
      count, counting the alive cells as it goes. */
  method UpdateCells(alive: array2<bool>, neighbors: array2<int>) returns (count: int)
    requires neighbors.Length0 == alive.Length0 && neighbors.Length1 == alive.Length1
    modifies alive
    ensures Snapshot(alive) == Apply(old(Snapshot(alive)), Snapshot(neighbors), alive.Length0, alive.Length1)
    ensures count == Population(Snapshot(alive))
  {
    ghost var g := Snapshot(alive);
    var rows, cols := alive.Length0, alive.Length1;
    ghost var h := Apply(g, Snapshot(neighbors), rows, cols);
    count := 0;
    for i := 0 to rows
      invariant forall y, x :: 0 <= y < i && 0 <= x < cols ==> alive[y, x] == h[y][x]
      invariant forall y, x :: i <= y < rows && 0 <= x < cols ==> alive[y, x] == g[y][x]
      invariant count == Population(h[..i])
    {
      var n := UpdateRow(alive, neighbors, i, h[i]);
      count := count + n;
      assert h[..i + 1][..i] == h[..i];
    }
    assert h[..rows] == h;
    SnapshotIs(alive, h);
  }

  /** `step`: records the neighbour count of every cell first, then updates
      every cell by the rule and counts the alive ones.  Every new state
      follows from the grid as it was before the step. */
  method Step(alive: array2<bool>, neighbors: array2<int>) returns (count: int)
    requires neighbors.Length0 == alive.Length0 && neighbors.Length1 == alive.Length1
    modifies alive, neighbors
    ensures Snapshot(neighbors) == Counts(old(Snapshot(alive)), alive.Length0, alive.Length1)
    ensures Snapshot(alive) == Generation(old(Snapshot(alive)), alive.Length0, alive.Length1)
    ensures count == Population(Snapshot(alive))
    ensures 0 <= count <= alive.Length0 * alive.Length1
  {
    ghost var g := Snapshot(alive);
    CountNeighbors(alive, neighbors);
    count := UpdateCells(alive, neighbors);
    TwoPasses(g, alive.Length0, alive.Length1);
    PopulationBound(Snapshot(alive), alive.Length0, alive.Length1);
  }
}
