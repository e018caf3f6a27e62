/** The board rules of Connect 4 (Connect4/connect4.c).  The board is a
    fixed 6 x 7 array of chips; only a chip's colour attribute `.c` takes
    part in the rules (its screen position is presentation), so the board
    is modelled as an array of those attributes.  Row 0 is the top row. */
module Connect4 {
  import opened Grids

  const Rows := 6
  const Cols := 7

  /** `A_NORMAL`, the colour the run counter of `get_win` starts from. */
  const Normal := 0
  /** `A_REVERSE`: an empty slot. */
  const Empty := 262144
  /** `COLOR_PAIR(RED)` and `COLOR_PAIR(YELLOW)`: the two players' chips. */
  const Red := 256
  const Yellow := 512

  datatype Option<T> = None | Some(value: T)

  /** The board as a value, row by row. */
  type Board = Grid<int>

  predicate IsBoard(g: Board)
  {
    IsGrid(g, Rows, Cols)
  }

  /** `is_valid`: a slot of the board. */
  predicate IsValid(r: int, c: int)
  {
    0 <= r < Rows && 0 <= c < Cols
  }

  /** A copy of a chip: where it sits on the board and its colour. */
  datatype Chip = Chip(r: int, c: int, color: int)

  // ---------------------------------------------------------------------
  // get_empty_row

  /** The lowest empty slot of column `c` among rows `0..r`, or -1. */
  function EmptyRowFrom(g: Board, c: int, r: int): (e: int)
    requires IsBoard(g) && 0 <= c < Cols && -1 <= r < Rows
    ensures -1 <= e <= r
    ensures e >= 0 ==> g[e][c] == Empty
    ensures forall i :: e < i <= r ==> g[i][c] != Empty
    decreases r + 1
  {
    if r < 0 then -1
    else if g[r][c] == Empty then r
    else EmptyRowFrom(g, c, r - 1)
  }

  /** The row a chip dropped into column `c` lands in. */
  function EmptyRow(g: Board, c: int): (e: int)
    requires IsBoard(g) && 0 <= c < Cols
    ensures -1 <= e < Rows
    ensures e == -1 <==> forall i :: 0 <= i < Rows ==> g[i][c] != Empty
    ensures e >= 0 ==> g[e][c] == Empty && forall i :: e < i < Rows ==> g[i][c] != Empty
  {
    EmptyRowFrom(g, c, Rows - 1)
  }

  /** `get_empty_row`: scans column `c` from the bottom row up. */
  method GetEmptyRow(board: array2<int>, c: int) returns (row: int)
    requires board.Length0 == Rows && board.Length1 == Cols && 0 <= c < Cols
    ensures row == EmptyRow(Snapshot(board), c)
  {
    ghost var g := Snapshot(board);
    var r := Rows - 1;
    while r >= 0
      invariant -1 <= r < Rows
      invariant EmptyRowFrom(g, c, r) == EmptyRow(g, c)
    {
      if board[r, c] == Empty {
        return r;
      }
      r := r - 1;
    }
    return -1;
  }

  // ---------------------------------------------------------------------
  // get_win and the next_* directions

  /** The four walks of `get_all_wins`, in place of the `next_*` function
      pointers. */
  datatype Dir = NextCol | NextRow | LeftDiagonal | RightDiagonal

  /** One step of a walk: `next_col` goes right, `next_row` up,
      `next_ldiagonal` up and right, `next_rdiagonal` up and left. */
  function Next(d: Dir, r: int, c: int): (int, int)
  {
    match d
    case NextCol => (r, c + 1)
    case NextRow => (r - 1, c)
    case LeftDiagonal => (r - 1, c + 1)
    case RightDiagonal => (r - 1, c - 1)
  }

  /** The slot `t` steps along direction `d` from (r, c). */
  function At(d: Dir, r: int, c: int, t: int): (p: (int, int))
  {
    match d
    case NextCol => (r, c + t)
    case NextRow => (r - t, c)
    case LeftDiagonal => (r - t, c + t)
    case RightDiagonal => (r - t, c - t)
  }

  /** How many more steps a walk from (r, c) can take before it leaves the
      board at its far edge. */
  function Remaining(d: Dir, r: int, c: int, t: int): int
  {
    match d
    case NextCol => Cols - c - t
    case _ => r - t + 1
  }

  lemma NextIsAt(d: Dir, r: int, c: int, t: int)
    ensures Next(d, At(d, r, c, t).0, At(d, r, c, t).1) == At(d, r, c, t + 1)
  {
  }

  /** The colour at slot `p`, or `Empty` off the board. */
  function ColorAt(g: Board, p: (int, int)): int
    requires IsBoard(g)
  {
    if IsValid(p.0, p.1) then g[p.0][p.1] else Empty
  }

  /** The walk of `get_win` from (r0, c0), at step `t`, with the run
      counter's colour `color` and the chips of the current run `run`:
      a cell of the running colour that is not empty extends the run, any
      other cell starts a new run of one; four in a run is a win. */
  function WalkFrom(g: Board, d: Dir, r0: int, c0: int, t: nat, color: int, run: seq<Chip>): Option<seq<Chip>>
    requires IsBoard(g)
    decreases Remaining(d, r0, c0, t)
  {
    var p := At(d, r0, c0, t);
    if !IsValid(p.0, p.1) then None
    else
      var cell := g[p.0][p.1];
      var extend := cell != Empty && cell == color;
      var color' := if extend then color else cell;
      var run' := if extend then run + [Chip(p.0, p.1, cell)] else [Chip(p.0, p.1, cell)];
      if |run'| == 4 then Some(run')
      else WalkFrom(g, d, r0, c0, t + 1, color', run')
  }

  /** `get_win(board, r, c, next)` as a value. */
  function Win(g: Board, r: int, c: int, d: Dir): Option<seq<Chip>>
    requires IsBoard(g)
  {
    WalkFrom(g, d, r, c, 0, Normal, [])
  }

  /** `get_win`: walks from (r, c) while on the board, keeping the chips of
      the current run of one colour; returns them once there are four. */
  method GetWin(board: array2<int>, r: int, c: int, d: Dir) returns (w: Option<seq<Chip>>)
    requires board.Length0 == Rows && board.Length1 == Cols
    ensures w == Win(Snapshot(board), r, c, d)
  {
    ghost var g := Snapshot(board);
    var y, x := r, c;
    ghost var t: nat := 0;
    var color := Normal;
    var chips: seq<Chip> := [];
    while IsValid(y, x)
      invariant (y, x) == At(d, r, c, t)
      invariant WalkFrom(g, d, r, c, t, color, chips) == Win(g, r, c, d)
      decreases Remaining(d, r, c, t)
    {
      if board[y, x] != Empty && board[y, x] == color {
        chips := chips + [Chip(y, x, board[y, x])];
      } else {
        color := board[y, x];
        chips := [Chip(y, x, board[y, x])];
      }
      if |chips| == 4 {
        return Some(chips);
      }
      NextIsAt(d, r, c, t);
      y, x := Next(d, y, x).0, Next(d, y, x).1;
      t := t + 1;
    }
    return None;
  }

  // ---------------------------------------------------------------------
  // What the walk finds

  /** Every slot of the walk up to step `n` is on the board. */
  predicate Walkable(d: Dir, r0: int, c0: int, n: int)
  {
    forall t :: 0 <= t <= n ==> IsValid(At(d, r0, c0, t).0, At(d, r0, c0, t).1)
  }

  /** Four chips of one colour, not empty, from step `t` of the walk on
      (off the board counts as empty, so all four slots are on it). */
  predicate RunAt(g: Board, d: Dir, r0: int, c0: int, t: int)
    requires IsBoard(g)
  {
    && ColorAt(g, At(d, r0, c0, t)) != Empty
    && forall s :: t <= s < t + 4 ==> ColorAt(g, At(d, r0, c0, s)) == ColorAt(g, At(d, r0, c0, t))
  }

  /** The chips of the four slots from step `t` of the walk on. */
  function RunChips(g: Board, d: Dir, r0: int, c0: int, t: int): (s: seq<Chip>)
    requires IsBoard(g)
    ensures |s| == 4
  {
    seq(4, k => Chip(At(d, r0, c0, t + k).0, At(d, r0, c0, t + k).1, ColorAt(g, At(d, r0, c0, t + k))))
  }

  /** The first run of four along the walk from step `t` on, while the walk
      stays on the board. */
  function FirstRun(g: Board, d: Dir, r0: int, c0: int, t: nat): Option<seq<Chip>>
    requires IsBoard(g)
    decreases Remaining(d, r0, c0, t)
  {
    if !Walkable(d, r0, c0, t + 3) then None
    else if RunAt(g, d, r0, c0, t) then Some(RunChips(g, d, r0, c0, t))
    else
      assert IsValid(At(d, r0, c0, t).0, At(d, r0, c0, t).1);
      FirstRun(g, d, r0, c0, t + 1)
  }

  /** A run of four found from step `t0` on is the first one from there,
      along slots that are all on the board. */
  lemma {:induction false} FirstRunFound(g: Board, d: Dir, r0: int, c0: int, t0: nat)
    requires IsBoard(g) && FirstRun(g, d, r0, c0, t0).Some?
    ensures exists t :: (t0 <= t && Walkable(d, r0, c0, t + 3) && RunAt(g, d, r0, c0, t)
      && FirstRun(g, d, r0, c0, t0).value == RunChips(g, d, r0, c0, t)
      && forall u :: t0 <= u < t ==> !RunAt(g, d, r0, c0, u))
    decreases Remaining(d, r0, c0, t0)
  {
    if RunAt(g, d, r0, c0, t0) {
      assert t0 <= t0 && Walkable(d, r0, c0, t0 + 3);
    } else {
      assert IsValid(At(d, r0, c0, t0).0, At(d, r0, c0, t0).1);
      FirstRunFound(g, d, r0, c0, t0 + 1);
    }
  }

  /** No run of four is found from step `t0` on only when there is none
      whose slots the walk reaches. */
  lemma {:induction false} FirstRunNone(g: Board, d: Dir, r0: int, c0: int, t0: nat)
    requires IsBoard(g) && FirstRun(g, d, r0, c0, t0) == None
    ensures forall t :: t0 <= t && Walkable(d, r0, c0, t + 3) ==> !RunAt(g, d, r0, c0, t)
    decreases Remaining(d, r0, c0, t0)
  {
    if Walkable(d, r0, c0, t0 + 3) {
      assert IsValid(At(d, r0, c0, t0).0, At(d, r0, c0, t0).1);
      FirstRunNone(g, d, r0, c0, t0 + 1);
    }
  }

  /** Runs that start before `t` and lie on the board do not matter to the
      search from `s`. */
  lemma {:induction false} FirstRunSkip(g: Board, d: Dir, r0: int, c0: int, s: nat, t: nat)
    requires IsBoard(g) && s <= t && Walkable(d, r0, c0, t + 2)
    requires forall u :: s <= u < t ==> !RunAt(g, d, r0, c0, u)
    ensures FirstRun(g, d, r0, c0, s) == FirstRun(g, d, r0, c0, t)
    decreases t - s
  {
    if s < t {
      assert Walkable(d, r0, c0, s + 3);
      FirstRunSkip(g, d, r0, c0, s + 1, t);
    }
  }

  /** `run` holds the chips of the slots just before step `t`, all of
      colour `color`. */
  predicate RunCells(g: Board, d: Dir, r0: int, c0: int, t: int, color: int, run: seq<Chip>)
    requires IsBoard(g)
  {
    forall k :: 0 <= k < |run| ==>
      run[k] == Chip(At(d, r0, c0, t - |run| + k).0, At(d, r0, c0, t - |run| + k).1, color)
      && ColorAt(g, At(d, r0, c0, t - |run| + k)) == color
  }

  /** The state of the walk of `get_win` before step `t`: `run` holds the
      chips of the longest run of `color` ending at step `t - 1` (at most
      three), and no run of four ends before step `t`. */
  predicate Streak(g: Board, d: Dir, r0: int, c0: int, t: nat, color: int, run: seq<Chip>)
    requires IsBoard(g)
  {
    && |run| <= 3 && |run| <= t && (t >= 1 ==> |run| >= 1)
    && Walkable(d, r0, c0, t - 1)
    && RunCells(g, d, r0, c0, t, color, run)
    && (|run| >= 2 ==> color != Empty)
    && (t - |run| >= 1 ==> color == Empty || ColorAt(g, At(d, r0, c0, t - |run| - 1)) != color)
    && forall u :: 0 <= u <= t - 4 ==> !RunAt(g, d, r0, c0, u)
  }

  /** A fourth chip of the running colour completes a run of four. */
  lemma RunCompleted(g: Board, d: Dir, r0: int, c0: int, t: nat, color: int, run: seq<Chip>)
    requires IsBoard(g) && Streak(g, d, r0, c0, t, color, run) && |run| == 3
    requires color != Empty && ColorAt(g, At(d, r0, c0, t)) == color
    ensures RunAt(g, d, r0, c0, t - 3)
    ensures run + [Chip(At(d, r0, c0, t).0, At(d, r0, c0, t).1, color)] == RunChips(g, d, r0, c0, t - 3)
  {
    forall u | t - 3 <= u < t + 1
      ensures ColorAt(g, At(d, r0, c0, u)) == color
    {
      if u < t {
        assert run[u - t + 3] == run[u - t + 3];
      }
    }
    var w := run + [Chip(At(d, r0, c0, t).0, At(d, r0, c0, t).1, color)];
    forall k | 0 <= k < 4
      ensures w[k] == RunChips(g, d, r0, c0, t - 3)[k]
    {
      if k < 3 {
        assert w[k] == run[k];
      }
    }
  }

  /** No run of four ends at step `t` unless the chip there has the running
      colour and extends a run of three. */
  lemma NoRunEndsAt(g: Board, d: Dir, r0: int, c0: int, t: nat, color: int, run: seq<Chip>)
    requires IsBoard(g) && Streak(g, d, r0, c0, t, color, run) && t >= 3
    requires ColorAt(g, At(d, r0, c0, t)) != color || |run| < 3
    ensures !RunAt(g, d, r0, c0, t - 3)
  {
    var m := |run|;
    assert run[m - 1] == run[m - 1];
    if RunAt(g, d, r0, c0, t - 3) {
      assert false;
    }
  }

  /** A chip of the running colour that makes a run of at most three
      extends the run. */
  lemma StreakExtend(g: Board, d: Dir, r0: int, c0: int, t: nat, color: int, run: seq<Chip>)
    requires IsBoard(g) && Streak(g, d, r0, c0, t, color, run) && |run| < 3
    requires IsValid(At(d, r0, c0, t).0, At(d, r0, c0, t).1)
    requires color != Empty && ColorAt(g, At(d, r0, c0, t)) == color
    ensures Streak(g, d, r0, c0, t + 1, color, run + [Chip(At(d, r0, c0, t).0, At(d, r0, c0, t).1, color)])
  {
    var run' := run + [Chip(At(d, r0, c0, t).0, At(d, r0, c0, t).1, color)];
    if t >= 3 {
      NoRunEndsAt(g, d, r0, c0, t, color, run);
    }
    forall k | 0 <= k < |run'|
      ensures run'[k] == Chip(At(d, r0, c0, t + 1 - |run'| + k).0, At(d, r0, c0, t + 1 - |run'| + k).1, color)
      ensures ColorAt(g, At(d, r0, c0, t + 1 - |run'| + k)) == color
    {
      if k < |run| {
        assert run'[k] == run[k];
      }
    }
    assert RunCells(g, d, r0, c0, t + 1, color, run');
    assert Walkable(d, r0, c0, t);
  }

  /** Any other chip starts a new run of one. */
  lemma StreakReset(g: Board, d: Dir, r0: int, c0: int, t: nat, color: int, run: seq<Chip>)
    requires IsBoard(g) && Streak(g, d, r0, c0, t, color, run)
    requires IsValid(At(d, r0, c0, t).0, At(d, r0, c0, t).1)
    requires var cell := ColorAt(g, At(d, r0, c0, t)); cell == Empty || cell != color
    ensures var cell := ColorAt(g, At(d, r0, c0, t));
      Streak(g, d, r0, c0, t + 1, cell, [Chip(At(d, r0, c0, t).0, At(d, r0, c0, t).1, cell)])
  {
    if t >= 1 {
      var m := |run|;
      assert run[m - 1] == run[m - 1];
    }
    if t >= 3 {
      NoRunEndsAt(g, d, r0, c0, t, color, run);
    }
    assert Walkable(d, r0, c0, t);
  }

  /** The search for the first run moves past a start that holds none. */
  lemma FirstRunPasses(g: Board, d: Dir, r0: int, c0: int, t: nat)
    requires IsBoard(g) && Walkable(d, r0, c0, t + 3) && !RunAt(g, d, r0, c0, t)
    ensures FirstRun(g, d, r0, c0, t) == FirstRun(g, d, r0, c0, t + 1)
  {
  }

  /** A step of the walk on the board that does not complete a run moves
      both the walk and the search for the first run one step on. */
  lemma WalkStep(g: Board, d: Dir, r0: int, c0: int, t: nat, color: int, run: seq<Chip>)
      returns (color': int, run': seq<Chip>)
    requires IsBoard(g) && Streak(g, d, r0, c0, t, color, run)
    requires IsValid(At(d, r0, c0, t).0, At(d, r0, c0, t).1)
    requires ColorAt(g, At(d, r0, c0, t)) == Empty || ColorAt(g, At(d, r0, c0, t)) != color || |run| < 3
    ensures Streak(g, d, r0, c0, t + 1, color', run')
    ensures WalkFrom(g, d, r0, c0, t, color, run) == WalkFrom(g, d, r0, c0, t + 1, color', run')
    ensures FirstRun(g, d, r0, c0, if t < 3 then 0 else t - 3) == FirstRun(g, d, r0, c0, if t < 2 then 0 else t - 2)
  {
    var p := At(d, r0, c0, t);
    var cell := g[p.0][p.1];
    assert Walkable(d, r0, c0, t);
    if t >= 3 {
      NoRunEndsAt(g, d, r0, c0, t, color, run);
      FirstRunPasses(g, d, r0, c0, t - 3);
    }
    if cell != Empty && cell == color {
      StreakExtend(g, d, r0, c0, t, color, run);
      color', run' := color, run + [Chip(p.0, p.1, cell)];
    } else {
      StreakReset(g, d, r0, c0, t, color, run);
      color', run' := cell, [Chip(p.0, p.1, cell)];
    }
  }

  /** Before step `t`, the walk finds the first run of four that ends at or
      after step `t`. */
  lemma {:induction false} WalkFindsFirstRun(g: Board, d: Dir, r0: int, c0: int, t: nat, color: int, run: seq<Chip>)
    requires IsBoard(g) && Streak(g, d, r0, c0, t, color, run)
    ensures WalkFrom(g, d, r0, c0, t, color, run) == FirstRun(g, d, r0, c0, if t < 3 then 0 else t - 3)
    decreases Remaining(d, r0, c0, t)
  {
    var p := At(d, r0, c0, t);
    if !IsValid(p.0, p.1) {
      assert !Walkable(d, r0, c0, (if t < 3 then 0 else t - 3) + 3);
    } else if ColorAt(g, p) != Empty && ColorAt(g, p) == color && |run| == 3 {
      RunCompleted(g, d, r0, c0, t, color, run);
    } else {
      var color', run' := WalkStep(g, d, r0, c0, t, color, run);
      WalkFindsFirstRun(g, d, r0, c0, t + 1, color', run');
    }
  }

  /** `get_win` returns the first run of four chips of one colour, not
      empty, along its walk while the walk is on the board; it returns
      nothing exactly when the walk passes no such run. */
  lemma WinIsFirstRun(g: Board, r: int, c: int, d: Dir)
    requires IsBoard(g)
    ensures Win(g, r, c, d) == FirstRun(g, d, r, c, 0)
    ensures Win(g, r, c, d).Some? ==>
      exists t :: (0 <= t && Walkable(d, r, c, t + 3) && RunAt(g, d, r, c, t)
        && Win(g, r, c, d).value == RunChips(g, d, r, c, t)
        && forall u :: 0 <= u < t ==> !RunAt(g, d, r, c, u))
    ensures Win(g, r, c, d) == None <==>
      forall t :: 0 <= t && Walkable(d, r, c, t + 3) ==> !RunAt(g, d, r, c, t)
  {
    WalkFindsFirstRun(g, d, r, c, 0, Normal, []);
    if Win(g, r, c, d).Some? {
      FirstRunFound(g, d, r, c, 0);
    } else {
      FirstRunNone(g, d, r, c, 0);
    }
  }

  // ---------------------------------------------------------------------
  // get_all_wins

  function Min(a: int, b: int): int
  {
    if a < b then a else b
  }

  /** How many steps the walk of `get_all_wins` along `d` takes from its
      start to reach (r, c). */
  function Offset(d: Dir, r: int, c: int): int
  {
    match d
    case NextCol => c
    case NextRow => Rows - 1 - r
    case LeftDiagonal => Min(c, Rows - 1 - r)
    case RightDiagonal => Min(Cols - 1 - c, Rows - 1 - r)
  }

  /** Where the walk of `get_all_wins` along `d` through (r, c) starts: the
      left end of the row, the bottom of the column, the lower end of each
      diagonal. */
  function Start(d: Dir, r: int, c: int): (p: (int, int))
  {
    At(d, r, c, -Offset(d, r, c))
  }

  /** The result of the walk of `get_all_wins` along `d` through (r, c). */
  function Line(g: Board, r: int, c: int, d: Dir): Option<seq<Chip>>
    requires IsBoard(g)
  {
    Win(g, Start(d, r, c).0, Start(d, r, c).1, d)
  }

  /** `get_all_wins(board, r, c)`: the row, the column and the two
      diagonals through (r, c), tried in that order. */
  function AllWins(g: Board, r: int, c: int): Option<seq<Chip>>
    requires IsBoard(g)
  {
    if Line(g, r, c, NextCol).Some? then Line(g, r, c, NextCol)
    else if Line(g, r, c, NextRow).Some? then Line(g, r, c, NextRow)
    else if Line(g, r, c, LeftDiagonal).Some? then Line(g, r, c, LeftDiagonal)
    else Line(g, r, c, RightDiagonal)
  }

  /** The order in which `get_all_wins` tries the lines. */
  function Rank(d: Dir): nat
  {
    match d
    case NextCol => 0
    case NextRow => 1
    case LeftDiagonal => 2
    case RightDiagonal => 3
  }

  /** `get_all_wins`. */
  method GetAllWins(board: array2<int>, r: int, c: int) returns (w: Option<seq<Chip>>)
    requires board.Length0 == Rows && board.Length1 == Cols
    ensures w == AllWins(Snapshot(board), r, c)
  {
    w := GetWin(board, r, 0, NextCol);
    if w.Some? {
      return;
    }
    w := GetWin(board, Rows - 1, c, NextRow);
    if w.Some? {
      return;
    }
    var lo := Min(c - 0, Rows - 1 - r);
    w := GetWin(board, r + lo, c - lo, LeftDiagonal);
    if w.Some? {
      return;
    }
    var ro := Min(Cols - 1 - c, Rows - 1 - r);
    w := GetWin(board, r + ro, c + ro, RightDiagonal);
  }

  /** Walking `a` and then `b` steps is walking `a + b` steps. */
  lemma AtAdd(d: Dir, r: int, c: int, a: int, b: int)
    ensures At(d, At(d, r, c, a).0, At(d, r, c, a).1, b) == At(d, r, c, a + b)
  {
  }

  /** The board is convex along a walk: between two slots on the board,
      every slot is on it. */
  lemma Between(d: Dir, r: int, c: int, a: int, b: int)
    requires IsValid(At(d, r, c, a).0, At(d, r, c, a).1)
    requires IsValid(At(d, r, c, b).0, At(d, r, c, b).1)
    ensures forall t :: a <= t <= b ==> IsValid(At(d, r, c, t).0, At(d, r, c, t).1)
  {
  }

  /** For a slot (r, c) of the board, each walk of `get_all_wins` starts on
      the board, at the edge, and passes through (r, c), on the board all
      the way. */
  lemma LineThrough(d: Dir, r: int, c: int)
    requires IsValid(r, c)
    ensures var s := Start(d, r, c);
      && IsValid(s.0, s.1)
      && !IsValid(At(d, s.0, s.1, -1).0, At(d, s.0, s.1, -1).1)
      && At(d, s.0, s.1, Offset(d, r, c)) == (r, c)
      && Walkable(d, s.0, s.1, Offset(d, r, c))
  {
    var s := Start(d, r, c);
    AtAdd(d, r, c, -Offset(d, r, c), Offset(d, r, c));
    Between(d, s.0, s.1, 0, Offset(d, r, c));
  }

  /** Any slot before (r, c) on the line through it that is on the board
      comes at or after the start of the walk of `get_all_wins`. */
  lemma NoSlotBeforeStart(d: Dir, r: int, c: int, j: int)
    requires IsValid(r, c) && j <= 0
    requires IsValid(At(d, r, c, j).0, At(d, r, c, j).1)
    ensures Offset(d, r, c) + j >= 0
  {
  }

  /** Four chips of one colour in a line on the board, from (r0, c0) along
      `d`. */
  predicate FourAt(g: Board, d: Dir, r0: int, c0: int)
    requires IsBoard(g)
  {
    RunAt(g, d, r0, c0, 0)
  }

  /** `w` is a row of four in some line of the board. */
  predicate FourInLine(g: Board, w: seq<Chip>)
    requires IsBoard(g)
  {
    exists d, r0, c0 :: 0 <= r0 < Rows && 0 <= c0 < Cols && FourAt(g, d, r0, c0) && w == RunChips(g, d, r0, c0, 0)
  }

  /** A run the walk from (r0, c0) meets at step `t` is four in a line of
      the board. */
  lemma RunIsFour(g: Board, d: Dir, r0: int, c0: int, t: int)
    requires IsBoard(g) && RunAt(g, d, r0, c0, t)
    ensures var p := At(d, r0, c0, t);
      FourAt(g, d, p.0, p.1) && RunChips(g, d, r0, c0, t) == RunChips(g, d, p.0, p.1, 0)
  {
    var p := At(d, r0, c0, t);
    forall s | 0 <= s < 4
      ensures At(d, p.0, p.1, s) == At(d, r0, c0, t + s)
    {
      AtAdd(d, r0, c0, t, s);
    }
    assert ColorAt(g, At(d, p.0, p.1, 0)) == ColorAt(g, At(d, r0, c0, t));
  }

  /** A run one walk of `get_all_wins` finds is four in a line. */
  lemma LineSound(g: Board, r: int, c: int, d: Dir)
    requires IsBoard(g) && Line(g, r, c, d).Some?
    ensures FourInLine(g, Line(g, r, c, d).value)
  {
    var s := Start(d, r, c);
    WinIsFirstRun(g, s.0, s.1, d);
    var t :| 0 <= t && Walkable(d, s.0, s.1, t + 3) && RunAt(g, d, s.0, s.1, t)
      && Win(g, s.0, s.1, d).value == RunChips(g, d, s.0, s.1, t);
    RunIsFour(g, d, s.0, s.1, t);
    var p := At(d, s.0, s.1, t);
    assert ColorAt(g, p) != Empty;
  }

  /** What `get_all_wins` returns is four chips of one colour in a line of
      the board, and it is the first line of the four that holds a run. */
  lemma AllWinsSound(g: Board, r: int, c: int)
    requires IsBoard(g) && AllWins(g, r, c).Some?
    ensures FourInLine(g, AllWins(g, r, c).value)
    ensures exists d :: (AllWins(g, r, c) == Line(g, r, c, d)
      && forall e :: Rank(e) < Rank(d) ==> Line(g, r, c, e) == None)
  {
    var d := if Line(g, r, c, NextCol).Some? then NextCol
      else if Line(g, r, c, NextRow).Some? then NextRow
      else if Line(g, r, c, LeftDiagonal).Some? then LeftDiagonal
      else RightDiagonal;
    assert AllWins(g, r, c) == Line(g, r, c, d);
    LineSound(g, r, c, d);
  }

  /** `get_all_wins` finds nothing exactly when none of the four lines
      through (r, c) has a run of four. */
  lemma AllWinsNone(g: Board, r: int, c: int)
    requires IsBoard(g)
    ensures AllWins(g, r, c) == None <==> forall d :: Line(g, r, c, d) == None
  {
  }

  /** Four chips of one colour in a line through (r, c) are found by
      `get_all_wins(r, c)`: `j` is how many steps before (r, c) the four
      begin. */
  lemma AllWinsComplete(g: Board, r: int, c: int, d: Dir, j: int)
    requires IsBoard(g) && IsValid(r, c) && -3 <= j <= 0
    requires RunAt(g, d, r, c, j)
    ensures AllWins(g, r, c).Some?
  {
    var s := Start(d, r, c);
    var k := Offset(d, r, c);
    assert ColorAt(g, At(d, r, c, j)) != Empty;
    NoSlotBeforeStart(d, r, c, j);
    AtAdd(d, r, c, -k, k + j);
    forall v | k + j <= v < k + j + 4
      ensures ColorAt(g, At(d, s.0, s.1, v)) == ColorAt(g, At(d, s.0, s.1, k + j))
    {
      AtAdd(d, r, c, -k, v);
      assert ColorAt(g, At(d, r, c, v - k)) == ColorAt(g, At(d, r, c, v - k));
    }
    assert RunAt(g, d, s.0, s.1, k + j);
    assert IsValid(At(d, r, c, j + 3).0, At(d, r, c, j + 3).1);
    LineThrough(d, r, c);
    Between(d, s.0, s.1, 0, k + j + 3);
    assert Walkable(d, s.0, s.1, k + j + 3);
    WinIsFirstRun(g, s.0, s.1, d);
    assert Line(g, r, c, d) != None;
    AllWinsNone(g, r, c);
  }
}
