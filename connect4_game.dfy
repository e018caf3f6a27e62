/** The rest of the board rules of Connect 4 (Connect4/connect4.c): the
    empty and full tests, the shifting animation of `reset`, and the input
    and turn logic of `play`. */
module Connect4Game {
  import opened Grids
  import opened Connect4

  // ---------------------------------------------------------------------
  // is_empty and is_full

  /** The bottom row. */
  const Bottom := Rows - 1

  /** What `is_empty` tests: every slot of the bottom row is empty. */
  predicate BottomEmpty(g: Board)
    requires IsBoard(g)
  {
    forall j :: 0 <= j < Cols ==> g[Bottom][j] == Empty
  }

  /** What `is_full` tests: no slot of the top row is empty. */
  predicate TopFull(g: Board)
    requires IsBoard(g)
  {
    forall j :: 0 <= j < Cols ==> g[0][j] != Empty
  }

  /** Every slot of the board is empty. */
  predicate AllEmpty(g: Board)
    requires IsBoard(g)
  {
    forall i, j :: 0 <= i < Rows && 0 <= j < Cols ==> g[i][j] == Empty
  }

  /** Chips rest on chips: a chip above the bottom row has a chip below it.
      Dropping chips with `get_empty_row` and shifting rows down keep this. */
  predicate Settled(g: Board)
    requires IsBoard(g)
  {
    forall i, j :: 0 <= i < Rows - 1 && 0 <= j < Cols ==> Rests(g, i, j)
  }

  /** The slot below a chip in row `i` holds a chip. */
  predicate Rests(g: Board, i: int, j: int)
    requires IsBoard(g) && 0 <= i < Rows - 1 && 0 <= j < Cols
  {
    g[i][j] != Empty ==> g[i + 1][j] != Empty
  }

  /** `is_empty`: scans the bottom row. */
  method IsEmpty(board: array2<int>) returns (b: bool)
    requires board.Length0 == Rows && board.Length1 == Cols
    ensures b == BottomEmpty(Snapshot(board))
  {
    for i := 0 to Cols
      invariant forall j :: 0 <= j < i ==> board[Bottom, j] == Empty
    {
      if board[Bottom, i] != Empty {
        return false;
      }
    }
    return true;
  }

  /** `is_full`: scans the top row. */
  method IsFull(board: array2<int>) returns (b: bool)
    requires board.Length0 == Rows && board.Length1 == Cols
    ensures b == TopFull(Snapshot(board))
  {
    for i := 0 to Cols
      invariant forall j :: 0 <= j < i ==> board[0, j] != Empty
    {
      if board[0, i] == Empty {
        return false;
      }
    }
    return true;
  }

  /** On a settled board a chip sits on a chip in every row below it. */
  lemma {:induction false} Stacked(g: Board, i: int, j: int)
    requires IsBoard(g) && Settled(g) && 0 <= i < Rows && 0 <= j < Cols && g[i][j] != Empty
    ensures forall k :: i <= k < Rows ==> g[k][j] != Empty
    decreases Rows - i
  {
    if i < Rows - 1 {
      assert Rests(g, i, j);
      Stacked(g, i + 1, j);
    }
  }

  /** On a settled board `is_empty` tells whether the whole board is
      empty. */
  lemma SettledEmpty(g: Board)
    requires IsBoard(g) && Settled(g)
    ensures BottomEmpty(g) <==> AllEmpty(g)
  {
    if BottomEmpty(g) {
      forall i, j | 0 <= i < Rows && 0 <= j < Cols
        ensures g[i][j] == Empty
      {
        if g[i][j] != Empty {
          assert g[Bottom][j] == Empty;
          Stacked(g, i, j);
        }
      }
    }
  }

  /** On a settled board `is_full` tells whether no column has room for
      another chip. */
  lemma SettledFull(g: Board)
    requires IsBoard(g) && Settled(g)
    ensures TopFull(g) <==> forall c :: 0 <= c < Cols ==> EmptyRow(g, c) == -1
  {
    if TopFull(g) {
      forall c | 0 <= c < Cols
        ensures EmptyRow(g, c) == -1
      {
        Stacked(g, 0, c);
      }
    } else {
      var c :| 0 <= c < Cols && g[0][c] == Empty;
      assert EmptyRow(g, c) != -1;
    }
  }

  // ---------------------------------------------------------------------
  // shift_down and reset

  /** The board after `shift_down(board, beg)`. */
  function Shifted(g: Board, beg: nat): (h: Board)
    requires IsBoard(g)
    ensures IsBoard(h)
    ensures forall i, j :: 0 <= i < Rows && 0 <= j < Cols ==> h[i][j] == if i > beg then g[i - 1][j] else Empty
  {
    seq(Rows, i requires 0 <= i < Rows => seq(Cols, j requires 0 <= j < Cols => if i > beg then g[i - 1][j] else Empty))
  }

  /** Rows `0..n-1` are empty. */
  predicate Cleared(g: Board, n: int)
    requires IsBoard(g)
  {
    forall i, j :: 0 <= i < n && i < Rows && 0 <= j < Cols ==> g[i][j] == Empty
  }

  /** One row of the first pass of `shift_down`: row `i` of `down` gets
      row `i - 1` of the board, or empty slots up to row `beg`. */
  method FillRow(board: array2<int>, down: array2<int>, i: int, beg: nat)
    requires board.Length0 == Rows && board.Length1 == Cols && down.Length0 == Rows && down.Length1 == Cols
    requires down != board && 0 <= i < Rows
    modifies down
    ensures forall x :: 0 <= x < Cols ==> down[i, x] == if i > beg then board[i - 1, x] else Empty
    ensures forall y, x :: 0 <= y < Rows && y != i && 0 <= x < Cols ==> down[y, x] == old(down[y, x])
  {
    for j := 0 to Cols
      invariant forall x :: 0 <= x < j ==> down[i, x] == if i > beg then board[i - 1, x] else Empty
      invariant forall y, x :: 0 <= y < Rows && y != i && 0 <= x < Cols ==> down[y, x] == old(down[y, x])
    {
      down[i, j] := if i > beg then board[i - 1, j] else Empty;
    }
  }

  /** One row of the second pass of `shift_down`: row `i` of the board
      gets row `i` of `down`. */
  method CopyRow(board: array2<int>, down: array2<int>, i: int)
    requires board.Length0 == Rows && board.Length1 == Cols && down.Length0 == Rows && down.Length1 == Cols
    requires down != board && 0 <= i < Rows
    modifies board
    ensures forall x :: 0 <= x < Cols ==> board[i, x] == down[i, x]
    ensures forall y, x :: 0 <= y < Rows && y != i && 0 <= x < Cols ==> board[y, x] == old(board[y, x])
  {
    for j := 0 to Cols
      invariant forall x :: 0 <= x < j ==> board[i, x] == down[i, x]
      invariant forall y, x :: 0 <= y < Rows && y != i && 0 <= x < Cols ==> board[y, x] == old(board[y, x])
    {
      board[i, j] := down[i, j];
    }
  }

  /** `shift_down`: every row below `beg` takes the row above it, rows
      `0..beg` become empty; the new rows are built in a separate array
      first, so every row is moved from the old board. */
  method ShiftDown(board: array2<int>, beg: nat)
    requires board.Length0 == Rows && board.Length1 == Cols
    modifies board
    ensures Snapshot(board) == Shifted(old(Snapshot(board)), beg)
  {
    ghost var g := Snapshot(board);
    var down := new int[Rows, Cols];
    for i := 0 to Rows
      modifies down
      invariant forall y, x :: 0 <= y < i && 0 <= x < Cols ==> down[y, x] == if y > beg then g[y - 1][x] else Empty
    {
      FillRow(board, down, i, beg);
    }
    for i := 0 to Rows
      modifies board
      invariant forall y, x :: 0 <= y < i && 0 <= x < Cols ==> board[y, x] == down[y, x]
    {
      CopyRow(board, down, i);
    }
    SnapshotIs(board, Shifted(g, beg));
  }

  /** A shift moves every row down by one below `beg` and empties the rows
      up to `beg`: the rows already emptied stay empty, and the board stays
      settled. */
  lemma ShiftedKeeps(g: Board, beg: nat)
    requires IsBoard(g)
    ensures Cleared(Shifted(g, beg), beg + 1)
    ensures forall i, j :: beg < i < Rows && 0 <= j < Cols ==> Shifted(g, beg)[i][j] == g[i - 1][j]
    ensures Settled(g) ==> Settled(Shifted(g, beg))
  {
    if Settled(g) {
      var h := Shifted(g, beg);
      forall i, j | 0 <= i < Rows - 1 && 0 <= j < Cols
        ensures Rests(h, i, j)
      {
        if i > beg {
          assert Rests(g, i - 1, j);
        }
      }
    }
  }

  /** The board after the loop of `reset` that starts at shift `i`. */
  function ResetFrom(g: Board, i: nat): (h: Board)
    requires IsBoard(g) && i <= Rows
    ensures IsBoard(h)
    decreases Rows - i
  {
    if i < Rows && !BottomEmpty(g) then ResetFrom(Shifted(g, i), i + 1) else g
  }

  /** `reset` without the drawing and the pauses: shift the board down
      while the bottom row holds a chip, at most once per row. */
  method Reset(board: array2<int>)
    requires board.Length0 == Rows && board.Length1 == Cols
    modifies board
    ensures Snapshot(board) == ResetFrom(old(Snapshot(board)), 0)
  {
    var i := 0;
    var empty := IsEmpty(board);
    while i < Rows && !empty
      invariant 0 <= i <= Rows
      invariant empty == BottomEmpty(Snapshot(board))
      invariant ResetFrom(Snapshot(board), i) == ResetFrom(old(Snapshot(board)), 0)
      decreases Rows - i
    {
      ShiftDown(board, i);
      i := i + 1;
      empty := IsEmpty(board);
    }
  }

  /** `reset` always leaves the bottom row empty: after the shift with index
      `k`, rows `0..k` are empty, so six shifts empty the board. */
  lemma {:induction false} ResetClears(g: Board, i: nat)
    requires IsBoard(g) && i <= Rows && Cleared(g, i)
    ensures BottomEmpty(ResetFrom(g, i))
    ensures i == Rows ==> AllEmpty(ResetFrom(g, i))
    decreases Rows - i
  {
    if i < Rows && !BottomEmpty(g) {
      ShiftedKeeps(g, i);
      ResetClears(Shifted(g, i), i + 1);
    }
  }

  /** A settled board (every board of a game) is empty after `reset`. */
  lemma {:induction false} ResetEmpties(g: Board, i: nat)
    requires IsBoard(g) && i <= Rows && Cleared(g, i) && Settled(g)
    ensures AllEmpty(ResetFrom(g, i))
    decreases Rows - i
  {
    if i < Rows && !BottomEmpty(g) {
      ShiftedKeeps(g, i);
      ResetEmpties(Shifted(g, i), i + 1);
    } else {
      ResetClears(g, i);
      SettledEmpty(g);
    }
  }

  // ---------------------------------------------------------------------
  // play

  /** The keys `play` reacts to; `F1` ends the program. */
  datatype Key = Left | Right | Down | F1 | Other

  /** The state `play` keeps between keys: the board, whose turn it is and
      the column of the chip held above the board. */
  datatype State = State(board: Board, turn: int, col: int)

  /** How `play` ends: with a run of four, with a full top row, by `F1`, or
      not yet, waiting for a key. */
  datatype Outcome = Won(chips: seq<Chip>) | Tie | Closed | Waiting

  /** The other player. */
  function Flip(turn: int): int
  {
    if turn == Red then Yellow else Red
  }

  /** The board after a chip of colour `turn` lands in slot (r, c). */
  function Put(g: Board, r: int, c: int, turn: int): (h: Board)
    requires IsBoard(g) && IsValid(r, c)
    ensures IsBoard(h)
  {
    g[r := g[r][c := turn]]
  }

  /** One key of `play`: moves the held chip left or right within the
      board, or drops it; a drop into a column with room puts the chip in
      its lowest empty slot, passes the turn and looks for a win through
      that slot. */
  function Press(s: State, k: Key): (r: (State, Option<seq<Chip>>))
    requires IsBoard(s.board) && 0 <= s.col < Cols
    ensures IsBoard(r.0.board) && 0 <= r.0.col < Cols
  {
    if k == Left && s.col > 0 then (s.(col := s.col - 1), None)
    else if k == Right && s.col < Cols - 1 then (s.(col := s.col + 1), None)
    else if k == Down then
      var row := EmptyRow(s.board, s.col);
      if row >= 0 then
        var b := Put(s.board, row, s.col, s.turn);
        (State(b, Flip(s.turn), s.col), AllWins(b, row, s.col))
      else (s, None)
    else (s, None)
  }

  /** The loop of `play` from state `s` with key `k` to handle and `keys`
      still to come: it stops on a win or a full top row, and `F1` ends the
      program. */
  function Run(s: State, k: Key, keys: seq<Key>): (r: (State, Outcome))
    requires IsBoard(s.board) && 0 <= s.col < Cols
    ensures IsBoard(r.0.board) && 0 <= r.0.col < Cols
    decreases |keys|
  {
    var (t, w) := Press(s, k);
    if w.Some? then (t, Won(w.value))
    else if TopFull(t.board) then (t, Tie)
    else if keys == [] then (t, Waiting)
    else if keys[0] == F1 then (t, Closed)
    else Run(t, keys[0], keys[1..])
  }

  /** `play` on board `g`: red moves first, the chip is held over column 0,
      and the first pass runs with no key. */
  function Game(g: Board, keys: seq<Key>): (r: (State, Outcome))
    requires IsBoard(g)
    ensures IsBoard(r.0.board)
  {
    Run(State(g, Red, 0), Other, keys)
  }

  /** The input handling of `play` for one key. */
  method Handle(board: array2<int>, ch: Key, turn: int, col: int) returns (turn': int, col': int, win: Option<seq<Chip>>)
    requires board.Length0 == Rows && board.Length1 == Cols && 0 <= col < Cols
    modifies board
    ensures (State(Snapshot(board), turn', col'), win) == Press(State(old(Snapshot(board)), turn, col), ch)
  {
    ghost var g := Snapshot(board);
    turn', col', win := turn, col, None;
    if ch == Left && col > 0 {
      col' := col - 1;
    } else if ch == Right && col < Cols - 1 {
      col' := col + 1;
    } else if ch == Down {
      var row := GetEmptyRow(board, col);
      if row >= 0 {
        board[row, col] := turn;
        SnapshotIs(board, Put(g, row, col, turn));
        turn' := if turn == Red then Yellow else Red;
        win := GetAllWins(board, row, col);
      }
    }
  }

  /** `play` without the drawing: handles `keys` one after the other until
      a win, a full board or `F1`; returns the outcome, the board is left
      as the game left it. */
  method Play(board: array2<int>, keys: seq<Key>) returns (out: Outcome)
    requires board.Length0 == Rows && board.Length1 == Cols
    modifies board
    ensures (Snapshot(board), out) == (Game(old(Snapshot(board)), keys).0.board, Game(old(Snapshot(board)), keys).1)
  {
    ghost var goal := Game(Snapshot(board), keys);
    var ch := Other;
    var turn := Red;
    var col := 0;
    var rest := keys;
    while true
      invariant 0 <= col < Cols
      invariant Run(State(Snapshot(board), turn, col), ch, rest) == goal
      decreases |rest|
    {
      var win;
      turn, col, win := Handle(board, ch, turn, col);
      if win.Some? {
        return Won(win.value);
      }
      var full := IsFull(board);
      if full {
        return Tie;
      }
      if rest == [] {
        return Waiting;
      }
      if rest[0] == F1 {
        return Closed;
      }
      ch, rest := rest[0], rest[1..];
    }
  }

  // ---------------------------------------------------------------------
  // What play keeps

  /** The states `play` goes through: the held chip is over the board, the
      turn is one of the two players, and the chips are settled. */
  predicate Sane(s: State)
  {
    && IsBoard(s.board) && 0 <= s.col < Cols
    && (s.turn == Red || s.turn == Yellow)
    && Settled(s.board)
  }

  /** No four chips of one colour in a line anywhere on the board. */
  predicate NoFour(g: Board)
    requires IsBoard(g)
  {
    forall d, r0, c0 :: 0 <= r0 < Rows && 0 <= c0 < Cols ==> !FourAt(g, d, r0, c0)
  }

  /** A drop into column `col` lands in the lowest empty slot: it sets
      exactly that slot to the player's colour, passes the turn and looks
      for a win through that slot; into a full column it changes nothing,
      not even the turn. */
  lemma PressDrop(s: State)
    requires IsBoard(s.board) && 0 <= s.col < Cols
    ensures var (t, w) := Press(s, Down);
      var row := EmptyRow(s.board, s.col);
      if row >= 0 then
        && s.board[row][s.col] == Empty
        && (forall i :: row < i < Rows ==> s.board[i][s.col] != Empty)
        && t.board[row][s.col] == s.turn
        && (forall i, j :: 0 <= i < Rows && 0 <= j < Cols && (i, j) != (row, s.col) ==> t.board[i][j] == s.board[i][j])
        && t.turn == Flip(s.turn) && t.col == s.col
        && w == AllWins(t.board, row, s.col)
      else t == s && w == None
  {
  }

  /** Moving the held chip changes neither the board nor the turn, keeps
      the chip over the board and finds no win; any other key but a drop
      changes nothing. */
  lemma PressMove(s: State, k: Key)
    requires IsBoard(s.board) && 0 <= s.col < Cols && k != Down
    ensures var (t, w) := Press(s, k);
      && t.board == s.board && t.turn == s.turn && w == None
      && (k == Left ==> t.col == if s.col > 0 then s.col - 1 else s.col)
      && (k == Right ==> t.col == if s.col < Cols - 1 then s.col + 1 else s.col)
      && (k != Left && k != Right ==> t.col == s.col)
  {
  }

  /** Every key keeps the state sane. */
  lemma PressSane(s: State, k: Key)
    requires Sane(s)
    ensures Sane(Press(s, k).0)
  {
    if k == Down && EmptyRow(s.board, s.col) >= 0 {
      var row := EmptyRow(s.board, s.col);
      var b := Put(s.board, row, s.col, s.turn);
      forall i, j | 0 <= i < Rows - 1 && 0 <= j < Cols
        ensures Rests(b, i, j)
      {
        assert Rests(s.board, i, j);
      }
    }
  }

  /** Only slot (r, c) differs between `g` and `Put(g, r, c, x)`; a run of
      four on the new board that misses the slot was on the old board. */
  lemma FourMissesSlot(g: Board, r: int, c: int, x: int, d: Dir, r0: int, c0: int)
    requires IsBoard(g) && IsValid(r, c)
    requires FourAt(Put(g, r, c, x), d, r0, c0)
    requires forall u :: 0 <= u < 4 ==> At(d, r0, c0, u) != (r, c)
    ensures FourAt(g, d, r0, c0)
  {
    var h := Put(g, r, c, x);
    forall u | 0 <= u < 4
      ensures ColorAt(g, At(d, r0, c0, u)) == ColorAt(h, At(d, r0, c0, u))
    {
    }
    assert ColorAt(h, At(d, r0, c0, 0)) == ColorAt(h, At(d, r0, c0, 0));
  }

  /** A run of four through slot (r, c), `u` steps into it, is a run from
      (r, c) that begins `u` steps before it. */
  lemma FourThrough(g: Board, d: Dir, r0: int, c0: int, u: int)
    requires IsBoard(g) && FourAt(g, d, r0, c0) && 0 <= u < 4
    ensures var p := At(d, r0, c0, u); RunAt(g, d, p.0, p.1, -u)
  {
    var p := At(d, r0, c0, u);
    AtAdd(d, r0, c0, u, -u);
    forall v | -u <= v < -u + 4
      ensures ColorAt(g, At(d, p.0, p.1, v)) == ColorAt(g, At(d, p.0, p.1, -u))
    {
      AtAdd(d, r0, c0, u, v);
      assert ColorAt(g, At(d, r0, c0, u + v)) == ColorAt(g, At(d, r0, c0, u + v));
    }
  }

  /** A key that finds no win leaves no four in a line, provided there was
      none before; a win it finds is four in a line. */
  lemma PressNoFour(s: State, k: Key)
    requires Sane(s) && NoFour(s.board)
    ensures var (t, w) := Press(s, k);
      && (w == None ==> NoFour(t.board))
      && (w.Some? ==> FourInLine(t.board, w.value))
  {
    var (t, w) := Press(s, k);
    if k == Down && EmptyRow(s.board, s.col) >= 0 {
      var row := EmptyRow(s.board, s.col);
      if w.Some? {
        AllWinsSound(t.board, row, s.col);
      } else {
        forall d, r0, c0 | 0 <= r0 < Rows && 0 <= c0 < Cols
          ensures !FourAt(t.board, d, r0, c0)
        {
          if FourAt(t.board, d, r0, c0) {
            if u :| 0 <= u < 4 && At(d, r0, c0, u) == (row, s.col) {
              FourThrough(t.board, d, r0, c0, u);
              AllWinsComplete(t.board, row, s.col, d, -u);
            } else {
              FourMissesSlot(s.board, row, s.col, s.turn, d, r0, c0);
            }
          }
        }
      }
    }
  }

  /** The loop of `play` ends exactly when a drop finds four in a line or
      the top row is full: a win it reports is four in a line, and a tie, a
      close or a wait leaves no four on the board; a tie has a full top
      row, so that no column has room, while a close or a wait has room. */
  lemma {:induction false} RunEnds(s: State, k: Key, keys: seq<Key>)
    requires Sane(s) && NoFour(s.board)
    ensures var (t, out) := Run(s, k, keys);
      && Sane(t)
      && (out.Won? ==> FourInLine(t.board, out.chips))
      && (!out.Won? ==> NoFour(t.board))
      && (out.Tie? ==> TopFull(t.board) && forall c :: 0 <= c < Cols ==> EmptyRow(t.board, c) == -1)
      && (out.Closed? || out.Waiting? ==> !TopFull(t.board))
    decreases |keys|
  {
    var (t, w) := Press(s, k);
    PressSane(s, k);
    PressNoFour(s, k);
    SettledFull(t.board);
    if w.None? && !TopFull(t.board) && keys != [] && keys[0] != F1 {
      RunEnds(t, keys[0], keys[1..]);
    }
  }

  /** An empty board is where a game starts: settled, with no four in a
      line. */
  lemma EmptyStart(g: Board)
    requires IsBoard(g) && AllEmpty(g)
    ensures Settled(g) && NoFour(g)
  {
    forall d, r0, c0 | 0 <= r0 < Rows && 0 <= c0 < Cols
      ensures !FourAt(g, d, r0, c0)
    {
      assert ColorAt(g, At(d, r0, c0, 0)) == Empty;
    }
  }

  /** A game from an empty board, or from any settled board with no four
      in a line, ends as `RunEnds` says, with the turn and the held chip
      in range throughout. */
  lemma GameEnds(g: Board, keys: seq<Key>)
    requires IsBoard(g) && Settled(g) && NoFour(g)
    ensures var (t, out) := Game(g, keys);
      && Sane(t)
      && (out.Won? ==> FourInLine(t.board, out.chips))
      && (!out.Won? ==> NoFour(t.board))
      && (out.Tie? ==> TopFull(t.board))
      && (out.Closed? || out.Waiting? ==> !TopFull(t.board))
  {
    RunEnds(State(g, Red, 0), Other, keys);
  }
}
