/** The board rules of Tetris (Tetris/Tetris.c).  The ncurses game window is
    the board: `maxy x maxx` screen cells, each holding the colour-pair
    number of what is drawn there (0 for `COLOR_PAIR(0)`, 1..7 for the
    seven pieces).  A block of a piece covers two adjacent screen columns.
    The falling piece is kept apart from the window: it is erased from the
    window before every check and drawn again at the end of every pass. */
module Tetris {
  import opened Grids
  import opened Tetromino

  /** The game window as a value, row by row. */
  type Board = Grid<int>

  /** `COLOR_PAIR(0)`: nothing drawn. */
  const Empty := 0

  /** Height and width of a board (its first row's length). */
  function MaxY(b: Board): int
  {
    |b|
  }

  function MaxX(b: Board): int
  {
    if |b| == 0 then 0 else |b[0]|
  }

  /** A well-formed game window: a rectangle at least two rows high and four
      columns wide whose border (the `box` around the window) holds no
      colour. */
  predicate Framed(b: Board)
  {
    && 2 <= |b|
    && IsGrid(b, |b|, |b[0]|)
    && 4 <= |b[0]|
    && (forall x :: 0 <= x < |b[0]| ==> b[0][x] == Empty && b[|b| - 1][x] == Empty)
    && (forall y :: 0 <= y < |b| ==> b[y][0] == Empty && b[y][|b[0]| - 1] == Empty)
  }

  /** `is_valid`: a screen cell where a block may start. */
  predicate IsValid(maxy: int, maxx: int, y: int, x: int)
  {
    0 < y < maxy - 1 && 0 < x < maxx - 2
  }

  /** Every filled block of `t` placed at (y, x) starts at a valid cell. */
  predicate Inside(maxy: int, maxx: int, t: Shape, y: int, x: int)
    requires IsShape(t)
  {
    forall i, j :: 0 <= i < 4 && 0 <= j < 4 && t[i][j] ==> IsValid(maxy, maxx, y + i, x + 2 * j)
  }

  /** `can_move` as a value: every filled block of `t` placed at (y, x)
      starts at a valid cell that holds no colour. */
  predicate Fits(b: Board, t: Shape, y: int, x: int)
    requires Framed(b) && IsShape(t)
  {
    forall i, j :: 0 <= i < 4 && 0 <= j < 4 && t[i][j] ==>
      IsValid(MaxY(b), MaxX(b), y + i, x + 2 * j) && b[y + i][x + 2 * j] == Empty
  }

  /** Screen cell (yy, xx) is covered by a block of `t` placed at (y, x):
      block (i, j) is drawn on cells (y + i, x + 2j) and (y + i, x + 2j + 1). */
  predicate Covers(t: Shape, y: int, x: int, yy: int, xx: int)
    requires IsShape(t)
  {
    0 <= yy - y < 4 && 0 <= xx - x < 8 && t[yy - y][(xx - x) / 2]
  }

  /** `draw_tetromino` as a value: the covered cells get colour `c`, every
      other cell keeps its colour. */
  function Painted(b: Board, t: Shape, y: int, x: int, c: int): (r: Board)
    requires Framed(b) && IsShape(t)
    ensures IsGrid(r, |b|, |b[0]|)
  {
    seq(|b|, yy requires 0 <= yy < |b| =>
      seq(|b[0]|, xx requires 0 <= xx < |b[0]| =>
        if Covers(t, y, x, yy, xx) then c else b[yy][xx]))
  }

  /** Drawing a piece whose blocks all start at valid cells touches only
      the inside of the window, so the window stays framed. */
  lemma PaintedFramed(b: Board, t: Shape, y: int, x: int, c: int)
    requires Framed(b) && IsShape(t) && Inside(|b|, |b[0]|, t, y, x)
    ensures Framed(Painted(b, t, y, x, c))
  {
    var r := Painted(b, t, y, x, c);
    forall yy, xx | 0 <= yy < |b| && 0 <= xx < |b[0]| && Covers(t, y, x, yy, xx)
      ensures 1 <= yy <= |b| - 2 && 1 <= xx <= |b[0]| - 2
    {
      var i, j := yy - y, (xx - x) / 2;
      assert IsValid(MaxY(b), MaxX(b), y + i, x + 2 * j);
    }
    forall xx | 0 <= xx < |b[0]|
      ensures r[0][xx] == Empty && r[|b| - 1][xx] == Empty
    {
      assert !Covers(t, y, x, 0, xx) && !Covers(t, y, x, |b| - 1, xx);
    }
    forall yy | 0 <= yy < |b|
      ensures r[yy][0] == Empty && r[yy][|b[0]| - 1] == Empty
    {
      assert !Covers(t, y, x, yy, 0) && !Covers(t, y, x, yy, |b[0]| - 1);
    }
  }

  /** `can_move`: scans the 4x4 matrix and rejects at the first filled
      block that starts outside the valid cells or on a coloured one. */
  method CanMove(win: array2<int>, t: Shape, y: int, x: int) returns (ok: bool)
    requires Framed(Snapshot(win)) && IsShape(t)
    ensures ok == Fits(Snapshot(win), t, y, x)
  {
    ghost var b := Snapshot(win);
    for i := 0 to 4
      invariant forall i', j :: 0 <= i' < i && 0 <= j < 4 && t[i'][j] ==>
        IsValid(MaxY(b), MaxX(b), y + i', x + 2 * j) && b[y + i'][x + 2 * j] == Empty
    {
      for j := 0 to 4
        invariant forall i', j' :: 0 <= j' < 4 && (i' < i || (i' == i && j' < j)) && 0 <= i' && t[i'][j'] ==>
          IsValid(MaxY(b), MaxX(b), y + i', x + 2 * j') && b[y + i'][x + 2 * j'] == Empty
      {
        var valid := IsValid(win.Length0, win.Length1, y + i, x + 2 * j);
        if t[i][j] && (!valid || win[y + i, x + 2 * j] != Empty) {
          return false;
        }
      }
    }
    return true;
  }

  /** Cell (yy, xx) is covered by one of the blocks that come before block
      (i, j) in row-major order. */
  predicate DrawnBefore(t: Shape, y: int, x: int, yy: int, xx: int, i: int, j: int)
    requires IsShape(t)
  {
    Covers(t, y, x, yy, xx) && (yy - y < i || (yy - y == i && (xx - x) / 2 < j))
  }

  /** Going past block (i, j) adds exactly its two screen cells. */
  lemma DrawnBeforeNext(t: Shape, y: int, x: int, yy: int, xx: int, i: int, j: int)
    requires IsShape(t) && 0 <= i < 4 && 0 <= j < 4
    ensures DrawnBefore(t, y, x, yy, xx, i, j + 1) <==>
      DrawnBefore(t, y, x, yy, xx, i, j) || (t[i][j] && yy == y + i && (xx == x + 2 * j || xx == x + 2 * j + 1))
  {
  }

  /** `draw_tetromino`: draws both screen columns of every filled block in
      colour `c`.  With `c == Empty` this is the erase at the top of the
      drop loop, otherwise the final draw that locks the piece. */
  method Draw(win: array2<int>, t: Shape, y: int, x: int, c: int)
    requires Framed(Snapshot(win)) && IsShape(t) && Inside(win.Length0, win.Length1, t, y, x)
    modifies win
    ensures Snapshot(win) == Painted(old(Snapshot(win)), t, y, x, c)
  {
    ghost var b := Snapshot(win);
    for i := 0 to 4
      invariant forall yy, xx :: 0 <= yy < win.Length0 && 0 <= xx < win.Length1 ==>
        win[yy, xx] == if DrawnBefore(t, y, x, yy, xx, i, 0) then c else b[yy][xx]
    {
      for j := 0 to 4
        invariant forall yy, xx :: 0 <= yy < win.Length0 && 0 <= xx < win.Length1 ==>
          win[yy, xx] == if DrawnBefore(t, y, x, yy, xx, i, j) then c else b[yy][xx]
      {
        forall yy, xx {
          DrawnBeforeNext(t, y, x, yy, xx, i, j);
        }
        if t[i][j] {
          win[y + i, x + 2 * j] := c;
          win[y + i, x + 2 * j + 1] := c;
        }
      }
      assert forall yy, xx :: DrawnBefore(t, y, x, yy, xx, i, 4) == DrawnBefore(t, y, x, yy, xx, i + 1, 0);
    }
    assert forall yy, xx :: DrawnBefore(t, y, x, yy, xx, 4, 0) == Covers(t, y, x, yy, xx);
    SnapshotIs(win, Painted(b, t, y, x, c));
  }

  /** The keys `drop_tetromino` reacts to; any other key changes nothing. */
  datatype Key = Left | Right | Up | Down | Space | OtherKey

  /** `CONTINUE`, `RESTART`, `QUIT`: the statuses a round ends with, and
      the three answers of the pause menu in menu order. */
  datatype Status = Continue | Restart | Quit

  /** What one pass of the drop loop reads: the key (if any), the answer the
      pause menu would give, and whether the fall timer has run out.  The
      fall timer of the source (wall-clock time against a drop rate that
      KEY_DOWN shortens) is replaced by `gravityDue`. */
  datatype TickInput = TickInput(key: Key, answer: Status, gravityDue: bool)

  /** The falling piece: its matrix, the matrix of its next quarter turn
      (`rot` in the source), and the screen cell of its top-left block. */
  datatype Piece = Piece(t: Shape, rot: Shape, sy: int, sx: int)

  /** A piece whose matrix hugs the top-left corner and whose `rot` is its
      quarter turn. */
  predicate PieceOk(p: Piece)
  {
    IsShape(p.t) && Aligned(p.t) && p.rot == Rotated(p.t)
  }

  /** The outcome of one pass of the drop loop: the piece is still falling
      (possibly moved), it has landed and must be locked, or the pause menu
      ended the round. */
  datatype TickResult = Falling(p: Piece) | Landed(p: Piece) | Stopped(status: Status)

  /** The key handling of the drop loop on the window `e`, from which the
      piece has just been erased: at most one move, each only when
      `can_move` allows it. */
  function Moved(e: Board, p: Piece, key: Key): Piece
    requires Framed(e) && PieceOk(p)
  {
    if key == Left && Fits(e, p.t, p.sy, p.sx - 2) then p.(sx := p.sx - 2)
    else if key == Right && Fits(e, p.t, p.sy, p.sx + 2) then p.(sx := p.sx + 2)
    else if key == Up && Fits(e, p.rot, p.sy, p.sx) then Piece(p.rot, Rotated(p.rot), p.sy, p.sx)
    else p
  }

  /** One pass of the drop loop after the erase: the key, then the pause
      menu, then gravity. */
  function Step(e: Board, p: Piece, inp: TickInput): TickResult
    requires Framed(e) && PieceOk(p)
  {
    if inp.key == Space && inp.answer != Continue then Stopped(inp.answer)
    else
      var q := Moved(e, p, inp.key);
      if !inp.gravityDue then Falling(q)
      else if Fits(e, q.t, q.sy + 1, q.sx) then Falling(q.(sy := q.sy + 1))
      else Landed(q)
  }

  /** The key handling of one pass of the drop loop. */
  method MoveByKey(win: array2<int>, p: Piece, key: Key) returns (q: Piece)
    requires Framed(Snapshot(win)) && PieceOk(p)
    ensures q == Moved(Snapshot(win), p, key)
  {
    ghost var e := Snapshot(win);
    var left, right, up := false, false, false;
    if key == Left {
      left := CanMove(win, p.t, p.sy, p.sx - 2);
    } else if key == Right {
      right := CanMove(win, p.t, p.sy, p.sx + 2);
    } else if key == Up {
      up := CanMove(win, p.rot, p.sy, p.sx);
    }
    assert left == (key == Left && Fits(e, p.t, p.sy, p.sx - 2));
    assert right == (key == Right && Fits(e, p.t, p.sy, p.sx + 2));
    assert up == (key == Up && Fits(e, p.rot, p.sy, p.sx));
    if left {
      q := p.(sx := p.sx - 2);
    } else if right {
      q := p.(sx := p.sx + 2);
    } else if up {
      q := Piece(p.rot, Rotated(p.rot), p.sy, p.sx);
    } else {
      q := p;
    }
  }

  /** One pass of the drop loop: erase the piece, read the input, move. */
  method Tick(win: array2<int>, p: Piece, inp: TickInput) returns (res: TickResult)
    requires Framed(Snapshot(win)) && PieceOk(p) && Inside(win.Length0, win.Length1, p.t, p.sy, p.sx)
    modifies win
    ensures Snapshot(win) == Painted(old(Snapshot(win)), p.t, p.sy, p.sx, Empty)
    ensures Framed(Snapshot(win))
    ensures res == Step(Snapshot(win), p, inp)
  {
    PaintedFramed(Snapshot(win), p.t, p.sy, p.sx, Empty);
    Draw(win, p.t, p.sy, p.sx, Empty);
    if inp.key == Space && inp.answer != Continue {
      return Stopped(inp.answer);
    }
    var q := MoveByKey(win, p, inp.key);
    if inp.gravityDue {
      var ok := CanMove(win, q.t, q.sy + 1, q.sx);
      if ok {
        return Falling(q.(sy := q.sy + 1));
      }
      return Landed(q);
    }
    return Falling(q);
  }

  /** The piece a pass of the drop loop leaves behind (the piece itself
      when the pause menu ended the round). */
  function After(p: Piece, r: TickResult): Piece
  {
    match r
    case Falling(q) => q
    case Landed(q) => q
    case Stopped(_) => p
  }

  /** The key handling moves the piece at most once: sideways by exactly
      two screen columns (so the parity of `sx` is kept), or to its quarter
      turn, and only to a place where it fits; it never changes the row. */
  lemma MovedByKey(e: Board, p: Piece, key: Key)
    requires Framed(e) && PieceOk(p)
    ensures var q := Moved(e, p, key);
      && PieceOk(q)
      && q.sy == p.sy
      && q.sx % 2 == p.sx % 2
      && (q.sx == p.sx - 2 <==> key == Left && Fits(e, p.t, p.sy, p.sx - 2))
      && (q.sx == p.sx + 2 <==> key == Right && Fits(e, p.t, p.sy, p.sx + 2))
      && (q.sx == p.sx || q.sx == p.sx - 2 || q.sx == p.sx + 2)
      && q.t == (if key == Up && Fits(e, p.rot, p.sy, p.sx) then p.rot else p.t)
      && (q != p ==> Fits(e, q.t, q.sy, q.sx))
  {
    if key == Up && Fits(e, p.rot, p.sy, p.sx) {
      RotatedAligned(p.t);
    }
  }

  /** What one pass of the drop loop may do to the piece: the pause menu
      stops the round exactly when it answers RESTART or QUIT; otherwise
      the key moves it as `MovedByKey` says, and then it falls at most one
      row, only into a place where it fits, and lands exactly when gravity
      is due and it cannot fall. */
  lemma StepMoves(e: Board, p: Piece, inp: TickInput)
    requires Framed(e) && PieceOk(p)
    ensures Step(e, p, inp).Stopped? <==> inp.key == Space && inp.answer != Continue
    ensures !Step(e, p, inp).Stopped? ==> (
      var m, q := Moved(e, p, inp.key), After(p, Step(e, p, inp));
      && PieceOk(q)
      && q.t == m.t && q.sx == m.sx
      && (q.sy == p.sy || q.sy == p.sy + 1)
      && (q.sy == p.sy + 1 <==> inp.gravityDue && Fits(e, m.t, p.sy + 1, m.sx))
      && (Step(e, p, inp).Landed? <==> inp.gravityDue && !Fits(e, m.t, p.sy + 1, m.sx))
      && (q != p ==> Fits(e, q.t, q.sy, q.sx)))
  {
    MovedByKey(e, p, inp.key);
  }

  /** Screen columns come in pairs (x, x + 1) with `x % 2 == par`, and the
      two cells of every pair hold the same colour.  Every block the game
      draws covers such a pair, since pieces spawn at one column and move
      sideways two columns at a time. */
  predicate Paired(b: Board, par: int)
    requires Framed(b)
  {
    forall y, x :: 0 <= y < |b| && 0 <= x < |b[0]| - 1 && x % 2 == par ==> b[y][x] == b[y][x + 1]
  }

  /** Drawing a piece keeps the pairing of its own column parity. */
  lemma PaintedPaired(b: Board, t: Shape, y: int, x: int, c: int)
    requires Framed(b) && IsShape(t) && Inside(|b|, |b[0]|, t, y, x) && Paired(b, x % 2)
    ensures Framed(Painted(b, t, y, x, c)) && Paired(Painted(b, t, y, x, c), x % 2)
  {
    PaintedFramed(b, t, y, x, c);
    var r := Painted(b, t, y, x, c);
    forall yy, xx | 0 <= yy < |b| && 0 <= xx < |b[0]| - 1 && xx % 2 == x % 2
      ensures r[yy][xx] == r[yy][xx + 1]
    {
      assert (xx - x) % 2 == 0;
      assert (xx + 1 - x) / 2 == (xx - x) / 2;
      assert Covers(t, y, x, yy, xx) == Covers(t, y, x, yy, xx + 1);
    }
  }

  /** Drawing a piece over itself leaves only the second colour.  So the
      draw that ends every pass of the drop loop in which the piece keeps
      falling is undone by the erase that starts the next pass, and the
      model leaves that pair of draws out. */
  lemma PaintedOver(b: Board, t: Shape, y: int, x: int, c: int, d: int)
    requires Framed(b) && IsShape(t) && Framed(Painted(b, t, y, x, c))
    ensures Painted(Painted(b, t, y, x, c), t, y, x, d) == Painted(b, t, y, x, d)
  {
    GridExt(Painted(Painted(b, t, y, x, c), t, y, x, d), Painted(b, t, y, x, d), |b|, |b[0]|);
  }

  /** A pass of the drop loop keeps the piece well formed and on valid
      cells, keeps the parity of its column and never lifts it. */
  lemma StepKeeps(e: Board, p: Piece, inp: TickInput)
    requires Framed(e) && PieceOk(p) && Inside(|e|, |e[0]|, p.t, p.sy, p.sx)
    ensures !Step(e, p, inp).Stopped? ==> (
      var q := After(p, Step(e, p, inp));
      PieceOk(q) && Inside(|e|, |e[0]|, q.t, q.sy, q.sx) && q.sx % 2 == p.sx % 2 && q.sy >= p.sy)
  {
    StepMoves(e, p, inp);
    MovedByKey(e, p, inp.key);
  }

  /** A pass of the drop loop moves the piece only to a place where it
      fits, and lands it only where it cannot fall one more row. */
  lemma StepFits(e: Board, p: Piece, inp: TickInput)
    requires Framed(e) && PieceOk(p)
    ensures !Step(e, p, inp).Stopped? ==> (
      var q := After(p, Step(e, p, inp));
      && (q != p ==> Fits(e, q.t, q.sy, q.sx))
      && (Step(e, p, inp).Landed? ==> !Fits(e, q.t, q.sy + 1, q.sx)))
  {
    StepMoves(e, p, inp);
    MovedByKey(e, p, inp.key);
  }

  /** How the drop loop of `drop_tetromino` ends. */
  datatype DropResult =
    | Locked(p: Piece)       // the piece could not fall and was drawn in
    | Halted(status: Status) // the pause menu answered RESTART or QUIT
    | Pending(p: Piece)      // the inputs ran out while the piece falls

  /** The drop loop on a sequence of passes, as the proofs below use it:
      every pass first erases the piece, then reads one input; a landed
      piece is drawn in colour `c`.  The draw that ends a pass in which the
      piece keeps falling is left out (see `Dropped` and `DroppedIsDrop`). */
  function Drop(b: Board, p: Piece, c: int, ticks: seq<TickInput>): (r: (Board, DropResult))
    requires Framed(b) && PieceOk(p) && Inside(|b|, |b[0]|, p.t, p.sy, p.sx)
    ensures Framed(r.0) && |r.0| == |b| && |r.0[0]| == |b[0]|
    ensures !r.1.Halted? ==> (
      var q := r.1.p;
      PieceOk(q) && Inside(|b|, |b[0]|, q.t, q.sy, q.sx) && q.sx % 2 == p.sx % 2 && q.sy >= p.sy)
    decreases |ticks|
  {
    if ticks == [] then (b, Pending(p))
    else
      PaintedFramed(b, p.t, p.sy, p.sx, Empty);
      var e := Painted(b, p.t, p.sy, p.sx, Empty);
      StepKeeps(e, p, ticks[0]);
      match Step(e, p, ticks[0])
      case Falling(q) => Drop(e, q, c, ticks[1..])
      case Landed(q) =>
        PaintedFramed(e, q.t, q.sy, q.sx, c);
        (Painted(e, q.t, q.sy, q.sx, c), Locked(q))
      case Stopped(s) => (e, Halted(s))
  }

  /** The loop of `drop_tetromino` as written: every pass erases the piece,
      reads one input and moves the piece; a pass in which the piece keeps
      falling ends by drawing it in colour `c`, and a landed piece is drawn
      in colour `c` once more after the loop. */
  function Dropped(b: Board, p: Piece, c: int, ticks: seq<TickInput>): (r: (Board, DropResult))
    requires Framed(b) && PieceOk(p) && Inside(|b|, |b[0]|, p.t, p.sy, p.sx)
    ensures Framed(r.0) && |r.0| == |b| && |r.0[0]| == |b[0]|
    ensures !r.1.Halted? ==> (
      var q := r.1.p;
      PieceOk(q) && Inside(|b|, |b[0]|, q.t, q.sy, q.sx) && q.sx % 2 == p.sx % 2 && q.sy >= p.sy)
    ensures r.1.Halted? ==> r.1.status != Continue
    decreases |ticks|
  {
    if ticks == [] then (b, Pending(p))
    else
      PaintedFramed(b, p.t, p.sy, p.sx, Empty);
      var e := Painted(b, p.t, p.sy, p.sx, Empty);
      StepKeeps(e, p, ticks[0]);
      match Step(e, p, ticks[0])
      case Falling(q) =>
        PaintedFramed(e, q.t, q.sy, q.sx, c);
        Dropped(Painted(e, q.t, q.sy, q.sx, c), q, c, ticks[1..])
      case Landed(q) =>
        PaintedFramed(e, q.t, q.sy, q.sx, c);
        (Painted(e, q.t, q.sy, q.sx, c), Locked(q))
      case Stopped(s) => (e, Halted(s))
  }

  /** From a window holding the piece drawn in colour `c` on `e`, the loop
      as written ends as `Drop` does from `e`; only a loop cut off by the
      end of the input differs, by the piece still drawn where it is. */
  lemma {:induction false} RedrawnDrop(e: Board, p: Piece, c: int, ticks: seq<TickInput>)
    requires Framed(e) && PieceOk(p) && Inside(|e|, |e[0]|, p.t, p.sy, p.sx)
    ensures Framed(Painted(e, p.t, p.sy, p.sx, c))
    ensures var w, d := Dropped(Painted(e, p.t, p.sy, p.sx, c), p, c, ticks), Drop(e, p, c, ticks);
      && w.1 == d.1
      && (d.1.Pending? ==> w.0 == Painted(d.0, d.1.p.t, d.1.p.sy, d.1.p.sx, c))
      && (!d.1.Pending? ==> w.0 == d.0)
    decreases |ticks|
  {
    PaintedFramed(e, p.t, p.sy, p.sx, c);
    if ticks != [] {
      PaintedOver(e, p.t, p.sy, p.sx, c, Empty);
      PaintedFramed(e, p.t, p.sy, p.sx, Empty);
      var x := Painted(e, p.t, p.sy, p.sx, Empty);
      StepKeeps(x, p, ticks[0]);
      match Step(x, p, ticks[0])
      case Falling(q) => RedrawnDrop(x, q, c, ticks[1..]);
      case Landed(q) =>
      case Stopped(s) =>
    }
  }

  /** The loop as written and `Drop` end the same way and leave the same
      window, except that a loop cut off by the end of the input after at
      least one pass still shows the falling piece in colour `c`. */
  lemma DroppedIsDrop(b: Board, p: Piece, c: int, ticks: seq<TickInput>)
    requires Framed(b) && PieceOk(p) && Inside(|b|, |b[0]|, p.t, p.sy, p.sx)
    ensures var w, d := Dropped(b, p, c, ticks), Drop(b, p, c, ticks);
      && w.1 == d.1
      && (d.1.Pending? && ticks != [] ==> w.0 == Painted(d.0, d.1.p.t, d.1.p.sy, d.1.p.sx, c))
      && (!d.1.Pending? || ticks == [] ==> w.0 == d.0)
  {
    if ticks != [] {
      PaintedFramed(b, p.t, p.sy, p.sx, Empty);
      var e := Painted(b, p.t, p.sy, p.sx, Empty);
      StepKeeps(e, p, ticks[0]);
      match Step(e, p, ticks[0])
      case Falling(q) => RedrawnDrop(e, q, c, ticks[1..]);
      case Landed(q) =>
      case Stopped(s) =>
    }
  }

  /** One pass of the loop as written in which the piece keeps falling. */
  lemma DroppedFalling(b: Board, p: Piece, c: int, ticks: seq<TickInput>, q: Piece)
    requires Framed(b) && PieceOk(p) && Inside(|b|, |b[0]|, p.t, p.sy, p.sx) && ticks != []
    requires Framed(Painted(b, p.t, p.sy, p.sx, Empty))
    requires Step(Painted(b, p.t, p.sy, p.sx, Empty), p, ticks[0]) == Falling(q)
    ensures PieceOk(q) && Inside(|b|, |b[0]|, q.t, q.sy, q.sx)
    ensures Framed(Painted(Painted(b, p.t, p.sy, p.sx, Empty), q.t, q.sy, q.sx, c))
    ensures Dropped(b, p, c, ticks) == Dropped(Painted(Painted(b, p.t, p.sy, p.sx, Empty), q.t, q.sy, q.sx, c), q, c, ticks[1..])
  {
    StepKeeps(Painted(b, p.t, p.sy, p.sx, Empty), p, ticks[0]);
    PaintedFramed(Painted(b, p.t, p.sy, p.sx, Empty), q.t, q.sy, q.sx, c);
  }

  /** No cell covered by the piece holds a colour: the piece has been
      erased from the board (or was never drawn on it). */
  predicate Erased(b: Board, t: Shape, y: int, x: int)
    requires Framed(b) && IsShape(t)
  {
    forall yy, xx :: 0 <= yy < |b| && 0 <= xx < |b[0]| && Covers(t, y, x, yy, xx) ==> b[yy][xx] == Empty
  }

  /** Erasing a piece that is not on the board changes nothing. */
  lemma ErasedFixed(b: Board, t: Shape, y: int, x: int)
    requires Framed(b) && IsShape(t) && Erased(b, t, y, x)
    ensures Painted(b, t, y, x, Empty) == b
  {
    GridExt(Painted(b, t, y, x, Empty), b, |b|, |b[0]|);
  }

  /** On a paired board a piece that fits covers only empty cells. */
  lemma FitsErased(b: Board, t: Shape, y: int, x: int)
    requires Framed(b) && IsShape(t) && Paired(b, x % 2) && Fits(b, t, y, x)
    ensures Erased(b, t, y, x)
  {
    forall yy, xx | 0 <= yy < |b| && 0 <= xx < |b[0]| && Covers(t, y, x, yy, xx)
      ensures b[yy][xx] == Empty
    {
      var i, j := yy - y, (xx - x) / 2;
      assert t[i][j] && b[y + i][x + 2 * j] == Empty;
      if xx != x + 2 * j {
        assert (x + 2 * j) % 2 == x % 2;
      }
    }
  }

  /** A pass of `Drop` from a board the piece is erased from, in which the
      piece keeps falling: the board is unchanged. */
  lemma ErasedFalling(b: Board, p: Piece, c: int, ticks: seq<TickInput>, q: Piece)
    requires Framed(b) && PieceOk(p) && Inside(|b|, |b[0]|, p.t, p.sy, p.sx) && ticks != []
    requires Erased(b, p.t, p.sy, p.sx) && Step(b, p, ticks[0]) == Falling(q)
    requires Paired(b, p.sx % 2)
    ensures PieceOk(q) && Inside(|b|, |b[0]|, q.t, q.sy, q.sx)
    ensures q.sx % 2 == p.sx % 2 && Erased(b, q.t, q.sy, q.sx)
    ensures Drop(b, p, c, ticks) == Drop(b, q, c, ticks[1..])
  {
    ErasedFixed(b, p.t, p.sy, p.sx);
    StepKeeps(b, p, ticks[0]);
    StepFits(b, p, ticks[0]);
    if q != p {
      FitsErased(b, q.t, q.sy, q.sx);
    }
  }

  /** A pass of `Drop` from a board the piece is erased from, in which the
      piece lands: it is drawn on that board. */
  lemma ErasedLanded(b: Board, p: Piece, c: int, ticks: seq<TickInput>, q: Piece)
    requires Framed(b) && PieceOk(p) && Inside(|b|, |b[0]|, p.t, p.sy, p.sx) && ticks != []
    requires Erased(b, p.t, p.sy, p.sx) && Step(b, p, ticks[0]) == Landed(q)
    ensures IsShape(q.t) && !Fits(b, q.t, q.sy + 1, q.sx)
    ensures Drop(b, p, c, ticks) == (Painted(b, q.t, q.sy, q.sx, c), Locked(q))
  {
    ErasedFixed(b, p.t, p.sy, p.sx);
    StepKeeps(b, p, ticks[0]);
    StepFits(b, p, ticks[0]);
  }

  /** A pass of `Drop` from a board the piece is erased from, in which the
      pause menu ends the round: the board is unchanged. */
  lemma ErasedStopped(b: Board, p: Piece, c: int, ticks: seq<TickInput>, s: Status)
    requires Framed(b) && PieceOk(p) && Inside(|b|, |b[0]|, p.t, p.sy, p.sx) && ticks != []
    requires Erased(b, p.t, p.sy, p.sx) && Step(b, p, ticks[0]) == Stopped(s)
    ensures Drop(b, p, c, ticks) == (b, Halted(s))
  {
    ErasedFixed(b, p.t, p.sy, p.sx);
  }

  /** On a paired board from which the piece is erased, the drop loop
      changes the window only by the final draw; a round stopped by the
      pause menu or still falling leaves the window as it was. */
  lemma {:induction false} DropLands(b: Board, p: Piece, c: int, ticks: seq<TickInput>)
    requires Framed(b) && PieceOk(p) && Inside(|b|, |b[0]|, p.t, p.sy, p.sx)
    requires Paired(b, p.sx % 2) && Erased(b, p.t, p.sy, p.sx)
    ensures var d := Drop(b, p, c, ticks);
      if d.1.Locked? then d.0 == Painted(b, d.1.p.t, d.1.p.sy, d.1.p.sx, c) else d.0 == b
    decreases |ticks|
  {
    if ticks != [] {
      match Step(b, p, ticks[0])
      case Falling(q) =>
        ErasedFalling(b, p, c, ticks, q);
        DropLands(b, q, c, ticks[1..]);
      case Landed(q) =>
        ErasedLanded(b, p, c, ticks, q);
      case Stopped(s) =>
        ErasedStopped(b, p, c, ticks, s);
    }
  }

  /** A drop that ends with a locked piece locked it where it cannot fall
      one more row on `b`. */
  predicate Blocked(b: Board, r: DropResult)
    requires Framed(b)
  {
    r.Locked? && IsShape(r.p.t) ==> !Fits(b, r.p.t, r.p.sy + 1, r.p.sx)
  }

  /** The drop loop locks the piece only where it cannot fall one more
      row. */
  lemma {:induction false} DropLandsBlocked(b: Board, p: Piece, c: int, ticks: seq<TickInput>)
    requires Framed(b) && PieceOk(p) && Inside(|b|, |b[0]|, p.t, p.sy, p.sx)
    requires Paired(b, p.sx % 2) && Erased(b, p.t, p.sy, p.sx)
    ensures Blocked(b, Drop(b, p, c, ticks).1)
    decreases |ticks|
  {
    if ticks != [] {
      match Step(b, p, ticks[0])
      case Falling(q) =>
        ErasedFalling(b, p, c, ticks, q);
        DropLandsBlocked(b, q, c, ticks[1..]);
      case Landed(q) =>
        ErasedLanded(b, p, c, ticks, q);
      case Stopped(s) =>
        ErasedStopped(b, p, c, ticks, s);
    }
  }

  /** A piece that starts on empty cells is locked on empty cells: it never
      overwrites a block already in the window. */
  lemma {:induction false} DropLandsOnEmpty(b: Board, p: Piece, c: int, ticks: seq<TickInput>)
    requires Framed(b) && PieceOk(p) && Inside(|b|, |b[0]|, p.t, p.sy, p.sx)
    requires Paired(b, p.sx % 2) && Fits(b, p.t, p.sy, p.sx)
    ensures var r := Drop(b, p, c, ticks).1;
      r.Locked? ==> Fits(b, r.p.t, r.p.sy, r.p.sx)
    decreases |ticks|
  {
    if ticks != [] {
      FitsErased(b, p.t, p.sy, p.sx);
      StepFits(b, p, ticks[0]);
      match Step(b, p, ticks[0])
      case Falling(q) =>
        ErasedFalling(b, p, c, ticks, q);
        DropLandsOnEmpty(b, q, c, ticks[1..]);
      case Landed(q) =>
        ErasedLanded(b, p, c, ticks, q);
      case Stopped(s) =>
    }
  }

  /** The piece as `drop_tetromino` creates it: in row 1, at column
      `(maxx - 4) / 2`, with its quarter turn computed up front. */
  function Spawn(t: Shape, maxx: int): Piece
    requires IsShape(t)
  {
    Piece(t, Rotated(t), 1, (maxx - 4) / 2)
  }

  /** `drop_tetromino`: runs the drop loop from the spawn position until the
      piece lands (and is drawn in colour `c`), the pause menu ends the
      round, or the inputs run out.  The spawn position is never checked
      with `can_move`; the window must only be large enough for the piece
      to start on valid cells. */
  method DropTetromino(win: array2<int>, t: Shape, c: int, ticks: seq<TickInput>) returns (r: DropResult)
    requires Framed(Snapshot(win)) && IsShape(t) && Aligned(t)
    requires Inside(win.Length0, win.Length1, t, 1, (win.Length1 - 4) / 2)
    modifies win
    ensures (Snapshot(win), r) == Dropped(old(Snapshot(win)), Spawn(t, win.Length1), c, ticks)
  {
    ghost var b0 := Snapshot(win);
    var p := Piece(t, Rotated(t), 1, (win.Length1 - 4) / 2);
    var k := 0;
    while k < |ticks|
      invariant 0 <= k <= |ticks|
      invariant Framed(Snapshot(win)) && PieceOk(p) && Inside(win.Length0, win.Length1, p.t, p.sy, p.sx)
      invariant Dropped(Snapshot(win), p, c, ticks[k..]) == Dropped(b0, Spawn(t, win.Length1), c, ticks)
    {
      ghost var b := Snapshot(win);
      ghost var rest := ticks[k..];
      assert rest[0] == ticks[k] && rest[1..] == ticks[k + 1..];
      var res := Tick(win, p, ticks[k]);
      match res
      case Falling(q) =>
        DroppedFalling(b, p, c, rest, q);
        Draw(win, q.t, q.sy, q.sx, c);
        p := q;
        k := k + 1;
      case Landed(q) =>
        StepMoves(Snapshot(win), p, ticks[k]);
        Draw(win, q.t, q.sy, q.sx, c);
        return Locked(q);
      case Stopped(s) =>
        return Halted(s);
    }
    assert ticks[k..] == [];
    return Pending(p);
  }

  /** Erasing a piece leaves none of its cells coloured. */
  lemma PaintedErased(b: Board, t: Shape, y: int, x: int)
    requires Framed(b) && IsShape(t) && Inside(|b|, |b[0]|, t, y, x)
    ensures Framed(Painted(b, t, y, x, Empty)) && Erased(Painted(b, t, y, x, Empty), t, y, x)
  {
    PaintedFramed(b, t, y, x, Empty);
  }

  /** The window after the erase at the top of the first pass. */
  function Erase(b: Board, t: Shape, y: int, x: int): (e: Board)
    requires Framed(b) && IsShape(t) && Inside(|b|, |b[0]|, t, y, x)
    ensures Framed(e) && |e| == |b| && |e[0]| == |b[0]| && Erased(e, t, y, x)
  {
    PaintedErased(b, t, y, x);
    Painted(b, t, y, x, Empty)
  }

  /** The first pass of the drop loop erases the piece; from then on the
      loop runs as if it had started on the erased window, which keeps the
      pairing. */
  lemma DropAfterErase(b: Board, p: Piece, c: int, ticks: seq<TickInput>)
    requires Framed(b) && PieceOk(p) && Inside(|b|, |b[0]|, p.t, p.sy, p.sx) && ticks != []
    requires Paired(b, p.sx % 2)
    ensures Paired(Erase(b, p.t, p.sy, p.sx), p.sx % 2)
    ensures Drop(b, p, c, ticks) == Drop(Erase(b, p.t, p.sy, p.sx), p, c, ticks)
  {
    PaintedPaired(b, p.t, p.sy, p.sx, Empty);
    ErasedFixed(Erase(b, p.t, p.sy, p.sx), p.t, p.sy, p.sx);
  }

  /** What `drop_tetromino` does to a paired window when it reads at least
      one input: the first pass erases the cells under the spawn position
      (which is never checked); after that the window changes only by the
      piece drawn where it stands, and the piece locks only at a place from
      which it cannot fall; a round stopped by the pause menu leaves the
      window erased. */
  lemma DropFromSpawn(b: Board, t: Shape, c: int, ticks: seq<TickInput>)
    requires Framed(b) && IsShape(t) && Aligned(t) && ticks != []
    requires Inside(|b|, |b[0]|, t, 1, (|b[0]| - 4) / 2) && Paired(b, ((|b[0]| - 4) / 2) % 2)
    ensures var e := Erase(b, t, 1, (|b[0]| - 4) / 2);
      var d := Dropped(b, Spawn(t, |b[0]|), c, ticks);
      && (d.1.Locked? ==> d.0 == Painted(e, d.1.p.t, d.1.p.sy, d.1.p.sx, c) && !Fits(e, d.1.p.t, d.1.p.sy + 1, d.1.p.sx))
      && (d.1.Pending? ==> d.0 == Painted(e, d.1.p.t, d.1.p.sy, d.1.p.sx, c))
      && (d.1.Halted? ==> d.0 == e)
  {
    var s := Spawn(t, |b[0]|);
    assert s.t == t && s.sy == 1 && s.sx == (|b[0]| - 4) / 2;
    var e := Erase(b, t, 1, (|b[0]| - 4) / 2);
    assert e == Erase(b, s.t, s.sy, s.sx);
    DropAfterErase(b, s, c, ticks);
    DropLands(e, s, c, ticks);
    DropLandsBlocked(e, s, c, ticks);
    DroppedIsDrop(b, s, c, ticks);
  }

  /** When the spawn position is free, the erase does nothing and the
      piece locks on empty cells: no block already in the window is
      overwritten. */
  lemma DropFromFreeSpawn(b: Board, t: Shape, c: int, ticks: seq<TickInput>)
    requires Framed(b) && IsShape(t) && Aligned(t)
    requires Inside(|b|, |b[0]|, t, 1, (|b[0]| - 4) / 2) && Paired(b, ((|b[0]| - 4) / 2) % 2)
    requires Fits(b, t, 1, (|b[0]| - 4) / 2)
    ensures var r := Dropped(b, Spawn(t, |b[0]|), c, ticks).1;
      r.Locked? ==> Fits(b, r.p.t, r.p.sy, r.p.sx)
  {
    var s := Spawn(t, |b[0]|);
    assert s.t == t && s.sy == 1 && s.sx == (|b[0]| - 4) / 2;
    DroppedIsDrop(b, s, c, ticks);
    DropLandsOnEmpty(b, s, c, ticks);
  }

  /** Row `k` holds no colour in its interior columns 1..maxx-2: the test
      `clear_line` stops at. */
  predicate RowEmpty(b: Board, k: int)
    requires Rect(b) && 0 <= k < |b|
  {
    InteriorEmpty(b[k])
  }

  /** No interior cell of a screen row (all but its first and last) holds
      a colour. */
  predicate InteriorEmpty(row: seq<int>)
  {
    forall x :: 1 <= x <= |row| - 2 ==> row[x] == Empty
  }

  /** `clear_lines` and `game_over` look at the odd columns 2j+1 for
      j < maxx/2 - 1 only. */
  function Cols(b: Board): int
    requires Framed(b)
  {
    |b[0]| / 2 - 1
  }

  /** Every sampled column of row `k` holds a colour. */
  predicate SampledFull(b: Board, k: int)
    requires Framed(b) && 0 <= k < |b|
  {
    forall j :: 0 <= j < Cols(b) ==> b[k][2 * j + 1] != Empty
  }

  /** No sampled column of row `k` holds a colour. */
  predicate SampledEmpty(b: Board, k: int)
    requires Framed(b) && 0 <= k < |b|
  {
    forall j :: 0 <= j < Cols(b) ==> b[k][2 * j + 1] == Empty
  }

  /** The sampled columns lie inside the border, so a row with an empty
      interior is not full; and since the window is at least four columns
      wide there is at least one sampled column. */
  lemma EmptyNotFull(b: Board, k: int)
    requires Framed(b) && 0 <= k < |b| && RowEmpty(b, k)
    ensures !SampledFull(b, k) && SampledEmpty(b, k)
  {
    assert 1 <= 2 * 0 + 1 <= |b[0]| - 2;
  }

  /** The highest row `clear_line(n)` rewrites: moving up from row `n`, the
      first row whose upper neighbour has an empty interior, or row 1. */
  function StopRow(b: Board, n: int): (s: int)
    requires Rect(b) && 1 <= n < |b|
    ensures 1 <= s <= n
    ensures s == 1 || RowEmpty(b, s - 1)
    ensures forall k :: s <= k < n ==> !RowEmpty(b, k)
  {
    if n == 1 || RowEmpty(b, n - 1) then n else StopRow(b, n - 1)
  }

  /** A rectangular board. */
  predicate Rect(b: Board)
  {
    |b| > 0 && IsGrid(b, |b|, |b[0]|)
  }

  /** Rows `lo + 1` to `n` take, in their interior columns, the colours of
      the row above them; all other cells keep theirs. */
  function Shifted(b: Board, lo: int, n: int): (r: Board)
    requires Rect(b) && 0 <= lo <= n < |b|
    ensures Rect(r) && |r| == |b| && |r[0]| == |b[0]|
  {
    seq(|b|, y requires 0 <= y < |b| =>
      seq(|b[0]|, x requires 0 <= x < |b[0]| => ShiftedCell(b, lo, n, y, x)))
  }

  /** One cell of `Shifted(b, lo, n)`. */
  function ShiftedCell(b: Board, lo: int, n: int, y: int, x: int): int
    requires Rect(b) && 0 <= lo <= n < |b| && 0 <= y < |b| && 0 <= x < |b[0]|
  {
    if lo < y <= n && 1 <= x <= |b[0]| - 2 then b[y - 1][x] else b[y][x]
  }

  /** `clear_line(n)` as a value: every row from `StopRow(b, n)` to `n`
      takes, in its interior columns, the colours of the row above it; all
      other cells keep theirs. */
  function ClearedLine(b: Board, n: int): (r: Board)
    requires Rect(b) && 1 <= n < |b|
    ensures IsGrid(r, |b|, |b[0]|)
  {
    Shifted(b, StopRow(b, n) - 1, n)
  }

  /** The stop row is the only row satisfying its two conditions. */
  lemma StopRowIs(b: Board, n: int, i: int)
    requires Rect(b) && 1 <= i <= n < |b|
    requires i == 1 || RowEmpty(b, i - 1)
    requires forall k :: i <= k < n ==> !RowEmpty(b, k)
    ensures StopRow(b, n) == i
  {
  }

  /** `clear_line`: from row `n` upwards, copies the interior of the row
      above, stopping right after copying a row with an empty interior. */
  method ClearLine(win: array2<int>, n: int)
    requires Rect(Snapshot(win)) && 2 <= win.Length1 && 1 <= n < win.Length0
    modifies win
    ensures Snapshot(win) == ClearedLine(old(Snapshot(win)), n)
  {
    ghost var b := Snapshot(win);
    var i := n;
    while i > 0
      invariant 0 <= i <= n
      invariant forall k :: i <= k < n ==> !RowEmpty(b, k)
      invariant forall y, x :: 0 <= y < win.Length0 && 0 <= x < win.Length1 ==> win[y, x] == ShiftedCell(b, i, n, y, x)
    {
      var finished := CopyAbove(win, i, b, n);
      if finished {
        Settle(win, b, i - 1, n);
        return;
      }
      i := i - 1;
    }
    Settle(win, b, 0, n);
  }

  /** One pass of `clear_line`: row `i` takes the interior of row `i - 1`,
      so the shifted block grows by one row; reports whether the copied
      interior was empty. */
  method CopyAbove(win: array2<int>, i: int, ghost b: Board, ghost n: int) returns (finished: bool)
    requires Rect(b) && win.Length0 == |b| && win.Length1 == |b[0]| && 2 <= win.Length1 && 1 <= i <= n < |b|
    requires forall y, x :: 0 <= y < win.Length0 && 0 <= x < win.Length1 ==> win[y, x] == ShiftedCell(b, i, n, y, x)
    modifies win
    ensures forall y, x :: 0 <= y < win.Length0 && 0 <= x < win.Length1 ==> win[y, x] == ShiftedCell(b, i - 1, n, y, x)
    ensures finished == RowEmpty(b, i - 1)
  {
    ghost var above := b[i - 1];
    finished := true;
    for j := 1 to win.Length1 - 1
      invariant finished <==> forall x :: 1 <= x < j ==> above[x] == Empty
      invariant forall y, x :: 0 <= y < win.Length0 && y != i && 0 <= x < win.Length1 ==> win[y, x] == ShiftedCell(b, i, n, y, x)
      invariant forall x :: 0 <= x < win.Length1 ==> win[i, x] == if 1 <= x < j then above[x] else ShiftedCell(b, i, n, i, x)
    {
      var tmp := win[i - 1, j];
      win[i, j] := tmp;
      finished := finished && tmp == Empty;
    }
  }

  /** An array whose cells all agree with `ShiftedCell` for the row above
      the stop row holds `ClearedLine`. */
  lemma Settle(win: array2<int>, b: Board, lo: int, n: int)
    requires Rect(b) && 0 <= lo < n < |b| && win.Length0 == |b| && win.Length1 == |b[0]|
    requires forall y, x :: 0 <= y < win.Length0 && 0 <= x < win.Length1 ==> win[y, x] == ShiftedCell(b, lo, n, y, x)
    requires lo == 0 || RowEmpty(b, lo)
    requires forall k :: lo < k < n ==> !RowEmpty(b, k)
    ensures Snapshot(win) == ClearedLine(b, n)
  {
    StopRowIs(b, n, lo + 1);
    SnapshotIs(win, Shifted(b, lo, n));
  }

  /** Shifting never touches row 0, the bottom row below `n`, or the two
      border columns, so the board stays framed. */
  lemma ShiftedFramed(b: Board, lo: int, n: int)
    requires Framed(b) && 0 <= lo <= n < |b| - 1
    ensures Framed(Shifted(b, lo, n))
  {
  }

  /** The rows a shift leaves alone. */
  lemma ShiftedKeeps(b: Board, lo: int, n: int, y: int)
    requires Rect(b) && 0 <= lo <= n < |b|
    requires 0 <= y <= lo || n < y < |b|
    ensures Shifted(b, lo, n)[y] == b[y]
  {
  }

  /** The number of rows among 1..i all of whose sampled columns hold a
      colour: the rows `clear_lines` would call full. */
  function FullRows(b: Board, i: int): (r: nat)
    requires Framed(b) && 0 <= i < |b|
    ensures r <= i
  {
    if i == 0 then 0 else FullRows(b, i - 1) + (if SampledFull(b, i) then 1 else 0)
  }

  /** Boards that agree on rows 1..k have the same full rows up to `k`. */
  lemma {:induction false} FullRowsAgree(b: Board, c: Board, k: int)
    requires Framed(b) && Framed(c) && 0 <= k < |b| && k < |c| && |b[0]| == |c[0]|
    requires forall y :: 1 <= y <= k ==> b[y] == c[y]
    ensures FullRows(b, k) == FullRows(c, k)
  {
    if k > 0 {
      FullRowsAgree(b, c, k - 1);
    }
  }

  /** Inside the block a shift rewrites, a row is full exactly when the row
      above it was. */
  lemma ShiftedSampled(b: Board, lo: int, n: int, k: int)
    requires Framed(b) && 0 <= lo < k <= n < |b| - 1
    ensures Framed(Shifted(b, lo, n))
    ensures SampledFull(Shifted(b, lo, n), k) == SampledFull(b, k - 1)
  {
    ShiftedFramed(b, lo, n);
    var c := Shifted(b, lo, n);
    assert forall j :: 0 <= j < Cols(b) ==> c[k][2 * j + 1] == b[k - 1][2 * j + 1];
  }

  /** Above the rewritten block nothing changes. */
  lemma ShiftedFullRowsAbove(b: Board, lo: int, n: int)
    requires Framed(b) && 0 <= lo <= n < |b| - 1
    ensures Framed(Shifted(b, lo, n))
    ensures FullRows(Shifted(b, lo, n), lo) == FullRows(b, lo)
  {
    ShiftedFramed(b, lo, n);
    var c := Shifted(b, lo, n);
    forall y | 1 <= y <= lo
      ensures c[y] == b[y]
    {
      ShiftedKeeps(b, lo, n, y);
    }
    FullRowsAgree(c, b, lo);
  }

  /** Up to any row of the rewritten block, the full rows of the shifted
      board are those of the original board one row higher. */
  lemma {:induction false} ShiftedFullRows(b: Board, lo: int, n: int, k: int)
    requires Framed(b) && 0 <= lo <= k <= n < |b| - 1
    requires lo == 0 || !SampledFull(b, lo)
    ensures Framed(Shifted(b, lo, n))
    ensures FullRows(Shifted(b, lo, n), k) == if k == 0 then 0 else FullRows(b, k - 1)
    decreases k
  {
    ShiftedFramed(b, lo, n);
    if k == lo {
      ShiftedFullRowsAbove(b, lo, n);
    } else {
      ShiftedFullRows(b, lo, n, k - 1);
      ShiftedSampled(b, lo, n, k);
      if k == 1 {
        assert b[0][2 * 0 + 1] == Empty;
      }
    }
  }

  /** `clear_line(n)` on a full row `n` removes exactly one full row from
      rows 1..n, keeps the frame and leaves the rows below `n` alone. */
  lemma ClearedLineRemovesOne(b: Board, n: int)
    requires Framed(b) && 1 <= n < |b| - 1 && SampledFull(b, n)
    ensures Framed(ClearedLine(b, n))
    ensures FullRows(ClearedLine(b, n), n) == FullRows(b, n) - 1
    ensures forall y :: n < y < |b| ==> ClearedLine(b, n)[y] == b[y]
  {
    var s := StopRow(b, n);
    if s > 1 {
      EmptyNotFull(b, s - 1);
    }
    ShiftedFullRows(b, s - 1, n, n);
    forall y | n < y < |b|
      ensures ClearedLine(b, n)[y] == b[y]
    {
      ShiftedKeeps(b, s - 1, n, y);
    }
  }

  /** The scan of `clear_lines` from row `i` upwards, as a value: the board
      it leaves, the number of rows it removed, and the row it stopped at.
      A full row is removed and the same index is looked at again; an empty
      row stops the scan; any other row moves it up; row 1 is never
      examined. */
  function ClearFrom(b: Board, i: int): (r: (Board, nat, int))
    requires Framed(b) && 0 <= i < |b| - 1
    ensures |r.0| == |b|
    decreases i, FullRows(b, i)
  {
    if i <= 1 then (b, 0, i)
    else if SampledFull(b, i) then
      ClearedLineRemovesOne(b, i);
      var r := ClearFrom(ClearedLine(b, i), i);
      (r.0, r.1 + 1, r.2)
    else if SampledEmpty(b, i) then (b, 0, i)
    else
      ClearFrom(b, i - 1)
  }

  /** What the scan of `clear_lines` achieves: the board stays framed; every
      removal took away exactly one full row among rows 1..i; no full row
      is left between the stop row and `i`; the scan stopped at row 1 or
      below, or at an empty row; and rows below `i` are untouched. */
  lemma {:induction false} ClearFromSpec(b: Board, i: int)
    requires Framed(b) && 0 <= i < |b| - 1
    ensures var r := ClearFrom(b, i);
      && Framed(r.0) && |r.0| == |b| && |r.0[0]| == |b[0]|
      && 0 <= r.2 <= i && (r.2 <= 1 || SampledEmpty(r.0, r.2))
      && r.1 + FullRows(r.0, i) == FullRows(b, i)
      && (forall k :: r.2 < k <= i ==> !SampledFull(r.0, k))
      && (forall y :: i < y < |b| ==> r.0[y] == b[y])
    decreases i, FullRows(b, i)
  {
    if i <= 1 {
    } else if SampledFull(b, i) {
      ClearedLineRemovesOne(b, i);
      ClearFromSpec(ClearedLine(b, i), i);
      ClearFromFull(b, i);
    } else if SampledEmpty(b, i) {
    } else {
      ClearFromSpec(b, i - 1);
      ClearFromUp(b, i);
    }
  }

  /** The scan at a full row `i > 1` removes it and scans the same row of
      the result: the totals add up. */
  lemma ClearFromFull(b: Board, i: int)
    requires Framed(b) && 1 < i < |b| - 1 && SampledFull(b, i)
    requires Framed(ClearedLine(b, i)) && |ClearedLine(b, i)| == |b|
    requires FullRows(ClearedLine(b, i), i) == FullRows(b, i) - 1
    requires forall y :: i < y < |b| ==> ClearedLine(b, i)[y] == b[y]
    requires var r := ClearFrom(ClearedLine(b, i), i);
      && Framed(r.0) && |r.0| == |b| && r.1 + FullRows(r.0, i) == FullRows(ClearedLine(b, i), i)
      && (forall y :: i < y < |b| ==> r.0[y] == ClearedLine(b, i)[y])
    ensures var r := ClearFrom(b, i);
      && Framed(r.0) && |r.0| == |b|
      && r.1 + FullRows(r.0, i) == FullRows(b, i)
      && (forall y :: i < y < |b| ==> r.0[y] == b[y])
  {
    var c := ClearedLine(b, i);
    var r := ClearFrom(c, i);
    assert ClearFrom(b, i) == (r.0, r.1 + 1, r.2);
  }

  /** The scan at a row `i > 1` that is neither full nor empty goes on at
      row `i - 1`, and row `i` is not touched. */
  lemma ClearFromUp(b: Board, i: int)
    requires Framed(b) && 1 < i < |b| - 1 && !SampledFull(b, i) && !SampledEmpty(b, i)
    requires var r := ClearFrom(b, i - 1);
      && Framed(r.0) && |r.0| == |b| && |r.0[0]| == |b[0]|
      && r.1 + FullRows(r.0, i - 1) == FullRows(b, i - 1)
      && 0 <= r.2 <= i - 1 && (forall k :: r.2 < k <= i - 1 ==> !SampledFull(r.0, k))
      && (forall y :: i - 1 < y < |b| ==> r.0[y] == b[y])
    ensures var r := ClearFrom(b, i);
      && Framed(r.0) && |r.0| == |b|
      && r.1 + FullRows(r.0, i) == FullRows(b, i)
      && 0 <= r.2 <= i && (forall k :: r.2 < k <= i ==> !SampledFull(r.0, k))
  {
    var r := ClearFrom(b, i - 1);
    assert ClearFrom(b, i) == r;
    assert r.0[i] == b[i];
    assert !SampledFull(r.0, i);
  }

  /** One look at row `i > 1` by the scan. */
  lemma ClearFromStep(b: Board, i: int)
    requires Framed(b) && 0 <= i < |b| - 1
    ensures i <= 1 ==> ClearFrom(b, i) == (b, 0, i)
    ensures 1 < i && SampledFull(b, i) ==>
      && Framed(ClearedLine(b, i)) && |ClearedLine(b, i)| == |b|
      && FullRows(ClearedLine(b, i), i) < FullRows(b, i)
      && ClearFrom(b, i).0 == ClearFrom(ClearedLine(b, i), i).0
      && ClearFrom(b, i).1 == ClearFrom(ClearedLine(b, i), i).1 + 1
    ensures 1 < i && !SampledFull(b, i) && SampledEmpty(b, i) ==> ClearFrom(b, i) == (b, 0, i)
    ensures 1 < i && !SampledFull(b, i) && !SampledEmpty(b, i) ==> ClearFrom(b, i) == ClearFrom(b, i - 1)
  {
    if 1 < i && SampledFull(b, i) {
      ClearedLineRemovesOne(b, i);
    }
  }

  /** `clear_lines`: the scan from the row above the bottom border, with
      `clear_line` for every full row; returns the number of removals. */
  method ClearLines(win: array2<int>) returns (cleared: int)
    requires Framed(Snapshot(win))
    modifies win
    ensures var r := ClearFrom(old(Snapshot(win)), win.Length0 - 2);
      Snapshot(win) == r.0 && cleared == r.1
  {
    ghost var goal := ClearFrom(Snapshot(win), win.Length0 - 2);
    ghost var cur := Snapshot(win);
    cleared := 0;
    var i := win.Length0 - 2;
    while i > 1
      invariant 0 <= i <= win.Length0 - 2
      invariant Snapshot(win) == cur && Framed(cur) && |cur| == win.Length0
      invariant ScanEnds(cur, i, cleared, goal)
      decreases i, FullRows(cur, i)
    {
      var stop;
      i, cleared, cur, stop := ClearLinesPass(win, i, cleared, cur, goal);
      if stop {
        break;
      }
    }
    if i <= 1 { ScanFinished(cur, i, cleared, goal); }
  }

  /** The scan from row `i` of `cur`, with `cleared` removals so far, ends
      with the board and the count of `goal`. */
  predicate ScanEnds(cur: Board, i: int, cleared: int, goal: (Board, nat, int))
    requires Framed(cur) && 0 <= i < |cur| - 1
  {
    goal.0 == ClearFrom(cur, i).0 && goal.1 == cleared + ClearFrom(cur, i).1
  }

  /** A scan that has reached row 1 is over: its board and count are
      those it ends with. */
  lemma ScanFinished(cur: Board, i: int, cleared: int, goal: (Board, nat, int))
    requires Framed(cur) && 0 <= i <= 1 && i < |cur| - 1 && ScanEnds(cur, i, cleared, goal)
    ensures cur == goal.0 && cleared == goal.1
  {
    ClearFromStep(cur, i);
  }

  /** One pass of the loop of `clear_lines`: row `i` is looked at; a full
      row is removed and looked at again, an empty row stops the scan, any
      other row moves it up.  The scan still ends with `goal`. */
  method ClearLinesPass(win: array2<int>, i: int, cleared: int, ghost cur: Board, ghost goal: (Board, nat, int))
    returns (i': int, cleared': int, ghost cur': Board, stop: bool)
    requires Snapshot(win) == cur && Framed(cur) && 1 < i < |cur| - 1
    requires ScanEnds(cur, i, cleared, goal)
    modifies win
    ensures Snapshot(win) == cur' && Framed(cur') && |cur'| == |cur| && 0 <= i' <= i
    ensures ScanEnds(cur', i', cleared', goal)
    ensures stop ==> Snapshot(win) == goal.0 && cleared' == goal.1
    ensures !stop ==> i' < i || (i' == i && FullRows(cur', i') < FullRows(cur, i))
  {
    ClearFromStep(cur, i);
    var full, empty := ScanRow(win, i);
    i', cleared', cur', stop := i, cleared, cur, false;
    if full {
      assert SampledFull(cur, i);
      ClearLine(win, i);
      cur', cleared' := ClearedLine(cur, i), cleared + 1;
      assert FullRows(cur', i) < FullRows(cur, i);
    } else if empty {
      stop := true;
    } else {
      i' := i - 1;
    }
  }

  /** The inner loop of `clear_lines`: whether every sampled column of row
      `i` holds a colour, and whether none does. */
  method ScanRow(win: array2<int>, i: int) returns (full: bool, empty: bool)
    requires Framed(Snapshot(win)) && 0 <= i < win.Length0
    ensures full == SampledFull(Snapshot(win), i)
    ensures empty == SampledEmpty(Snapshot(win), i)
  {
    var cols := win.Length1 / 2 - 1;
    full, empty := true, true;
    for j := 0 to cols
      invariant full <==> forall k :: 0 <= k < j ==> win[i, 2 * k + 1] != Empty
      invariant empty <==> forall k :: 0 <= k < j ==> win[i, 2 * k + 1] == Empty
    {
      var color := win[i, 2 * j + 1];
      full := full && color != Empty;
      empty := empty && color == Empty;
    }
  }

  /** `game_over`: some sampled column of row 1 holds a colour. */
  method GameOver(win: array2<int>) returns (over: bool)
    requires Framed(Snapshot(win))
    ensures over == !SampledEmpty(Snapshot(win), 1)
  {
    var cols := win.Length1 / 2 - 1;
    for j := 0 to cols
      invariant forall k :: 0 <= k < j ==> win[1, 2 * k + 1] == Empty
    {
      if win[1, 2 * j + 1] != Empty {
        return true;
      }
    }
    return false;
  }

  /** `calc_score`: the points for removing `n` rows in one round. */
  function CalcScore(n: int): (s: nat)
    ensures s == 0 <==> n == 0
    ensures s <= 1200
  {
    if n == 0 then 0
    else if n == 1 then 40
    else if n == 2 then 100
    else if n == 3 then 300
    else 1200
  }

  /** Removing more rows at once never earns fewer points. */
  lemma CalcScoreMonotone(m: int, n: int)
    requires 0 <= m <= n
    ensures CalcScore(m) <= CalcScore(n)
  {
  }

  /** The board the scan of `clear_lines` leaves is framed like the one it
      started from. */
  lemma ClearFromFramed(b: Board, i: int)
    requires Framed(b) && 0 <= i < |b| - 1
    ensures Framed(ClearFrom(b, i).0) && |ClearFrom(b, i).0| == |b| && |ClearFrom(b, i).0[0]| == |b[0]|
  {
    ClearFromSpec(b, i);
  }

  /** A window that is large enough to spawn every catalog piece inside its
      border: `drop_tetromino` places a new piece at row 1 and column
      (maxx - 4) / 2 without checking. */
  predicate Roomy(maxy: int, maxx: int)
  {
    forall k :: 0 <= k < |Catalog| ==> Inside(maxy, maxx, Catalog[k], 1, (maxx - 4) / 2)
  }

  /** A window holding no colour anywhere. */
  function Blank(maxy: nat, maxx: nat): (b: Board)
    ensures IsGrid(b, maxy, maxx)
    ensures forall y, x :: 0 <= y < maxy && 0 <= x < maxx ==> b[y][x] == Empty
  {
    seq(maxy, y => seq(maxx, x => Empty))
  }

  /** A blank window of at least 2 rows and 4 columns is framed, and every
      pairing of its columns holds. */
  lemma BlankFramed(maxy: nat, maxx: nat, par: int)
    requires 2 <= maxy && 4 <= maxx
    ensures Framed(Blank(maxy, maxx)) && Paired(Blank(maxy, maxx), par)
  {
  }

  /** `reset_win` on the game window: `werase` blanks every cell and `box`
      draws the border in colour pair 0. */
  method ResetWin(win: array2<int>)
    modifies win
    ensures Snapshot(win) == Blank(win.Length0, win.Length1)
  {
    for i := 0 to win.Length0
      invariant forall y, x :: 0 <= y < i && 0 <= x < win.Length1 ==> win[y, x] == Empty
    {
      for j := 0 to win.Length1
        invariant forall y, x :: 0 <= y < i && 0 <= x < win.Length1 ==> win[y, x] == Empty
        invariant forall x :: 0 <= x < j ==> win[i, x] == Empty
      {
        win[i, j] := Empty;
      }
    }
    SnapshotIs(win, Blank(win.Length0, win.Length1));
  }

  /** How one round of `play` ends: the pause menu returned a status, the
      locked piece reached row 1, the piece locked and its rows were
      scored, or the input ran out while the piece was still falling. */
  datatype RoundEnd = Interrupted(status: Status) | ToppedOut | Scored(points: nat) | Unfinished

  /** One round of `play` with tetromino `t` of catalog index `k`: the
      piece falls from the spawn point and locks in colour pair `k + 1`;
      then the locked board is settled. */
  function PlayRound(b: Board, t: Shape, k: int, ticks: seq<TickInput>): (r: (Board, RoundEnd))
    requires Framed(b) && IsShape(t) && Aligned(t) && Inside(|b|, |b[0]|, t, 1, (|b[0]| - 4) / 2)
    ensures Framed(r.0) && |r.0| == |b| && |r.0[0]| == |b[0]|
    ensures r.1.Interrupted? ==> r.1.status != Continue
  {
    var p := Spawn(t, |b[0]|);
    var d := Dropped(b, p, k + 1, ticks);
    match d.1
    case Halted(s) => (d.0, Interrupted(s))
    case Pending(_) => (d.0, Unfinished)
    case Locked(_) => AfterLock(d.0)
  }

  /** Pieces that can all be spawned in a window of `maxy` rows and `maxx`
      columns: each is a shape aligned to the top-left corner of its grid
      and lies inside the border at the spawn point. */
  predicate Spawnable(pieces: seq<Shape>, maxy: int, maxx: int)
  {
    && |pieces| > 0
    && forall k :: 0 <= k < |pieces| ==>
         IsShape(pieces[k]) && Aligned(pieces[k]) && Inside(maxy, maxx, pieces[k], 1, (maxx - 4) / 2)
  }

  /** In a roomy window the whole catalog can be spawned. */
  lemma RoomySpawnable(maxy: int, maxx: int)
    requires Roomy(maxy, maxx)
    ensures Spawnable(Catalog, maxy, maxx)
  {
    forall k | 0 <= k < |Catalog|
      ensures IsShape(Catalog[k]) && Aligned(Catalog[k])
    {
      CatalogAligned(k);
    }
  }

  /** No catalog shape fills its bottom row. */
  lemma CatalogBottomEmpty(k: int, j: int)
    requires 0 <= k < |Catalog| && 0 <= j < 4
    ensures !Catalog[k][3][j]
  {
  }

  /** The windows in which every catalog piece spawns on valid cells are
      exactly those of at least 5 rows and 13 columns: the I piece needs the
      columns, the L and J pieces the rows. */
  lemma RoomyExactly(maxy: int, maxx: int)
    ensures Roomy(maxy, maxx) <==> 5 <= maxy && 13 <= maxx
  {
    var sx := (maxx - 4) / 2;
    if Roomy(maxy, maxx) {
      assert Catalog[0][0][3] && Catalog[3][2][0];
      assert IsValid(maxy, maxx, 1, sx + 2 * 3);
      assert IsValid(maxy, maxx, 1 + 2, sx);
    }
    if 5 <= maxy && 13 <= maxx {
      forall k | 0 <= k < |Catalog|
        ensures Inside(maxy, maxx, Catalog[k], 1, sx)
      {
        forall i, j | 0 <= i < 4 && 0 <= j < 4 && Catalog[k][i][j]
          ensures IsValid(maxy, maxx, 1 + i, sx + 2 * j)
        {
          CatalogBottomEmpty(k, j);
        }
      }
    }
  }

  /** After a lock, `play` checks `game_over` and only when it is false
      removes the full rows and scores them with `calc_score`. */
  function AfterLock(e: Board): (r: (Board, RoundEnd))
    requires Framed(e)
    ensures Framed(r.0) && |r.0| == |e| && |r.0[0]| == |e[0]|
  {
    if !SampledEmpty(e, 1) then (e, ToppedOut)
    else
      ClearFromFramed(e, |e| - 2);
      var c := ClearFrom(e, |e| - 2);
      (c.0, Scored(CalcScore(c.1)))
  }

  /** The input of one round: the random draw choosing the piece and the
      ticks of its fall. */
  datatype Turn = Turn(draw: nat, ticks: seq<TickInput>)

  /** What `play` returns: the status from the pause menu, or the end of the
      game after a top-out with the score reached, or (the input having run
      out) the game still running with its current score. */
  datatype Outcome = Exited(status: Status) | Ended(score: nat) | Waiting(score: nat)

  /** The round `turn` describes: the piece of index `draw % |pieces|`
      (`rand() % 7` over the seven catalog pieces). */
  function Played(pieces: seq<Shape>, b: Board, turn: Turn): (r: (Board, RoundEnd))
    requires Framed(b) && Spawnable(pieces, |b|, |b[0]|)
    ensures Framed(r.0) && |r.0| == |b| && |r.0[0]| == |b[0]|
    ensures r.1.Interrupted? ==> r.1.status != Continue
  {
    var k := turn.draw % |pieces|;
    PlayRound(b, pieces[k], k, turn.ticks)
  }

  /** The loop of `play` from board `b` and score `score`, as a value. */
  function PlayFrom(pieces: seq<Shape>, b: Board, score: nat, turns: seq<Turn>): (r: (Board, Outcome))
    requires Framed(b) && Spawnable(pieces, |b|, |b[0]|)
    ensures Framed(r.0) && |r.0| == |b| && |r.0[0]| == |b[0]|
    ensures r.1.Exited? ==> r.1.status != Continue
    ensures !r.1.Exited? ==> r.1.score >= score
    decreases |turns|, 0
  {
    if turns == [] then (b, Waiting(score))
    else PlayOn(pieces, Played(pieces, b, turns[0]), score, turns[1..])
  }

  /** The loop of `play` after a round that ended in `round`: a round that
      scores goes on with the remaining rounds, any other ends the loop. */
  function PlayOn(pieces: seq<Shape>, round: (Board, RoundEnd), score: nat, rest: seq<Turn>): (r: (Board, Outcome))
    requires Framed(round.0) && Spawnable(pieces, |round.0|, |round.0[0]|)
    requires round.1.Interrupted? ==> round.1.status != Continue
    ensures Framed(r.0) && |r.0| == |round.0| && |r.0[0]| == |round.0[0]|
    ensures r.1.Exited? ==> r.1.status != Continue
    ensures !r.1.Exited? ==> r.1.score >= score
    decreases |rest|, 1
  {
    match round.1
    case Interrupted(s) => (round.0, Exited(s))
    case Unfinished => (round.0, Waiting(score))
    case ToppedOut => (round.0, Ended(score))
    case Scored(n) => PlayFrom(pieces, round.0, score + n, rest)
  }

  /** One round of `play` on the window: `drop_tetromino`, then
      `game_over`, then `clear_lines` and `calc_score`. */
  method RunRound(win: array2<int>, t: Shape, k: int, ticks: seq<TickInput>) returns (end: RoundEnd)
    requires Framed(Snapshot(win)) && IsShape(t) && Aligned(t)
    requires Inside(win.Length0, win.Length1, t, 1, (win.Length1 - 4) / 2)
    modifies win
    ensures (Snapshot(win), end) == PlayRound(old(Snapshot(win)), t, k, ticks)
  {
    ghost var b := Snapshot(win);
    var r := DropTetromino(win, t, k + 1, ticks);
    match r
    case Halted(s) =>
      end := Interrupted(s);
    case Pending(_) =>
      end := Unfinished;
    case Locked(_) =>
      var over := GameOver(win);
      if over {
        end := ToppedOut;
      } else {
        var n := ClearLines(win);
        end := Scored(CalcScore(n));
      }
  }

  /** A round of the loop of `play` that does not score ends the loop:
      when the first round of `turns`, played from `b`, ends in `e` on board
      `c`, the loop stops with `c` and the outcome `e` calls for. */
  lemma PlayFromStops(pieces: seq<Shape>, b: Board, score: nat, turns: seq<Turn>, c: Board, e: RoundEnd)
    requires Framed(b) && Spawnable(pieces, |b|, |b[0]|) && turns != []
    requires (c, e) == Played(pieces, b, turns[0]) && !e.Scored?
    ensures e.Interrupted? ==> PlayFrom(pieces, b, score, turns) == (c, Exited(e.status))
    ensures e.Unfinished? ==> PlayFrom(pieces, b, score, turns) == (c, Waiting(score))
    ensures e.ToppedOut? ==> PlayFrom(pieces, b, score, turns) == (c, Ended(score))
  {
  }

  /** A round of the loop of `play` that scores goes on from its board with
      the round's points added. */
  lemma PlayFromGoesOn(pieces: seq<Shape>, b: Board, score: nat, turns: seq<Turn>, c: Board, e: RoundEnd)
    requires Framed(b) && Spawnable(pieces, |b|, |b[0]|) && turns != []
    requires (c, e) == Played(pieces, b, turns[0]) && e.Scored?
    ensures Framed(c) && |c| == |b| && |c[0]| == |b[0]|
    ensures PlayFrom(pieces, b, score, turns) == PlayFrom(pieces, c, score + e.points, turns[1..])
  {
    assert PlayFrom(pieces, b, score, turns) == PlayOn(pieces, (c, e), score, turns[1..]);
    PlayOnScored(pieces, (c, e), score, turns[1..]);
  }

  /** After a round that scores, the loop goes on from the round's board
      with the round's points added to the score. */
  lemma PlayOnScored(pieces: seq<Shape>, round: (Board, RoundEnd), score: nat, rest: seq<Turn>)
    requires Framed(round.0) && Spawnable(pieces, |round.0|, |round.0[0]|) && round.1.Scored?
    ensures PlayOn(pieces, round, score, rest) == PlayFrom(pieces, round.0, score + round.1.points, rest)
  {
  }

  /** The round of `play` that `turn` describes, on the window. */
  method PlayTurn(win: array2<int>, pieces: seq<Shape>, turn: Turn) returns (end: RoundEnd)
    requires Framed(Snapshot(win)) && Spawnable(pieces, win.Length0, win.Length1)
    modifies win
    ensures (Snapshot(win), end) == Played(pieces, old(Snapshot(win)), turn)
  {
    var k := turn.draw % |pieces|;
    end := RunRound(win, pieces[k], k, turn.ticks);
  }

  /** One pass of the loop of `play` on the window: plays the first of the
      remaining rounds and, when the loop goes on, returns its new score and
      the rounds left. */
  method Advance(win: array2<int>, pieces: seq<Shape>, rest: seq<Turn>, score: nat, ghost goal: (Board, Outcome))
    returns (end: RoundEnd, score': nat, rest': seq<Turn>)
    requires Framed(Snapshot(win)) && Spawnable(pieces, win.Length0, win.Length1) && rest != []
    requires PlayFrom(pieces, Snapshot(win), score, rest) == goal
    modifies win
    ensures Framed(Snapshot(win)) && |rest'| < |rest|
    ensures end.Interrupted? ==> goal == (Snapshot(win), Exited(end.status))
    ensures end.Unfinished? ==> goal == (Snapshot(win), Waiting(score))
    ensures end.ToppedOut? ==> goal == (Snapshot(win), Ended(score))
    ensures end.Scored? ==> PlayFrom(pieces, Snapshot(win), score', rest') == goal
  {
    ghost var before := Snapshot(win);
    end := PlayTurn(win, pieces, rest[0]);
    if end.Scored? {
      PlayFromGoesOn(pieces, before, score, rest, Snapshot(win), end);
    } else {
      PlayFromStops(pieces, before, score, rest, Snapshot(win), end);
    }
    score' := if end.Scored? then score + end.points else score;
    rest' := rest[1..];
  }

  /** The loop of `play`: rounds until the pause menu stops the game or a
      locked piece reaches row 1, adding each round's points to the score. */
  method RunTurns(win: array2<int>, pieces: seq<Shape>, turns: seq<Turn>) returns (out: Outcome)
    requires Framed(Snapshot(win)) && Spawnable(pieces, win.Length0, win.Length1)
    modifies win
    ensures (Snapshot(win), out) == PlayFrom(pieces, old(Snapshot(win)), 0, turns)
  {
    ghost var goal := PlayFrom(pieces, Snapshot(win), 0, turns);
    var score: nat := 0;
    var rest := turns;
    while rest != []
      invariant Framed(Snapshot(win))
      invariant PlayFrom(pieces, Snapshot(win), score, rest) == goal
      decreases |rest|
    {
      var end, score', rest' := Advance(win, pieces, rest, score, goal);
      match end
      case Interrupted(s) =>
        return Exited(s);
      case Unfinished =>
        return Waiting(score);
      case ToppedOut =>
        return Ended(score);
      case Scored(_) =>
        score, rest := score', rest';
    }
    out := Waiting(score);
  }

  /** A whole game of `play` as a value: the loop over the seven catalog
      pieces from a blank window and a score of 0. */
  function Game(maxy: nat, maxx: nat, turns: seq<Turn>): (r: (Board, Outcome))
    requires 2 <= maxy && 4 <= maxx && Roomy(maxy, maxx)
    ensures Framed(r.0) && IsGrid(r.0, maxy, maxx)
    ensures r.1.Exited? ==> r.1.status != Continue
  {
    BlankFramed(maxy, maxx, 0);
    RoomySpawnable(maxy, maxx);
    PlayFrom(Catalog, Blank(maxy, maxx), 0, turns)
  }

  /** `play`: blanks the game window, then runs the loop of rounds over the
      seven catalog pieces from a score of 0. */
  method Play(win: array2<int>, turns: seq<Turn>) returns (out: Outcome)
    requires 2 <= win.Length0 && 4 <= win.Length1 && Roomy(win.Length0, win.Length1)
    modifies win
    ensures (Snapshot(win), out) == Game(win.Length0, win.Length1, turns)
  {
    ResetWin(win);
    BlankFramed(win.Length0, win.Length1, 0);
    RoomySpawnable(win.Length0, win.Length1);
    out := RunTurns(win, Catalog, turns);
  }
}
