/** Column parity in Tetris (Tetris/Tetris.c).  A piece spawns at column
    `(maxx - 4) / 2` and moves sideways two columns at a time, so every
    block it draws starts at a column of that parity; `clear_lines` and
    `game_over` look only at the odd columns.  When the spawn column is even,
    screen column 1 is never drawn on, so no row is ever full and no round
    scores. */
module TetrisParity {
  import opened Grids
  import opened Tetromino
  import opened Tetris

  /** Screen column 1, the first sampled column, holds no colour. */
  predicate ColumnOneEmpty(b: Board)
    requires Framed(b)
  {
    forall y :: 0 <= y < |b| ==> b[y][1] == Empty
  }

  /** A piece drawn at an even column never covers column 1: its blocks
      start at valid, hence positive, even columns. */
  lemma PaintedEvenKeeps(b: Board, t: Shape, y: int, x: int, c: int)
    requires Framed(b) && IsShape(t) && Inside(|b|, |b[0]|, t, y, x) && x % 2 == 0
    requires ColumnOneEmpty(b)
    ensures Framed(Painted(b, t, y, x, c)) && ColumnOneEmpty(Painted(b, t, y, x, c))
  {
    PaintedFramed(b, t, y, x, c);
    forall yy | 0 <= yy < |b|
      ensures Painted(b, t, y, x, c)[yy][1] == Empty
    {
      var j := (1 - x) / 2;
      assert x + 2 * j == 0;
    }
  }

  /** A board with column 1 empty has no full row. */
  lemma NoFullRow(b: Board, k: int)
    requires Framed(b) && ColumnOneEmpty(b) && 0 <= k < |b|
    ensures !SampledFull(b, k)
  {
    assert 0 < Cols(b) && b[k][2 * 0 + 1] == Empty;
  }

  /** With no full row, the scan of `clear_lines` removes nothing and leaves
      the board as it is. */
  lemma {:induction false} ClearFromNothing(b: Board, i: int)
    requires Framed(b) && ColumnOneEmpty(b) && 0 <= i < |b| - 1
    ensures ClearFrom(b, i).0 == b && ClearFrom(b, i).1 == 0
    decreases i
  {
    if 1 < i {
      NoFullRow(b, i);
      if !SampledEmpty(b, i) {
        ClearFromNothing(b, i - 1);
      }
    }
  }

  /** The state every round of a game with an even spawn column starts
      from and ends in. */
  predicate EvenState(b: Board)
  {
    Framed(b) && ((|b[0]| - 4) / 2) % 2 == 0 && ColumnOneEmpty(b) && Paired(b, 0)
  }

  /** The window a drop leaves, from a window in `EvenState`. */
  lemma DroppedEven(b: Board, t: Shape, c: int, ticks: seq<TickInput>)
    requires EvenState(b) && IsShape(t) && Aligned(t) && Inside(|b|, |b[0]|, t, 1, (|b[0]| - 4) / 2)
    ensures EvenState(Dropped(b, Spawn(t, |b[0]|), c, ticks).0)
  {
    var sx := (|b[0]| - 4) / 2;
    var p := Spawn(t, |b[0]|);
    assert p.t == t && p.sy == 1 && p.sx == sx;
    if ticks != [] {
      DropFromSpawn(b, t, c, ticks);
      var e := Erase(b, t, 1, sx);
      assert e == Painted(b, t, 1, sx, Empty);
      PaintedEvenKeeps(b, t, 1, sx, Empty);
      PaintedPaired(b, t, 1, sx, Empty);
      var d := Dropped(b, p, c, ticks);
      if !d.1.Halted? {
        var q := d.1.p;
        PaintedEvenKeeps(e, q.t, q.sy, q.sx, c);
        PaintedPaired(e, q.t, q.sy, q.sx, c);
      }
    }
  }

  /** A round from a window in `EvenState` ends in `EvenState` and, if it
      scores, scores nothing. */
  lemma RoundEven(b: Board, t: Shape, k: int, ticks: seq<TickInput>)
    requires EvenState(b) && IsShape(t) && Aligned(t) && Inside(|b|, |b[0]|, t, 1, (|b[0]| - 4) / 2)
    ensures var r := PlayRound(b, t, k, ticks);
      EvenState(r.0) && (r.1.Scored? ==> r.1.points == 0)
  {
    DroppedEven(b, t, k + 1, ticks);
    var d := Dropped(b, Spawn(t, |b[0]|), k + 1, ticks);
    if d.1.Locked? && SampledEmpty(d.0, 1) {
      ClearFromNothing(d.0, |d.0| - 2);
    }
  }

  /** A round of `play` from a window in `EvenState`. */
  lemma PlayedEven(pieces: seq<Shape>, b: Board, turn: Turn)
    requires EvenState(b) && Spawnable(pieces, |b|, |b[0]|)
    ensures var r := Played(pieces, b, turn);
      EvenState(r.0) && (r.1.Scored? ==> r.1.points == 0)
  {
    var n := turn.draw % |pieces|;
    RoundEven(b, pieces[n], n, turn.ticks);
  }

  /** A round that does not score ends the loop of `play` on its own
      window, with the score it started with. */
  lemma PlayOnStops(pieces: seq<Shape>, round: (Board, RoundEnd), score: nat, rest: seq<Turn>)
    requires Framed(round.0) && Spawnable(pieces, |round.0|, |round.0[0]|) && !round.1.Scored?
    requires round.1.Interrupted? ==> round.1.status != Continue
    ensures var r := PlayOn(pieces, round, score, rest);
      r.0 == round.0 && (!r.1.Exited? ==> r.1.score == score)
  {
  }

  /** The loop of `play` from a window in `EvenState` never raises the
      score. */
  lemma {:induction false} PlayFromEven(pieces: seq<Shape>, b: Board, score: nat, turns: seq<Turn>)
    requires EvenState(b) && Spawnable(pieces, |b|, |b[0]|)
    ensures var r := PlayFrom(pieces, b, score, turns);
      EvenState(r.0) && (!r.1.Exited? ==> r.1.score == score)
    decreases |turns|
  {
    if turns != [] {
      var round := Played(pieces, b, turns[0]);
      PlayedEven(pieces, b, turns[0]);
      assert PlayFrom(pieces, b, score, turns) == PlayOn(pieces, round, score, turns[1..]);
      if round.1.Scored? {
        PlayOnScored(pieces, round, score, turns[1..]);
        PlayFromEven(pieces, round.0, score + round.1.points, turns[1..]);
      } else {
        PlayOnStops(pieces, round, score, turns[1..]);
      }
    }
  }

  /** With an even spawn column a whole game never scores: column 1 is
      sampled by the full-row test but never drawn on. */
  lemma EvenSpawnNeverScores(maxy: nat, maxx: nat, turns: seq<Turn>)
    requires 2 <= maxy && 4 <= maxx && Roomy(maxy, maxx) && ((maxx - 4) / 2) % 2 == 0
    ensures !Game(maxy, maxx, turns).1.Exited? ==> Game(maxy, maxx, turns).1.score == 0
  {
    BlankFramed(maxy, maxx, 0);
    RoomySpawnable(maxy, maxx);
    PlayFromEven(Catalog, Blank(maxy, maxx), 0, turns);
  }
}
