# NArcade core in Dafny

A model of the game logic of the NArcade terminal arcade. It covers three games:

- **Tetris.**
  - The tetromino catalog and its matrix operations, modelled in both variants: `bool` cells (`Tetris/Tetromino.c`) and `int` cells (`Tetris/tetromino.c`).
  - The game window as a grid of colour-pair numbers: placement tests, drawing, the drop loop of one piece, line clearing, scoring, the game-over test and the round loop of `play`.
- **Connect 4.** Dropping a chip, the four-in-a-row search along the four walks, the empty and full tests, the shift-down animation of `reset`, and the key and turn logic of `play`.
- **Game of Life.** Neighbour counting and the two-pass `step`.

Every routine that loops or writes in place is a Dafny `method` over `array2`. A pure `function` on grid values specifies it, and its postcondition ties the array to that function through `Grids.Snapshot`. The lemmas state what the source promises about those functions. The ncurses screen is modelled as follows:

- Tetris's game window is an `array2<int>` whose cells hold the colour pair drawn there. 0 means nothing is drawn, and `box` leaves the border at 0.
- A Connect 4 slot holds the `chtype` attribute the source stores. `A_REVERSE` (262144) means the slot is empty, and `COLOR_PAIR(RED)` (256) and `COLOR_PAIR(YELLOW)` (512) are the two players' chips.

Keys, menu answers, the gravity timer and the random piece choice are inputs of the model.

Several results follow from the code as written, and the model keeps them:

- The Game of Life `is_valid` leaves out row 0 and column 0. So `alive_neighbors` never counts cells there. For a live cell in that row or column it still subtracts the cell's own flag: the result is the number of its counted live neighbours minus 1, which is -1 when none of them is alive (`GameOfLife.NeighborsAround`).
- `clear_lines` and `game_over` look only at the odd screen columns 2j+1. A piece moves sideways two columns at a time, so its blocks stay on columns with the parity of `(maxx - 4) / 2`. When that spawn column is even, column 1 is never drawn on, no row is ever full, and no game ever scores (`TetrisParity.EvenSpawnNeverScores`). The width of the game window comes from the terminal size, so that case depends on the terminal.
- `drop_tetromino` never checks the spawn position. Its first erase clears whatever lay under the new piece (`Tetris.DropFromSpawn`). When the spawn position is free, a piece never overwrites a block (`Tetris.DropFromFreeSpawn`).

## Model

| member | source | states |
|---|---|---|
| Tetromino.CatalogHasFourCells | Tetris/Tetromino.c:6-48 | the catalog has seven 4x4 shapes, and each has exactly four filled cells |
| Tetromino.Height | Tetris/Tetromino.c:70-82 | the height lies in 0..4; rows 0..h-1 each hold a filled cell, and row h (if any) holds none |
| Tetromino.Width | Tetris/Tetromino.c:84-96 | the width lies in 0..4; columns 0..w-1 each hold a filled cell, and column w (if any) holds none |
| Tetromino.LeadingUnique | Tetris/Tetromino.c:70-96 | height and width are the unique counts with the leading-fill property: any n with lines 0..n-1 filled and line n empty equals them |
| Tetromino.GetCopy | Tetris/Tetromino.c:50-61 | for n >= 0, returns a fresh 4x4 matrix equal cell for cell to catalog shape n mod 7 |
| Tetromino.GetHeight | Tetris/Tetromino.c:70-82 | the row scan with its early break returns the leading-fill height of the matrix |
| Tetromino.GetWidth | Tetris/Tetromino.c:84-96 | the column scan with its early break returns the leading-fill width of the matrix |
| Tetromino.Rotate | Tetris/Tetromino.c:98-111 | returns a fresh matrix equal to the quarter turn of the argument; the argument is not written (no modifies clause) |
| Tetromino.RotatedCells | Tetris/Tetromino.c:98-111 | with shift = width - 1, the filled cells of the result are exactly the cells (shift - j, i) for the filled source cells (i, j); every other cell is empty |
| Tetromino.RotatedCount | Tetris/Tetromino.c:104-108 | when every filled cell lies left of column `width`, rotation keeps the number of filled cells |
| Tetromino.RotatedAligned | Tetris/Tetromino.c:98-111 | a quarter turn of a shape that hugs the top-left corner hugs it again, with height and width swapped |
| Tetromino.HalfTurn | Tetris/Tetromino.c:98-111 | two quarter turns of such a shape turn it half way round inside its height x width box |
| Tetromino.FourRotations | Tetris/Tetromino.c:98-111 | four quarter turns give back any shape that hugs the top-left corner |
| Tetromino.CatalogAligned | Tetris/Tetromino.c:6-48 | every catalog shape hugs the top-left corner, so it may be rotated any number of times |
| Tetromino.AlignedInBounds | Tetris/Tetromino.c:104-108 | a corner-hugging shape keeps every write of `rotate` inside the matrix, so every shape the game turns meets the precondition of `Rotate` |
| Tetromino.CatalogFourRotations | Tetris/Tetromino.c:6-48 | four rotations give back every catalog shape, and each shape turned on the way meets the in-bounds condition of `rotate` |
| TetrominoInt.Occupancy | Tetris/tetromino.c:69-95 | the shape a matrix stands for: a cell is filled exactly when it is non-zero |
| TetrominoInt.OccupancyOfOnes | Tetris/tetromino.c:97-110 | reading back the 0/1 matrix of a shape gives back the shape |
| TetrominoInt.CatalogsAgree | Tetris/tetromino.c:5-47 | each entry of the `int` catalog is the 0/1 matrix of the `bool` catalog entry, so it also has exactly four cells equal to 1 |
| TetrominoInt.GetCopy | Tetris/tetromino.c:49-60 | for n >= 0, returns a fresh matrix equal cell for cell to catalog entry n mod 7 |
| TetrominoInt.GetHeight | Tetris/tetromino.c:69-81 | returns the leading-fill height of the shape the matrix stands for, treating any non-zero cell as filled |
| TetrominoInt.GetWidth | Tetris/tetromino.c:83-95 | returns the leading-fill width of the shape the matrix stands for |
| TetrominoInt.Rotate | Tetris/tetromino.c:97-110 | returns a fresh 0/1 matrix of the quarter-turned shape; the argument is not written |
| TetrominoInt.IntFourRotations | Tetris/tetromino.c:97-110 | four rotations give back every `int` catalog matrix, and each matrix turned on the way meets the in-bounds condition of `rotate` |
| Tetris.Painted | Tetris/Tetris.c:210-216 | drawing keeps the window's dimensions |
| Tetris.PaintedFramed | Tetris/Tetris.c:210-222 | drawing a piece whose blocks all start at valid cells leaves the border untouched |
| Tetris.Draw | Tetris/Tetris.c:210-216 | draws both screen columns of every filled block in the given colour and changes nothing else |
| Tetris.CanMove | Tetris/Tetris.c:218-239 | returns true exactly when every filled block (i, j) maps to a valid cell (y+i, x+2j), 0 < y+i < maxy-1 and 0 < x+2j < maxx-2, that holds colour 0; unfilled cells impose nothing |
| Tetris.MoveByKey | Tetris/Tetris.c:262-272 | the key handling of one pass, as the value `Moved` |
| Tetris.Tick | Tetris/Tetris.c:258-295 | one pass erases the piece (and nothing else), leaves the window framed, then reads the key, the pause menu and gravity as `Step` does |
| Tetris.MovedByKey | Tetris/Tetris.c:262-272 | at most one move per key: LEFT or RIGHT moves by exactly 2 columns only when `can_move` allows it, UP turns the piece only when the turn fits, the row never changes, and a piece that moved fits |
| Tetris.StepMoves | Tetris/Tetris.c:262-295 | the pause menu stops the round exactly when it answers RESTART or QUIT; otherwise the piece falls one row when gravity is due and the row below fits, and lands exactly when gravity is due and it does not |
| Tetris.StepKeeps | Tetris/Tetris.c:258-295 | a pass keeps the piece well formed, on valid cells and on its column parity, and never lifts it |
| Tetris.StepFits | Tetris/Tetris.c:262-295 | a pass moves the piece only to a place where it fits, and lands it only where it cannot fall one more row |
| Tetris.PaintedPaired | Tetris/Tetris.c:210-216 | drawing a piece keeps both cells of every column pair of its parity the same colour |
| Tetris.PaintedOver | Tetris/Tetris.c:259-297 | drawing twice over the same cells leaves only the second colour |
| Tetris.Drop | Tetris/Tetris.c:255-303 | the drop loop without the redraw at the end of each pass keeps the window framed, and keeps the piece on valid cells and on its column parity |
| Tetris.Dropped | Tetris/Tetris.c:255-303 | the loop as written keeps the window framed and the piece valid, and ends through the pause menu only on RESTART or QUIT |
| Tetris.RedrawnDrop | Tetris/Tetris.c:259-302 | from a window showing the piece, the loop as written ends as `Drop` does from the erased window |
| Tetris.DroppedIsDrop | Tetris/Tetris.c:255-303 | the loop as written and `Drop` end the same way and leave the same window, except that an unfinished loop still shows the falling piece |
| Tetris.ErasedFixed | Tetris/Tetris.c:259 | erasing a piece that is not on the window changes nothing |
| Tetris.FitsErased | Tetris/Tetris.c:224-239 | on a paired window a piece that fits covers only empty cells |
| Tetris.DropLands | Tetris/Tetris.c:255-303 | from a window the piece is erased from, the loop changes the window only by its final draw of the landed piece |
| Tetris.DropLandsBlocked | Tetris/Tetris.c:290-302 | a locked piece cannot fall one more row on the window it landed on |
| Tetris.DropLandsOnEmpty | Tetris/Tetris.c:290-302 | a piece that starts on empty cells locks on empty cells |
| Tetris.DropTetromino | Tetris/Tetris.c:242-306 | from the spawn point (row 1, column (maxx-4)/2), the window and result are those of the loop as written |
| Tetris.Erase | Tetris/Tetris.c:259 | after the first erase the window is framed and none of the piece's cells is coloured |
| Tetris.DropAfterErase | Tetris/Tetris.c:258-259 | after the first pass's erase, the loop runs as if it had started on the erased window, and the pairing is kept |
| Tetris.DropFromSpawn | Tetris/Tetris.c:242-306 | a drop changes the window only by erasing the unchecked spawn cells and drawing the piece where it stands; a locked piece cannot fall further |
| Tetris.DropFromFreeSpawn | Tetris/Tetris.c:242-306 | when the spawn cells are empty, no block already in the window is overwritten |
| Tetris.EmptyNotFull | Tetris/Tetris.c:323-348 | a row with an empty interior counts as empty and never as full |
| Tetris.StopRow | Tetris/Tetris.c:308-321 | the highest row `clear_line(n)` rewrites lies in 1..n; either it is row 1 or the row above it has an empty interior, and no row from it to n-1 has one |
| Tetris.StopRowIs | Tetris/Tetris.c:308-321 | the stop row is the unique row with those properties |
| Tetris.ClearLine | Tetris/Tetris.c:308-321 | for k going down from n, row k over columns 1..maxx-2 takes the old row k-1, stopping right after copying an empty row; rows above the stop row and the border columns keep their colours |
| Tetris.ShiftedFramed | Tetris/Tetris.c:308-321 | clearing a line keeps the border of the window |
| Tetris.ShiftedKeeps | Tetris/Tetris.c:308-321 | rows above the stop row and below row n are unchanged |
| Tetris.FullRows | Tetris/Tetris.c:329-338 | the number of rows among 1..i that `clear_lines` would call full is at most i |
| Tetris.ClearedLineRemovesOne | Tetris/Tetris.c:308-321 | `clear_line` on a full row removes exactly one full row among rows 1..n and leaves the rows below n alone |
| Tetris.ClearFromSpec | Tetris/Tetris.c:323-348 | the scan keeps the frame; each removal takes away one full row; no full row is left between the stop row and the start row; the scan stops at row 1 or at an empty row; rows below the start row are untouched |
| Tetris.ClearFromStep | Tetris/Tetris.c:326-346 | one look at a row: a full row is removed and looked at again; an empty row stops the scan; any other row moves it up; row 1 is never looked at |
| Tetris.ClearLines | Tetris/Tetris.c:323-348 | the loop starting at row maxy-2 leaves the scanned board and returns the number of removals |
| Tetris.ScanRow | Tetris/Tetris.c:330-337 | the inner loop reports whether every sampled column 2j+1 (j < maxx/2-1) of the row is coloured, and whether none is |
| Tetris.GameOver | Tetris/Tetris.c:367-378 | true exactly when some sampled column of row 1 is coloured |
| Tetris.CalcScore | Tetris/Tetris.c:350-365 | points are zero exactly for zero rows, and never more than 1200 |
| Tetris.CalcScoreMonotone | Tetris/Tetris.c:350-365 | removing more rows at once never earns fewer points |
| Tetris.ClearFromFramed | Tetris/Tetris.c:323-348 | the scanned window keeps its frame and dimensions |
| Tetris.Blank | Tetris/Tetris.c:104-109 | a blank window has the given dimensions and colour 0 everywhere |
| Tetris.BlankFramed | Tetris/Tetris.c:104-109 | a blank window of at least 2x4 is framed and paired |
| Tetris.ResetWin | Tetris/Tetris.c:104-109 | `werase` and `box` leave every cell at colour pair 0 |
| Tetris.PlayRound | Tetris/Tetris.c:412-419 | a round keeps the window framed, and is interrupted only by RESTART or QUIT |
| Tetris.RoomySpawnable | Tetris/Tetris.c:249-251 | in a window large enough for the spawn point, every catalog piece starts on valid cells |
| Tetris.RoomyExactly | Tetris/Tetris.c:218-222 | every catalog piece spawns at row 1, column (maxx-4)/2 on valid cells exactly when the window has at least 5 rows and 13 columns |
| Tetris.AfterLock | Tetris/Tetris.c:414-419 | after a lock, checking `game_over` and clearing and scoring the full rows keeps the window framed |
| Tetris.Played | Tetris/Tetris.c:393-412 | the round with piece `draw mod 7` keeps the window framed and is interrupted only by RESTART or QUIT |
| Tetris.PlayFrom | Tetris/Tetris.c:396-427 | the loop of rounds keeps the window framed, exits only on RESTART or QUIT, and never lowers the score |
| Tetris.PlayOn | Tetris/Tetris.c:412-419 | after one round, the loop keeps the window framed and never lowers the score |
| Tetris.RunRound | Tetris/Tetris.c:412-419 | a round on the window: drop, then `game_over`, then `clear_lines` and `calc_score` |
| Tetris.PlayFromStops | Tetris/Tetris.c:412-419 | a round that is interrupted, tops out or runs out of input ends the loop with its window and the score unchanged |
| Tetris.PlayFromGoesOn | Tetris/Tetris.c:416-418 | a round that scores continues the loop from its window, with the round's points added |
| Tetris.PlayOnScored | Tetris/Tetris.c:416-418 | after a scoring round the loop continues with the points added |
| Tetris.PlayTurn | Tetris/Tetris.c:402-412 | one round on the window, with the piece chosen by the draw |
| Tetris.Advance | Tetris/Tetris.c:396-419 | one pass of the loop: the loop's result is reached directly, or from the new score and the remaining rounds |
| Tetris.RunTurns | Tetris/Tetris.c:396-427 | the loop of rounds from a score of 0 ends as the value `PlayFrom` says |
| Tetris.Game | Tetris/Tetris.c:380-431 | a whole game keeps the window's dimensions and frame, and exits only on RESTART or QUIT |
| Tetris.Play | Tetris/Tetris.c:380-431 | `play` blanks the window, then runs the rounds over the catalog from a score of 0 |
| TetrisParity.PaintedEvenKeeps | Tetris/Tetris.c:210-216 | a piece drawn at an even column never colours column 1 |
| TetrisParity.NoFullRow | Tetris/Tetris.c:329-338 | a window whose column 1 is empty has no full row |
| TetrisParity.ClearFromNothing | Tetris/Tetris.c:323-348 | with no full row, the scan removes nothing and changes nothing |
| TetrisParity.DroppedEven | Tetris/Tetris.c:242-306 | with an even spawn column, a drop keeps column 1 empty and the columns paired |
| TetrisParity.RoundEven | Tetris/Tetris.c:412-419 | with an even spawn column, a round keeps column 1 empty and scores 0 |
| TetrisParity.PlayedEven | Tetris/Tetris.c:402-419 | the same for a round with a drawn piece |
| TetrisParity.PlayOnStops | Tetris/Tetris.c:412-419 | a round that does not score ends the loop on its own window, with the score unchanged |
| TetrisParity.PlayFromEven | Tetris/Tetris.c:396-427 | with an even spawn column, the loop never raises the score |
| TetrisParity.EvenSpawnNeverScores | Tetris/Tetris.c:249-251 | when (maxx-4)/2 is even, a whole game from a blank window scores 0 |
| Connect4.EmptyRowFrom | Connect4/connect4.c:161-167 | the scan result lies in -1..r; if not -1, that slot is empty, and every slot of the column below it, down to row r, is occupied |
| Connect4.EmptyRow | Connect4/connect4.c:161-167 | -1 exactly when the column is full; otherwise the lowest empty slot, with every slot below it occupied |
| Connect4.GetEmptyRow | Connect4/connect4.c:161-167 | the scan from the bottom row up returns that row |
| Connect4.NextIsAt | Connect4/connect4.c:198-218 | one step of `next_col`, `next_row`, `next_ldiagonal` or `next_rdiagonal` is one more step along the walk |
| Connect4.GetWin | Connect4/connect4.c:175-196 | the walk with its run counter and colour returns `Win`, the value of `get_win` |
| Connect4.RunChips | Connect4/connect4.c:175-196 | a run is four chips |
| Connect4.FirstRunFound | Connect4/connect4.c:175-196 | a run the search finds is four chips of one colour, not empty, at slots the walk reaches on the board |
| Connect4.FirstRunNone | Connect4/connect4.c:175-196 | the search finds nothing only when no such run lies on the walk |
| Connect4.WalkFindsFirstRun | Connect4/connect4.c:180-195 | the walk, in any state of its run counter, finds the first run of four from where its current run began |
| Connect4.WinIsFirstRun | Connect4/connect4.c:175-196 | `get_win` returns the first run of four chips of one colour, not empty, along the walk, and returns NULL exactly when the walk passes no such run |
| Connect4.GetAllWins | Connect4/connect4.c:220-237 | the four walks, tried in order, return `AllWins` |
| Connect4.LineThrough | Connect4/connect4.c:220-237 | for a slot on the board, each walk of `get_all_wins` starts on the board, at its edge, and passes through the slot |
| Connect4.LineSound | Connect4/connect4.c:220-237 | a run found by one walk is four in a line of the board |
| Connect4.AllWinsSound | Connect4/connect4.c:220-237 | the result is four chips of one colour in a line, from the first of row, column, left and right diagonal that holds one |
| Connect4.AllWinsNone | Connect4/connect4.c:220-237 | NULL exactly when none of the four lines holds a run of four |
| Connect4.AllWinsComplete | Connect4/connect4.c:220-237 | four of one colour in a line through (r, c) are always found |
| Connect4Game.IsEmpty | Connect4/connect4.c:239-245 | true exactly when the bottom row is all empty |
| Connect4Game.IsFull | Connect4/connect4.c:247-253 | true exactly when no slot of the top row is empty |
| Connect4Game.Stacked | Connect4/connect4.c:271-280 | on a settled board every slot below a chip holds a chip |
| Connect4Game.SettledEmpty | Connect4/connect4.c:239-245 | on a settled board `is_empty` holds exactly when the whole board is empty |
| Connect4Game.SettledFull | Connect4/connect4.c:247-253 | on a settled board `is_full` holds exactly when no column has room for another chip |
| Connect4Game.Shifted | Connect4/connect4.c:365-375 | after `shift_down(beg)`, rows 0..beg are empty and each row i > beg holds the old row i-1 |
| Connect4Game.ShiftDown | Connect4/connect4.c:365-375 | the two passes through the temporary array leave the shifted board |
| Connect4Game.ShiftedKeeps | Connect4/connect4.c:365-375 | a shift empties rows 0..beg, moves every lower row down by one and keeps the board settled |
| Connect4Game.ResetFrom | Connect4/connect4.c:377-388 | the loop of `reset` leaves a board |
| Connect4Game.Reset | Connect4/connect4.c:377-388 | the board after at most six shift-downs, each while the bottom row still holds a chip |
| Connect4Game.ResetClears | Connect4/connect4.c:377-388 | `reset` always leaves the bottom row empty, and after six shifts every slot is empty |
| Connect4Game.ResetEmpties | Connect4/connect4.c:377-388 | a settled board is empty after `reset` |
| Connect4Game.Put | Connect4/connect4.c:277 | setting a chip keeps the board's shape |
| Connect4Game.Press | Connect4/connect4.c:266-281 | one key keeps the board's shape and the held chip within columns 0..6 |
| Connect4Game.Run | Connect4/connect4.c:262-300 | the loop keeps the board's shape and the held chip on the board |
| Connect4Game.Game | Connect4/connect4.c:255-306 | a game keeps the board's shape |
| Connect4Game.Handle | Connect4/connect4.c:266-281 | the input handling with the board in place matches `Press` |
| Connect4Game.Play | Connect4/connect4.c:255-306 | `play` leaves the board and returns the outcome of `Game` |
| Connect4Game.PressDrop | Connect4/connect4.c:271-280 | a drop into a column with room sets exactly its lowest empty slot to the player's colour, flips the turn and looks for a win through that slot; a drop into a full column changes nothing, not the turn either |
| Connect4Game.PressMove | Connect4/connect4.c:267-270 | LEFT and RIGHT move the held chip within 0..6 and change neither board nor turn; other keys change nothing |
| Connect4Game.PressSane | Connect4/connect4.c:266-281 | every key keeps the column in range, the turn one of the two players and the chips settled |
| Connect4Game.FourMissesSlot | Connect4/connect4.c:277 | a run of four that misses the new chip's slot was there before |
| Connect4Game.FourThrough | Connect4/connect4.c:220-237 | a run of four through a slot is a run from that slot, starting some steps before it |
| Connect4Game.PressNoFour | Connect4/connect4.c:271-280 | a key that finds no win leaves no four in a line, if there was none before; a win it finds is four in a line |
| Connect4Game.RunEnds | Connect4/connect4.c:292-293 | the loop ends exactly when a drop finds four in a line or the top row is full: a tie has no room left and no four; a reported win is four in a line |
| Connect4Game.EmptyStart | Connect4/connect4.c:50-56 | an empty board is settled and has no four in a line |
| Connect4Game.GameEnds | Connect4/connect4.c:255-306 | a game from an empty board ends as `RunEnds` says |
| GameOfLife.AliveAt | GameOfLife/game_of_life.c:122-135 | a cell counts 1 exactly when it is alive and valid, that is 0 < y < rows and 0 < x < cols, so row 0 and column 0 are left out |
| GameOfLife.RowSpan | GameOfLife/game_of_life.c:132-133 | the inner loop counts at most one per cell visited |
| GameOfLife.BlockSpan | GameOfLife/game_of_life.c:131-133 | the outer loop counts at most three per row visited |
| GameOfLife.Around | GameOfLife/game_of_life.c:128-135 | the eight neighbours add up to 0..8 |
| GameOfLife.NeighborsAround | GameOfLife/game_of_life.c:128-135 | `alive_neighbors` counts the valid live cells of the eight around the cell, minus the cell's own flag when it is not counted itself; the result lies in -1..8, and -1 only for a live cell in row 0 or column 0 |
| GameOfLife.AliveNeighbors | GameOfLife/game_of_life.c:128-135 | the nested counter loops return the 3x3 block count minus the cell's own flag |
| GameOfLife.Rule | GameOfLife/game_of_life.c:148-152 | birth and survival: a cell is alive after the step exactly when it has 3 neighbours, or is alive and has 2 |
| GameOfLife.Counts | GameOfLife/game_of_life.c:139-142 | the first pass records each cell's neighbour count |
| GameOfLife.Generation | GameOfLife/game_of_life.c:137-156 | the next generation applies the rule to every cell with its count on the grid before the step |
| GameOfLife.RowPopulation | GameOfLife/game_of_life.c:153 | a row has at most as many live cells as cells |
| GameOfLife.PopulationBound | GameOfLife/game_of_life.c:144-155 | a grid has at most rows*cols live cells |
| GameOfLife.Apply | GameOfLife/game_of_life.c:144-155 | the second pass applies the rule to each cell with its recorded count |
| GameOfLife.TwoPasses | GameOfLife/game_of_life.c:139-152 | because every count is recorded before any cell changes, the two passes produce the next generation of the grid before the step |
| GameOfLife.CountNeighbors | GameOfLife/game_of_life.c:139-142 | the first pass writes the counts of the unchanged grid |
| GameOfLife.UpdateRow | GameOfLife/game_of_life.c:145-154 | one row gets the rule by its counts, the other rows are untouched, and the row's live cells are counted |
| GameOfLife.UpdateCells | GameOfLife/game_of_life.c:144-155 | the second pass applies the rule with the recorded counts and returns the number of live cells |
| GameOfLife.Step | GameOfLife/game_of_life.c:137-156 | the counts are those of the old grid; the new grid is its next generation; the result is its number of live cells, in 0..rows*cols |

## Left out

- ncurses presentation: window layout (`gen_wins`), titles, `redraw`, `draw_board`, the next-piece preview, the score display with its `log10` digit count, and the menus `show_propmt`, `pause` and `play_again`. At the menus' call sites, it is their answer (CONTINUE, RESTART, QUIT) that is an input.
- Wall-clock timing: `get_time`, `drop_rate` and the KEY_DOWN speed-up (`drop_factor`) are floating point over real time. Each pass of the drop loop takes a `gravityDue` flag in their place.
- Randomness: `rand() % 7` is the `draw` field of each round, and `srand` is not modelled. `create_grid`'s random initial cells are not modelled either; `Step` takes any initial grid.
- Memory management: `malloc`, `calloc`, `free` and `del_copy`. The falling piece and its `rot` are shape values, so the aliasing of `*t` and `rot` in `drop_tetromino` is not modelled.
- The `main` loops of the three games, `setup` and `cleanup`: these are program start-up and the play-again menu.
- Connect 4: the chips' `.y`/`.x` pixel coordinates, the `blink` thread and `sleep` in `reset` are decoration. F1's `cleanup` ends the program, and the model ends the game with `Closed` instead.
- Game of Life: `create_grid`, drawing and `main`. The `.y`/`.x` drawing coordinates of cells are not part of the model, so "step never changes them" is not stated.
- The end of the input: where the source blocks for another key, the model stops with `Waiting` (Connect 4), `Unfinished` or `Waiting(score)` (Tetris).
- Tetris.DropTetromino: requires the spawn point of its piece to lie on valid cells, so that the piece is drawn inside the border. `drop_tetromino` never checks this, and on a window too small for the piece it draws over the border; the model does not cover that.
- Tetris.PlayRound: requires the spawn point of its piece to lie on valid cells, as `Tetris.DropTetromino` does.
- Tetris.RunRound: requires the spawn point of its piece to lie on valid cells, as `Tetris.DropTetromino` does.
- Tetris.Played: requires every piece to spawn on valid cells (`Spawnable`); for the catalog that means a window of at least 5 rows and 13 columns (`Tetris.RoomyExactly`), so that every piece spawns on valid cells. `gen_wins` gives such a window on a terminal of 16 lines or more. On smaller windows the source draws the spawned piece over the border, and the model does not cover that.
- Tetris.PlayFrom: requires every piece to spawn on valid cells (`Spawnable`), as `Tetris.Played` does.
- Tetris.PlayOn: requires every piece to spawn on valid cells (`Spawnable`), as `Tetris.Played` does.
- Tetris.PlayTurn: requires every piece to spawn on valid cells (`Spawnable`), as `Tetris.Played` does.
- Tetris.Advance: requires every piece to spawn on valid cells (`Spawnable`), as `Tetris.Played` does.
- Tetris.RunTurns: requires every piece to spawn on valid cells (`Spawnable`), as `Tetris.Played` does.
- Tetris.Game: requires a window of at least 5 rows and 13 columns (`Tetris.RoomyExactly`), so that every piece spawns on valid cells. `gen_wins` gives such a window on a terminal of 16 lines or more. On smaller windows the source draws the spawned piece over the border, and the model does not cover that.
- Tetris.Play: requires a window of at least 5 rows and 13 columns (`Tetris.RoomyExactly`), so that every piece spawns on valid cells. `gen_wins` gives such a window on a terminal of 16 lines or more. On smaller windows the source draws the spawned piece over the border, and the model does not cover that.
- Tetris.Play: the source returns only CONTINUE after a top-out; the model's `Ended` carries the score reached.
- Tetris.Drop: leaves out the redraw at the end of each pass in which the piece keeps falling; `Dropped` models the loop as written, and `DroppedIsDrop` relates the two.
- Tetromino.GetCopy: requires n >= 0; C's `%` would index outside the catalog for a negative n, and every caller passes `rand() % 7`.
- Tetromino.Rotate: requires every filled cell to lie left of column `width`, since the source would write outside its matrix otherwise; `CatalogAligned` and `AlignedInBounds` show every shape the game rotates meets it.
- Tetris.ClearLines: the source scan never stops when the window lacks a large enough frame; the model requires a framed window of at least 2 rows and 4 columns, as every game window of a terminal of at least 6 lines is.
- Connect4Game.ShiftDown: models only the colour `.c` of each chip, the one field `shift_down` writes.
