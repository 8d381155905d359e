# 2048 grid engine (`tw::Game`), modelled and verified in Dafny

This project models the grid engine of the `tw::Game` class of a 2048 clone.
The engine keeps a live board (`map`) and a scratch board (`tempMap`) of
exponents, where 0 is an empty cell and k is the tile 2^k. It also keeps a
queue of motion records `((from, to), value)`, the `animState` flag and an
animation clock.

A direction key runs `move`:
- The live board is copied into the scratch board.
- Every tile is visited from the wall outward. Its target is found, and
  `applyMove` slides the tile, merges it, or stops it against a different tile.
- A tile that moves leaves the live board at once and queues a record.
- A full scratch board with no equal neighbours resets the game.

When the animation time has passed, `Update` writes the records back into the
live board, clears them and spawns a tile. `Spawn` places a 1 or a 2 on a
random empty cell, or resets when no cell is empty. `Reset` clears the board
and spawns.

The project has five modules:
- `Grid` (Grid.dfy): the board, directions, the target search, and the
  full, stuck and empty-cell predicates.
- `Rules` (Rules.dfy): the reference semantics as functions on values
  (`Applied`, `StepAt`, `ScanLane`, `ScanLines`, `Moved`, `Committed`,
  `Updated`, `Spawned`, `ResetBoard`, `Handled`).
- `Tw` (Game.dfy): the class `Game`. Its two boards are arrays updated in
  place by the source's nested loops. Every state-changing method is proved
  to compute the matching `Rules` function of the old state.
- `Text` (Text.dfy): `getText` and `getTextSize`.
- `Properties` (Properties.dfy): properties of whole moves. A move keeps the
  board's value. It never adds tiles. It changes nothing on a stuck board,
  so the game-over reset fires exactly on boards stuck before the move. Its
  records, written back by `Update`, reproduce the scratch board.

The model follows the code, including where it departs from the usual 2048 rules:
- A merged tile is not locked. A tile can merge into a tile produced by a
  merge earlier in the same move, since the target search reads the scratch
  board as it is updated. In the row of exponents 1, 1, 2 moved left, the two
  1s merge into a 2 at the wall, and the 2 then merges with it into a 3
  (Properties.MergedTileMergesAgain).
- The reset on a merge fires when the merge produces exponent 12 (4096), not
  the 2048 tile.
- A reset during a move (Game.cpp:338 and Game.cpp:326) clears only the live
  board. The scratch board, the queued records and `animState` are kept.
  `Update` still writes the records back onto the reset board. As a result a
  tile of exponent 12 can reach the live board (Properties.ResetKeepsRecords),
  one past the end of the label and colour tables that `Render` indexes.

## Model

| member | source | states |
|---|---|---|
| Grid.Target | Game.cpp:228-235 | the target of a non-empty source is a cell on the board, in the same lane, strictly closer to the wall |
| Grid.TargetSpec | Game.cpp:228-235 | the target differs from the source, every cell strictly between them is empty, and the target is occupied or is the wall cell |
| Grid.EmptyCellsSpec | Game.cpp:132-139 | a cell is in the list of empty cells exactly when it is on the board and holds 0 |
| Grid.FullIffNoEmptyCells | Game.cpp:141-144 | the list of empty cells is empty exactly when every cell is occupied |
| Grid.StuckIsFull | Game.cpp:303-307 | a board that passes the game-over test has no empty cell |
| Rules.SpawnSpec | Game.cpp:127-150 | Spawn draws two numbers; with an empty cell it writes 1 or 2 into exactly one empty cell and changes no other cell; on a full board it is Reset |
| Rules.ResetIsSpawnOnCleared | Game.cpp:152-158 | Reset is Spawn applied to the cleared board |
| Rules.ResetLeavesOneTile | Game.cpp:152-158 | after Reset exactly one cell is occupied, holding 1 or 2 |
| Rules.Place | Game.cpp:141-149 | on a board with an empty cell: the empty cell at position `rand() % count` of the loop-order list receives 1 when the next `rand() % 10 < 9`, else 2; two numbers are drawn |
| Rules.Spawned | Game.cpp:127-150 | Spawn: Reset when the board has no empty cell, else Place |
| Rules.ResetBoard | Game.cpp:152-158 | Reset: the cleared board with one tile placed at offset `rand() % 16`, valued as Spawn values it |
| Rules.Landing | Game.cpp:340-347 | the tile stops on the target or one cell back from it, on the board and never beyond its source |
| Rules.Applied | Game.cpp:329-357 | one tile at f with target t: the scratch source is cleared and the landing cell receives srcVal + 1 on a merge, else srcVal; a merge reaching 12 resets the live board; when the tile moves, the live source is cleared, the record `(f, to, srcVal)` appended, animState set and the clock restarted |
| Rules.AppliedSpec | Game.cpp:329-357 | scratch board: equal values merge at the target into srcVal + 1; an empty target receives the tile; a different tile stops it one cell back; the source is cleared unless the tile stays; no other cell changes. A record is queued, the live source cleared, animState set and the clock restarted exactly when the tile moves; a merge reaching 12 resets the live board |
| Rules.Moved | Game.cpp:215-327 | move: the live board copied into the scratch board, every depth and lane scanned in the source's order, then Reset when the scratch board is stuck |
| Rules.CommitOne | Game.cpp:46-57 | one record written back: the destination is read first, the source cleared, and the destination set to value + 1 when it held the record's value and from != to, else to the value |
| Rules.Committed | Game.cpp:45-58 | the records written back one after another, in queue order |
| Rules.Updated | Game.cpp:39-69 | Update: nothing unless an animation runs and its duration has passed; then the records are written back, the queue cleared, animState reset and a tile spawned |
| Rules.Handled | Game.cpp:20-37 | OnEvent: a direction key runs move when no animation runs; every other event, and any key during an animation, changes nothing |
| Tw.Game.constructor | Game.cpp:8-18 | both boards start zeroed, no animation runs, and the live board is the Reset board |
| Tw.Game.Rand | Game.cpp:146-147 | one call of rand() returns the next number of the random source |
| Tw.Game.AvailableCells | Game.cpp:129-139 | the buffer holds the empty cells of the live board in the order the nested loops meet them |
| Tw.Game.Spawn | Game.cpp:127-150 | the live board and draw count become those of Rules.Spawned |
| Tw.Game.Reset | Game.cpp:152-158 | the live board and draw count become those of Rules.ResetBoard |
| Tw.Game.FindTarget | Game.cpp:228-235 | the search loop returns Grid.Target of the scratch board |
| Tw.Game.IsGameOver | Game.cpp:299-323 | the result is true exactly when every scratch cell is occupied and no two neighbours are equal |
| Tw.Game.LandOnScratch | Game.cpp:331-340 | srcVal and destVal are the old scratch values; the scratch board is cleared at the source and written at the landing cell; a merge reaching 12 resets the live board, otherwise it is unchanged |
| Tw.Game.ApplyMove | Game.cpp:329-357 | the new state is Rules.Applied of the old state |
| Tw.Game.CopyToScratch | Game.cpp:217-220 | the scratch board becomes a copy of the live board |
| Tw.Game.StepCell | Game.cpp:225-237 | an empty source is skipped, a non-empty one is moved to its target (Rules.StepAt) |
| Tw.Game.ScanDepth | Game.cpp:224-238 | every lane at one depth, in order (Rules.ScanLane) |
| Tw.Game.Scan | Game.cpp:217-297 | the copy, then every depth from the wall outward (Rules.ScanLines) |
| Tw.Game.Move | Game.cpp:215-327 | the scan followed by the game-over reset (Rules.Moved) |
| Tw.Game.CommitMoves | Game.cpp:45-58 | the live board becomes the records written back in order (Rules.Committed) |
| Tw.Game.Update | Game.cpp:39-69 | nothing changes until the animation has run its duration; then the records are written back, cleared, animState reset and a tile spawned (Rules.Updated) |
| Tw.Game.OnEvent | Game.cpp:20-37 | a direction key runs move when no animation runs; while one runs, nothing changes |
| Text.GetText | Game.cpp:186-204 | the label is a decimal numeral without leading zeros that denotes 2^tile, and is empty for an empty cell |
| Text.LabelsCanonical | Game.cpp:189-202 | every table entry is a decimal numeral without leading zeros |
| Text.LabelsDenoteValues | Game.cpp:189-202 | entry k of the table denotes 2^k; the empty entry denotes 0 |
| Text.GetTextSize | Game.cpp:206-213 | the character size is 35 from exponent 10 up, 45 from 7 up, else 55 |
| Text.TextSizeByLength | Game.cpp:206-213 | the character size is 55 for labels of up to two digits, 45 for three and 35 for four |
| Properties.AppliedTotal | Game.cpp:331-340 | one applyMove keeps the total value of the scratch board |
| Properties.MoveConservesValue | Game.cpp:215-297 | after the scan the scratch board holds the total value the live board held before the move |
| Properties.AppliedTiles | Game.cpp:331-340 | a merge removes exactly one tile from the scratch board and a slide or stop keeps the count; on a full board a tile that does not merge changes nothing |
| Properties.StuckStep | Game.cpp:225-237 | on a stuck board a visited cell changes nothing |
| Properties.ScanLinesStuck | Game.cpp:222-297 | the scan leaves a stuck board and the whole state unchanged |
| Properties.MoveGameOver | Game.cpp:299-326 | the game-over reset fires exactly when the board was stuck before the move, and then no tile moved |
| Properties.MergedTileMergesAgain | Game.cpp:228-240 | in the row 1, 1, 2 moved left, a tile made by a merge merges again in the same move, ending as 3 at the wall with the two cells behind it empty |
| Properties.ResetKeepsRecords | Game.cpp:336-352 | a merge reaching 12 resets the live board but keeps the queued records and adds its own, and after Update the live board holds exponent 12 |
| Properties.CommittedFrame | Game.cpp:45-58 | writing the records back commutes with a write to a cell no record touches |
| Properties.AppliedCommit | Game.cpp:342-356 | the record queued by applyMove, written back after the earlier ones, reproduces the scratch board |
| Properties.ScanLinesReplays | Game.cpp:222-297 | through a scan without a reset, the records in flight replay the scratch board onto the live board |
| Properties.MoveThenUpdate | Game.cpp:39-62 | after a move without a reset, Update leaves the board the move computed plus one spawned tile; a move that queues no record changes neither board |

## Left out

- `Render`, `getTileColor` and `getTextColor` (Game.cpp:71-125, 160-184) are drawing code with floating-point interpolation.
- The font loading and the pixel `tileSize` of the constructor (Game.cpp:10-14) are file I/O and layout.
- Settings.h is not part of this model. The board is fixed at 4 x 4 (`Grid.W`, `Grid.H`).
- `sf::Clock` is replaced by a clock reading `now` that callers pass in. `animClock.restart()` stores `now` in `animStart`. The test against ANIMATION_DURATION becomes `now - animStart >= duration` on integers.
- `rand()` is a function `rand: nat -> nat` with a count of the numbers used so far. The 90/10 split of 1 and 2 is a property of the distribution and is not modelled; only the arithmetic `rand() % count` and `rand() % 10 < 9` is.
- The key-code mapping of OnEvent (Game.cpp:26-35) is abstracted to an event that is a direction key, another key, or not a key press. `move` is only ever called with the four directions, so its fall-through for any other `(dirX, dirY)` pair is not modelled.
- Cells are unbounded naturals rather than `char`. Exponents on a 4 x 4 board stay far below the 127 a `char` holds.
- Text.GetText: requires an exponent below 12, the size of the label table. The source reads past the table for a larger value.
- Properties.MoveThenUpdate: covers only moves that draw nothing from the random source. A reset during the move (a merge reaching 12, or the game-over test) changes the live board under the queued records, and the lemma says nothing about that case.
- Properties.AppliedTotal, Properties.AppliedTiles: require the cells between source and target to be empty. The target search guarantees this (Grid.TargetSpec), and the scan lemmas use it that way.
