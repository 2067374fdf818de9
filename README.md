# Tetris game-state engine, modelled in Dafny

This project models the rule engine of a small Tetris clone written in C#.
It covers the playing field (`GameGrid`), a piece (`Block`) and the four
shape tables that are part of the model (L, Z, T, O), the piece supply
(`BlockQueue`), and the engine that combines them (`GameState`).

The model has one Dafny module per source file:

- `Grid` (`grid.dfy`). `GameGrid` keeps the cells in an `array2<int>`, with 0 for an empty cell and a piece id otherwise. Every operation is proved against `Cells()`, a view of the array as a sequence of rows. Row clearing is specified by `Compacted`: the cleared rows come back as zero rows on top, above the other rows in their original order.
- `Blocks` (`block.dfy`). `Position` and `Shape` are values. `Shape` holds a piece's id, its tile table with one layout per rotation state, and its start offset. `Block` is a class whose `rotationState` and `offset` fields are updated in place.
- `LBlock`, `ZBlock`, `TBlock`, `OBlock` (`lblock.dfy`, `zblock.dfy`, `tblock.dfy`, `oblock.dfy`). Each holds one shape's constant table, its id and its start offset, with lemmas about the table.
- `Queue` (`block_queue.dfy`). `BlockQueue` holds the seven shapes in id order and the pending shape. Random draws are nondeterministic choices.
- `Game` (`game_state.dfy`). `GameState` holds the field, the queue, the current piece, the held piece, the hold flag, the score and the game-over flag. The rules are stated on values: `Fits`, `Stamp`, `Settled`, `TileDrop` and `BlockDrop`. Every mutator is proved against them.

The class invariant `GameState.Valid()` includes the engine's central promise.
While the game is not over, the two hidden top rows of the 22 × 10 field are
empty and the current piece fits, meaning every tile is on an empty cell
inside the field. The constructor establishes this, and every mutator
preserves it.

The source's `ClearFullRows` has a defect: GameGrid.cs:96 passes `Rows`
where the scanned row belongs. The class models the intended call; see
"## Findings".

## Model

| member | source | states |
|---|---|---|
| Grid.GameGrid.constructor | GameGrid.cs:17-22 | a fresh Rows × Columns field in which every cell is 0 |
| Grid.GameGrid.Get | GameGrid.cs:11-13 | the indexer's read returns the cell at (row, column) |
| Grid.GameGrid.Set | GameGrid.cs:11-14 | the indexer's write changes exactly the cell (row, column) and no other cell |
| Grid.GameGrid.IsCellInsideGrid | GameGrid.cs:25-30 | true exactly when 0 ≤ row < Rows and 0 ≤ column < Columns |
| Grid.GameGrid.IsCellEmpty | GameGrid.cs:32-37 | true exactly when the cell is inside the field and holds 0; an empty cell is always inside, so every out-of-bounds cell counts as not empty |
| Grid.GameGrid.IsRowFull | GameGrid.cs:39-49 | true exactly when every column of the row is nonzero |
| Grid.GameGrid.IsRowEmpty | GameGrid.cs:51-61 | true exactly when every column of the row is zero |
| Grid.GameGrid.ClearRow | GameGrid.cs:64-70 | the row becomes all zeros and every other row is unchanged |
| Grid.GameGrid.MoveRowDown | GameGrid.cs:72-79 | needs row + n < Rows; row + n gets the old row, the row becomes zeros, all other rows are unchanged |
| Grid.GameGrid.ClearFullRows | GameGrid.cs:81-100 | returns the number of rows that were full on entry, at most Rows; the new field is that many zero rows on top of the non-full rows in their original order (with the call on line 96 corrected) |
| Grid.Compacted | GameGrid.cs:81-100 | the intended result of clearing: as many rows as the field; the first CountFull rows are zero rows, and every row below them is a non-full row of the old field |
| Grid.CountFullWitness | GameGrid.cs:87-93 | a field that counts a full row has a full row at some index |
| Grid.CountFull | GameGrid.cs:87-93 | the number of full rows never exceeds the number of rows |
| Grid.KeepNonFull | GameGrid.cs:94-97 | the rows kept are non-full rows of the field, and kept plus cleared rows add up to all rows |
| Grid.CountFullAppend | GameGrid.cs:87-98 | counting and keeping rows split over any cut of the field, as the pass handles each row on its own |
| Grid.CompactedRectangular | GameGrid.cs:81-100 | clearing rows keeps the field Rows × Columns |
| Grid.NoFullRowsUnchanged | GameGrid.cs:87-99 | on a field with no full row, clearing counts 0 and changes nothing |
| Grid.NoFullRowAfterCompaction | GameGrid.cs:84-98 | with at least one column, no full row remains after clearing |
| Grid.CompactedIdempotent | GameGrid.cs:81-100 | clearing a second time changes nothing |
| Grid.KeptRowLands | GameGrid.cs:84-97 | a non-full row i lands exactly as many rows lower as there are full rows below it |
| Grid.AsWrittenPassFaults | GameGrid.cs:87-98 | the pass as written can only read out of range when the field has at least one column |
| Grid.AsWrittenFaults | GameGrid.cs:81-100 | whether ClearFullRows as written reads out of range on a field; it can only do so when there is a column (characterised by AsWrittenFaultsIff) |
| Grid.AsWrittenPassFaultsIff | GameGrid.cs:87-98 | the pass as written over the rows above a point reads out of range exactly when a non-full row meets a cleared row below it |
| Grid.AsWrittenFaultsIff | GameGrid.cs:96 | ClearFullRows as written reads out of range exactly when some non-full row lies above a full row (and there is a column) |
| Grid.AsWrittenFaultWitness | GameGrid.cs:96 | on the 2 × 1 field [[0],[1]] the code as written reads out of range, while the intended result is [[0],[0]] |
| Blocks.Shifted | Blocks/Block.cs:18-24 | the tiles moved by the offset: as many positions as the layout has |
| Blocks.ShiftedAt | Blocks/Block.cs:18-24 | entry i is the layout's tile i moved by the offset, in the layout's order |
| Blocks.ShiftedTranslate | Blocks/Block.cs:43-47 | moving the offset by (r, c) moves every tile position by (r, c) |
| Blocks.ClockwiseState | Blocks/Block.cs:26-29 | the next state stays below the table length: one more, wrapping from the last state to 0 |
| Blocks.CounterClockwiseState | Blocks/Block.cs:31-41 | the previous state stays below the table length |
| Blocks.RotationsInverse | Blocks/Block.cs:26-41 | counter-clockwise after clockwise gives back the state, and so does clockwise after counter-clockwise |
| Blocks.SingleLayoutRotations | Blocks/Block.cs:28-35 | with a one-layout table both turns leave the state at 0 |
| Blocks.Block.constructor | Blocks/Block.cs:13-16 | a new piece has rotation state 0 and its start offset |
| Blocks.Block.TilePositions | Blocks/Block.cs:18-24 | the active layout shifted by the offset; always four positions |
| Blocks.Block.RotateClockwise | Blocks/Block.cs:26-29 | the rotation state advances modulo the table length and stays valid; the offset is unchanged |
| Blocks.Block.RotateCounterClockwise | Blocks/Block.cs:31-41 | the rotation state steps back, wrapping from 0 to the last state; the offset is unchanged |
| Blocks.Block.Move | Blocks/Block.cs:43-47 | the offset moves by (rows, columns) and the rotation state is unchanged |
| Blocks.Block.Reset | Blocks/Block.cs:49-54 | back to rotation state 0 at the start offset |
| Blocks.MoveRoundTrip | Blocks/Block.cs:43-47 | Move(r, c) followed by Move(-r, -c) gives back the offset |
| Blocks.MovedTiles | Blocks/Block.cs:18-24 | after Move(r, c), every tile position is the old one moved by (r, c) |
| LBlock.Layouts | Blocks/LBlock.cs:5-11 | four rotation layouts, each of exactly four distinct tiles |
| LBlock.InBox | Blocks/LBlock.cs:7-10 | every tile lies in rows 0..2 and columns 0..2 |
| LBlock.SpawnPose | Blocks/LBlock.cs:7-22 | with id 3 at start offset (0,3), rotation 0 occupies (0,5), (1,3), (1,4), (1,5): rows 0..1, columns 3..5, so it can spawn on a ten-column field |
| ZBlock.Layouts | Blocks/ZBlock.cs:5-11 | four rotation layouts, each of exactly four distinct tiles |
| ZBlock.InBox | Blocks/ZBlock.cs:7-10 | every tile lies in rows 0..2 and columns 0..2 |
| ZBlock.SpawnPose | Blocks/ZBlock.cs:7-22 | with id 7 at start offset (0,3), rotation 0 occupies (0,3), (0,4), (1,4), (1,5): rows 0..1, columns 3..5 |
| TBlock.Layouts | Blocks/TBlock.cs:5-11 | four rotation layouts, each of exactly four distinct tiles |
| TBlock.InBox | Blocks/TBlock.cs:7-10 | every tile lies in rows 0..2 and columns 0..2 |
| TBlock.SpawnPose | Blocks/TBlock.cs:7-22 | with id 6 at start offset (0,3), rotation 0 occupies (0,4), (1,3), (1,4), (1,5): rows 0..1, columns 3..5 |
| OBlock.Layouts | Blocks/OBlock.cs:5-9 | one layout of four distinct tiles, exactly the 2 × 2 square rows 0..1, columns 0..1 |
| OBlock.NeverRotates | Blocks/OBlock.cs:5-9 | with its one-layout table, both turns leave O at rotation state 0 |
| OBlock.SpawnPose | Blocks/OBlock.cs:7-13 | with id 4 at start offset (0,4), O occupies rows 0..1, columns 4..5 |
| Queue.BlockQueue.constructor | BlockQueue.cs:7-25 | the seven shapes I, J, L, O, S, T, Z in id order; the pending shape is one of them |
| Queue.BlockQueue.NextBlock | BlockQueue.cs:20 | the pending shape is one of the seven and can spawn; reading it changes nothing |
| Queue.BlockQueue.RandomBlock | BlockQueue.cs:27-30 | returns one of the seven shapes |
| Queue.BlockQueue.GetAndUpdate | BlockQueue.cs:32-43 | returns the shape that was pending before the call; the new pending shape is one of the seven, and its id differs from the one returned |
| Game.Fits | GameState.cs:52-63 | the legality test of BlockFits on values; a pose that fits lies inside the field |
| Game.Settled | GameState.cs:21-29 | the offset the setter's two-step loop reaches: same column, at most `steps` rows lower than the start |
| Game.TileDrop | GameState.cs:164-173 | the count of the while loop; it never exceeds the rows below the tile, nor the number of rows |
| Game.Stamp | GameState.cs:135-138 | writing the tiles keeps every row's length and the number of rows |
| Game.StampAt | GameState.cs:135-138 | after locking, a cell holds the piece's id exactly when it is one of the piece's tiles; every other cell keeps its value |
| Game.StampRectangular | GameState.cs:135-138 | locking keeps the field Rows × Columns |
| Game.SettledProperties | GameState.cs:21-29 | if the starting pose fits, the pose the spawn loop ends in fits |
| Game.EmptyFieldSpawnRows | GameState.cs:46 | the new, all-zero field has empty spawn rows |
| Game.SpawnFits | GameState.cs:142-150 | whenever the two top rows are empty, every shape fits in its spawn pose |
| Game.TileDropSpec | GameState.cs:164-173 | every cell from one row below the tile down to its drop distance is empty, and the next cell down is not |
| Game.BlockDrop | GameState.cs:175-185 | the piece's drop distance never exceeds its starting bound |
| Game.BlockDropIsMin | GameState.cs:175-185 | the piece's drop distance is at most every tile's drop distance and equals one of them |
| Game.BlockDropSpec | GameState.cs:164-185 | for every tile, all cells from one row below down to the drop distance are empty; for some tile the next cell down is not |
| Game.DroppedFits | GameState.cs:187-191 | a fitting piece moved down by its drop distance still fits |
| Game.FreeTopColumn | GameState.cs:135-138 | four tiles leave one of the first five cells of row 0 uncovered |
| Game.AsWrittenClearFaultsInGame | GameGrid.cs:96 | whenever locking four tiles into a 22 × 10 field with empty top rows fills a row, ClearFullRows as written reads out of range |
| Game.NewQueue | GameState.cs:47 | a fresh piece supply whose invariant holds |
| Game.GameState.constructor | GameState.cs:41-50 | a game on an empty 22 × 10 field with score 0, nothing held, hold enabled, the first shape spawned and the invariant established |
| Game.GameState.SetCurrentBlock | GameState.cs:16-31 | the piece becomes current at rotation 0, at the offset the settle loop reaches from its start offset; if the spawn pose fits, the final pose fits |
| Game.GameState.BlockFits | GameState.cs:52-63 | true exactly when every tile of the current piece is on an empty cell inside the field |
| Game.GameState.HoldBlock | GameState.cs:65-86 | with hold disabled, nothing changes (the held piece included); the first hold stores the current piece and spawns the pending shape; a later hold swaps the pieces and respawns the recalled one; hold ends disabled, and the field and score are unchanged |
| Game.GameState.RotateBlockClockwise | GameState.cs:88-96 | the piece takes the clockwise state if it fits there and otherwise keeps its old state; the offset and the field are unchanged, and the piece fits |
| Game.GameState.RotateBlockCounterClockwise | GameState.cs:98-106 | the same for the counter-clockwise state |
| Game.GameState.MoveBlockLeft | GameState.cs:108-116 | the piece moves one column left if it fits there, otherwise it stays; the rotation and the field are unchanged, and the piece fits |
| Game.GameState.MoveBlockRight | GameState.cs:118-126 | the same one column right |
| Game.GameState.IsGameOver | GameState.cs:128-131 | true exactly when row 0 or row 1 is not empty |
| Game.GameState.WriteTiles | GameState.cs:135-138 | the field afterwards is the piece's id stamped into its tiles' cells |
| Game.GameState.LockAndClear | GameState.cs:135-140 | the field afterwards is the stamped field with its full rows cleared, and the count returned is the number of full rows of the stamped field |
| Game.GameState.SpawnNext | GameState.cs:148-149 | the pending shape becomes the current piece in its spawn pose and fits; hold is enabled; the new pending id differs |
| Game.GameState.PlaceBlock | GameState.cs:133-151 | writes the id into exactly the tiles' cells, clears full rows and adds their number to the score; the game is over exactly when row 0 or 1 is non-empty, and otherwise the pending shape spawns and hold is enabled; the score never decreases |
| Game.GameState.MoveBlockDown | GameState.cs:153-162 | if the pose one row down fits, the piece moves there and nothing else changes; otherwise the piece is locked where it was, and on game over it stays in that pose |
| Game.GameState.TileDropDistance | GameState.cs:164-173 | the number of empty cells right below the tile: every cell down to the distance is empty and the next is not |
| Game.GameState.BlockDropDistance | GameState.cs:175-185 | the least tile drop distance, at most Rows; every tile can fall that far, and some tile is blocked one row further |
| Game.GameState.HardDropBlock | GameState.cs:187-191 | the piece is moved down by its drop distance and always locked there, with every consequence of PlaceBlock; on game over it stays in the landed pose |

## Left out

- MainWindow.xaml.cs is not part of this model: rendering, image loading, key dispatch and the timed game loop. Its game-over guard on input (MainWindow.xaml.cs:170-173) appears as the precondition `!gameOver` on the `GameState` mutators.
- LineBlock.cs is a superseded file that the queue does not use; it is not part of this model.
- IBlock.cs, JBlock.cs and SBlock.cs are not part of this model. The I, J and S tables are parameters of the constructors, with the stated assumptions (`Queue.AssumedShape`). Each layout has four tiles, and the rotation-0 pose at the start offset lies in rows 0..1 of a ten-column field. The ids are 1, 2 and 5, taken from the image order that MainWindow.xaml.cs:34-44 says follows the ids.
- Position.cs is not part of this model. `Position` is a value; the source copies `StartOffset` into a fresh offset, so no aliasing of positions is observable.
- The distribution of `System.Random` is not modelled. Every draw is a nondeterministic choice, and no uniformity is stated.
- Game.NewQueue: the game's contracts know only that the queue holds seven spawnable shapes with ids 1 to 7, not that the L, O, T and Z entries are those tables. Carrying the queue's exact contents into the game constructor's proof exceeds the verifier's resource limit. The queue constructor itself states the contents.
- Queue.BlockQueue.GetAndUpdate: the do-while rejection loop is one choice among the shapes whose id differs from the dealt one. Termination of that loop for a real random generator is not modelled.
- Shared piece objects: the source's queue hands out one shared `Block` object per shape, so the held piece and a later current piece can be the same object. The model allocates a fresh `Block` for every spawn. Only the held piece's id is observable, and it is reset when recalled, so the games are alike.
- Out-of-range index exceptions of the indexer, `ClearRow`, `MoveRowDown`, `IsRowFull` and `IsRowEmpty` are preconditions. The sizes of `GameGrid` are natural numbers, so a negative size, which C# would reject, cannot be passed.
- Game.GameState.PlaceBlock: the score is an unbounded integer. C#'s 32-bit wrap-around after 2^31 cleared rows is not modelled.
- `TilePositions` yields lazily in the source. The model computes the sequence at the call. Nothing changes the piece while the source enumerates it, so the result is the same.

## Findings

| source | as written | input that shows it | evidently intended | confidence | as-written member | corrected member |
|---|---|---|---|---|---|---|
| GameGrid.cs:96 | `MoveRowDown(Rows, clearedRows)` reads row `Rows`, one past the last row, as soon as a non-full row lies above a cleared row; in a running game the spawn rows are empty before a lock, so every line clear goes out of range (Game.AsWrittenClearFaultsInGame) | the 2 × 1 field [[0],[1]]: row 1 is full and cleared, then row 0 is not full with one row cleared | `MoveRowDown(row, clearedRows)`, as the comment on lines 84-85 and the parameters of MoveRowDown (line 72) say: the result is [[0],[0]] | not executed | Grid.AsWrittenFaultsIff | Grid.GameGrid.ClearFullRows |
