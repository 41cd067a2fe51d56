# Minesweeper engine in Dafny

A model of the game engine of `minesweeper.py`, a pygame Minesweeper on an
N×N grid with M mines. Cells are addressed by a flat slot number
`slot = column + row * N`. The column is `slot % N` and the row is `slot / N`.
The engine keeps three N×N arrays, all indexed `[column][row]`:

- `grid` holds 9 for a mine and 0..8 for the number of neighbouring mines.
- `uncovered` records which cells are uncovered.
- `flagged` records which cells are flagged.

A boolean `play` gates every click.

The modules follow the program:

- `Grid` (grid.dfy) covers slot arithmetic and the neighbour function `get_surrounding_slots` (`SurroundingSlots`). That function is proved equal to the uniform in-bounds 8-neighbourhood.
- `Board` (board.dfy) covers the mine set, adjacent-mine counts, mine placement (`WithMines`) and the count pass (`Annotate`), all as functions on the grid viewed as a sequence indexed by slot.
- `Reveal` (reveal.dfy) defines the flood reveal `uncover` as a reference (`Cascade`). A cell is in the cascade when it ends a path from the clicked cell along neighbours whose inner cells all show 0. The module proves that the cascade is the least set closed under expanding 0-cells.
- `Rules` (rules.dfy) is the click state machine on abstract state (`Session`: uncovered slots, flagged slots, `play`), the win rule of `won()`, and the invariant that a game keeps.
- `Engine` (engine.dfy) is the program itself, as `class Game` over `array2` fields. It has the constructor for the zeroed arrays, mine placement, the count pass, `won`, `uncover` with its search loop, and the left and right clicks. Each method is proved against the functions of the modules above. `NewGame` runs the start-up sequence of the script.

The source fixes N = 20 and M = 40. The model takes both as parameters and
requires N >= 2. At N = 1 the source's corner branch lists slots that are not
on the board.

## Model

| member | source | states |
|---|---|---|
| Grid.Col | minesweeper.py:66 | the column `slot % N` of a slot lies in [0, N) |
| Grid.Row | minesweeper.py:66 | the row `slot / N` of an on-board slot lies in [0, N), and the slot is row·N + column |
| Grid.SlotOf | minesweeper.py:257 | the slot `x + y * N` of an on-board cell is on the board and has that column and row |
| Grid.SameCoordsSameSlot | minesweeper.py:66 | two on-board slots with the same column and row are the same slot, so the [column][row] arrays hold one entry per slot |
| Grid.SurroundingSlotsExact | minesweeper.py:23-52 | `SurroundingSlots`, the branching neighbour list, contains a slot iff it is an in-bounds cell at most one column and one row away (and not the cell itself); the list has no repetitions; it has 3 members in a corner, 5 on an edge and 8 inside |
| Grid.NeighboursAreSurrounding | minesweeper.py:23-52 | the set of listed neighbours equals the filtered 8-neighbourhood and has at most 8 members |
| Board.MinesFit | minesweeper.py:72-80 | a board never holds more mines than cells, so placing M distinct mines needs M <= N² |
| Board.AddMine | minesweeper.py:76-80 | writing 9 into a cell without a mine adds exactly that cell to the mine set, so the mine count grows by one |
| Board.KeepMines | minesweeper.py:84-85 | overwriting a non-mine cell with a value other than 9 leaves the mine set unchanged |
| Board.AnnotateCounted | minesweeper.py:83-85 | the count pass keeps every mine where it is and never writes 9; every other cell then holds the number of its neighbours that are mines, which lies in [0, 8] |
| Board.CountsInRange | minesweeper.py:8-10 | on a counted board every warning lies in [0, 8] |
| Board.CentreCountExample | minesweeper.py:83-85 | on a 3×3 board with mines in two opposite corners the centre shows 2 |
| Reveal.CascadeHasOriginAndRing | minesweeper.py:175-183 | the flood always contains the clicked cell and all of its neighbours |
| Reveal.CascadeClosed | minesweeper.py:198-200 | every flooded cell that shows 0 has all its neighbours flooded |
| Reveal.CascadeLeast | minesweeper.py:186-200 | any set that holds the clicked cell and its neighbours and is closed under expanding 0-cells contains the whole flood |
| Reveal.CascadeShape | minesweeper.py:190-200 | every flooded cell is the clicked cell, a neighbour of it, or a neighbour of a flooded cell showing 0 |
| Reveal.CascadeAvoidsMines | minesweeper.py:256-257 | on a counted board, the flood from a cell showing 0 contains no mine |
| Reveal.ExpandStep | minesweeper.py:190-200 | one step of the search keeps the search state sound: a slot already found is dropped, a new one is found, and when it shows 0 its neighbours become pending |
| Reveal.ExpandedIsCascade | minesweeper.py:186-200 | when nothing is pending, the slots found (if all lie in the flood) are exactly the flood |
| Rules.UncoverOne | minesweeper.py:195 | adding an unfound on-board slot to the found slots removes exactly that slot from the rest, which is why the search ends |
| Rules.AfterLeftClick | minesweeper.py:225-265 | a left click never hides a cell and never changes flags; it can only end the game, never restart it; it changes something only when the game is on and the cell is covered and unflagged, and it then uncovers that cell |
| Rules.AfterRightClick | minesweeper.py:268-285 | a right click changes only the flag of the clicked cell, and flips it exactly when the game is on and the cell is covered |
| Rules.WinRuleMeansAllSafeShown | minesweeper.py:153-165 | while no mine is uncovered, `won()` (covered cells == M) holds iff the covered cells are exactly the mines, that is, iff every cell without a mine is uncovered |
| Rules.LeftClickKeepsConsistent | minesweeper.py:225-265 | a left click keeps the board counted with M mines and keeps all shown and flagged slots on the board; while the game is on, no mine is uncovered |
| Rules.RightClickKeepsConsistent | minesweeper.py:268-285 | a right click keeps the same invariant |
| Rules.LeftClickEndsGame | minesweeper.py:240-265 | in a consistent game, a left click on a covered, unflagged cell ends the game iff the cell is a mine or afterwards every cell without a mine is uncovered; a mine is uncovered afterwards iff the clicked cell is one |
| Rules.FlagBlocksReveal | minesweeper.py:234-238 | a flagged covered cell ignores a left click, and a right click on an uncovered cell changes nothing |
| Rules.LossExample | minesweeper.py:241-251 | clicking the mine of a 2×2 board uncovers only that cell and stops the game, and every later click is ignored |
| Rules.WinExample | minesweeper.py:253-265 | on the same board, uncovering the three safe cells wins, and only on the third click |
| Rules.SmallBoardCounted | minesweeper.py:83-85 | the 2×2 board with one mine in slot 0 is counted: each other cell shows 1 |
| Engine.Game.constructor | minesweeper.py:11-20 | all three arrays are N×N and zero, nothing is shown or flagged, and `play` is false |
| Engine.Game.SetValue | minesweeper.py:85 | writing `grid[i % N][i / N]` changes exactly that slot of the board |
| Engine.Game.MarkUncovered | minesweeper.py:203 | writing `uncovered[s % N][s / N] = True` adds exactly slot s to the uncovered slots |
| Engine.Game.SetFlag | minesweeper.py:277-284 | writing a flag sets or clears exactly that slot's flag |
| Engine.Game.SurroundingMines | minesweeper.py:55-68 | the count is the number of neighbours that hold a mine, in [0, 8] |
| Engine.Game.PlaceMines | minesweeper.py:71-80 | the drawn slots become mines and nothing else changes; when the placement finishes, exactly M new mines have been added and the old count plus M is at most N²; when it does not finish, the draws ran out with fewer than M placed |
| Engine.Game.ComputeCounts | minesweeper.py:82-85 | the grid becomes the count-pass image of the old grid |
| Engine.Game.Won | minesweeper.py:153-165 | the result is the win rule: the number of covered cells equals M |
| Engine.Game.FloodSlots | minesweeper.py:174-200 | the search returns exactly the flood of the clicked cell |
| Engine.Game.Uncover | minesweeper.py:168-203 | the uncovered cells grow by exactly the flood of the clicked cell |
| Engine.Game.Start | minesweeper.py:211 | clicks are accepted from now on; nothing else changes |
| Engine.Game.LeftClick | minesweeper.py:225-265 | the new uncovered/flagged/play state is the left-click rule applied to the old state at the clicked slot |
| Engine.Game.RevealSafe | minesweeper.py:253-265 | on a covered cell without a mine: the cell is uncovered, plus the flood when it shows 0; grid and flags are unchanged; clicks stop being accepted exactly when the win rule then holds |
| Engine.Game.RightClick | minesweeper.py:268-285 | the new state is the right-click rule applied to the old state at the clicked slot |
| Engine.NewGame | minesweeper.py:72-85 | the game and its arrays are new; the mines are drawn slots (all of the draws when placement does not finish), and placement finishes exactly when the draws hold at least M distinct slots; after start-up nothing is shown or flagged, and clicks are accepted exactly when every mine was placed (otherwise fewer than M mines lie on the board and the script never reaches `play = True`); when every mine was placed, M <= N² and the game is consistent (counted, M mines) |
| Engine.LossFromStart | minesweeper.py:241-251 | a 2×2 game started with one draw at slot 0, clicked at column 0, row 0, shows only that cell and no longer accepts clicks |

## Left out

- pygame (window, images, `show()`, captions) and the `print` messages are output only and are not modelled. `show()` draws uncovered before flagged before covered, which is why an uncovered cell that is still flagged shows its value.
- The event loop is not modelled. Mouse positions become the column and row arguments of the click methods, which assumes the pixel division `x / 15` falls on the board. Quit events are not modelled. After a left click on an uncovered or flagged cell (minesweeper.py:236, 238) or on a mine (minesweeper.py:251), and after a right click on an uncovered cell (minesweeper.py:275) or one that removes a flag (minesweeper.py:281), the source leaves the batch of pending events with `break` rather than `continue`. The model treats each click on its own, so dropping the rest of a batch is not captured.
- `np.random.random_integers` is not modelled. The model takes the random draws as a finite sequence of slots. `PlaceMines` skips draws that hit a mine, as the inner `while` does. Because the source would loop forever if the mines could not fit, the model reports `placed == false` when the draws run out instead. The distribution of the mines is not modelled.
- Engine.Game.FloodSlots: the source walks a copy of the pending set in Python's set order. The model walks a snapshot of the pending set in an arbitrary order, which gives the same result in every order. It adds a listed neighbour set to the pending set as one union instead of one `add` per list entry.
- Engine.NewGame: when the draws run out, the source would still be resampling; the model stops there, with the count pass not run and clicks never accepted. The script's global state is a fresh `Game`, and the constants 20 and 40 are the parameters n and m.
- The game status is the source's `play` flag. Lost and won are told apart from it by whether a mine is uncovered (Rules.LeftClickEndsGame).
- The flood does not skip flagged cells. It uncovers them and leaves their flag set, as the code does. A stricter rule that flagged cells are never uncovered does not hold for the code, and the model follows the code.
- Board sizes below 2 are excluded (see above).
