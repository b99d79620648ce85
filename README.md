# Minesweeper game engine in Dafny

This project models the game-state engine of a tkinter Minesweeper program
(`Minesweeper.py`). The board is 20 rows by 24 columns and holds 99 mines.
Every tile has three fields:

- `value`: -1 for a mine, otherwise the number of mines among its 8 neighbours;
- `hide`: whether the tile is still covered;
- `flag`: whether the tile carries a flag.

Besides the grid, the engine keeps:

- the mine set and the flag set, both sets of `(row, col)` pairs;
- a counter of flags left to plant;
- a game-over switch.

The engine reacts to mouse events:

- Button 1 uncovers a tile. A 0 tile spreads the reveal recursively to its
  orthogonal neighbours, and a mine ends the game.
- Button 2 plants a flag or takes it away.

There are three modules, one per file:

- `cells.dfy` (`Cells`) holds the board geometry:
  - the constants;
  - the 8-neighbourhood and the hint;
  - the orthogonal neighbours the flood fill tries, in source order (above, below, left, right);
  - flood-closed sets;
  - the canvas item index of a cell.
- `state.dfy` (`State`) holds the game as a value (`Game`) and its invariants:
  - `Layout`: every tile holds its value and there are 99 mines;
  - `FlagsInStep`: the flag set equals the flagged tiles, the counter plus the
    flag set is 99, and flags sit only on covered tiles;
  - `ZeroSpread`: an uncovered 0 tile has no covered orthogonal neighbour;
  - the game is over exactly when a mine is uncovered.

  It also holds the effect of each operation as a function (`Toggle`,
  `ShowTile`, `Event`) and, as a second, independent specification of
  `showTile`, the relation `RevealedBy`. This relation describes a reveal by
  what it uncovers:
  - the cells it uncovers all lie in every flood-closed set holding the
    clicked cell;
  - every 0 tile among them has all its neighbours uncovered afterwards;
  - the game ends exactly when the clicked cell is a mine.

  Finally, it proves the lemmas that connect these definitions.
- `engine.dfy` (`Engine`) holds the class `Minesweeper`. Its fields are:
  - the grid, as an `array2<Tile>`;
  - the mine set and the flag set;
  - the counter;
  - the game-over switch.

  Its methods mirror the source's methods: `Initialize` with its nested
  loops, `GetHint` with its counting loop, the recursive `ShowTile`,
  `DeleteFlag`, and `ProcessMouseEvent`. The ghost function `Model()` reads
  the object as a `Game`. Each method's `ensures` equates the new `Model()`
  with the `State` function of the old one, and the lemmas in `State` then
  carry the invariants and properties over to the class.

Termination of the recursive reveal follows the source's own argument.
Each call that recurses has just uncovered a covered tile, so the number of
covered tiles shrinks. `ShowTile`, `Flood` and `ShowNeighbour` decrease
lexicographically on that number.

## Model

| member | source | states |
|---|---|---|
| Cells.HintIsCounted | Minesweeper.py:88-101 | The hint of a cell equals the number of mines met by visiting its 8 neighbours one at a time, in the order getHint visits them. |
| Cells.CountedIsCard | Minesweeper.py:88-101 | Counting the visited cells one at a time gives the number of mines among the distinct cells visited, and at most one per cell visited. |
| Cells.HintBounds | Minesweeper.py:88-101 | The hint never counts the cell itself and lies in 0..8. It is 0 exactly when no cell at Chebyshev distance 1 is a mine. |
| Cells.TriedIsOrth | Minesweeper.py:138-145 | The four guarded recursive calls of showTile reach exactly the in-bounds orthogonal neighbours of the cell. |
| Cells.ZeroTileHasNoMineNeighbour | Minesweeper.py:137-145 | No orthogonal neighbour of a 0 tile is a mine, so the flood fill never recurses into a mine. |
| Cells.SafeCellsFloodClosed | Minesweeper.py:137-149 | The non-mine cells together with the clicked cell form a flood-closed set. |
| Cells.CanvasIndexOneToOne | Minesweeper.py:83 | The canvas index `row * column + col + 1` maps the board's cells one-to-one into 1..480. |
| State.LayoutCounts | Minesweeper.py:72-79 | On a well-formed board a tile holds -1 exactly on the mine set, there are 99 such tiles, and every value lies in -1..8. |
| State.NewGameValid | Minesweeper.py:56-79 | A new game on 99 in-bounds mines satisfies every invariant, with all tiles covered, no flag planted and the game running. |
| State.ToggleKeepsValid | Minesweeper.py:112-121 | A button-2 toggle on a covered tile flips its flag and its membership of the flag set. It moves the counter by +1 when unflagging and by -1 when flagging, with no lower bound. It leaves every other tile, the mine set, the covered cells and the game-over switch alone, and keeps every invariant. |
| State.ToggleTwice | Minesweeper.py:112-121 | Two toggles of the same tile restore the state exactly. |
| State.UncoverOneUncovers | Minesweeper.py:128-133 | Deleting the flag and then uncovering a covered tile uncovers that tile alone and gives its flag back to the counter. |
| State.UncoversKeepsConsistent | Minesweeper.py:128-133 | Uncovering cells keeps the tile values, the flag bookkeeping and the rule that only covered tiles carry flags. The covered cells shrink by exactly the cells uncovered. |
| State.UncoverOneHidden | Minesweeper.py:131-133 | Uncovering a covered tile removes exactly that tile from the covered cells, so their number drops. This is the termination measure of showTile. |
| State.UncoversChain | Minesweeper.py:137-145 | Two successive uncoverings compose into one uncovering of the union of their cells. |
| State.RevealUncoveredTile | Minesweeper.py:131 | showTile on a tile that is already uncovered changes nothing. |
| State.RevealSingleTile | Minesweeper.py:131-156 | showTile on a covered tile with a nonzero value uncovers that tile alone and ends the game exactly when it is a mine. |
| State.FloodStep | Minesweeper.py:137-145 | A reveal of an orthogonal neighbour of a 0 tile extends the flood fill without ending the game. |
| State.FloodFinish | Minesweeper.py:137-145 | When all four neighbours of the 0 tile have been tried, the result is a reveal in the sense of RevealedBy, and the state is consistent. |
| State.ShowTileReveals | Minesweeper.py:124-156 | The result of showTile is consistent and satisfies the reveal relation RevealedBy. |
| State.FloodFromFloods | Minesweeper.py:137-145 | Trying the remaining neighbours of a 0 tile leaves all of its in-bounds orthogonal neighbours uncovered and the game-over switch untouched. |
| State.FloodNeighbour | Minesweeper.py:138-145 | Trying one direction (above, below, left, right) advances the flood fill by that neighbour when it is on the board, and by nothing otherwise. |
| State.FloodOnto | Minesweeper.py:138-145 | Calling showTile on an in-bounds orthogonal neighbour of the 0 tile adds that neighbour to the cells the flood fill has finished. |
| State.ZeroSpreadFloodClosed | Minesweeper.py:137-145 | On a board where no uncovered 0 tile has a covered neighbour, the uncovered cells form a flood-closed set. |
| State.FloodRegionMeetsNoOtherMine | Minesweeper.py:137-149 | Cells inside every flood-closed set holding the clicked cell include no mine other than that cell. |
| State.RevealKeepsValid | Minesweeper.py:124-156 | A reveal keeps every invariant. The only mine it can uncover is the clicked cell, and afterwards the uncovered cells form a flood-closed set holding it. |
| State.RevealDeterminate | Minesweeper.py:124-156 | From a valid state the reveal relation has a single result. Together with RevealKeepsValid this means a reveal uncovers exactly the covered part of the clicked cell's flood region. |
| State.RevealWithin | Minesweeper.py:137-145 | Whatever one reveal of a cell uncovers, any other reveal of the same cell from the same state uncovers too. |
| State.EventKeepsValid | Minesweeper.py:103-122 | Every mouse event keeps the invariants and never changes the mine set. The game becomes over only when button 1 hits a covered, unflagged mine. Button 1 on a covered, unflagged tile of a running game reveals as RevealedBy says. |
| State.EventActsExactly | Minesweeper.py:107-113 | An event changes the state exactly when the game is running, the tile is covered, and the event is button 2 or a button 1 on an unflagged tile. The other cases are no-ops, including button 1 on a flagged tile. |
| State.FlagEventTwice | Minesweeper.py:112-121 | Two button-2 events on the same tile restore the state. |
| State.UnflaggedMines | Minesweeper.py:159 | The mines showMines draws are disjoint from the flags, and together with the flagged mines they make up the mine set. |
| State.FalseFlags | Minesweeper.py:165 | The false flags are the flags not on a mine, disjoint from the mines and from the mines showMines draws. |
| Engine.Minesweeper.GetHint | Minesweeper.py:88-101 | The counting loop returns the number of mines at Chebyshev distance 1 from the cell. |
| Engine.Minesweeper.Initialize | Minesweeper.py:56-79 | The nested loops build the grid of the new game: every tile covered and unflagged, holding -1 on a mine and its hint elsewhere. The flag set is empty, 99 flags are left and the game runs; every invariant holds. |
| Engine.Minesweeper.constructor | Minesweeper.py:12-52 | A new window holds a valid new game over the given mines. |
| Engine.Minesweeper.DeleteFlag | Minesweeper.py:180-184 | Takes the flag off the tile, drops the cell from the flag set and gives the flag back to the counter. |
| Engine.Minesweeper.ShowTile | Minesweeper.py:124-156 | The recursive method leaves the board in the state the showTile function describes, deleting the flag before testing whether the tile is covered. |
| Engine.Minesweeper.Flood | Minesweeper.py:137-145 | The four guarded calls on the neighbours of a 0 tile produce the flood fill the specification describes. |
| Engine.Minesweeper.ShowNeighbour | Minesweeper.py:138-145 | One guarded call: showTile on the neighbour when it is on the board. |
| Engine.Minesweeper.ToggleFlag | Minesweeper.py:112-121 | The button-2 branch plants a flag and decrements the counter, or deletes the flag and increments it. |
| Engine.Minesweeper.ProcessMouseEvent | Minesweeper.py:103-122 | Dispatches a mouse event as the Event function says and keeps the engine valid. |
| Engine.Minesweeper.Press | Minesweeper.py:108-121 | The part of the dispatch that acts on a covered tile of a running game. |

## Left out

- The tkinter window, frame, label, button and canvas (Minesweeper.py:12-54), the canvas recolouring and overlay deletion in initialize, hint text drawing, and the createFlag, createMine and createX geometry. These are drawing only. The canvas index formula is kept as a function.
- Random mine placement (Minesweeper.py:67-70): the mines are a parameter of `Initialize` and of the constructor, required to be 99 distinct in-bounds cells. Randomness is outside the model, and so is the termination of the rejection loop.
- The pixel-to-cell division and the mouse button numbers (Minesweeper.py:104-105). `ProcessMouseEvent` takes a cell and an `Action`.
- Engine.Minesweeper.ProcessMouseEvent: requires an in-bounds cell. The source has no bounds check there; a click outside the board would index the grid out of range, or wrap around with a negative Python index. The model does not capture that behaviour.
- The `del self.grid`, `del self.mineSet` and `del self.flagSet` after a mine goes off (Minesweeper.py:150-152). The model keeps the state and treats `isOver` as terminal; every later event is a no-op, as in the source (Minesweeper.py:107). Restart (`Initialize`) starts over.
- The drawing and pacing of showMines (`after`, `update` and the per-cell drawing, Minesweeper.py:160-170): only the two sets it computes are modelled, as `UnflaggedMines` and `FalseFlags`.
- `Tile.flag` holds a canvas item id in the source, with 0 meaning no flag. The model keeps a `bool`, since the id matters only to the canvas.
- Tiles are Python objects updated field by field. In the model they are values stored in the `array2`, and an update writes a new tile into the cell. No two cells share a tile in the source, so no aliasing is lost.
- The flag-counter label (`flagVar.set`) is display only.
