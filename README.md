# Bloques board engine, modelled in Dafny

Bloques is a browser block-placement puzzle. The player selects one of
three pieces from the hand, then clicks a cell of an 8x8 board. If the
piece fits at that cell, it is written onto the board and taken out of
the hand. After that, every full row and every full column is emptied.
A new hand of three random catalog pieces is dealt once the hand is
empty. A reset button empties the board and deals a new hand.

This project models the engine of `script.js`:

- the piece catalog;
- the board as 0/1 occupancy;
- the fit test, the placement and the line clearing;
- the hand and selection bookkeeping of a session.

It proves what those operations promise.

- `pieces.dfy`, module `Pieces`: masks (`Shape`), pieces, the 12-entry
  catalog with its colours, well-formedness and footprint of a mask.
- `board.dfy`, module `Board`: the board as a value (`Grid`, rows of 0/1).
  It defines `Fits`, `Place` and `ClearLines` and proves facts about them:
  no full line survives a clearing pass, clearing is idempotent, and a
  fitting placement adds exactly the piece's footprint.
- `game.dfy`, module `Game`: class `Session`. It holds the live board as an
  `array2<int>`, `currentPieces` and `selectedPieceIndex`. Its methods run
  the source's loops on the array. Each is proved against the `Board`
  functions through the ghost view `Cells()`.

Modelling decisions:

- `Math.random` becomes a parameter `draws`, a sequence of 3 catalog indices
  (`ValidDraws`). A hand is "drawn from `draws`" when its k-th piece is
  catalog entry `draws[k]`.
- Origins are natural numbers. Clicks only come from cells of the board.
- A mask cell counts as filled only when it is inside the scanned rectangle
  and holds the value 1: rows `< |shape|`, columns `< |shape[0]|`. An entry
  past the end of a shorter row reads as absent, as `undefined` does in the
  source.
- Rows and columns are tested differently, as in the source. `RowFull`
  tests that every cell is 1; `ColFull` tests that no cell is 0. The two
  tests agree on a 0/1 board.
- `placePieceAt` does not check the fit. The model requires only that every
  filled cell lands on the board. Its one caller checks the fit first.
- `CheckAndClearLines` returns the row and column indices it found. The
  source keeps them as local arrays for the display code.
- The reset button's handler (`Reset`) leaves `selectedPieceIndex` as it
  was. The click does not stop there: it bubbles to the document listener,
  which clears the selection because the button is neither a piece nor a
  cell. `ClickResetButton` models the whole click as `Reset` followed by
  `Deselect`, and it ends with no selection.
- `HandleCellClick` keeps the source's guard for an index that is not in
  the hand.
- `HandleCellClick` returns a `ClickOutcome`, although `handleCellClick`
  returns nothing. `Ignored` stands for its two early returns. `DoesNotFit`
  stands for the branch that shows the "No cabe ahí" message. `Placed`
  stands for the branch that places the piece.
- The board stores only 0/1. The piece's colour goes to the page, not to
  `board`.
- The hand is a list. `splice` removes the played piece from it, and a new
  hand is dealt only once it is empty.

## Model

| member | source | states |
|---|---|---|
| `Pieces.CatalogWellFormed` | script.js:10-27 | The catalog has 12 entries. Every mask is non-empty and rectangular, holds only 0 and 1, and has a filled cell. |
| `Pieces.WellFormedFootprint` | script.js:10-27 | A well-formed mask covers at least one cell, so every catalog piece has a footprint of 1 or more. |
| `Board.EmptyGrid` | script.js:3 | The initial and reset board is 8x8 with every cell 0. |
| `Board.Place` | script.js:132-136 | Placing sets every cell `(row+i, col+j)` with `shape[i][j] == 1` to 1 and leaves every other cell unchanged. The result is still an 8x8 0/1 board. |
| `Board.PlaceAddsFootprint` | script.js:110-111 | When the piece fits, placing it raises the number of occupied cells by exactly the piece's footprint. |
| `Board.PlacedPieceNoLongerFits` | script.js:223-235 | After a well-formed piece is placed, the same piece no longer fits at the same origin. |
| `Board.ClearLines` | script.js:152-171 | Rows and columns are chosen on the board before any write. Every full row and every full column ends up all 0, so a crossing full row and full column are both emptied. Any cell in neither stays as it was, and the result is still a 0/1 board. |
| `Board.RowAndColumnClearedTogether` | script.js:152-171 | A full row and a full column that share a cell are both emptied by one pass, the shared cell included. |
| `Board.ClearLeavesNoFullLine` | script.js:164-171 | After a clearing pass, no row and no column is full. |
| `Board.ClearWithoutFullLineIsIdentity` | script.js:164-166 | If no row and no column is full, clearing leaves the board unchanged. |
| `Board.ClearIdempotent` | script.js:147-171 | A second clearing pass straight after the first changes nothing. |
| `Game.DrawnHandFromCatalog` | script.js:237-241 | A hand drawn from valid draws has exactly 3 entries. Each entry is a catalog piece with a well-formed mask. |
| `Game.ToggleSelection` | script.js:215 | Clicking the piece that is already selected gives no selection. Clicking any other index selects that index. |
| `Game.ToggleTwice` | script.js:215 | Clicking the same piece twice restores the previous state, whether that was no selection or that piece selected. |
| `Game.RemoveAt` | script.js:114 | Removing position k drops exactly that element: one element shorter, the others in order, and the multiset loses only `s[k]`. |
| `Game.Session.constructor` | script.js:2-7 | A new session has an empty 8x8 board, no selection and a hand drawn from `draws`. |
| `Game.Session.GeneratePieces` | script.js:237-243 | The hand becomes the 3 catalog pieces named by the draws, in draw order. Nothing else changes. |
| `Game.Session.CanPlacePiece` | script.js:223-235 | Has no modifies clause, so the board is untouched. Returns true exactly when every filled mask cell lands in row `< 8` and column `< 8` on an empty cell. |
| `Game.Session.PlacePieceAt` | script.js:132-144 | The board array becomes `Place` of the old board. It stays 8x8 with cells in {0,1}. |
| `Game.Session.FindFullRows` | script.js:151-154 | Returns exactly the full rows, in increasing order. |
| `Game.Session.FindFullCols` | script.js:155-162 | Returns exactly the full columns, in increasing order. |
| `Game.Session.CheckAndClearLines` | script.js:147-171 | Returns exactly the full rows and columns of the old board. The board array becomes `ClearLines` of the old board, and is unchanged when nothing was full. |
| `Game.Session.SelectPiece` | script.js:213-215 | The new selection is `ToggleSelection` of the old selection and the clicked index. |
| `Game.Session.Deselect` | script.js:257-261 | A click outside pieces and cells clears the selection. |
| `Game.Session.HandleCellClick` | script.js:104-130 | Without a selected piece in the hand, the click is ignored and nothing changes. A piece that does not fit changes nothing. A piece that fits is placed and lines are cleared; it is removed from the hand with the others kept in order, and the selection is reset. An emptied hand is replaced by a fresh draw. The board stays 8x8 0/1 and the hand keeps 1 to 3 catalog pieces. |
| `Game.Session.Reset` | script.js:250-254 | The button handler alone: a fresh, all-empty 8x8 board and a hand drawn from `draws`. The selection is left as it was. |
| `Game.Session.ClickResetButton` | script.js:250-261 | The whole reset click, in which the handler runs and the click then bubbles to the document listener: a fresh, all-empty 8x8 board, a hand drawn from `draws`, and no selection. |

## Left out

- DOM rendering: `initializeBoard`, `drawGhost`, `refreshBoardView`,
  `displayPieces` and the `style` writes inside `placePieceAt` and
  `checkAndClearLines`. They touch only the page, not the board state.
- The hover preview (`handleMouseEnter`, `handleMouseLeave`). It calls the
  fit test only to colour the page.
- The "No cabe ahí" message and its `setTimeout`, which are display and
  timing only.
- Event-listener wiring. Each handler is modelled as the method it calls.
- `Math.random`, which is replaced by the `draws` parameter.
- `Game.Session.PlacePieceAt`: an origin that puts a filled cell off the
  board is excluded by its precondition. In the source such a write throws
  part-way through, and the only caller checks the fit first.
- Piece colours on the board. Colours are kept in the catalog, but the
  board stores only 0/1, as in the source.
