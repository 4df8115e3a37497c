# TileView: the tile board of the Multiplayer Tetris client

`TileView` is the Android view that draws the Tetris board. It keeps three pieces of state:

- A 12 x 22 grid of integers. This is the 10 x 20 playing field plus a one-cell wall on every side. Each cell holds a tile key, and 0 means empty.
- A palette of bitmaps indexed by tile key.
- The pixel offsets of grid cell (0, 0) on screen.

Its operations are:

- `resetTiles` replaces the palette by empty slots.
- `loadTile` puts a bitmap into one slot.
- `setTile` writes one cell, allocating the grid first if there is none.
- `clearTiles` empties every cell through `setTile`.
- `onSizeChanged` recomputes the offsets and replaces the grid by an empty one.
- `onDraw` draws every cell whose key is positive, at `(xOffset + x*tileSize, yOffset + y*tileSize)`.

The model has four modules:

- `JavaInt` (java_int.dfy) gives Java's `int` division, which rounds toward zero. Dafny's `/` is Euclidean, so it cannot be used for the offset formulas.
- `TileBoard` (tile_board.dfy) works on values. A board is a sequence of 12 columns of 22 cells. `DrawList` is what a draw pass must emit: a sequence of `Draw(bitmap, left, top)` records in the order the pass issues them. The lemmas here state which draws the list contains and when it is empty. The offset formulas and their centring properties are here too.
- `DrawOrder` (draw_order.dfy) lists the cells a draw pass draws, `DrawnCells`, and proves that the draw list is exactly one draw per listed cell, that the list is strictly increasing in column-then-row order, and that it holds every cell with a positive key and no other. So the draws come in that order, one per non-empty cell.
- `Tetris` (tile_view.dfy) holds the class `TileView`. The grid is an `array2<int>` that is updated in place, and the palette is an `array<Option<Bitmap>>`. Each Java method is a Dafny method whose postcondition states the new state in terms of the old one. `OnDraw` is proved to return exactly `DrawList` of the current grid, palette and offsets.

Where Java would throw, the model has a precondition, because the source has no error path:

- An out-of-bounds array index.
- A null grid or a null palette.
- Division by zero when `pos == 0`.
- A negative palette size.

Two platform failures are not preconditions: `Bitmap.createBitmap` at tile size 0 (src/com/tetris/TileView.java:135) and `drawBitmap` of a null slot (src/com/tetris/TileView.java:177). The model does not see them; the `LoadTile` and `OnDraw` lines under "## Left out" say so.

Choices the source forces:

- `onSizeChanged` divides by `pos` with no guard (src/com/tetris/TileView.java:120), so `OnSizeChanged` requires `pos != 0`.
- The source reports no errors, so out-of-range keys and coordinates are preconditions.
- `onDraw` runs x outer, y inner (src/com/tetris/TileView.java:174-175). `DrawList` is defined in that order, `OnDraw` is proved to return it, and the `DrawOrder` lemmas state that order and the number of draws without reference to the definition.
- The source never checks that the tile size is positive. The model takes any non-negative tile size, and the one property that needs a positive size says so (`SetCellDrawn`).

## Model

| member | source | states |
|---|---|---|
| `JavaInt.TruncDiv` | src/com/tetris/TileView.java:120-121 | Java's `/` on int: the remainder `a - q*b` is zero or has the sign of the dividend, and is smaller in magnitude than the divisor |
| `JavaInt.TruncDivUnique` | src/com/tetris/TileView.java:120-121 | that remainder property pins the quotient down: any quotient with it equals `TruncDiv` |
| `JavaInt.TruncDivAgreesOnNaturals` | src/com/tetris/TileView.java:120-121 | truncating and Euclidean division agree on a non-negative dividend and positive divisor, and differ on `-1 / 2` |
| `TileBoard.EmptyBoard` | src/com/tetris/TileView.java:123 | a fresh `int[12][22]` is a 12 x 22 board whose every cell is 0 |
| `TileBoard.SetCell` | src/com/tetris/TileView.java:169 | writing a cell: (x, y) holds the new key and every other cell keeps its key |
| `TileBoard.DrawListMembership` | src/com/tetris/TileView.java:173-181 | a draw is emitted if and only if it is `palette[k]` at `(xOffset + x*tileSize, yOffset + y*tileSize)` for some cell (x, y) holding a key k > 0 |
| `TileBoard.DrawListEmpty` | src/com/tetris/TileView.java:176 | a draw pass emits nothing if and only if no cell holds a positive key |
| `TileBoard.EmptyBoardDrawsNothing` | src/com/tetris/TileView.java:173-181 | an all-zero board draws nothing, for any palette and offsets |
| `TileBoard.SingleTileDraw` | src/com/tetris/TileView.java:173-181 | a board with one non-empty cell (x, y) draws exactly one tile: `palette[grid[x][y]]` at that cell's pixel position |
| `TileBoard.SetCellOnEmptyDraw` | src/com/tetris/TileView.java:165-181 | one `setTile` of a positive key backed by the palette, on an empty board, makes the draw pass emit exactly one draw: that key's slot at the cell's pixel position |
| `TileBoard.SetCellDrawn` | src/com/tetris/TileView.java:165-181 | after writing key i > 0 into (x, y), the draw pass draws `palette[i]` at the cell's pixel position; after writing a key <= 0, with a positive tile size, no draw lands there |
| `TileBoard.YOffsetCentres` | src/com/tetris/TileView.java:121 | `yOffset` centres the board vertically: the space above and below differ by at most one pixel, with the odd pixel below when the board fits and above when it overhangs |
| `TileBoard.XOffsetCentresWithOneSlice` | src/com/tetris/TileView.java:120 | with `pos == 1`, `xOffset` centres the board horizontally in the same way |
| `TileBoard.XOffsetInLastSlice` | src/com/tetris/TileView.java:120 | with `pos > 0` and a board no wider than the view, the board's left edge lies between `w - w/pos` and `w` |
| `TileBoard.XOffsetOverhangsWithTwoSlices` | src/com/tetris/TileView.java:120 | with `pos == 2` the formula does not centre the board in the last slice: a 48-pixel board in a 100-pixel view fits the 50-pixel last slice but is placed at pixel 63 and ends at 111, past the right edge |
| `DrawOrder.DrawnCellsSortedAndComplete` | src/com/tetris/TileView.java:174-176 | the list of drawn cells is strictly increasing in column-then-row order (x outer, y inner) and holds exactly the cells with a positive key |
| `DrawOrder.DrawListFollowsCells` | src/com/tetris/TileView.java:174-181 | draw i of a pass is `palette[grid[x][y]]` at the pixel position of the i-th drawn cell (x, y), and there are exactly as many draws as drawn cells |
| `DrawOrder.DrawListOrder` | src/com/tetris/TileView.java:174-176 | of two non-empty cells, the one earlier in column-then-row order is drawn at an earlier position of the pass |
| `DrawOrder.DrawListCount` | src/com/tetris/TileView.java:174-181 | a pass issues exactly as many draws as there are cells with a positive key |
| `Tetris.TileView.constructor` | src/com/tetris/TileView.java:80-95 | a new view keeps the given tile size and `pos`, has zero offsets and no grid or palette |
| `Tetris.TileView.ResetTiles` | src/com/tetris/TileView.java:114-116 | the palette becomes a fresh array of `tilecount` empty slots; nothing else changes |
| `Tetris.TileView.LoadTile` | src/com/tetris/TileView.java:134-142 | slot `key` holds the drawable rasterised at the current tile size, every other slot is unchanged, and `key` must be a slot of the palette |
| `Tetris.TileView.SetTile` | src/com/tetris/TileView.java:165-170 | with no grid, a fresh all-zero 12 x 22 grid is allocated first; then (x, y) holds the key and every other cell keeps its value; `0 <= x < 12` and `0 <= y < 22` are required |
| `Tetris.TileView.ClearTiles` | src/com/tetris/TileView.java:148-154 | afterwards the grid exists, is the same array if there was one, and every cell is 0; palette and offsets are untouched |
| `Tetris.TileView.OnSizeChanged` | src/com/tetris/TileView.java:119-125 | `xOffset = (w - w/pos) + (w - 12*tileSize)/(2*pos)` and `yOffset = (h - 22*tileSize)/2` with truncating division, `pos != 0` required; the grid is a fresh all-zero 12 x 22 array |
| `Tetris.TileView.OnDraw` | src/com/tetris/TileView.java:173-182 | returns exactly `DrawList` of the grid, palette and offsets, given a grid and a palette slot for every positive key |
| `Tetris.SingleTileScenario` | src/com/tetris/TileView.java:165-182 | tile size 20, zero offsets, key 3 set at (5, 10) on a lazily allocated grid: the draw pass is exactly one draw of slot 3 at pixel (100, 200) |
| `Tetris.ClearedScenario` | src/com/tetris/TileView.java:148-182 | `clearTiles` followed by a draw pass emits nothing |

## Left out

- The Android constructors and style attributes (`TypedArray`, `obtainStyledAttributes`, `Log`, `DisplayMetrics`, src/com/tetris/TileView.java:71-95) are framework plumbing. The tile size and `pos` are constructor parameters instead.
- The tile-size formula (src/com/tetris/TileView.java:94) is floating-point arithmetic. The tile size is a given non-negative integer.
- The commented-out constructor (src/com/tetris/TileView.java:96-104) is dead code.
- `mTileSize`, `mXOffset` and `mYOffset` are `static` in the source, so they are shared by every instance. The model owns them per instance and describes a single view. Interference between views is not captured.
- LoadTile: the rasterisation (`Bitmap.createBitmap`, `Canvas`, `Drawable.setBounds/draw`) is a platform call. The slot receives the opaque value `Rendered(drawable, tileSize)`. The platform's rejection of a non-positive bitmap size is not modelled.
- OnDraw: the `Paint` object and the pixels painted by `canvas.drawBitmap` are not modelled. The pass returns the draw records instead. An empty palette slot appears as a `None` record, and the platform's failure on drawing a null bitmap is not modelled.
- OnSizeChanged: arithmetic is on unbounded integers, so 32-bit wrap-around of the offset formulas (including `2*pos`) is not modelled.
- OnDraw: 32-bit wrap-around of the pixel positions `xOffset + x*tileSize` and `yOffset + y*tileSize` is not modelled.
- The previous size passed to `onSizeChanged` (`oldw`, `oldh`) is unused by the source and is ignored by the model too.
