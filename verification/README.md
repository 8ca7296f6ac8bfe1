# Game of Life grid engine in Dafny

This project models the grid engine of a graphical Game of Life, the `world`
package (`World/world.go`). A `World` owns `Area`, a grid of cells addressed as
`Area[x][y]`, where `x` is the column and `y` the row. Each cell is alive or
dead. The engine does five things:

- it builds an all-dead grid (`NewWorld`);
- it clears a grid in place (`Reset`);
- it counts a cell's live Moore neighbours, without wrap-around (`liveNeighbours`);
- it advances one generation through a double buffer (`Update`);
- it counts the live cells (`LiveCellCount`).

The project has three modules:

- `Rules` (`rules.dfy`) holds the specification as values. A grid is a
  `seq<seq<bool>>` of columns. The module defines:
  - the bounds-checked liveness test `LiveAt`;
  - a reference neighbour count `Neighbours`, which walks the eight Moore
    offsets clockwise from north;
  - `WindowScan` and `ColumnScan`, which count in the order the engine's two
    loops visit the 3x3 window;
  - the rule for one cell, `NextCell`, and the synchronous generation `Step`;
  - the live-cell count `Live`, the dead grid `Dead` and the cleared grid `Cleared`;
  - the lemmas that relate these definitions.
- `World` (`world.dfy`) holds the engine itself, in imperative form. Class
  `World` has an `array2<bool>` field `area` and a ghost field `cells`, which
  `Valid()` ties to `area`. The constructor plays the part of `NewWorld`. The
  module-level method `Reset` clears the grid in place and hands back the same
  object. `Update` copies `area` into a fresh `next` buffer. It then writes the
  rule into `next`, counting neighbours in `area` only, and finally replaces
  `area` with `next`. `LiveNeighbours` and `LiveCellCount` are the source's
  counting loops, proved against `Neighbours` and `Live`.
- `Patterns` (`patterns.dfy`) runs two classic patterns through `Step`: the
  2x2 block, a still life, and the three-cell blinker, which has period 2.

The source checks a cell's state with `Cells.Alive`. The model represents that
cell as a plain `bool`.

## Model

| member | source | states |
|---|---|---|
| `World.World.constructor` | World/world.go:19-27 | `NewWorld(width, height)` gives `width` columns of `height` cells, all dead (`Dead(width, height)`); with no columns it gives the empty grid whatever the height; the grid is freshly allocated |
| `World.Reset` | World/world.go:32-39 | every cell is dead afterwards and each column keeps its length (`Cleared` of the old grid); the same array is kept and the same world is returned |
| `World.World.Update` | World/world.go:43-69 | the new grid is `Step` of the old one, so each cell follows the rule on neighbours counted in the old grid; `area` is a fresh buffer with the old dimensions |
| `World.World.LiveNeighbours` | World/world.go:75-90 | the loop's count equals the reference count `Neighbours`: only the eight positions around (x, y) that are on the grid and alive count |
| `World.World.LiveCellCount` | World/world.go:94-104 | the loop's count equals `Live` of the grid, the number of live cells |
| `World.World.WindowCellInArea` | World/world.go:79-86 | a window position counts exactly when it is not the centre and the engine's bounds-checked test `ni >= 0 && ni < len && nj >= 0 && nj < len && alive` succeeds |
| `Rules.Dead` | World/world.go:20-23 | the freshly made grid has `width` columns of `height` cells, none alive |
| `Rules.Cleared` | World/world.go:33-37 | the cleared grid keeps the number of columns and each column's length, and no cell is alive |
| `Rules.CountLive` | World/world.go:84 | counting over a list of offsets yields at most one per offset |
| `Rules.Neighbours` | World/world.go:75-90 | the neighbour count is at most 8 |
| `Rules.NeighboursUnfolded` | World/world.go:77-88 | the reference count is the sum, over the eight neighbours, of "on the grid and alive" |
| `Rules.ColumnScanFull` | World/world.go:78-87 | one full pass of the inner loop over column offset dx counts the upper, middle and lower cell of that column, skipping the middle of the centre column (so the centre column gives at most 2) |
| `Rules.WindowScanFull` | World/world.go:77-88 | the two loops together count the eight cells around (x, y), left column, centre column without (x, y), right column; the total is at most 8 |
| `Rules.WindowScanIsNeighbours` | World/world.go:77-88 | scanning the 3x3 window in the engine's order, skipping the centre, gives exactly the reference count |
| `Rules.NeighboursAtCorner` | World/world.go:84 | at (0, 0) only (1, 0), (0, 1) and (1, 1) can count, so the count is at most 3 |
| `Rules.NeighboursOfDead` | World/world.go:84 | in a dead grid every position has zero live neighbours |
| `Rules.NeighboursLocal` | World/world.go:82-86 | the count depends only on the eight surrounding positions; the centre and farther cells do not affect it |
| `Rules.Step` | World/world.go:44-46 | one generation keeps the number of columns and the column height |
| `Rules.StepRule` | World/world.go:55-65 | a new cell is alive exactly when it was alive with 2 or 3 live neighbours, or dead with exactly 3 |
| `Rules.StepLocal` | World/world.go:52-66 | locality: two old grids that agree on a cell and its eight neighbours give that cell the same new state (synchrony itself is `World.World.Update`'s `cells == Step(old(cells))`) |
| `Rules.StepOfDead` | World/world.go:61-65 | a dead grid stays dead after a generation |
| `Rules.StepOfNoLive` | World/world.go:52-66 | any rectangular grid with live count 0, however it got there, is unchanged by a generation |
| `Rules.ColumnLive` | World/world.go:97-101 | a column's live count is at most its length, and is zero exactly when no cell in it is alive |
| `Rules.LiveBound` | World/world.go:94-104 | the live count is at most width × height |
| `Rules.LiveZero` | World/world.go:94-104 | the live count is zero exactly when no cell is alive (both directions) |
| `Rules.LiveOfDead` | World/world.go:19-27 | right after `NewWorld` the live count is 0 |
| `Rules.LiveCleared` | World/world.go:32-39 | right after `Reset` the live count is 0 |
| `Rules.ClearedIdempotent` | World/world.go:32-39 | clearing twice gives the same grid as clearing once |
| `Rules.ClearedIsDead` | World/world.go:32-37 | clearing a rectangular grid gives the dead grid of the same size |
| `Patterns.BlockStill` | World/world.go:52-66 | the 2x2 block, inside a 4x4 grid, is unchanged by a generation (a still life) |
| `Patterns.BlinkerRowToColumn` | World/world.go:52-66 | three live cells in the middle row of a 5x5 grid become three live cells in its middle column |
| `Patterns.BlinkerColumnToRow` | World/world.go:52-66 | the vertical blinker turns back into the horizontal one |
| `Patterns.BlinkerPeriod` | World/world.go:52-66 | the blinker returns after two generations but not after one: its period is 2 |

## Left out

- `SaveFile` and `LoadFile` (World/world.go:109-126) are not modelled. They are JSON encoding plus file reads and writes through the Go standard library, and that code is not part of this model.
- Ragged grids are not modelled. `Area` is a slice of column slices, and only `LoadFile` could make its columns differ in length. Every operation modelled here creates or keeps a rectangular grid, so the grid is an `array2<bool>`. For the same reason, the model does not show what the source does with ragged input. `Update` sizes and fills `next` from `len(Area[0])` (World/world.go:46-48) but runs its rule loop to each column's own `len(Area[i])` (World/world.go:53). `liveNeighbours` bounds rows by `len(Area[0])` (World/world.go:84). What happens then depends on the shape. `Update` panics in its copy (World/world.go:48) when a column is shorter than column 0. It also panics at a write to `next[i][j]` (World/world.go:57, 59 or 63) when a longer column has a live cell beyond row `len(Area[0])`, or a dead cell there with three live neighbours; otherwise it silently cuts longer columns down to `len(Area[0])` rows. `liveNeighbours` panics (World/world.go:84) only when a column it reads is shorter than column 0. `Reset` and `LiveCellCount` follow each column's own length and never panic.
- `World.World.constructor` requires a non-negative width, and a non-negative height when the width is positive. Go's `make` panics on a negative length, so the code has no error value for that case, and the model has none either. The code accepts a zero width or height, and so does the model: the result has no cells. `NewWorld(0, h)` with `h < 0` does not panic either, because the loop over zero columns never reaches the inner `make` (World/world.go:21-23); the model accepts it too and gives the empty grid.
- Toggling a cell is not modelled. The engine has no such operation; the GUI flips `Area[x/10][y/10].Alive` directly (games/game.go:68), and that code is not part of this model.
- Go's `int` is 32 or 64 bits wide, depending on the platform. The model uses unbounded integers. The counts never exceed 8 or the number of cells, so the difference matters only for grids of more than 2^31 - 1 cells on a 32-bit platform, or 2^63 - 1 on a 64-bit one.
- The GUI loop, rendering, input handling, file dialogs and tick-rate control (games/game.go, main.go) are not part of this model.
