# Conway's Game of Life engine, modelled in Dafny

This project models the automaton engine of a desktop Game of Life: the
class `GameOfLife` in `src/GameOfLife.py`. The engine stores a `height` x `width`
grid of cells, each 0 (dead) or 1 (alive), in row-major order with `grid[y][x]`.
It does five things:

- It counts live cells in the Moore neighbourhood of a cell. Positions off the
  grid are skipped, not wrapped around.
- It applies Conway's rule B3/S23 to one cell.
- It advances one generation. It first copies the grid, then rewrites every
  cell from that copy, so all cells update at once.
- It seeds cells at random.
- It clears the grid.

The project has three modules:

- `LifeRules` (`life_rules.dfy`) states the rules on values. A generation is a
  `seq<seq<int>>`. The module defines the neighbour count, the one-cell rule
  `NextState`, one generation `Step`, `n` generations `Evolve`, and seeding
  from a sequence of draws `Seeded`.
- `GameOfLifeEngine` (`game_of_life.dfy`) is the engine itself. It is a class
  with the fields `width`, `height` and `grid: array2<int>`. Each method is
  proved against the `LifeRules` functions. `Update` ends with the grid equal to
  `Step` of the grid it started with. `CountNeighbors` returns exactly
  `NeighborCount` of the array it is given. Dafny checks every array access, so
  the neighbour scan never reads outside `[0, width) x [0, height)`.
- `LifePatterns` (`life_patterns.dfy`) proves classic patterns on any grid
  large enough to hold them. A lone cell dies. The blinker has period two. The
  block is a still life.

The random generator is not modelled. `numpy.random.randint(0, density)`
becomes an input sequence `draws`, one value per cell in the order the loops
visit the cells (row-major). Each value lies in `[0, density)`. The
properties are proved relative to that sequence.

Two behaviours of the code are kept as written:

- Seeding a cell whose draw is not 0 leaves that cell as it was. It is not set
  dead. So seeding only ever turns cells on, and a live cell stays alive.
- A grid with zero rows or columns is accepted, as `numpy.zeros` accepts it.
  Only negative dimensions are excluded.

## Model

| member | source | states |
|---|---|---|
| LifeRules.CellOrDead | src/GameOfLife.py:17-20 | a position off the grid contributes 0, whatever the grid holds; on a 0/1 grid every position gives 0 or 1 |
| LifeRules.NeighborCount | src/GameOfLife.py:11-25 | on a 0/1 grid the neighbour count lies in 0..8 |
| LifeRules.ScanIsNeighborCount | src/GameOfLife.py:13-23 | the row-by-row scan over dy, dx in -1..1, skipping the centre and off-grid offsets, adds up exactly the eight neighbours |
| LifeRules.NeighborCountIsLocal | src/GameOfLife.py:15-23 | the count depends only on in-bounds Moore neighbours: grids that agree there, whatever the centre or the opposite edges hold, give the same count (no wrap-around, centre excluded) |
| LifeRules.NeighborCountCountsLive | src/GameOfLife.py:11-25 | on a 0/1 grid the count equals the number of live in-bounds Moore neighbours (the size of a set defined independently) |
| LifeRules.CornerNeighbors | src/GameOfLife.py:17-20 | at the top-left corner only the three in-grid neighbours are summed; nothing from the last row or column |
| LifeRules.NextState | src/GameOfLife.py:30-35 | B3/S23: for a 0/1 cell, three neighbours give 1, two keep the cell, anything else gives 0; a cell holding any other value becomes 0; the result is always 0 or 1 |
| LifeRules.Rule | src/GameOfLife.py:29-35 | the value `change_cell` writes for (x, y): always 0 or 1; for a 0/1 cell, 1 exactly when the neighbour count is 3, or it is 2 and the cell is alive; a cell holding any other value gives 0 |
| LifeRules.Step | src/GameOfLife.py:38-43 | one generation keeps the height x width shape and leaves every cell 0 or 1 |
| LifeRules.StepIsLocal | src/GameOfLife.py:38-43 | a new cell depends only on the old cell and its old neighbours |
| LifeRules.DeadIsFixedPoint | src/GameOfLife.py:38-43 | the all-dead grid is a fixed point of one generation |
| LifeRules.FixedPointForever | src/GameOfLife.py:38-43 | a fixed point of one generation is unchanged after any number of generations |
| LifeRules.PeriodTwoForever | src/GameOfLife.py:38-43 | a grid restored by two generations is restored by every even number of generations |
| LifeRules.SeedingOnlyRevives | src/GameOfLife.py:45-50 | seeding a 0/1 grid keeps it 0/1; a cell is alive afterwards exactly when it was alive before or its draw was 0 |
| LifeRules.SeedingDeadGrid | src/GameOfLife.py:45-50 | seeding the all-dead grid gives a 0/1 grid alive exactly where the draw was 0 |
| LifeRules.SeedingDensityOne | src/GameOfLife.py:45-50 | with density 1 every draw is 0 and seeding makes every cell alive |
| LifeRules.Seeded | src/GameOfLife.py:45-50 | the grid after `init_grid`: same shape; a live cell stays live; a cell whose draw is 0 becomes 1; a cell whose draw is not 0 keeps its old value |
| LifePatterns.LoneCellDies | src/GameOfLife.py:28-43 | one generation from a single live cell anywhere on the grid leaves every cell dead: it has no live neighbour and no dead cell has three |
| LifePatterns.VerticalBlinkerTurns | src/GameOfLife.py:38-43 | the vertical blinker at (1,0), (1,1), (1,2) becomes the horizontal one at (0,1), (1,1), (2,1) on any grid at least 3 x 3 |
| LifePatterns.HorizontalBlinkerTurns | src/GameOfLife.py:38-43 | the horizontal blinker becomes the vertical one again |
| LifePatterns.BlinkerOscillates | src/GameOfLife.py:38-43 | the blinker has period two: every even number of generations restores it |
| LifePatterns.BlockIsStill | src/GameOfLife.py:38-43 | a 2 x 2 block anywhere inside the grid is unchanged by one generation |
| LifePatterns.BlockStaysForever | src/GameOfLife.py:38-43 | the block is unchanged after any number of generations |
| GameOfLifeEngine.NewDeadArray | src/GameOfLife.py:53 | a fresh height x width array whose contents are the all-dead grid |
| GameOfLifeEngine.CopyArray | src/GameOfLife.py:39 | a fresh array of the same shape and contents (the pre-step copy) |
| GameOfLifeEngine.GameOfLife.constructor | src/GameOfLife.py:5-9 | stores the dimensions, allocates a fresh all-dead height x width grid and seeds it: the cells are `Seeded(Dead(width, height), ...)`, and every cell is 0 or 1 |
| GameOfLifeEngine.GameOfLife.CountNeighbors | src/GameOfLife.py:11-25 | for any (x, y), even off the grid, the loop's count equals `NeighborCount` of the given array; every array access is in bounds |
| GameOfLifeEngine.GameOfLife.ChangeCell | src/GameOfLife.py:28-35 | writes `NextState` of the given snapshot's cell and neighbour count into (x, y) of the live grid and changes no other cell |
| GameOfLifeEngine.GameOfLife.Update | src/GameOfLife.py:38-43 | the new grid is `Step` of the grid before the call (every cell from the pre-step copy, none from an updated cell), the shape is kept and every cell is 0 or 1 |
| GameOfLifeEngine.GameOfLife.InitGrid | src/GameOfLife.py:45-50 | the new grid is `Seeded` of the old one: cells whose draw is 0 become 1, all others keep their value; a grid of 0/1 cells stays one |
| GameOfLifeEngine.GameOfLife.Clear | src/GameOfLife.py:52-53 | the grid field becomes a fresh all-dead array of the same height x width; width and height are unchanged |

## Left out

- `src/Main.py` is not part of this model. It holds the Qt window, the buttons,
  the speed slider and the timer. Its `is_running` flag only starts and stops the timer.
- `src/GameCanvas.py` is not part of this model. It only paints the grid.
- The random generator itself is not modelled. The draws are an input sequence,
  and nothing is proved about their distribution.
- The exceptions raised by the numeric library are not modelled as error
  results. They are excluded by the types and preconditions instead:
  - `numpy.zeros` rejects negative dimensions, so `width` and `height` are `nat`.
  - `randint(0, density)` rejects `density < 1`, so the constructor and
    `InitGrid` require `density >= 1` whenever the grid has at least one cell.
    On a grid with no cells the loops make no draw, so any density is accepted
    there, as in the code.
- GameOfLifeEngine.GameOfLife.ChangeCell: requires (x, y) on the grid, so
  two behaviours of the code are not modelled:
  - Python's negative indexing sends any x in [-width, -1] to column
    width + x, and any y in [-height, -1] to row height + y.
  - An x >= width, a y >= height, an x < -width or a y < -height raises an
    index error.
  The only caller, `update`, always passes coordinates on the grid.
- GameOfLifeEngine.GameOfLife.CountNeighbors: requires the given array to have
  exactly the engine's height x width shape, so two behaviours of the code are
  not modelled:
  - The code reads only the in-bounds neighbours of (x, y). Any array that
    holds those positions is accepted, whatever its shape, and the sum of
    those positions is returned.
  - An array missing one of those positions makes Python raise an index error.
  The only caller passes the copy of the engine's own grid.
- The library's fixed-width integers are modelled as unbounded `int`.
  Overflow cannot occur here, because neighbour counts are at most 8 on a grid of 0/1 cells.
- `width` and `height` are plain attributes in Python that the class never
  reassigns. The model keeps them as fields that no method modifies.
