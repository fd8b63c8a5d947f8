# Conway's Game of Life background, in Dafny

This project models the simulation behind the animated canvas in
`src/App.tsx`. The canvas is divided into 5-pixel cells, so the grid has
`ceil(height / 5)` rows and `ceil(width / 5)` columns. On every resize the
grid is rebuilt. It is seeded with nine Gosper glider guns, 40 cells apart,
and then with 1000 random cells. Each frame computes the next generation
with Conway's B3/S23 rule on a torus: every edge wraps around. While the
pointer is pressed, a 3 x 3 wrapped block of cells under it comes alive.
The "Fight entropy" link shuffles the list of lit cells with Fisher-Yates
and erases the first half of it.

The project has five modules:

- `LifeRules` (`life_rules.dfy`): boards as `seq<seq<int>>` of 0/1 cells,
  the wrapped index, the neighbour count `Neighbors`, the cell rule
  `NextCell` and one generation `Step`, all as pure functions.
- `LifeSeed` (`life_seed.dfy`): the cell count for a pixel size, the gun
  pattern, and stamping its nine copies (`StampCopies`). It also holds the
  random cells (`Scatter`), the whole seeding (`Initialized`, `Seeded`) and
  a predicate for where the unchecked stamp throws.
- `LifeBrush` (`life_brush.dfy`): the brush (`Brush`) and the drawing flag.
  The pointer handlers are modelled as a pure state machine (`Handle`,
  `Replay`) on a board and a flag.
- `GameOfLife` (`simulation.dfy`): the class `Simulation`. It keeps the
  grid in an `array2<int>` with `rows`, `cols` and `isDrawing` fields. Its
  methods mirror the source's functions loop for loop, and each is proved
  against the pure functions above through `Cells()`, the grid read as a
  board.
- `Entropy` (`entropy.dfy`): the in-place shuffle on an `array` of cells,
  proved against `Shuffled`, and the selection of the first half.

Random numbers are parameters:

- The constructor, `Resize` and `InitializeGrid` take the 1000 random
  cells as a sequence of `(row, column)` pairs.
- The shuffle takes `draws[i]`, the index drawn for position `i`.
  `DrawsFit` requires `0 <= draws[i] <= i`, the range of
  `Math.floor(Math.random() * (i + 1))`.

Pixel sizes and pointer coordinates are natural numbers.

## Model

| member | source | states |
|---|---|---|
| LifeRules.WrapInRange | src/App.tsx:109-110 | For an index inside the grid, the wrapped index `(v + d + n) % n` is n - 1 when stepping back from 0, 0 when stepping past n - 1, and v + d otherwise |
| LifeRules.Wrap | src/App.tsx:109-110 | A wrapped index is always inside the grid (below n) |
| LifeRules.Zero | src/App.tsx:23 | The fresh board has the given rows and columns and every cell is 0 |
| LifeRules.Neighbors | src/App.tsx:104-115 | The neighbour count lies in 0..8 |
| LifeRules.CountedSoFarIsNeighbors | src/App.tsx:106-113 | Visiting the nine offsets in the source's loop order, with the centre skipped, adds up to exactly the eight wrapped neighbours |
| LifeRules.CornerSeesOppositeCorner | src/App.tsx:109-111 | Cell (0, 0) counts cell (rows - 1, cols - 1) among its neighbours |
| LifeRules.NeighborsIgnoreSelf | src/App.tsx:108 | On a grid of at least 2 x 2, changing a cell never changes its own neighbour count |
| LifeRules.NextCell | src/App.tsx:122-126 | The next state is 0 or 1. It is 1 exactly when the cell has three live neighbours, or is alive with two (B3/S23) |
| LifeRules.Step | src/App.tsx:117-130 | A generation keeps the board's dimensions and its 0/1 cells; what each cell becomes is stated by `LifeRules.StepRules` and `LifeRules.AllDeadStaysDead` |
| LifeRules.StepRules | src/App.tsx:122-126 | Within one step: a live cell with fewer than 2 or more than 3 neighbours dies; a dead cell with exactly 3 is born; a live cell with 2 or 3 survives; any other dead cell stays dead |
| LifeRules.AllDeadStaysDead | src/App.tsx:117-130 | An all-dead board stays all dead |
| LifeSeed.CellsFor | src/App.tsx:21-22 | The cell count n is `ceil(pixels / 5)`: the smallest n with 5 n >= pixels |
| LifeSeed.GunShape | src/App.tsx:29-66 | The gun pattern is 9 rows of 36 cells, so it fits within the 40-cell spacing |
| LifeSeed.StampCopy | src/App.tsx:73-79 | Stamping one copy keeps the board's dimensions and its 0/1 cells; its cell-by-cell effect is stated by `LifeSeed.StampCopiesAt` |
| LifeSeed.StampCopies | src/App.tsx:69-81 | Stamping the first k copies keeps the board's dimensions and its 0/1 cells; its cell-by-cell effect is stated by `LifeSeed.StampCopiesAt` and `LifeSeed.GunsStamped` |
| LifeSeed.CopyOffsets | src/App.tsx:69-72 | Copy number 3 i + j in loop order has its corner at (40 i, 40 j), so stamping there extends the first 3 i + j copies by one |
| LifeSeed.StampCopiesAt | src/App.tsx:69-81 | After the first k copies of a pattern that fits the spacing, a cell is 1 if one of those copies covers it, and otherwise keeps its value |
| LifeSeed.GunsStamped | src/App.tsx:69-81 | After the nine copies, a cell is 1 exactly when it is a live cell of some copy or was 1 before; nothing is cleared |
| LifeSeed.EveryGunCopyPlaced | src/App.tsx:73-78 | Every live gun cell (y, x) is alive at (y + 40 i, x + 40 j) for i, j in 0..2 whenever that cell is on the board |
| LifeSeed.Scatter | src/App.tsx:84-88 | Setting the drawn cells keeps the board's dimensions and its 0/1 cells; the cells it sets are stated by `LifeSeed.InitializedAt` |
| LifeSeed.Initialized | src/App.tsx:27-88 | Initialization keeps the board's dimensions and its 0/1 cells; its cell-by-cell effect is stated by `LifeSeed.InitializedAt` |
| LifeSeed.InitializedAt | src/App.tsx:27-88 | Initialization only sets cells: a cell is 1 afterwards exactly when it is a gun cell, a drawn random cell, or was 1 before |
| LifeSeed.Seeded | src/App.tsx:21-24 | The fresh seeded grid is a 0/1 board of the given rows (and columns, when there is a row); its live cells are stated by `LifeSeed.SeededAt` |
| LifeSeed.SeededAt | src/App.tsx:23-24 | On a fresh grid the live cells are exactly the gun cells and the drawn cells |
| LifeSeed.StampThrowsIffShort | src/App.tsx:76 | The unchecked stamp indexes a missing row exactly when the grid has fewer than 89 rows |
| LifeBrush.NearIsCyclic | src/App.tsx:139-140 | A wrapped brush index lies within one step of the centre, cyclically: `(r - v + 1) % n <= 2`, in both directions |
| LifeBrush.Brush | src/App.tsx:134-144 | Painting keeps the board's dimensions and its 0/1 cells; which cells it sets is stated by `LifeBrush.BrushAt` and `LifeBrush.BrushIdempotent` |
| LifeBrush.BrushAt | src/App.tsx:134-144 | The brush sets to 1 exactly the cells cyclically within one row and one column of cell (py / 5, px / 5), and keeps every other cell |
| LifeBrush.BrushIdempotent | src/App.tsx:134-144 | Painting the same spot twice gives the same board as painting it once |
| LifeBrush.Handle | src/App.tsx:146-159 | After pointer-down, drawing is on. After a move, drawing is on only if it was on before. After pointer-up or pointer-leave it is off. Without a paint (a move while not drawing, an up or a leave) the board is unchanged |
| LifeBrush.Replay | src/App.tsx:167-171 | Handling pointer events in order keeps a paintable board of the same dimensions; what a run of events does is stated by `LifeBrush.MovesAfterReleasePaintNothing` and `LifeBrush.PressThenMovePaintsBoth` |
| LifeBrush.MovesAfterReleasePaintNothing | src/App.tsx:151-159 | After release, any number of moves leaves board and flag unchanged |
| LifeBrush.PressThenMovePaintsBoth | src/App.tsx:146-155 | A press followed by a move paints both blocks, and drawing stays on |
| GameOfLife.Simulation.constructor | src/App.tsx:173 | On mount, drawing is off and a fresh grid is sized to the viewport and seeded |
| GameOfLife.Simulation.Resize | src/App.tsx:17-25 | The dimensions become `ceil(width / 5)` and `ceil(height / 5)`. The grid is fresh and equals `Seeded` for those dimensions and draws. The drawing flag is kept |
| GameOfLife.Simulation.InitializeGrid | src/App.tsx:27-88 | The new grid is `Initialized` of the old one: the guns are stamped, then the drawn cells are set |
| GameOfLife.Simulation.StampGuns | src/App.tsx:69-81 | The grid becomes the old grid with all nine copies stamped in loop order |
| GameOfLife.Simulation.StampGunRow | src/App.tsx:70-80 | The inner loop adds copies 3 i, 3 i + 1 and 3 i + 2 |
| GameOfLife.Simulation.StampPattern | src/App.tsx:73-79 | The grid becomes the old grid with one copy stamped at (offY, offX); writes outside the grid are skipped |
| GameOfLife.Simulation.AddRandomCells | src/App.tsx:84-88 | The grid becomes the old grid with every drawn cell set to 1 |
| GameOfLife.Simulation.CountNeighbors | src/App.tsx:104-115 | The loop returns `Neighbors` of the current grid at (y, x) |
| GameOfLife.Simulation.UpdateGrid | src/App.tsx:117-130 | The grid becomes a fresh array holding `Step` of the old grid. Every cell is computed from the old grid; dimensions and the drawing flag are kept |
| GameOfLife.Simulation.UpdateRow | src/App.tsx:119-128 | Row y of the copy gets `NextCell` of the current grid; other rows of the copy are untouched |
| GameOfLife.Simulation.UpdateCell | src/App.tsx:121-126 | The copy's cell (y, x) gets `NextCell` of the current grid; every other cell of the copy is untouched |
| GameOfLife.Simulation.AddLivingCells | src/App.tsx:134-144 | The grid becomes `Brush` of the old grid at pixel (x, y) |
| GameOfLife.Simulation.MouseDown | src/App.tsx:146-149 | Grid and flag move as `Handle` does on a press: drawing on, spot painted |
| GameOfLife.Simulation.MouseMove | src/App.tsx:151-155 | Grid and flag move as `Handle` does on a move: the spot is painted only while drawing, otherwise the grid is unchanged |
| GameOfLife.Simulation.MouseUp | src/App.tsx:157-159 | Drawing is off and the grid is untouched, which is `Handle` on both pointer-up and pointer-leave (the same handler is registered for both at src/App.tsx:170-171) |
| Entropy.Swap | src/App.tsx:209 | Positions i and j are exchanged and every other position is kept |
| Entropy.SwapPermutes | src/App.tsx:209 | A swap keeps the multiset of cells |
| Entropy.ShuffleDown | src/App.tsx:207-210 | The rounds from position i down to 1 keep the list's length; that they permute it is stated by `Entropy.ShuffleDownPermutes`, and that passed positions are final by `Entropy.ShuffleDownKeepsAbove` |
| Entropy.Shuffled | src/App.tsx:207-210 | The whole shuffle keeps the list's length; that it is a permutation is stated by `Entropy.ShuffledIsPermutation` |
| Entropy.ShuffleDownPermutes | src/App.tsx:207-210 | Any tail of the shuffle loop permutes the list |
| Entropy.ShuffleDownKeepsAbove | src/App.tsx:207-210 | Positions above the loop's current index are never changed again |
| Entropy.ShuffledIsPermutation | src/App.tsx:207-210 | The shuffled list is a permutation of the lit cells |
| Entropy.LastIsFirstDraw | src/App.tsx:207-209 | The last cell of the shuffled list is the cell at the first draw's index |
| Entropy.Erased | src/App.tsx:213-216 | Exactly floor(n / 2) cells are chosen |
| Entropy.Kept | src/App.tsx:213-216 | The other n - floor(n / 2) cells are left alone |
| Entropy.ErasedAndKeptPartition | src/App.tsx:213-216 | Erased and kept cells together are exactly the lit cells (as multisets). The erased cells are a sub-multiset of the lit cells, and each of them was lit |
| Entropy.Shuffle | src/App.tsx:207-210 | The in-place loop leaves the array equal to `Shuffled` of its old contents |
| Entropy.FightEntropy | src/App.tsx:207-216 | The cells returned for erasure are `Erased` of the lit cells and draws |

## Left out

- Drawing: `drawGrid`, `fillRect`, `fillStyle` and the `clearRect` of erased cells (src/App.tsx:91-102, 218) are canvas calls with no effect on the grid. `FightEntropy` returns the cells to clear instead of clearing pixels.
- Reading lit cells back from the canvas (`getImageData`, src/App.tsx:194-204): the list of lit cells is a parameter of `FightEntropy`.
- `Math.random` (src/App.tsx:85-86, 208): replaced by parameters, as described above. Nothing is claimed about distributions.
- The frame loop (`gameLoop` with `requestAnimationFrame`, src/App.tsx:161-165) and registering and removing event listeners (src/App.tsx:167-182): browser plumbing. Each frame is one `UpdateGrid` call.
- React hooks, markup, `console.log` and the early returns when no canvas or context exists: presentation only.
- Pointer coordinates are modelled as natural numbers. Fractional or negative `clientX`/`clientY` are not modelled.
- GameOfLife.Simulation.AddLivingCells: requires a grid of at least one row and one column. The source only paints from pointer events, and a canvas of zero width or height has no area to receive them, so every real call meets this. Outside it the source behaves differently by dimension: with zero rows, `% 0` gives NaN and the write to `grid[NaN][...]` throws; with zero columns and some rows, the write `grid[newY][NaN] = 1` only adds a property named "NaN" to an empty row, which nothing ever reads.
- GameOfLife.Simulation.MouseDown: requires a nonempty grid for the same reason, since it always paints.
- GameOfLife.Simulation.MouseMove: likewise requires a nonempty grid, but only while drawing.
- GameOfLife.Simulation.MouseUp: the `Handle` relation is stated only for nonempty grids, because `Handle` is defined on paintable boards. For every grid, the contract still says drawing is off and the grid is untouched.
- GameOfLife.Simulation.AddRandomCells: a draw outside the grid is skipped. When the grid has at least one row and one column, the source's draws always fall inside it. With zero rows the source has already thrown at the gun stamp (see Findings). With zero columns and at least 89 rows nothing throws: each draw writes `grid[y][0]`, which only lengthens an empty row, and no loop ever reads a column at or beyond `COLS`, so skipping the draw leaves the same observable grid.
- GameOfLife.Simulation.StampPattern: the stamp skips writes outside the grid instead of throwing or extending rows; see Findings. Writes past the last column in the source lengthen JavaScript rows, but nothing ever reads those entries.

## Findings

| source | as written | input that shows it | evidently intended | confidence | as-written member | corrected member |
|---|---|---|---|---|---|---|
| src/App.tsx:76 | The gun stamp writes `grid[y + offsetY][x + offsetX]` with no bound check. The third row of copies reaches row 88, so on a grid with fewer than 89 rows `grid[y + offsetY]` is `undefined` and the assignment throws a TypeError. `resizeCanvas` then aborts before the random cells, and the grid is left without them | A viewport 440 pixels high: 88 rows; live gun cell (8, 12) of copy i = 2 lands on row 88 | Copies that do not fit are clipped to the grid | medium, not executed | LifeSeed.StampThrowsIffShort | LifeSeed.GunsStamped |
