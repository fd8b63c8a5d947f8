/** The running simulation of src/App.tsx: the grid and its dimensions,
    the drawing flag, and the handlers that change them in place. Every
    method is proved against the pure functions of LifeRules, LifeSeed and
    LifeBrush through `Cells()`, the grid read as a board. */
module GameOfLife {
  import opened LifeRules
  import opened LifeSeed
  import opened LifeBrush

  /** r is among the wrapped indices v + d, for the offsets d from -1 that
      are below k: the part of a row or column of the brush done so far. */
  predicate NearUpTo(r: nat, v: nat, n: nat, k: int)
    requires n >= 1
  {
    (k > -1 && r == Wrap(v, -1, n)) || (k > 0 && r == Wrap(v, 0, n)) || (k > 1 && r == Wrap(v, 1, n))
  }

  class Simulation {
    var rows: nat
    var cols: nat
    var grid: array2<int>
    var isDrawing: bool

    /** The grid has the recorded dimensions and every cell is 0 or 1. */
    ghost predicate Valid()
      reads this, grid
    {
      grid.Length0 == rows && grid.Length1 == cols &&
      forall y, x :: 0 <= y < rows && 0 <= x < cols ==> grid[y, x] == 0 || grid[y, x] == 1
    }

    /** The grid read as a board. */
    ghost function Cells(): (b: Board)
      reads this, grid
      requires Valid()
      ensures IsGrid(b) && Rows(b) == rows && (rows > 0 ==> Cols(b) == cols)
      ensures forall y, x :: 0 <= y < rows && 0 <= x < cols ==> b[y][x] == grid[y, x]
    {
      var g := grid;
      seq(g.Length0, y requires 0 <= y < g.Length0 reads g =>
        seq(g.Length1, x requires 0 <= x < g.Length1 reads g => g[y, x]))
    }

    /** Mounting the canvas: drawing is off and the grid is sized to the
        viewport and seeded. */
    constructor (width: nat, height: nat, draws: seq<(nat, nat)>)
      requires |draws| == RandomCells
      ensures Valid() && fresh(grid) && !isDrawing
      ensures cols == CellsFor(width) && rows == CellsFor(height)
      ensures Cells() == Seeded(rows, cols, draws)
    {
      rows, cols := 0, 0;
      grid := new int[0, 0];
      isDrawing := false;
      new;
      Resize(width, height, draws);
    }

    /** `resizeCanvas`: the dimensions follow the viewport, rounded up to
        whole cells, and a fresh grid is seeded; nothing of the old grid
        survives. */
    method Resize(width: nat, height: nat, draws: seq<(nat, nat)>)
      requires |draws| == RandomCells
      modifies this
      ensures Valid() && fresh(grid) && isDrawing == old(isDrawing)
      ensures cols == CellsFor(width) && rows == CellsFor(height)
      ensures Cells() == Seeded(rows, cols, draws)
    {
      cols := CellsFor(width);
      rows := CellsFor(height);
      grid := new int[rows, cols]((y, x) => 0);
      BoardsEqual(Cells(), Zero(rows, cols));
      InitializeGrid(draws);
    }

    /** `initializeGrid`: nine gun copies, then one live cell per draw. */
    method InitializeGrid(draws: seq<(nat, nat)>)
      requires Valid() && |draws| == RandomCells
      modifies grid
      ensures Valid()
      ensures Cells() == Initialized(old(Cells()), draws)
    {
      StampGuns(Gun);
      AddRandomCells(draws);
    }

    /** The nested loops over the nine offsets (40 i, 40 j). */
    method StampGuns(pat: seq<seq<int>>)
      requires Valid()
      modifies grid
      ensures Valid()
      ensures Cells() == StampCopies(old(Cells()), pat, GunCopies * GunCopies)
    {
      ghost var start := Cells();
      for i := 0 to GunCopies
        invariant Valid()
        invariant Cells() == StampCopies(start, pat, GunCopies * i)
      {
        StampGunRow(pat, start, i);
      }
    }

    /** The inner loop: the three copies at (40 i, 40 j), j = 0, 1, 2. */
    method StampGunRow(pat: seq<seq<int>>, ghost start: Board, i: nat)
      requires Valid() && IsGrid(start) && i < GunCopies
      requires Cells() == StampCopies(start, pat, GunCopies * i)
      modifies grid
      ensures Valid()
      ensures Cells() == StampCopies(start, pat, GunCopies * i + GunCopies)
    {
      for j := 0 to GunCopies
        invariant Valid()
        invariant Cells() == StampCopies(start, pat, GunCopies * i + j)
      {
        StampPattern(pat, GunSpacing * i, GunSpacing * j);
        CopyOffsets(start, pat, i, j);
      }
    }

    /** The loop that sets one cell per draw (row, column). */
    method AddRandomCells(draws: seq<(nat, nat)>)
      requires Valid()
      modifies grid
      ensures Valid()
      ensures Cells() == Scatter(old(Cells()), draws)
    {
      BoardsEqual(Cells(), Scatter(Cells(), []));
      for k := 0 to |draws|
        invariant Valid()
        invariant forall r, c :: 0 <= r < rows && 0 <= c < cols ==>
          grid[r, c] == if (r, c) in draws[..k] then 1 else old(grid[r, c])
      {
        var (y, x) := draws[k];
        if y < rows && x < cols {
          grid[y, x] := 1;
        }
        assert draws[..k + 1] == draws[..k] + [draws[k]];
      }
      assert draws[..|draws|] == draws;
      BoardsEqual(Cells(), Scatter(old(Cells()), draws));
    }

    /** One copy of the pattern `pat` (the gun) with its top-left corner at
        (offY, offX), row by row as the source's nested `forEach` visits
        it; a live cell that falls outside the grid is skipped. */
    method StampPattern(pat: seq<seq<int>>, offY: nat, offX: nat)
      requires Valid()
      modifies grid
      ensures Valid()
      ensures Cells() == StampCopy(old(Cells()), pat, offY, offX)
    {
      for y := 0 to |pat|
        invariant Valid()
        invariant forall r, c :: 0 <= r < rows && 0 <= c < cols ==>
          grid[r, c] == if PatternAt(pat, r, c, offY, offX) && r - offY < y then 1 else old(grid[r, c])
      {
        for x := 0 to |pat[y]|
          invariant Valid()
          invariant forall r, c :: 0 <= r < rows && 0 <= c < cols ==>
            grid[r, c] == if PatternAt(pat, r, c, offY, offX) && (r - offY < y || (r - offY == y && c - offX < x))
                          then 1 else old(grid[r, c])
        {
          if pat[y][x] == 1 && y + offY < rows && x + offX < cols {
            grid[y + offY, x + offX] := 1;
          }
        }
      }
      BoardsEqual(Cells(), StampCopy(old(Cells()), pat, offY, offX));
    }

    /** `countNeighbors(x, y)`: the live cells among the eight wrapped
        neighbours of (y, x). */
    method CountNeighbors(x: nat, y: nat) returns (count: int)
      requires Valid() && y < rows && x < cols
      ensures count == Neighbors(Cells(), y, x)
    {
      count := 0;
      for i := -1 to 2
        invariant count == CountedSoFar(Cells(), y, x, 3 * (i + 1))
      {
        for j := -1 to 2
          invariant count == CountedSoFar(Cells(), y, x, 3 * (i + 1) + (j + 1))
        {
          if i == 0 && j == 0 {
            continue;
          }
          var newY := (y + i + rows) % rows;
          var newX := (x + j + cols) % cols;
          count := count + grid[newY, newX];
        }
      }
      CountedSoFarIsNeighbors(Cells(), y, x);
    }

    /** `updateGrid`: the next generation is written into a copy, reading
        only the current grid, and then replaces it. */
    method UpdateGrid()
      requires Valid()
      modifies this
      ensures Valid() && fresh(grid)
      ensures rows == old(rows) && cols == old(cols) && isDrawing == old(isDrawing)
      ensures Cells() == Step(old(Cells()))
    {
      var newGrid := new int[rows, cols]((y, x) requires 0 <= y < grid.Length0 && 0 <= x < grid.Length1 reads this, grid => grid[y, x]);
      ghost var current := Cells();
      for y := 0 to rows
        modifies newGrid
        invariant forall r, c :: 0 <= r < rows && 0 <= c < cols ==>
          newGrid[r, c] == if r < y then NextCell(current, r, c) else current[r][c]
      {
        UpdateRow(newGrid, y);
      }
      grid := newGrid;
      BoardsEqual(Cells(), Step(current));
    }

    /** The inner loop of `updateGrid` for row y: each cell of the copy
        `next` gets its next state, computed from the current grid only. */
    method UpdateRow(next: array2<int>, y: nat)
      requires Valid() && next != grid && y < rows
      requires next.Length0 == rows && next.Length1 == cols
      requires forall c :: 0 <= c < cols ==> next[y, c] == grid[y, c]
      modifies next
      ensures forall r, c :: 0 <= r < rows && 0 <= c < cols ==>
        next[r, c] == if r == y then NextCell(Cells(), r, c) else old(next[r, c])
    {
      for x := 0 to cols
        invariant forall c :: 0 <= c < x ==> next[y, c] == NextCell(Cells(), y, c)
        invariant forall r, c :: 0 <= r < rows && 0 <= c < cols && !(r == y && c < x) ==>
          next[r, c] == old(next[r, c])
      {
        UpdateCell(next, y, x);
      }
    }

    /** One cell of the inner loop of `updateGrid`. */
    method UpdateCell(next: array2<int>, y: nat, x: nat)
      requires Valid() && next != grid && y < rows && x < cols
      requires next.Length0 == rows && next.Length1 == cols
      requires next[y, x] == grid[y, x]
      modifies next
      ensures forall r, c :: 0 <= r < rows && 0 <= c < cols ==>
        next[r, c] == if r == y && c == x then NextCell(Cells(), y, x) else old(next[r, c])
    {
      var neighbors := CountNeighbors(x, y);
      if grid[y, x] == 1 && (neighbors < 2 || neighbors > 3) {
        next[y, x] := 0;
      } else if grid[y, x] == 0 && neighbors == 3 {
        next[y, x] := 1;
      }
    }

    /** `addLivingCells(x, y)`: the wrapped 3 x 3 block around the cell
        under pixel (x, y) comes alive. */
    method AddLivingCells(x: nat, y: nat)
      requires Valid() && rows >= 1 && cols >= 1
      modifies grid
      ensures Valid()
      ensures Cells() == Brush(old(Cells()), x, y)
    {
      var cellX := x / CellSize;
      var cellY := y / CellSize;
      for i := -1 to 2
        invariant Valid()
        invariant forall r, c :: 0 <= r < rows && 0 <= c < cols ==>
          grid[r, c] == if Near(r, cellY, rows) && NearUpTo(c, cellX, cols, i) then 1 else old(grid[r, c])
      {
        for j := -1 to 2
          invariant Valid()
          invariant forall r, c :: 0 <= r < rows && 0 <= c < cols ==>
            grid[r, c] == if (Near(r, cellY, rows) && NearUpTo(c, cellX, cols, i)) ||
                             (c == Wrap(cellX, i, cols) && NearUpTo(r, cellY, rows, j))
                          then 1 else old(grid[r, c])
        {
          var newX := (cellX + i + cols) % cols;
          var newY := (cellY + j + rows) % rows;
          grid[newY, newX] := 1;
        }
      }
      BoardsEqual(Cells(), Brush(old(Cells()), x, y));
    }

    /** `handleMouseDown`: drawing starts and the spot is painted. */
    method MouseDown(x: nat, y: nat)
      requires Valid() && rows >= 1 && cols >= 1
      modifies this, grid
      ensures Valid() && grid == old(grid) && rows == old(rows) && cols == old(cols)
      ensures Painting(Cells(), isDrawing) == Handle(old(Painting(Cells(), isDrawing)), Down(x, y))
    {
      isDrawing := true;
      AddLivingCells(x, y);
    }

    /** `handleMouseMove`: paints only while drawing. */
    method MouseMove(x: nat, y: nat)
      requires Valid() && (isDrawing ==> rows >= 1 && cols >= 1)
      modifies grid
      ensures Valid()
      ensures !isDrawing ==> unchanged(grid)
      ensures rows >= 1 && cols >= 1 ==>
        Painting(Cells(), isDrawing) == Handle(old(Painting(Cells(), isDrawing)), Move(x, y))
    {
      if isDrawing {
        AddLivingCells(x, y);
      }
    }

    /** `handleMouseUp`, registered for both pointer-up and pointer-leave:
        drawing stops and the grid is untouched. */
    method MouseUp()
      requires Valid()
      modifies this
      ensures Valid() && !isDrawing
      ensures grid == old(grid) && rows == old(rows) && cols == old(cols) && unchanged(grid)
      ensures rows >= 1 && cols >= 1 ==>
        Painting(Cells(), isDrawing) == Handle(old(Painting(Cells(), isDrawing)), Up) &&
        Painting(Cells(), isDrawing) == Handle(old(Painting(Cells(), isDrawing)), Leave)
    {
      isDrawing := false;
    }
  }
}
