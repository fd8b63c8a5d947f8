/** Sizing the grid to the viewport and seeding a fresh grid: nine copies
    of a Gosper glider gun, then cells at caller-supplied random positions. */
module LifeSeed {
  import opened LifeRules

  /** How many random cells a fresh grid receives (src/App.tsx:84). */
  const RandomCells: nat := 1000

  /** Distance between neighbouring gun copies, in cells, both ways. */
  const GunSpacing: nat := 40

  /** Copies of the gun per direction: 3 x 3 copies in all. */
  const GunCopies: nat := 3

  /** The Gosper glider gun, 9 rows of 36 cells (src/App.tsx:29-66). */
  const Gun: seq<seq<int>> := [
    [0,0,0,0,0,0,0,0,0,0,0,0,0,0,0,0,0,0,0,0,0,0,0,0,1,0,0,0,0,0,0,0,0,0,0,0],
    [0,0,0,0,0,0,0,0,0,0,0,0,0,0,0,0,0,0,0,0,0,0,1,0,1,0,0,0,0,0,0,0,0,0,0,0],
    [0,0,0,0,0,0,0,0,0,0,0,0,1,1,0,0,0,0,0,0,1,1,0,0,0,0,0,0,0,0,0,0,0,0,1,1],
    [0,0,0,0,0,0,0,0,0,0,0,1,0,0,0,1,0,0,0,0,1,1,0,0,0,0,0,0,0,0,0,0,0,0,1,1],
    [1,1,0,0,0,0,0,0,0,0,1,0,0,0,0,0,1,0,0,0,1,1,0,0,0,0,0,0,0,0,0,0,0,0,0,0],
    [1,1,0,0,0,0,0,0,0,0,1,0,0,0,1,0,1,1,0,0,0,0,1,0,1,0,0,0,0,0,0,0,0,0,0,0],
    [0,0,0,0,0,0,0,0,0,0,1,0,0,0,0,0,1,0,0,0,0,0,0,0,1,0,0,0,0,0,0,0,0,0,0,0],
    [0,0,0,0,0,0,0,0,0,0,0,1,0,0,0,1,0,0,0,0,0,0,0,0,0,0,0,0,0,0,0,0,0,0,0,0],
    [0,0,0,0,0,0,0,0,0,0,0,0,1,1,0,0,0,0,0,0,0,0,0,0,0,0,0,0,0,0,0,0,0,0,0,0]
  ]

  /** The pattern is 9 by 36, so it fits inside the 40-cell spacing. */
  lemma GunShape()
    ensures |Gun| == 9
    ensures forall y :: 0 <= y < |Gun| ==> |Gun[y]| == 36
  {
    forall y | 0 <= y < |Gun| ensures |Gun[y]| == 36 {
      if y == 0 {} else if y == 1 {} else if y == 2 {} else if y == 3 {}
      else if y == 4 {} else if y == 5 {} else if y == 6 {} else if y == 7 {}
      else {}
    }
  }

  /** `Math.ceil(pixels / CellSize)`: how many cells cover `pixels` pixels. */
  function CellsFor(pixels: nat): (n: nat)
    ensures CellSize * n - CellSize < pixels <= CellSize * n
  {
    (pixels + CellSize - 1) / CellSize
  }

  /** (r, c) is a live cell of a copy of `pat` whose top-left corner is
      (offY, offX). */
  predicate PatternAt(pat: seq<seq<int>>, r: int, c: int, offY: int, offX: int) {
    0 <= r - offY < |pat| && 0 <= c - offX < |pat[r - offY]| && pat[r - offY][c - offX] == 1
  }

  /** One copy of `pat` stamped at (offY, offX): its live cells are set to
      1, every other cell is kept; writes outside the board are skipped. */
  function StampCopy(b: Board, pat: seq<seq<int>>, offY: nat, offX: nat): (s: Board)
    requires IsGrid(b)
    ensures IsGrid(s) && Rows(s) == Rows(b) && Cols(s) == Cols(b)
  {
    seq(Rows(b), r requires 0 <= r < Rows(b) =>
      seq(Cols(b), c requires 0 <= c < Cols(b) => if PatternAt(pat, r, c, offY, offX) then 1 else b[r][c]))
  }

  /** Where the k-th copy goes in the source's loop order (i outer, j inner). */
  function CopyRow(k: nat): nat { GunSpacing * (k / GunCopies) }

  function CopyCol(k: nat): nat { GunSpacing * (k % GunCopies) }

  /** The first k of the nine copies of `pat` stamped, in loop order. */
  function StampCopies(b: Board, pat: seq<seq<int>>, k: nat): (s: Board)
    requires IsGrid(b) && k <= GunCopies * GunCopies
    ensures IsGrid(s) && Rows(s) == Rows(b) && Cols(s) == Cols(b)
  {
    if k == 0 then b else StampCopy(StampCopies(b, pat, k - 1), pat, CopyRow(k - 1), CopyCol(k - 1))
  }

  /** Copy number 3 i + j, in loop order, sits at (40 i, 40 j): stamping it
      after the first 3 i + j copies gives the first 3 i + j + 1. */
  lemma CopyOffsets(b: Board, pat: seq<seq<int>>, i: nat, j: nat)
    requires IsGrid(b) && i < GunCopies && j < GunCopies
    ensures CopyRow(GunCopies * i + j) == GunSpacing * i
    ensures CopyCol(GunCopies * i + j) == GunSpacing * j
    ensures StampCopies(b, pat, GunCopies * i + j + 1) ==
      StampCopy(StampCopies(b, pat, GunCopies * i + j), pat, GunSpacing * i, GunSpacing * j)
  {
    var k := GunCopies * i + j;
    assert k / GunCopies == i && k % GunCopies == j;
  }

  /** The pattern is no larger than the spacing in either direction. */
  predicate FitsSpacing(pat: seq<seq<int>>) {
    |pat| <= GunSpacing && forall y :: 0 <= y < |pat| ==> |pat[y]| <= GunSpacing
  }

  /** The index of the copy that could cover (r, c): the copies are 40 apart
      and the pattern is smaller than that, so at most one does. */
  function CopyIndex(r: nat, c: nat): nat { GunCopies * (r / GunSpacing) + c / GunSpacing }

  /** (r, c) is a live cell of one of the nine copies of `pat`. */
  predicate InCopies(pat: seq<seq<int>>, r: nat, c: nat) {
    r / GunSpacing < GunCopies && c / GunSpacing < GunCopies &&
    PatternAt(pat, r, c, GunSpacing * (r / GunSpacing), GunSpacing * (c / GunSpacing))
  }

  /** (r, c) is a live cell of one of the nine gun copies: the reference
      description of the stamp, one cell at a time. */
  predicate InGuns(r: nat, c: nat) {
    InCopies(Gun, r, c)
  }

  /** The k-th copy covers (r, c) exactly when (r, c) is a live cell of the
      copies whose copy index is k. */
  lemma PatternCopyHit(pat: seq<seq<int>>, r: nat, c: nat, k: nat)
    requires k < GunCopies * GunCopies && FitsSpacing(pat)
    ensures PatternAt(pat, r, c, CopyRow(k), CopyCol(k)) <==> InCopies(pat, r, c) && CopyIndex(r, c) == k
  {
    if PatternAt(pat, r, c, CopyRow(k), CopyCol(k)) {
      assert r / GunSpacing == k / GunCopies;
      assert c / GunSpacing == k % GunCopies;
    }
  }

  /** After the first k copies a cell is 1 if a copy among them covers it,
      and otherwise keeps its value. */
  lemma {:induction false} StampCopiesAt(b: Board, pat: seq<seq<int>>, k: nat, r: nat, c: nat)
    requires IsGrid(b) && FitsSpacing(pat) && k <= GunCopies * GunCopies && r < Rows(b) && c < Cols(b)
    ensures StampCopies(b, pat, k)[r][c] == if InCopies(pat, r, c) && CopyIndex(r, c) < k then 1 else b[r][c]
  {
    if k > 0 {
      var before := StampCopies(b, pat, k - 1);
      assert StampCopies(b, pat, k)[r][c] ==
        if PatternAt(pat, r, c, CopyRow(k - 1), CopyCol(k - 1)) then 1 else before[r][c];
      StampCopiesAt(b, pat, k - 1, r, c);
      PatternCopyHit(pat, r, c, k - 1);
      var hit := InCopies(pat, r, c) && CopyIndex(r, c) < k;
      assert hit <==> (InCopies(pat, r, c) && CopyIndex(r, c) < k - 1) || (InCopies(pat, r, c) && CopyIndex(r, c) == k - 1);
    }
  }

  /** All nine copies: a cell is 1 afterwards exactly when it is a gun cell
      or was already 1; nothing is cleared. */
  lemma GunsStamped(b: Board, r: nat, c: nat)
    requires IsGrid(b) && r < Rows(b) && c < Cols(b)
    ensures StampCopies(b, Gun, GunCopies * GunCopies)[r][c] == if InGuns(r, c) then 1 else b[r][c]
  {
    GunShape();
    StampCopiesAt(b, Gun, GunCopies * GunCopies, r, c);
  }

  /** Every live cell (y, x) of the gun ends up alive at (y + 40 i, x + 40 j)
      for i, j in 0..2, when that cell is on the board. */
  lemma EveryGunCopyPlaced(b: Board, i: nat, j: nat, y: nat, x: nat)
    requires IsGrid(b) && i < GunCopies && j < GunCopies
    requires y < |Gun| && x < |Gun[y]| && Gun[y][x] == 1
    requires y + GunSpacing * i < Rows(b) && x + GunSpacing * j < Cols(b)
    ensures StampCopies(b, Gun, GunCopies * GunCopies)[y + GunSpacing * i][x + GunSpacing * j] == 1
  {
    GunShape();
    EveryCopyPlaced(b, Gun, i, j, y, x);
  }

  /** EveryGunCopyPlaced for any pattern that fits inside the spacing. */
  lemma EveryCopyPlaced(b: Board, pat: seq<seq<int>>, i: nat, j: nat, y: nat, x: nat)
    requires IsGrid(b) && FitsSpacing(pat) && i < GunCopies && j < GunCopies
    requires y < |pat| && x < |pat[y]| && pat[y][x] == 1
    requires y + GunSpacing * i < Rows(b) && x + GunSpacing * j < Cols(b)
    ensures StampCopies(b, pat, GunCopies * GunCopies)[y + GunSpacing * i][x + GunSpacing * j] == 1
  {
    var r, c := y + GunSpacing * i, x + GunSpacing * j;
    assert r / GunSpacing == i && c / GunSpacing == j;
    assert InCopies(pat, r, c);
    StampCopiesAt(b, pat, GunCopies * GunCopies, r, c);
  }

  /** Sets the cell of every draw (row, column) to 1, skipping draws that
      fall outside the board. */
  function Scatter(b: Board, draws: seq<(nat, nat)>): (s: Board)
    requires IsGrid(b)
    ensures IsGrid(s) && Rows(s) == Rows(b) && Cols(s) == Cols(b)
  {
    seq(Rows(b), r requires 0 <= r < Rows(b) =>
      seq(Cols(b), c requires 0 <= c < Cols(b) => if (r, c) in draws then 1 else b[r][c]))
  }

  /** What `initializeGrid` does to a board: stamp the nine guns, then set
      the drawn cells. */
  function Initialized(b: Board, draws: seq<(nat, nat)>): (s: Board)
    requires IsGrid(b)
    ensures IsGrid(s) && Rows(s) == Rows(b) && Cols(s) == Cols(b)
  {
    Scatter(StampCopies(b, Gun, GunCopies * GunCopies), draws)
  }

  /** Initialization only sets cells: a cell is 1 afterwards exactly when it
      is a gun cell, a drawn cell, or was 1 before. */
  lemma InitializedAt(b: Board, draws: seq<(nat, nat)>, r: nat, c: nat)
    requires IsGrid(b) && r < Rows(b) && c < Cols(b)
    ensures Initialized(b, draws)[r][c] == if InGuns(r, c) || (r, c) in draws then 1 else b[r][c]
  {
    GunsStamped(b, r, c);
  }

  /** The fresh grid after a resize: all dead, then initialized. It depends
      on the size and the draws only, so no cell of an earlier grid survives. */
  function Seeded(rows: nat, cols: nat, draws: seq<(nat, nat)>): (s: Board)
    ensures IsGrid(s) && Rows(s) == rows && (rows > 0 ==> Cols(s) == cols)
  {
    Initialized(Zero(rows, cols), draws)
  }

  /** On a fresh grid the live cells are exactly the gun cells and the
      drawn cells. */
  lemma SeededAt(rows: nat, cols: nat, draws: seq<(nat, nat)>, r: nat, c: nat)
    requires r < rows && c < cols
    ensures Seeded(rows, cols, draws)[r][c] == 1 <==> InGuns(r, c) || (r, c) in draws
  {
    InitializedAt(Zero(rows, cols), draws, r, c);
  }

  /** Row y + 40 i of a copy is missing from a grid of `rows` rows. */
  predicate RowMissing(rows: nat, y: nat, i: nat) { y + GunSpacing * i >= rows }

  /** As written, the stamp indexes `grid[y + offsetY]` for every live gun
      cell without a bound check; on a grid lacking that row the indexing
      yields `undefined` and the assignment throws. */
  predicate StampAsWrittenThrows(rows: nat) {
    exists y: nat, x: nat, i: nat :: i < GunCopies && y < |Gun| && x < |Gun[y]| &&
      Gun[y][x] == 1 && RowMissing(rows, y, i)
  }

  /** The unchecked stamp throws exactly on grids of fewer than 89 rows, that
      is on viewports at most 440 pixels high. */
  lemma StampThrowsIffShort(rows: nat)
    ensures StampAsWrittenThrows(rows) <==> rows < GunSpacing * (GunCopies - 1) + |Gun|
  {
    GunShape();
    if rows < GunSpacing * (GunCopies - 1) + |Gun| {
      assert Gun[8][12] == 1 && RowMissing(rows, 8, 2);
    }
  }
}
