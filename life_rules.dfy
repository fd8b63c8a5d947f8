/** The automaton itself: boards of 0/1 cells on a torus, the Moore
    neighbourhood count and Conway's B3/S23 rule, as pure functions.
    The imperative simulation in simulation.dfy is proved against these. */
module LifeRules {

  /** Edge length of one cell in pixels (src/App.tsx:13). */
  const CellSize: nat := 5

  /** A generation, row by row: `b[y][x]` is the cell in row y, column x;
      1 is alive and 0 is dead, as in the source's `number[][]`. */
  type Board = seq<seq<int>>

  function Rows(b: Board): nat { |b| }

  function Cols(b: Board): nat { if |b| == 0 then 0 else |b[0]| }

  /** Every row has the same length and every cell is 0 or 1. */
  predicate IsGrid(b: Board) {
    (forall y :: 0 <= y < |b| ==> |b[y]| == Cols(b)) &&
    (forall y, x :: 0 <= y < |b| && 0 <= x < |b[y]| ==> b[y][x] == 0 || b[y][x] == 1)
  }

  /** The all-dead board of the given size. */
  function Zero(rows: nat, cols: nat): (b: Board)
    ensures IsGrid(b) && Rows(b) == rows && (rows > 0 ==> Cols(b) == cols)
    ensures forall y, x :: 0 <= y < rows && 0 <= x < cols ==> b[y][x] == 0
  {
    seq(rows, _ => seq(cols, _ => 0))
  }

  /** The wrapped index `(v + d + n) % n`. Since v >= 0 and d >= -1 the
      dividend is never negative, so JavaScript's `%` and Dafny's agree. */
  function Wrap(v: nat, d: int, n: nat): (r: nat)
    requires -1 <= d <= 1 && n >= 1
    ensures r < n
  {
    (v + d + n) % n
  }

  /** For an index inside the ring, stepping back from the first position
      lands on the last one, stepping past the last lands on the first, and
      every other step stays put. */
  lemma WrapInRange(v: nat, d: int, n: nat)
    requires -1 <= d <= 1 && n >= 1 && v < n
    ensures Wrap(v, d, n) == if v + d < 0 then n - 1 else if v + d >= n then 0 else v + d
  {
  }

  /** The cell at offset (dy, dx) from (y, x) on the torus. */
  function Around(b: Board, y: nat, x: nat, dy: int, dx: int): (c: int)
    requires IsGrid(b) && y < Rows(b) && x < Cols(b)
    requires -1 <= dy <= 1 && -1 <= dx <= 1
    ensures c == 0 || c == 1
  {
    b[Wrap(y, dy, Rows(b))][Wrap(x, dx, Cols(b))]
  }

  /** The number of live cells among the eight Moore neighbours of (y, x),
      indices wrapping at every edge. */
  function Neighbors(b: Board, y: nat, x: nat): (n: int)
    requires IsGrid(b) && y < Rows(b) && x < Cols(b)
    ensures 0 <= n <= 8
  {
    Around(b, y, x, -1, -1) + Around(b, y, x, -1, 0) + Around(b, y, x, -1, 1) +
    Around(b, y, x, 0, -1) + Around(b, y, x, 0, 1) +
    Around(b, y, x, 1, -1) + Around(b, y, x, 1, 0) + Around(b, y, x, 1, 1)
  }

  /** The sum of the first k of the nine offsets in the order the source's
      loops visit them (dy outer, dx inner, both from -1 to 1), the centre
      (the fifth offset) skipped. */
  function CountedSoFar(b: Board, y: nat, x: nat, k: nat): int
    requires IsGrid(b) && y < Rows(b) && x < Cols(b) && k <= 9
  {
    if k == 0 then 0
    else CountedSoFar(b, y, x, k - 1) +
         (if k - 1 == 4 then 0 else Around(b, y, x, (k - 1) / 3 - 1, (k - 1) % 3 - 1))
  }

  /** Visiting all nine offsets in loop order and skipping the centre counts
      exactly the eight neighbours. */
  lemma CountedSoFarIsNeighbors(b: Board, y: nat, x: nat)
    requires IsGrid(b) && y < Rows(b) && x < Cols(b)
    ensures CountedSoFar(b, y, x, 9) == Neighbors(b, y, x)
  {
    assert CountedSoFar(b, y, x, 1) == CountedSoFar(b, y, x, 0) + Around(b, y, x, -1, -1);
    assert CountedSoFar(b, y, x, 2) == CountedSoFar(b, y, x, 1) + Around(b, y, x, -1, 0);
    assert CountedSoFar(b, y, x, 3) == CountedSoFar(b, y, x, 2) + Around(b, y, x, -1, 1);
    assert CountedSoFar(b, y, x, 4) == CountedSoFar(b, y, x, 3) + Around(b, y, x, 0, -1);
    assert CountedSoFar(b, y, x, 5) == CountedSoFar(b, y, x, 4);
    assert CountedSoFar(b, y, x, 6) == CountedSoFar(b, y, x, 5) + Around(b, y, x, 0, 1);
    assert CountedSoFar(b, y, x, 7) == CountedSoFar(b, y, x, 6) + Around(b, y, x, 1, -1);
    assert CountedSoFar(b, y, x, 8) == CountedSoFar(b, y, x, 7) + Around(b, y, x, 1, 0);
    assert CountedSoFar(b, y, x, 9) == CountedSoFar(b, y, x, 8) + Around(b, y, x, 1, 1);
  }

  /** A cell on the first row and column counts the opposite corner among
      its neighbours. */
  lemma CornerSeesOppositeCorner(b: Board)
    requires IsGrid(b) && Rows(b) >= 1 && Cols(b) >= 1
    ensures Around(b, 0, 0, -1, -1) == b[Rows(b) - 1][Cols(b) - 1]
    ensures Neighbors(b, 0, 0) >= b[Rows(b) - 1][Cols(b) - 1]
  {
    WrapInRange(0, -1, Rows(b));
    WrapInRange(0, -1, Cols(b));
  }

  /** On a board of at least two rows and two columns no neighbour offset
      wraps back onto the cell itself, so its own state does not change the
      count. */
  lemma NeighborsIgnoreSelf(b: Board, y: nat, x: nat, v: int)
    requires IsGrid(b) && y < Rows(b) && x < Cols(b)
    requires Rows(b) >= 2 && Cols(b) >= 2 && (v == 0 || v == 1)
    ensures IsGrid(b[y := b[y][x := v]])
    ensures Neighbors(b[y := b[y][x := v]], y, x) == Neighbors(b, y, x)
  {
    var b' := b[y := b[y][x := v]];
    assert Rows(b') == Rows(b) && Cols(b') == Cols(b);
    forall dy, dx | -1 <= dy <= 1 && -1 <= dx <= 1 && (dy, dx) != (0, 0)
      ensures Around(b', y, x, dy, dx) == Around(b, y, x, dy, dx)
    {
      WrapInRange(y, dy, Rows(b));
      WrapInRange(x, dx, Cols(b));
    }
  }

  /** The next state of (y, x): a live cell with fewer than two or more than
      three live neighbours dies, a dead cell with exactly three comes alive,
      every other cell keeps its state. The result is Conway's B3/S23 rule. */
  function NextCell(b: Board, y: nat, x: nat): (r: int)
    requires IsGrid(b) && y < Rows(b) && x < Cols(b)
    ensures r == 0 || r == 1
    ensures r == 1 <==> Neighbors(b, y, x) == 3 || (b[y][x] == 1 && Neighbors(b, y, x) == 2)
  {
    var n := Neighbors(b, y, x);
    if b[y][x] == 1 && (n < 2 || n > 3) then 0
    else if b[y][x] == 0 && n == 3 then 1
    else b[y][x]
  }

  /** The next generation: every cell computed from the same snapshot `b`. */
  function Step(b: Board): (s: Board)
    requires IsGrid(b)
    ensures IsGrid(s) && Rows(s) == Rows(b) && Cols(s) == Cols(b)
  {
    seq(Rows(b), y requires 0 <= y < Rows(b) =>
      seq(Cols(b), x requires 0 <= x < Cols(b) => NextCell(b, y, x)))
  }

  /** Death, birth and "otherwise unchanged" for one step. */
  lemma StepRules(b: Board, y: nat, x: nat)
    requires IsGrid(b) && y < Rows(b) && x < Cols(b)
    ensures b[y][x] == 1 && (Neighbors(b, y, x) < 2 || Neighbors(b, y, x) > 3) ==> Step(b)[y][x] == 0
    ensures b[y][x] == 0 && Neighbors(b, y, x) == 3 ==> Step(b)[y][x] == 1
    ensures b[y][x] == 1 && 2 <= Neighbors(b, y, x) <= 3 ==> Step(b)[y][x] == 1
    ensures b[y][x] == 0 && Neighbors(b, y, x) != 3 ==> Step(b)[y][x] == 0
  {
  }

  /** No spontaneous life: an all-dead board stays all dead. */
  lemma AllDeadStaysDead(b: Board)
    requires IsGrid(b)
    requires forall y, x :: 0 <= y < Rows(b) && 0 <= x < Cols(b) ==> b[y][x] == 0
    ensures forall y, x :: 0 <= y < Rows(b) && 0 <= x < Cols(b) ==> Step(b)[y][x] == 0
  {
    forall y, x | 0 <= y < Rows(b) && 0 <= x < Cols(b) ensures Step(b)[y][x] == 0 {
      assert Neighbors(b, y, x) == 0;
    }
  }

  /** Two boards of the same shape that agree cell by cell are equal. */
  lemma BoardsEqual(a: Board, b: Board)
    requires IsGrid(a) && IsGrid(b) && Rows(a) == Rows(b) && Cols(a) == Cols(b)
    requires forall y, x :: 0 <= y < Rows(a) && 0 <= x < Cols(a) ==> a[y][x] == b[y][x]
    ensures a == b
  {
    forall y | 0 <= y < Rows(a) ensures a[y] == b[y] {
      assert |a[y]| == |b[y]|;
      forall x | 0 <= x < |a[y]| ensures a[y][x] == b[y][x] { }
    }
  }
}
