/** Painting with the pointer: the 3 x 3 brush and the drawing flag that
    decides whether pointer moves paint. */
module LifeBrush {
  import opened LifeRules

  /** r is one of the three wrapped indices v - 1, v, v + 1 modulo n. */
  predicate Near(r: nat, v: nat, n: nat)
    requires n >= 1
  {
    r == Wrap(v, -1, n) || r == Wrap(v, 0, n) || r == Wrap(v, 1, n)
  }

  /** The cyclic description of Near: r is at most one step from v around
      a ring of n positions, whatever the size of v. */
  lemma NearIsCyclic(r: nat, v: nat, n: nat)
    requires n >= 1 && r < n
    ensures Near(r, v, n) <==> (r - v + 1) % n <= 2
  {
    var q, w := v / n, v % n;
    assert v == n * q + w;
    ShiftMod(r - w + 1, q, n);
    assert r - v + 1 == (r - w + 1) - n * q;
    forall d | -1 <= d <= 1 ensures Wrap(v, d, n) == Wrap(w, d, n) {
      ShiftMod(w + d + n, q, n);
      assert v + d + n == (w + d + n) + n * q;
    }
    NearIsCyclicInRange(r, w, n);
  }

  /** NearIsCyclic for a centre inside the ring. */
  lemma NearIsCyclicInRange(r: nat, w: nat, n: nat)
    requires n >= 1 && r < n && w < n
    ensures Near(r, w, n) <==> (r - w + 1) % n <= 2
  {
    WrapInRange(w, -1, n);
    WrapInRange(w, 0, n);
    WrapInRange(w, 1, n);
    var a := r - w + 1;
    if a < 0 {
      ModUnique(a, n, -1, a + n);
    } else if a < n {
      ModUnique(a, n, 0, a);
    } else {
      ModUnique(a, n, 1, a - n);
    }
  }

  /** Adding a multiple of n does not change a remainder modulo n. */
  lemma ShiftMod(a: int, q: int, n: nat)
    requires n >= 1
    ensures (a + n * q) % n == a % n
    ensures (a - n * q) % n == a % n
  {
    assert a + n * q == n * (a / n + q) + a % n;
    ModUnique(a + n * q, n, a / n + q, a % n);
    assert a - n * q == n * (a / n - q) + a % n;
    ModUnique(a - n * q, n, a / n - q, a % n);
  }

  /** Quotient and remainder are unique. */
  lemma ModUnique(a: int, n: nat, q: int, m: int)
    requires n >= 1 && 0 <= m < n && a == n * q + m
    ensures a % n == m && a / n == q
  {
    var q', m' := a / n, a % n;
    assert n * q' + m' == n * q + m;
    assert n * (q - q') == m' - m;
    MulBounds(n, q - q');
  }

  /** A nonzero multiple of n is at least n away from zero. */
  lemma {:induction false} MulBounds(n: nat, k: int)
    ensures k >= 1 ==> n * k >= n
    ensures k <= -1 ==> n * k + n <= 0
    decreases if k < 0 then -k else k
  {
    if k > 1 {
      MulBounds(n, k - 1);
      assert n * k == n * (k - 1) + n;
    } else if k < -1 {
      MulBounds(n, k + 1);
      assert n * k == n * (k + 1) - n;
    }
  }

  /** `addLivingCells(px, py)`: the pixel (px, py) falls in cell
      (py / 5, px / 5); the wrapped 3 x 3 block around it is set to 1. */
  function Brush(b: Board, px: nat, py: nat): (s: Board)
    requires IsGrid(b) && Rows(b) >= 1 && Cols(b) >= 1
    ensures IsGrid(s) && Rows(s) == Rows(b) && Cols(s) == Cols(b)
  {
    seq(Rows(b), r requires 0 <= r < Rows(b) =>
      seq(Cols(b), c requires 0 <= c < Cols(b) =>
        if Near(r, py / CellSize, Rows(b)) && Near(c, px / CellSize, Cols(b)) then 1 else b[r][c]))
  }

  /** The brush sets exactly the cells cyclically within one row and one
      column of the pointer's cell; it never clears a cell and leaves every
      other cell as it was. */
  lemma BrushAt(b: Board, px: nat, py: nat, r: nat, c: nat)
    requires IsGrid(b) && Rows(b) >= 1 && Cols(b) >= 1 && r < Rows(b) && c < Cols(b)
    ensures Brush(b, px, py)[r][c] ==
      if (r - py / CellSize + 1) % Rows(b) <= 2 && (c - px / CellSize + 1) % Cols(b) <= 2 then 1 else b[r][c]
  {
    NearIsCyclic(r, py / CellSize, Rows(b));
    NearIsCyclic(c, px / CellSize, Cols(b));
  }

  /** Painting the same spot twice is the same as painting it once. */
  lemma BrushIdempotent(b: Board, px: nat, py: nat)
    requires IsGrid(b) && Rows(b) >= 1 && Cols(b) >= 1
    ensures Brush(Brush(b, px, py), px, py) == Brush(b, px, py)
  {
    var once := Brush(b, px, py);
    BoardsEqual(Brush(once, px, py), once);
  }

  /** The pointer events the canvas listens to. */
  datatype Pointer = Down(x: nat, y: nat) | Move(x: nat, y: nat) | Up | Leave

  /** The grid together with the `isDrawing` flag. */
  datatype Painting = Painting(board: Board, drawing: bool)

  predicate Paintable(p: Painting) { IsGrid(p.board) && Rows(p.board) >= 1 && Cols(p.board) >= 1 }

  /** One handler: pointer-down starts drawing and paints, pointer-move
      paints only while drawing, pointer-up and pointer-leave stop drawing. */
  function Handle(p: Painting, e: Pointer): (q: Painting)
    requires Paintable(p)
    ensures Paintable(q) && Rows(q.board) == Rows(p.board) && Cols(q.board) == Cols(p.board)
    ensures q.drawing == (e.Down? || (e.Move? && p.drawing))
    ensures !e.Down? && !(e.Move? && p.drawing) ==> q.board == p.board
  {
    match e
    case Down(x, y) => Painting(Brush(p.board, x, y), true)
    case Move(x, y) => if p.drawing then Painting(Brush(p.board, x, y), true) else p
    case Up => Painting(p.board, false)
    case Leave => Painting(p.board, false)
  }

  /** A sequence of events handled in order. */
  function Replay(p: Painting, es: seq<Pointer>): (q: Painting)
    requires Paintable(p)
    ensures Paintable(q) && Rows(q.board) == Rows(p.board) && Cols(q.board) == Cols(p.board)
    decreases |es|
  {
    if es == [] then p else Replay(Handle(p, es[0]), es[1..])
  }

  /** Once the pointer is released (or leaves the canvas), any number of
      further moves paints nothing and drawing stays off. */
  lemma {:induction false} MovesAfterReleasePaintNothing(p: Painting, moves: seq<Pointer>)
    requires Paintable(p) && !p.drawing
    requires forall k :: 0 <= k < |moves| ==> moves[k].Move?
    ensures Replay(p, moves) == p
    decreases |moves|
  {
    if moves != [] {
      assert Handle(p, moves[0]) == p;
      MovesAfterReleasePaintNothing(p, moves[1..]);
    }
  }

  /** Pressing at one spot and moving to another paints a block at both:
      every cell of either block is alive afterwards. */
  lemma PressThenMovePaintsBoth(p: Painting, x1: nat, y1: nat, x2: nat, y2: nat, r: nat, c: nat)
    requires Paintable(p) && r < Rows(p.board) && c < Cols(p.board)
    requires (Near(r, y1 / CellSize, Rows(p.board)) && Near(c, x1 / CellSize, Cols(p.board))) ||
             (Near(r, y2 / CellSize, Rows(p.board)) && Near(c, x2 / CellSize, Cols(p.board)))
    ensures Replay(p, [Down(x1, y1), Move(x2, y2)]).board[r][c] == 1
    ensures Replay(p, [Down(x1, y1), Move(x2, y2)]).drawing
  {
    var q := Handle(p, Down(x1, y1));
    assert [Down(x1, y1), Move(x2, y2)][1..] == [Move(x2, y2)];
    assert Replay(q, [Move(x2, y2)]) == Handle(q, Move(x2, y2));
  }
}
