/** Cells and the row-major layout that gives each cell its coordinates. */
module Grid {

  /** Python's `CellState` enumeration (`CellStateAlive = 0`, `CellStateDead = 1`). */
  datatype CellState = Alive | Dead

  /** One cell: its committed state, the scratch state written by the first
      pass of a generation, and the (row, column) coordinates set once by
      the layout. The tkinter button attached to a cell is not modelled. */
  datatype Cell = Cell(state: CellState, next: CellState, x: int, y: int)

  /** A cell as the constructor leaves it and `create_cells` then kills it:
      dead, with the constructor's scratch state `Alive`, at (0, 0). */
  function NewCell(): Cell {
    Cell(Dead, Alive, 0, 0)
  }

  /** The cell list built at start-up, before the layout runs. */
  function CreateCells(n: nat): (cells: seq<Cell>)
    ensures |cells| == n
    ensures forall i :: 0 <= i < n ==> cells[i].state == Dead
  {
    seq(n, _ => NewCell())
  }

  /** Cell `i` of a grid with `cols` columns sits at row `i / cols`, column `i % cols`. */
  function Coordinates(i: int, cols: nat): (int, int)
    requires cols > 0
  {
    (i / cols, i % cols)
  }

  /** The list index of the cell at `(x, y)`. */
  function Index(cols: int, p: (int, int)): int {
    p.0 * cols + p.1
  }

  /** Every cell's stored coordinates agree with its position in the list. */
  ghost predicate Aligned(cells: seq<Cell>, cols: nat)
    requires cols > 0
  {
    forall i :: 0 <= i < |cells| ==> (cells[i].x, cells[i].y) == Coordinates(i, cols)
  }

  /** Two cell lists that differ at most in their scratch states. */
  ghost predicate SameFrame(a: seq<Cell>, b: seq<Cell>) {
    && |a| == |b|
    && forall i :: 0 <= i < |a| ==> a[i].state == b[i].state && a[i].x == b[i].x && a[i].y == b[i].y
  }

  function States(cells: seq<Cell>): (s: seq<CellState>)
    ensures |s| == |cells|
    ensures forall i :: 0 <= i < |cells| ==> s[i] == cells[i].state
  {
    seq(|cells|, i requires 0 <= i < |cells| => cells[i].state)
  }

  /** Euclidean division is determined by any quotient/remainder pair. */
  lemma DivModUnique(i: int, cols: int, q: int, r: int)
    requires cols > 0 && 0 <= r < cols && i == q * cols + r
    ensures i / cols == q && i % cols == r
  {
    var q', r' := i / cols, i % cols;
    assert (q - q') * cols == r' - r;
    if q > q' {
      MulLe(1, q - q', cols);
    } else if q < q' {
      MulLe(1, q' - q, cols);
    }
  }

  lemma MulLe(a: int, b: int, c: nat)
    requires a <= b
    ensures a * c <= b * c
  {
    assert b * c - a * c == (b - a) * c;
  }

  /** The coordinates of cell `i` map back to `i` under the index formula. */
  lemma CoordinatesRoundTrip(i: int, cols: nat)
    requires cols > 0
    ensures Index(cols, Coordinates(i, cols)) == i
  {
  }

  /** The index formula is inverted by the layout for every in-column position. */
  lemma IndexRoundTrip(cols: nat, p: (int, int))
    requires cols > 0 && 0 <= p.1 < cols
    ensures Coordinates(Index(cols, p), cols) == p
  {
    DivModUnique(Index(cols, p), cols, p.0, p.1);
  }

  /** Distinct in-column positions have distinct indices. */
  lemma IndexInjective(cols: nat, p: (int, int), q: (int, int))
    requires cols > 0 && 0 <= p.1 < cols && 0 <= q.1 < cols
    requires Index(cols, p) == Index(cols, q)
    ensures p == q
  {
    IndexRoundTrip(cols, p);
    IndexRoundTrip(cols, q);
  }

  /** How the running (row, col) counters of the layout loop move from cell
      `i - 1` to cell `i`. */
  lemma DivModStep(i: int, cols: nat)
    requires cols > 0 && i > 0
    ensures i % cols == 0 ==> i / cols == (i - 1) / cols + 1 && (i - 1) % cols == cols - 1
    ensures i % cols != 0 ==> i / cols == (i - 1) / cols && i % cols == (i - 1) % cols + 1
  {
    var q, r := (i - 1) / cols, (i - 1) % cols;
    if r + 1 < cols {
      DivModUnique(i, cols, q, r + 1);
    } else {
      DivModUnique(i, cols, q + 1, 0);
    }
  }

  /** The list with every cell's coordinates set from its position. */
  function LaidOut(cells: seq<Cell>, cols: nat): (r: seq<Cell>)
    requires cols > 0
    ensures |r| == |cells| && Aligned(r, cols)
    ensures forall i :: 0 <= i < |cells| ==> r[i].state == cells[i].state && r[i].next == cells[i].next
  {
    seq(|cells|, i requires 0 <= i < |cells| => cells[i].(x := i / cols, y := i % cols))
  }

  /** `align_cells`: walks the list keeping a row and a column counter,
      starting a new row every `cols` cells, and stores the counters as the
      cell's coordinates. Returns the final counters, which place the
      control buttons below the grid. */
  method AlignCells(cells: seq<Cell>, cols: nat) returns (aligned: seq<Cell>, row: int, col: int)
    requires cols > 0
    ensures aligned == LaidOut(cells, cols)
    ensures |cells| == 0 ==> row == 0 && col == 0
    ensures |cells| > 0 ==> row == (|cells| - 1) / cols && col == (|cells| - 1) % cols + 1
  {
    aligned, row, col := cells, 0, 0;
    var i := 0;
    while i < |cells|
      invariant 0 <= i <= |cells| && |aligned| == |cells|
      invariant forall k :: 0 <= k < i ==> aligned[k] == cells[k].(x := k / cols, y := k % cols)
      invariant forall k :: i <= k < |cells| ==> aligned[k] == cells[k]
      invariant i == 0 ==> row == 0 && col == 0
      invariant i > 0 ==> row == (i - 1) / cols && col == (i - 1) % cols + 1
    {
      if i > 0 && i % cols == 0 {
        row, col := row + 1, 0;
      }
      if i > 0 {
        DivModStep(i, cols);
      }
      aligned := aligned[i := aligned[i].(x := row, y := col)];
      col := col + 1;
      i := i + 1;
    }
  }
}
