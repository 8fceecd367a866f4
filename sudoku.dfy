/** The grid container built by `Sudoku.__init__` in Sudoku.py. */
module Grid {
  import opened Outcomes
  import opened Cells

  /** `cells_per_row`: the side of the grid, `d*d`. */
  function CellsPerRow(d: int): (n: nat)
    ensures n == 0 <==> d == 0
  {
    d * d
  }

  /** `cells_number`: the number of cells, `(d*d)**2`. */
  function CellsNumber(d: int): (n: nat)
    ensures n == 0 <==> d == 0
  {
    CellsPerRow(d) * CellsPerRow(d)
  }

  /** The column the constructor gives to linear position `i`, written as
      the source writes it: `i - ((i // cells_per_row) * cells_per_row)`.
      The divisor is positive, where `//` and Dafny's `/` agree. */
  function PositionX(d: int, i: nat): (x: int)
    requires d != 0
    ensures 0 <= x < CellsPerRow(d)
  {
    i - (i / CellsPerRow(d)) * CellsPerRow(d)
  }

  /** The row the constructor gives to linear position `i`: `i // cells_per_row`. */
  function PositionY(d: int, i: nat): (y: int)
    requires d != 0
    ensures 0 <= y && y * CellsPerRow(d) <= i < y * CellsPerRow(d) + CellsPerRow(d)
  {
    i / CellsPerRow(d)
  }

  /** The cell the constructor appends at position `i`, with value 0 and
      the dimension passed to `Cell` as its fourth argument. */
  function ConstructedCell(d: int, i: nat): (c: Cell)
    requires d != 0
    ensures c.x == PositionX(d, i) && c.y == PositionY(d, i) && c.value == 0
    ensures c.availableSolutions == []
  {
    NewCell(PositionX(d, i), PositionY(d, i), 0, d).value
  }

  /** Position `i` decomposes as `y * cells_per_row + x` with the column
      the remainder of the division. */
  lemma {:induction false} PositionDecomposes(d: int, i: nat)
    requires d != 0
    ensures 0 <= PositionX(d, i) < CellsPerRow(d)
    ensures PositionX(d, i) == i % CellsPerRow(d)
    ensures i == PositionY(d, i) * CellsPerRow(d) + PositionX(d, i)
  {
    var n := CellsPerRow(d);
    assert i == (i / n) * n + i % n;
  }

  /** Every position below `cells_number` gets both coordinates in
      `[0, cells_per_row)`. */
  lemma {:induction false} PositionInGrid(d: int, i: nat)
    requires d != 0 && i < CellsNumber(d)
    ensures 0 <= PositionX(d, i) < CellsPerRow(d)
    ensures 0 <= PositionY(d, i) < CellsPerRow(d)
  {
    var n := CellsPerRow(d);
    PositionDecomposes(d, i);
    if PositionY(d, i) >= n {
      MulMono(n, PositionY(d, i), n);
    }
  }

  /** Every grid coordinate `(x, y)` is produced at position
      `y * cells_per_row + x`, which lies below `cells_number`. */
  lemma {:induction false} CoordinateHasPosition(d: int, x: int, y: int)
    requires d != 0 && 0 <= x < CellsPerRow(d) && 0 <= y < CellsPerRow(d)
    ensures 0 <= y * CellsPerRow(d) + x < CellsNumber(d)
    ensures PositionX(d, y * CellsPerRow(d) + x) == x
    ensures PositionY(d, y * CellsPerRow(d) + x) == y
  {
    var n := CellsPerRow(d);
    var i := y * n + x;
    MulMono(y, n - 1, n);
    DivModUnique(i, n, y, x);
  }

  /** No two positions produce the same coordinate, so together with
      `CoordinateHasPosition` the enumeration is a bijection between
      `[0, cells_number)` and the grid's coordinates. */
  lemma {:induction false} PositionInjective(d: int, i: nat, j: nat)
    requires d != 0
    requires PositionX(d, i) == PositionX(d, j) && PositionY(d, i) == PositionY(d, j)
    ensures i == j
  {
    PositionDecomposes(d, i);
    PositionDecomposes(d, j);
  }

  /** For a positive dimension each constructed cell's block id names the
      block whose region holds it, and lies in `[0, cells_per_row)`. */
  lemma {:induction false} ConstructedCellBlock(d: int, i: nat)
    requires d > 0 && i < CellsNumber(d)
    ensures var c := ConstructedCell(d, i);
      0 <= c.qindex < CellsPerRow(d) && BlockContains(d, c.qindex, c.x, c.y)
  {
    PositionInGrid(d, i);
    CellBlock(PositionX(d, i), PositionY(d, i), 0, d);
  }

  /** The loop of `Sudoku.__init__`: appends one cell per position below
      `cells_number`, in order. */
  method BuildCells(d: int) returns (cells: seq<Cell>)
    ensures |cells| == CellsNumber(d)
    ensures forall i :: 0 <= i < |cells| ==> cells[i] == ConstructedCell(d, i)
    ensures forall i :: 0 <= i < |cells| ==>
      0 <= cells[i].x < CellsPerRow(d) && 0 <= cells[i].y < CellsPerRow(d) &&
      cells[i].value == 0
  {
    cells := [];
    var n := CellsNumber(d);
    var i := 0;
    while i < n
      invariant 0 <= i <= n
      invariant |cells| == i
      invariant forall k :: 0 <= k < i ==> cells[k] == ConstructedCell(d, k)
      invariant forall k :: 0 <= k < i ==>
        0 <= cells[k].x < CellsPerRow(d) && 0 <= cells[k].y < CellsPerRow(d)
    {
      var perRow := CellsPerRow(d);
      var r := NewCell(i - ((i / perRow) * perRow), i / perRow, 0, d);
      PositionInGrid(d, i);
      cells := cells + [r.value];
      i := i + 1;
    }
  }

  /** `Sudoku.__init__` as written: it calls `Cell.Cell` with three
      arguments while `Cell.__init__` takes four, so the first iteration,
      reached for every nonzero dimension, raises. */
  function ConstructAsWritten(d: int): (r: Result<seq<Cell>>)
    ensures r.Ok? <==> d == 0
    ensures r.Ok? ==> r.value == []
    ensures r.Err? ==> r.error == MissingArgument
  {
    if CellsNumber(d) == 0 then Ok([]) else Err(MissingArgument)
  }

  /** The grid container; its cell list is filled once, at construction. */
  class Sudoku {
    const dimension: int
    var cells: seq<Cell>

    constructor (dimension: int)
      ensures this.dimension == dimension
      ensures |cells| == CellsNumber(dimension)
      ensures forall i :: 0 <= i < |cells| ==> cells[i] == ConstructedCell(dimension, i)
    {
      this.dimension := dimension;
      var built := BuildCells(dimension);
      cells := built;
    }
  }
}
