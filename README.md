# py-sudo grid coordinates, in Dafny

This project models the coordinate arithmetic of the py-sudo Sudoku program
for an N²×N² grid of N×N blocks. The modelled parts are how a cell derives its
block coordinates and block id (`Cell.__init__`), how the grid container
lists its N⁴ cells (`Sudoku.__init__`), and how the `-v` option of `main.py`
decides which cell each comma-separated clue goes to. Its proofs cover:

- bounds for every coordinate and block id;
- the bijection between list positions and grid coordinates;
- the round trip between a clue's index and its target cell, and the fact
  that the clue placement is the transpose of the constructor's enumeration;
- the error paths: division by a zero dimension, and the missing argument
  described under "## Findings".

Files:

- `outcomes.dfy`: module `Outcomes`, with the raised errors and a `Result` type.
- `cell.dfy`: module `Cells`, with Python floor division, the `Cell` datatype,
  `NewCell` and the block lemmas.
- `sudoku.dfy`: module `Grid`, with the constructor's loop (`BuildCells`), the
  `Sudoku` class and the lemmas on the enumeration.
- `values.dfy`: module `ValuePlacement`, with the `-v` loop (`PlaceValues`)
  and the lemmas on the mapping from index to cell.

Data:

- `Cells.Cell` is a datatype holding the fields `Cell.__init__` assigns
  (Cell.py:8-14): x, y, value, the candidate list `available_solutions`
  (as `availableSolutions`), and qx, qy, qindex.
- `ValuePlacement.Assignment` is a datatype for one `set_value(x, y, value)`
  call of main.py:38.

Conventions:

- Python's `//` rounds towards minus infinity, but Dafny's `/` is Euclidean.
  `Cell.__init__` divides by the dimension. `int(argv)` can make that
  negative, so `Cells.FloorDiv` models `//` exactly.
- The constructor and main.py divide by `dimension * dimension`. That is
  positive whenever it is non-zero, and then the two divisions agree.
- The constructor uses x as the column (`i mod N²`) and y as the row
  (`i div N²`). main.py uses the opposite order. Both are modelled as
  written, and `ValuePlacement.TargetIsTranspose` proves how they relate.

## Model

| member | source | states |
|---|---|---|
| `Cells.FloorDiv` | Cell.py:12-13 | the quotient is the floor of a/b for either sign of b: b·q ≤ a < b·q + b when b > 0, and b·q + b < a ≤ b·q when b < 0 |
| `Cells.NewCell` | Cell.py:7-14 | fails with a zero-division error exactly when the dimension is 0; otherwise x, y and value are kept unchanged, the candidate list starts empty, qx and qy are the floor quotients of x and y by N for either sign of N (qx·N ≤ x < qx·N + N when N > 0, qx·N + N < x ≤ qx·N when N < 0), and qindex = qx + qy·N |
| `Cells.BlockCoordinateBound` | Cell.py:12-13 | a coordinate in [0, N²) has a block coordinate in [0, N) |
| `Cells.BlockIndexDecodes` | Cell.py:14 | for qx, qy in [0, N) the block id lies in [0, N²), and qindex mod N = qx, qindex div N = qy |
| `Cells.BlockIndexInjective` | Cell.py:14 | two block coordinate pairs in [0, N) have the same block id if and only if they are equal |
| `Cells.CellBlock` | Cell.py:12-14 | a cell at a grid coordinate has qx, qy in [0, N) and a qindex in [0, N²) that decodes to them; qindex is the one block whose N×N region holds (x, y) |
| `Cells.SameBlockIff` | Cell.py:12-14 | two cells at grid coordinates have equal qindex if and only if their qx and qy are equal, and if and only if the second cell lies in the first cell's block region |
| `Grid.CellsPerRow` | Sudoku.py:10 | cells_per_row = N² is zero exactly when N is zero |
| `Grid.CellsNumber` | Sudoku.py:11 | cells_number = (N²)² is zero exactly when N is zero |
| `Grid.PositionX` | Sudoku.py:19 | the column i − (i div N²)·N² given to position i lies in [0, N²); `Grid.PositionDecomposes` proves it is i mod N² |
| `Grid.PositionY` | Sudoku.py:20 | the row i div N² given to position i is the floor quotient: y·N² ≤ i < y·N² + N²; `Grid.PositionInGrid` bounds it for i < N⁴ |
| `Grid.ConstructedCell` | Sudoku.py:17-23 | the cell appended at position i has the constructor's x and y and value 0, and its candidate list is empty |
| `Grid.PositionDecomposes` | Sudoku.py:19-20 | x = i − (i div N²)·N² equals i mod N², lies in [0, N²), and i = y·N² + x |
| `Grid.PositionInGrid` | Sudoku.py:16-20 | for every position below N⁴, both x and y lie in [0, N²) |
| `Grid.CoordinateHasPosition` | Sudoku.py:16-23 | every (x, y) in [0, N²)² is produced at position y·N² + x, which is below N⁴ |
| `Grid.PositionInjective` | Sudoku.py:16-23 | two positions that produce the same (x, y) are equal, so each coordinate appears exactly once |
| `Grid.ConstructedCellBlock` | Sudoku.py:16-23 | for N > 0 every constructed cell has a block id in [0, N²), and that block's region holds the cell |
| `Grid.BuildCells` | Sudoku.py:12-23 | the loop appends exactly N⁴ cells; the cell at each position is that position's constructed cell, with coordinates in [0, N²) and value 0 (the loop invariant also holds after each k iterations) |
| `Grid.ConstructAsWritten` | Sudoku.py:16-22 | the constructor as written succeeds, with an empty list, only when N = 0; for every other N it fails with a missing-argument error |
| `Grid.Sudoku.constructor` | Sudoku.py:8-23 | stores the dimension, and holds N⁴ cells, each the constructed cell of its position |
| `ValuePlacement.Target` | main.py:36-37 | value k goes to x = k div N², the floor quotient (x·N² ≤ k < x·N² + N²), and to a y in [0, N²); the lemmas below carry the round trip, injectivity and the transpose |
| `ValuePlacement.TargetRoundTrip` | main.py:36-37 | value k goes to x = k div N² and y = k mod N², with y in [0, N²), and k = x·N² + y |
| `ValuePlacement.TargetInGrid` | main.py:34-37 | for k < N⁴ both target coordinates lie in [0, N²) |
| `ValuePlacement.TargetPastGrid` | main.py:33-39 | nothing checks the length: for k ≥ N⁴ the target x is at least N², outside the grid |
| `ValuePlacement.TargetInjective` | main.py:36-37 | distinct value indices go to distinct coordinates |
| `ValuePlacement.TargetIsTranspose` | main.py:36-37 | value k lands on the cell that the constructor built at position (k mod N²)·N² + k div N² |
| `ValuePlacement.PlaceValues` | main.py:33-39 | fails with a zero-division error exactly when N = 0 and some value is given; otherwise it issues one set_value call per value, in list order, and the k-th call puts the k-th value at the target of index k (the counter starts at 0 and goes up by one per value) |

## Findings

| source | as written | input that shows it | evidently intended | confidence | as-written member | corrected member |
|---|---|---|---|---|---|---|
| Sudoku.py:18-22 | `Cell.Cell(x, y, 0)` passes three arguments, but `Cell.__init__` (Cell.py:7) also requires `sudoku_dimension`, so the first append raises a TypeError | `Sudoku(3)`, and every other non-zero dimension | pass the dimension as the fourth argument | high; not executed | `Grid.ConstructAsWritten` | `Grid.BuildCells` |

## Left out

- Solving, generation, `set_value` and `print`: main.py calls them (main.py:38, 43-51), but the `Sudoku` class (Sudoku.py:6-27) defines none of them. As written, the first call, `sudo.set_value` at main.py:38, would raise AttributeError. `ValuePlacement.PlaceValues` instead records each call it would make as an `Assignment`.
- Command-line parsing and the usage text (main.py:9-30) are I/O plumbing. The model does not cover the `-v` branch running before any `-n`, when `sudo` is still `None`.
- Action dispatch (main.py:41-53) is CLI glue, so it is not modelled. As written, its `if`/`else` raises "Action not managed" for every action except `generate`, even after `print` or `solve` has run.
- Console output: `echo` (Sudoku.py:25-27), the two debug prints in the constructor (Sudoku.py:14-15) and the `__main__` block (Sudoku.py:30-33).
- ValuePlacement.PlaceValues: the values are the unparsed strings from `str(argvalue).split(",")`. They are modelled as a sequence of an arbitrary type, passed through unchanged. The splitting itself is not modelled, and it always yields at least one value.
- Cells.NewCell: Python's arbitrary-precision integers are modelled as Dafny's unbounded `int`. No overflow exists to model.
