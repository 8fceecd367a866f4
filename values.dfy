/** The `-v` branch of main.py: each comma-separated value goes to one
    `set_value(x, y, value)` call, located by a running index. */
module ValuePlacement {
  import opened Outcomes
  import Grid
  import Cells

  /** One `set_value(x, y, value)` call. The values stay unparsed, so their
      type is left open. */
  datatype Assignment<T> = Assignment(x: int, y: int, value: T)

  /** Where value number `k` goes: `x = k // n`, `y = k - (k // n) * n`,
      with `n = dimension ** 2` (the side of the grid, despite the source
      calling it `cells_number`). */
  function Target(d: int, k: nat): (r: (int, int))
    requires d != 0
    ensures 0 <= r.0 && 0 <= r.1 < d * d
    ensures r.0 * (d * d) <= k < r.0 * (d * d) + d * d
  {
    var n := d * d;
    (k / n, k - (k / n) * n)
  }

  /** The target's second coordinate is the remainder, in `[0, n)`, and the
      pair recovers the index: `k == x * n + y`. */
  lemma {:induction false} TargetRoundTrip(d: int, k: nat)
    requires d != 0
    ensures var (x, y) := Target(d, k);
      0 <= x && 0 <= y < d * d && y == k % (d * d) && k == x * (d * d) + y
  {
    var n := d * d;
    assert k == (k / n) * n + k % n;
  }

  /** Values with an index below `cells_number` land inside the grid. */
  lemma {:induction false} TargetInGrid(d: int, k: nat)
    requires d != 0 && k < Grid.CellsNumber(d)
    ensures var (x, y) := Target(d, k);
      0 <= x < d * d && 0 <= y < d * d
  {
    var n := d * d;
    TargetRoundTrip(d, k);
    if k / n >= n {
      Cells.MulMono(n, k / n, n);
    }
  }

  /** Nothing bounds the list: from index `cells_number` on, the first
      coordinate is outside the grid. */
  lemma {:induction false} TargetPastGrid(d: int, k: nat)
    requires d != 0 && k >= Grid.CellsNumber(d)
    ensures Target(d, k).0 >= d * d
  {
    var n := d * d;
    TargetRoundTrip(d, k);
    if k / n < n {
      Cells.MulMono(k / n, n - 1, n);
    }
  }

  /** Distinct indices go to distinct cells. */
  lemma {:induction false} TargetInjective(d: int, k: nat, j: nat)
    requires d != 0 && Target(d, k) == Target(d, j)
    ensures k == j
  {
    TargetRoundTrip(d, k);
    TargetRoundTrip(d, j);
  }

  /** The placement is the transpose of the constructor's enumeration:
      value `k` lands on the cell the constructor built at position
      `(k % n) * n + k // n`. */
  lemma {:induction false} TargetIsTranspose(d: int, k: nat)
    requires d != 0 && k < Grid.CellsNumber(d)
    ensures var n := d * d; var p := (k % n) * n + k / n;
      p < Grid.CellsNumber(d) &&
      Grid.ConstructedCell(d, p).x == Target(d, k).0 &&
      Grid.ConstructedCell(d, p).y == Target(d, k).1
  {
    var (x, y) := Target(d, k);
    TargetRoundTrip(d, k);
    TargetInGrid(d, k);
    Grid.CoordinateHasPosition(d, x, y);
  }

  /** The `-v` loop: the index starts at 0 and grows by one per value, in
      list order; a zero dimension makes the first division raise. */
  method PlaceValues<T>(dimension: int, values: seq<T>) returns (r: Result<seq<Assignment<T>>>)
    ensures r.Err? <==> dimension == 0 && |values| > 0
    ensures r.Err? ==> r.error == ZeroDivision
    ensures r.Ok? ==> |r.value| == |values|
    ensures r.Ok? ==> forall k :: 0 <= k < |values| ==>
      r.value[k] == Assignment(Target(dimension, k).0, Target(dimension, k).1, values[k])
  {
    var index := 0;
    var cellsNumber := dimension * dimension;
    var calls: seq<Assignment<T>> := [];
    while index < |values|
      invariant 0 <= index <= |values|
      invariant |calls| == index
      invariant cellsNumber == 0 ==> index == 0
      invariant forall k :: 0 <= k < index ==>
        calls[k] == Assignment(Target(dimension, k).0, Target(dimension, k).1, values[k])
    {
      if cellsNumber == 0 {
        return Err(ZeroDivision);
      }
      var x := index / cellsNumber;
      var y := index - ((index / cellsNumber) * cellsNumber);
      calls := calls + [Assignment(x, y, values[index])];
      index := index + 1;
    }
    r := Ok(calls);
  }
}
