/** One Sudoku cell, as `Cell.__init__` in Cell.py builds it. */
module Cells {
  import opened Outcomes

  /** Python's `a // b`: the quotient rounded towards minus infinity.
      Dafny's `/` is Euclidean, which differs when `b` is negative. */
  function FloorDiv(a: int, b: int): (q: int)
    requires b != 0
    ensures b > 0 ==> b * q <= a < b * q + b
    ensures b < 0 ==> b * q + b < a <= b * q
  {
    if b > 0 then a / b else (-a) / (-b)
  }

  /** A cell. `availableSolutions` is the candidate list the solver
      manages (the solver is not part of the modelled code); `qx`, `qy`
      are the block coordinates and `qindex` the flattened block id. */
  datatype Cell = Cell(
    x: int,
    y: int,
    value: int,
    availableSolutions: seq<int>,
    qx: int,
    qy: int,
    qindex: int)

  /** `Cell(x, y, value, sudoku_dimension)`; a zero dimension makes the
      floor divisions raise. */
  function NewCell(x: int, y: int, value: int, dimension: int): (r: Result<Cell>)
    ensures r.Err? <==> dimension == 0
    ensures r.Err? ==> r.error == ZeroDivision
    ensures r.Ok? ==> r.value.x == x && r.value.y == y && r.value.value == value
    ensures r.Ok? ==> r.value.availableSolutions == []
    ensures r.Ok? && dimension > 0 ==>
      r.value.qx * dimension <= x < r.value.qx * dimension + dimension &&
      r.value.qy * dimension <= y < r.value.qy * dimension + dimension
    ensures r.Ok? && dimension < 0 ==>
      r.value.qx * dimension + dimension < x <= r.value.qx * dimension &&
      r.value.qy * dimension + dimension < y <= r.value.qy * dimension
    ensures r.Ok? ==> r.value.qindex == r.value.qx + r.value.qy * dimension
  {
    if dimension == 0 then Err(ZeroDivision)
    else
      var qx := FloorDiv(x, dimension);
      var qy := FloorDiv(y, dimension);
      Ok(Cell(x, y, value, [], qx, qy, qx + qy * dimension))
  }

  /** The grid holds `d*d` blocks of `d*d` cells; block `b` covers columns
      `(b % d)*d ..` and rows `(b / d)*d ..`, `d` of each. */
  ghost predicate BlockContains(d: int, b: int, x: int, y: int)
    requires d > 0
  {
    0 <= b < d * d &&
    (b % d) * d <= x < (b % d) * d + d &&
    (b / d) * d <= y < (b / d) * d + d
  }

  /** A coordinate within `[0, d*d)` has a block coordinate within `[0, d)`. */
  lemma BlockCoordinateBound(d: int, x: int, q: int)
    requires d > 0 && 0 <= x < d * d
    requires q * d <= x < q * d + d
    ensures 0 <= q < d
  {
    if q >= d {
      MulMono(d, q, d);
    }
  }

  lemma MulMono(a: int, b: int, d: int)
    requires a <= b && d > 0
    ensures a * d <= b * d
  {
  }

  /** For block coordinates within `[0, d)` the flattened id lies in
      `[0, d*d)` and decodes back to them. */
  lemma {:induction false} BlockIndexDecodes(d: int, qx: int, qy: int)
    requires d > 0 && 0 <= qx < d && 0 <= qy < d
    ensures 0 <= qx + qy * d < d * d
    ensures (qx + qy * d) % d == qx && (qx + qy * d) / d == qy
  {
    var b := qx + qy * d;
    assert qy * d <= (d - 1) * d by { MulMono(qy, d - 1, d); }
    assert b / d == qy && b % d == qx by { DivModUnique(b, d, qy, qx); }
  }

  /** The quotient and remainder of Euclidean division are the only pair
      with a remainder in `[0, d)`. */
  lemma DivModUnique(b: int, d: int, q: int, r: int)
    requires d > 0 && 0 <= r < d && b == q * d + r
    ensures b / d == q && b % d == r
  {
    var q', r' := b / d, b % d;
    assert b == q' * d + r';
    if q' < q {
      MulMono(q' + 1, q, d);
      assert false;
    } else if q' > q {
      MulMono(q + 1, q', d);
      assert false;
    }
  }

  /** Two block coordinate pairs within `[0, d)` have the same flattened id
      exactly when they are equal. */
  lemma BlockIndexInjective(d: int, qx: int, qy: int, px: int, py: int)
    requires d > 0 && 0 <= qx < d && 0 <= qy < d && 0 <= px < d && 0 <= py < d
    ensures qx + qy * d == px + py * d <==> qx == px && qy == py
  {
    BlockIndexDecodes(d, qx, qy);
    BlockIndexDecodes(d, px, py);
  }

  /** A cell built at a grid coordinate gets block coordinates within
      `[0, d)`, and a block id within `[0, d*d)` naming the one block whose
      region holds the cell. */
  lemma {:induction false} CellBlock(x: int, y: int, v: int, d: int)
    requires d > 0 && 0 <= x < d * d && 0 <= y < d * d
    ensures NewCell(x, y, v, d).Ok?
    ensures var c := NewCell(x, y, v, d).value;
      0 <= c.qx < d && 0 <= c.qy < d && 0 <= c.qindex < d * d &&
      c.qindex % d == c.qx && c.qindex / d == c.qy &&
      BlockContains(d, c.qindex, x, y) &&
      forall b :: BlockContains(d, b, x, y) ==> b == c.qindex
  {
    var c := NewCell(x, y, v, d).value;
    BlockCoordinateBound(d, x, c.qx);
    BlockCoordinateBound(d, y, c.qy);
    BlockIndexDecodes(d, c.qx, c.qy);
    forall b | BlockContains(d, b, x, y) ensures b == c.qindex {
      BlockCoordinateUnique(d, x, b % d, c.qx);
      BlockCoordinateUnique(d, y, b / d, c.qy);
      assert b == b % d + (b / d) * d;
    }
  }

  lemma BlockCoordinateUnique(d: int, x: int, p: int, q: int)
    requires d > 0
    requires p * d <= x < p * d + d && q * d <= x < q * d + d
    ensures p == q
  {
    if p < q { MulMono(p + 1, q, d); }
    if q < p { MulMono(q + 1, p, d); }
  }

  /** Two cells built at grid coordinates share a block id exactly when
      they share both block coordinates, that is when they lie in the same
      `d`-by-`d` block. */
  lemma SameBlockIff(c1: Cell, c2: Cell, d: int)
    requires d > 0
    requires 0 <= c1.x < d * d && 0 <= c1.y < d * d
    requires 0 <= c2.x < d * d && 0 <= c2.y < d * d
    requires NewCell(c1.x, c1.y, c1.value, d) == Ok(c1)
    requires NewCell(c2.x, c2.y, c2.value, d) == Ok(c2)
    ensures c1.qindex == c2.qindex <==> c1.qx == c2.qx && c1.qy == c2.qy
    ensures c1.qindex == c2.qindex <==> BlockContains(d, c1.qindex, c2.x, c2.y)
  {
    CellBlock(c1.x, c1.y, c1.value, d);
    CellBlock(c2.x, c2.y, c2.value, d);
    BlockIndexInjective(d, c1.qx, c1.qy, c2.qx, c2.qy);
  }
}
