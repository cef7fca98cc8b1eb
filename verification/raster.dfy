/**
 The abstract picture a packed binary image stands for: a `width` by
 `height` grid of booleans, addressed by column `x` and row `y`. Every
 operation on the packed words is specified against this grid.
 */
module Raster {

  datatype Grid = Grid(width: nat, height: nat, cells: seq<seq<bool>>)

  /** `height` rows of `width` cells each. */
  predicate WellShaped(g: Grid) {
    && |g.cells| == g.height
    && forall y :: 0 <= y < g.height ==> |g.cells[y]| == g.width
  }

  /** (x, y) is a pixel of a `width` by `height` picture. */
  predicate InBounds(width: int, height: int, x: int, y: int) {
    0 <= x < width && 0 <= y < height
  }

  predicate SameShape(a: Grid, b: Grid) {
    a.width == b.width && a.height == b.height
  }

  /** (x, y) comes before (ex, ey) in a row-by-row scan. */
  predicate ScannedBefore(x: int, y: int, ex: int, ey: int) {
    y < ey || (y == ey && x < ex)
  }

  /** Scaling preserves order; used for row-major offsets `y * width + x`. */
  lemma MulLeq(a: int, b: int, c: nat)
    ensures a <= b ==> a * c <= b * c
  {
    if a <= b {
      assert (b - a) * c >= 0;
    }
  }

  /** The cell in column `x` of row `y`. */
  function At(g: Grid, x: int, y: int): bool
    requires WellShaped(g) && InBounds(g.width, g.height, x, y)
  {
    g.cells[y][x]
  }

  /** Two well-shaped grids of one shape that agree on every cell are equal. */
  lemma Extensionality(a: Grid, b: Grid)
    requires WellShaped(a) && WellShaped(b) && SameShape(a, b)
    requires forall x, y :: InBounds(a.width, a.height, x, y) ==> At(a, x, y) == At(b, x, y)
    ensures a == b
  {
    forall y | 0 <= y < a.height
      ensures a.cells[y] == b.cells[y]
    {
      forall x | 0 <= x < a.width
        ensures a.cells[y][x] == b.cells[y][x]
      {
        assert At(a, x, y) == At(b, x, y);
      }
    }
  }

  /** The grid with cell (x, y) replaced by `b`. */
  function Update(g: Grid, x: int, y: int, b: bool): (r: Grid)
    requires WellShaped(g) && InBounds(g.width, g.height, x, y)
    ensures WellShaped(r) && SameShape(r, g)
  {
    g.(cells := g.cells[y := g.cells[y][x := b]])
  }

  /** Cell-wise "in `a` and not in `b`". */
  function AndNot(a: Grid, b: Grid): (r: Grid)
    requires WellShaped(a) && WellShaped(b) && SameShape(a, b)
    ensures WellShaped(r) && SameShape(r, a)
  {
    Grid(a.width, a.height,
      seq(a.height, y requires 0 <= y < a.height =>
        seq(a.width, x requires 0 <= x < a.width => At(a, x, y) && !At(b, x, y))))
  }

  /** Cell-wise "in `a` or in `b`". */
  function Or(a: Grid, b: Grid): (r: Grid)
    requires WellShaped(a) && WellShaped(b) && SameShape(a, b)
    ensures WellShaped(r) && SameShape(r, a)
  {
    Grid(a.width, a.height,
      seq(a.height, y requires 0 <= y < a.height =>
        seq(a.width, x requires 0 <= x < a.width => At(a, x, y) || At(b, x, y))))
  }

  /** Every cell flipped. */
  function Not(g: Grid): (r: Grid)
    requires WellShaped(g)
    ensures WellShaped(r) && SameShape(r, g)
  {
    Grid(g.width, g.height,
      seq(g.height, y requires 0 <= y < g.height =>
        seq(g.width, x requires 0 <= x < g.width => !At(g, x, y))))
  }

  /** Every cell of `a` is a cell of `b`. */
  ghost predicate Subset(a: Grid, b: Grid)
    requires WellShaped(a) && WellShaped(b) && SameShape(a, b)
  {
    forall x, y :: InBounds(a.width, a.height, x, y) && At(a, x, y) ==> At(b, x, y)
  }
}
