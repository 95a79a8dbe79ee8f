/** `snapToGrid`: rounding a pending position to a grid, after dividing out
    the current scale. */
module Grid {
  import opened Numbers

  /** The scale argument: one number broadcast to both axes, or a pair. */
  datatype Scale = Uniform(factor: real) | PerAxis(x: real, y: real)
  {
    /** The scale along the horizontal axis. */
    function AxisX(): real
    {
      match this
      case Uniform(f) => f
      case PerAxis(sx, _) => sx
    }

    /** The scale along the vertical axis. */
    function AxisY(): real
    {
      match this
      case Uniform(f) => f
      case PerAxis(_, sy) => sy
    }

    /** Division by the scale is defined on both axes. */
    predicate NonZero() {
      AxisX() != 0.0 && AxisY() != 0.0
    }
  }

  /** The scale used when the caller passes none. */
  const DefaultScale: Scale := Uniform(1.0)

  /** Grid cell dimensions: `[cellWidth, cellHeight]`. */
  datatype Cell = Cell(width: real, height: real)

  /** One axis of the snap: `round(pending / scale / cell) * cell`. */
  function SnapAxis(pending: real, scale: real, cell: real): (r: real)
    requires scale != 0.0 && cell != 0.0
    // a whole number of grid cells
    ensures IsIntegral(r / cell)
    // within half a cell of the unscaled position, ties resolved upward in cell units
    ensures cell > 0.0 ==> pending / scale - cell / 2.0 < r <= pending / scale + cell / 2.0
    ensures cell < 0.0 ==> pending / scale + cell / 2.0 <= r < pending / scale - cell / 2.0
  {
    var k := Round(pending / scale / cell);
    HalfCellBound(pending / scale, cell, k as real);
    assert ((k as real) * cell) / cell == k as real;
    (k as real) * cell
  }

  /** From `q / cell - 1/2 < k <= q / cell + 1/2` to the distance between
      `k * cell` and `q`, for either sign of `cell`. */
  lemma HalfCellBound(q: real, cell: real, k: real)
    requires cell != 0.0
    requires q / cell - 0.5 < k <= q / cell + 0.5
    ensures cell > 0.0 ==> q - cell / 2.0 < k * cell <= q + cell / 2.0
    ensures cell < 0.0 ==> q + cell / 2.0 <= k * cell < q - cell / 2.0
  {
    if cell > 0.0 {
      BelowByLessThanHalf(q, cell, k);
      AboveByAtMostHalf(q, cell, k);
    } else {
      assert (-q) / (-cell) == q / cell;
      BelowByLessThanHalf(-q, -cell, k);
      AboveByAtMostHalf(-q, -cell, k);
      assert k * (-cell) == -(k * cell);
    }
  }

  /** A position less than half a cell below `k` cells is less than half a cell below `k * cell`. */
  lemma BelowByLessThanHalf(q: real, cell: real, k: real)
    requires cell > 0.0
    requires q / cell - 0.5 < k
    ensures q - cell / 2.0 < k * cell
  {
    var t := q / cell;
    assert (t - 0.5) * cell == q - cell / 2.0;
    ScaleStrict(t - 0.5, k, cell);
  }

  /** A position at most half a cell above `k` cells is at most half a cell above `k * cell`. */
  lemma AboveByAtMostHalf(q: real, cell: real, k: real)
    requires cell > 0.0
    requires k <= q / cell + 0.5
    ensures k * cell <= q + cell / 2.0
  {
    var t := q / cell;
    assert (t + 0.5) * cell == q + cell / 2.0;
    ScaleWeak(k, t + 0.5, cell);
  }

  /** Snaps `(pendingX, pendingY)` to the grid. The scale is divided out and
      not multiplied back in: the result is in unscaled grid units. */
  function SnapToGrid(grid: Cell, pendingX: real, pendingY: real, scale: Scale := DefaultScale): (r: (real, real))
    requires grid.width != 0.0 && grid.height != 0.0
    requires scale.NonZero()
    ensures IsIntegral(r.0 / grid.width) && IsIntegral(r.1 / grid.height)
    ensures grid.width > 0.0 ==>
      pendingX / scale.AxisX() - grid.width / 2.0 < r.0 <= pendingX / scale.AxisX() + grid.width / 2.0
    ensures grid.height > 0.0 ==>
      pendingY / scale.AxisY() - grid.height / 2.0 < r.1 <= pendingY / scale.AxisY() + grid.height / 2.0
    ensures grid.width < 0.0 ==>
      pendingX / scale.AxisX() + grid.width / 2.0 <= r.0 < pendingX / scale.AxisX() - grid.width / 2.0
    ensures grid.height < 0.0 ==>
      pendingY / scale.AxisY() + grid.height / 2.0 <= r.1 < pendingY / scale.AxisY() - grid.height / 2.0
  {
    (SnapAxis(pendingX, scale.AxisX(), grid.width),
     SnapAxis(pendingY, scale.AxisY(), grid.height))
  }

  /** No whole number of cells is nearer to the unscaled position than the
      snapped coordinate. */
  lemma SnapAxisIsNearestMultiple(pending: real, scale: real, cell: real, j: int)
    requires scale != 0.0 && cell != 0.0
    ensures Abs(SnapAxis(pending, scale, cell) - pending / scale)
         <= Abs((j as real) * cell - pending / scale)
  {
    var q := pending / scale;
    var t := q / cell;
    assert t * cell == q;
    assert SnapAxis(pending, scale, cell) == (Round(t) as real) * cell;
    RoundedIsNearestMultiple(t, cell, q, j);
  }

  /** With `q == t * cell`: no multiple of `cell` is nearer to `q` than
      `Round(t) * cell`. */
  lemma RoundedIsNearestMultiple(t: real, cell: real, q: real, j: int)
    requires t * cell == q
    ensures Abs((Round(t) as real) * cell - q) <= Abs((j as real) * cell - q)
  {
    var k: real := Round(t) as real;
    RoundIsNearest(t, j);
    NearerInCellsIsNearer(t, cell, q, k, j as real);
  }

  /** Scaling by `cell` preserves which of two points is nearer. */
  lemma NearerInCellsIsNearer(t: real, cell: real, q: real, x: real, y: real)
    requires t * cell == q
    requires Abs(x - t) <= Abs(y - t)
    ensures Abs(x * cell - q) <= Abs(y * cell - q)
  {
    var a := Abs(x - t);
    var b := Abs(y - t);
    var c := Abs(cell);
    DistanceInCells(t, cell, q, x);
    assert Abs(x * cell - q) == a * c;
    DistanceInCells(t, cell, q, y);
    assert Abs(y * cell - q) == b * c;
    ScaleWeak(a, b, c);
  }

  /** With `q == t * cell`, the distance from `x * cell` to `q` is the
      distance from `x` to `t`, measured in cells. */
  lemma DistanceInCells(t: real, cell: real, q: real, x: real)
    requires t * cell == q
    ensures Abs(x * cell - q) == Abs(x - t) * Abs(cell)
  {
    assert x * cell - q == (x - t) * cell;
    AbsMul(x - t, cell);
  }

  /** A single number scales both axes alike: it behaves as the pair `[s, s]`. */
  lemma UniformIsBroadcast(grid: Cell, pendingX: real, pendingY: real, s: real)
    requires grid.width != 0.0 && grid.height != 0.0 && s != 0.0
    ensures SnapToGrid(grid, pendingX, pendingY, Uniform(s))
         == SnapToGrid(grid, pendingX, pendingY, PerAxis(s, s))
  {
  }

  /** Each output coordinate depends only on its own axis's inputs. */
  lemma AxesIndependent(grid: Cell, pendingX: real, pendingY: real, scale: Scale,
                        pendingX': real, pendingY': real, scale': Scale)
    requires grid.width != 0.0 && grid.height != 0.0
    requires scale.NonZero() && scale'.NonZero()
    ensures pendingX == pendingX' && scale.AxisX() == scale'.AxisX() ==>
      SnapToGrid(grid, pendingX, pendingY, scale).0 == SnapToGrid(grid, pendingX', pendingY', scale').0
    ensures pendingY == pendingY' && scale.AxisY() == scale'.AxisY() ==>
      SnapToGrid(grid, pendingX, pendingY, scale).1 == SnapToGrid(grid, pendingX', pendingY', scale').1
  {
  }

  /** The scale is divided out and never multiplied back in: snapping at a
      scale is snapping the unscaled position at the default scale. */
  lemma ScaleIsDividedOut(grid: Cell, pendingX: real, pendingY: real, scale: Scale)
    requires grid.width != 0.0 && grid.height != 0.0
    requires scale.NonZero()
    ensures SnapToGrid(grid, pendingX, pendingY, scale)
         == SnapToGrid(grid, pendingX / scale.AxisX(), pendingY / scale.AxisY(), DefaultScale)
  {
    assert pendingX / scale.AxisX() / 1.0 == pendingX / scale.AxisX();
    assert pendingY / scale.AxisY() / 1.0 == pendingY / scale.AxisY();
  }

  /** Cells of 10: (23, 47) snaps to (20, 50); at scale 2 it snaps to
      (10, 20), not to the re-scaled (20, 40). */
  lemma SnapExamples()
    ensures SnapToGrid(Cell(10.0, 10.0), 23.0, 47.0) == (20.0, 50.0)
    ensures SnapToGrid(Cell(10.0, 10.0), 23.0, 47.0, Uniform(2.0)) == (10.0, 20.0)
  {
    assert Round(23.0 / 1.0 / 10.0) == 2;
    assert Round(47.0 / 1.0 / 10.0) == 5;
    assert Round(23.0 / 2.0 / 10.0) == 1;
    assert Round(47.0 / 2.0 / 10.0) == 2;
  }
}
