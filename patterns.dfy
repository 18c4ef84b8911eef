/** What the generated grids hold, mode by mode and layout by layout, stated
    in terms of the grid indices alone, and which calls fail. */
module Patterns {
  import opened Slices
  import opened Fields

  /** The calls that succeed: the halo assertion holds, no dimension is
      negative, the mode is one of the four names, and a random block fits its
      slice, which it does exactly when the halo is not negative. */
  predicate Accepted(a: Args, mode: string)
  {
    HaloAsserted(a) && Sized(a) && ParseMode(mode).Some? &&
    (ParseMode(mode) == Some(Random) ==> a.numHalo >= 0)
  }

  /** A non-negative halo that passes the assertion, on a grid of some depth:
      the setting in which the halo interval means what its name says. */
  predicate HaloFits(a: Args)
  {
    0 <= a.numHalo && HaloAsserted(a) && a.nz >= 0
  }

  /** The halo interval [h, n - h) of a non-depth axis. */
  predicate Interior(h: int, n: int, x: int)
  {
    h <= x < n - h
  }

  /** Every second index from h below n / 2 - h: the rows or columns of a bar pattern. */
  predicate Bar(h: int, n: int, x: int)
  {
    h <= x < n / 2 - h && (x - h) % 2 == 0
  }

  /** The middle half [n/2 - n/4, n/2 + n/4) of an axis: the sides of the square. */
  predicate Middle(n: int, x: int)
  {
    n / 2 - n / 4 <= x < n / 2 + n / 4
  }

  function Indicator(b: bool): real
  {
    if b then 1.0 else 0.0
  }

  /** The slice of the halo interval: length n - 2h, each index at its offset from h. */
  lemma InteriorSlice(h: int, n: nat, x: int)
    requires 0 <= h && h < n / 2
    ensures Count(Range(h, n - h, 1), n) == n - 2 * h
    ensures Selects(Range(h, n - h, 1), n, x) <==> Interior(h, n, x)
    ensures Pos(Range(h, n - h, 1), n, x) == x - h
  {
    RangeSelects(h, n - h, 1, n, x);
  }

  /** With a negative halo the slice h : n - h wraps round to the last -h
      indices, fewer than the n - 2h rows of the random block. */
  lemma {:induction false} WrappedSliceTooShort(h: int, n: nat)
    requires h < 0
    ensures Count(Range(h, n - h, 1), n) < n - 2 * h
    ensures n - 2 * h != 1
  {
    var s := Range(h, n - h, 1);
    assert Hi(s, n) == n;
    assert Lo(s, n) >= n + h;
  }

  /** The random block fits its slice exactly when the halo is not negative. */
  lemma {:induction false} RandomBroadcasts(a: Args)
    requires HaloAsserted(a) && Sized(a)
    ensures var (s0, s1, s2) := Region(Random, a);
            var (l0, l1, l2) := Shape(a);
            Broadcasts(RhsOf(Random, a, (p, q, r) => 0.0), Count(s0, l0), Count(s1, l1), Count(s2, l2))
            <==> a.numHalo >= 0
  {
    var h := a.numHalo;
    var (s0, s1, s2) := Region(Random, a);
    var (l0, l1, l2) := Shape(a);
    if h >= 0 {
      InteriorSlice(h, a.nx, 0);
      InteriorSlice(h, a.ny, 0);
      assert Count(s0, l0) == BlockShape(a).0;
      assert Count(s1, l1) == BlockShape(a).1;
      assert Count(s2, l2) == BlockShape(a).2;
    } else {
      WrappedSliceTooShort(h, a.ny);
      assert !Fits(BlockShape(a).1, Count(s1, l1));
    }
  }

  /** Which error a call raises: the assertion first, then a negative dimension,
      then an unknown mode, then (random only) a negative halo. */
  lemma {:induction false} CheckOutcome(a: Args, mode: string)
    ensures Check(a, mode) == Some(HaloTooLarge) <==> !HaloAsserted(a)
    ensures Check(a, mode) == Some(NegativeDimension) <==> HaloAsserted(a) && !Sized(a)
    ensures Check(a, mode) == Some(WrongMode) <==> HaloAsserted(a) && Sized(a) && ParseMode(mode).None?
    ensures Check(a, mode) == Some(ShapeMismatch) <==>
      HaloAsserted(a) && Sized(a) && ParseMode(mode) == Some(Random) && a.numHalo < 0
    ensures Check(a, mode).None? <==> Accepted(a, mode)
  {
    if HaloAsserted(a) && Sized(a) && ParseMode(mode) == Some(Random) {
      RandomBroadcasts(a);
    }
  }

  /** Depth-last horizontal bars: every second row of the lower half of Y
      within the halo, across the interior of X, at every depth; nothing else.
      Once NY / 2 - h <= h the slice is empty and the grid all zero. */
  lemma HorizontalBarsDepthLast(a: Args, draw: Draw, k: int, j: int, i: int)
    requires HaloFits(a) && !a.ifirst && InGrid(a, k, j, i)
    ensures Value(HorizontalBars, a, draw, k, j, i) == Indicator(Bar(a.numHalo, a.ny, j) && Interior(a.numHalo, a.nx, i))
    ensures a.ny / 2 - a.numHalo <= a.numHalo ==> Value(HorizontalBars, a, draw, k, j, i) == 0.0
  {
    RangeSelects(a.numHalo, a.ny / 2 - a.numHalo, 2, a.ny, j);
    RangeSelects(a.numHalo, a.nx - a.numHalo, 1, a.nx, i);
  }

  /** Depth-last vertical bars: the same with the roles of Y and X exchanged. */
  lemma VerticalBarsDepthLast(a: Args, draw: Draw, k: int, j: int, i: int)
    requires HaloFits(a) && !a.ifirst && InGrid(a, k, j, i)
    ensures Value(VerticalBars, a, draw, k, j, i) == Indicator(Interior(a.numHalo, a.ny, j) && Bar(a.numHalo, a.nx, i))
    ensures a.nx / 2 - a.numHalo <= a.numHalo ==> Value(VerticalBars, a, draw, k, j, i) == 0.0
  {
    RangeSelects(a.numHalo, a.ny - a.numHalo, 1, a.ny, j);
    RangeSelects(a.numHalo, a.nx / 2 - a.numHalo, 2, a.nx, i);
  }

  /** Depth-first horizontal bars put the stride on axis 0, X: every second
      index of the lower half of X, across the interior of Y. */
  lemma HorizontalBarsDepthFirst(a: Args, draw: Draw, i: int, j: int, k: int)
    requires HaloFits(a) && a.ifirst && InGrid(a, i, j, k)
    ensures Value(HorizontalBars, a, draw, i, j, k) == Indicator(Bar(a.numHalo, a.nx, i) && Interior(a.numHalo, a.ny, j))
  {
    RangeSelects(a.numHalo, a.nx / 2 - a.numHalo, 2, a.nx, i);
    RangeSelects(a.numHalo, a.ny - a.numHalo, 1, a.ny, j);
  }

  /** Depth-first vertical bars put the stride on axis 1, Y. */
  lemma VerticalBarsDepthFirst(a: Args, draw: Draw, i: int, j: int, k: int)
    requires HaloFits(a) && a.ifirst && InGrid(a, i, j, k)
    ensures Value(VerticalBars, a, draw, i, j, k) == Indicator(Interior(a.numHalo, a.nx, i) && Bar(a.numHalo, a.ny, j))
  {
    RangeSelects(a.numHalo, a.nx - a.numHalo, 1, a.nx, i);
    RangeSelects(a.numHalo, a.ny / 2 - a.numHalo, 2, a.ny, j);
  }

  /** The depth-first bars are the transposes of the depth-last bars of the
      OTHER orientation, for every halo: cell (i, j, k) of depth-first
      horizontal bars is cell (k, j, i) of depth-last vertical bars. */
  lemma BarsTransposeCrossed(nx: nat, ny: nat, nz: nat, h: int, draw: Draw, i: int, j: int, k: int)
    ensures Value(HorizontalBars, Args(nx, ny, nz, h, true), draw, i, j, k)
         == Value(VerticalBars, Args(nx, ny, nz, h, false), draw, k, j, i)
    ensures Value(VerticalBars, Args(nx, ny, nz, h, true), draw, i, j, k)
         == Value(HorizontalBars, Args(nx, ny, nz, h, false), draw, k, j, i)
  {
    var first, last := Args(nx, ny, nz, h, true), Args(nx, ny, nz, h, false);
    assert Shape(first) == (nx, ny, nz) && Shape(last) == (nz, ny, nx);
    var (f0, f1, f2) := Region(HorizontalBars, first);
    var (l0, l1, l2) := Region(VerticalBars, last);
    assert f0 == l2 && f1 == l1 && f2 == l0;
    var (g0, g1, g2) := Region(VerticalBars, first);
    var (m0, m1, m2) := Region(HorizontalBars, last);
    assert g0 == m2 && g1 == m1 && g2 == m0;
  }

  /** Depth-first horizontal bars are not the transpose of depth-last
      horizontal bars: on an 8 x 8 x 1 grid without halo, depth-last cell
      (0, 0, 1) is set while its transpose (1, 0, 0) in depth-first is not. */
  lemma HorizontalBarsNotTransposed(draw: Draw)
    ensures Value(HorizontalBars, Args(8, 8, 1, 0, false), draw, 0, 0, 1) == 1.0
    ensures Value(HorizontalBars, Args(8, 8, 1, 0, true), draw, 1, 0, 0) == 0.0
  {
    var last, first := Args(8, 8, 1, 0, false), Args(8, 8, 1, 0, true);
    assert HaloAsserted(last) && HaloAsserted(first);
    assert Shape(last) == (1, 8, 8) && Shape(first) == (8, 8, 1);
    assert Bar(0, 8, 0) && Interior(0, 8, 1);
    HorizontalBarsDepthLast(last, draw, 0, 0, 1);
    assert !Bar(0, 8, 1);
    HorizontalBarsDepthFirst(first, draw, 1, 0, 0);
  }

  /** The square ignores the halo: it covers the middle half of Y and of X at
      every depth, in both layouts. */
  lemma SquareCells(a: Args, draw: Draw, x: int, y: int, z: int)
    requires Sized(a) && InGrid(a, x, y, z)
    ensures !a.ifirst ==> Value(Square, a, draw, x, y, z) == Indicator(Middle(a.ny, y) && Middle(a.nx, z))
    ensures a.ifirst ==> Value(Square, a, draw, x, y, z) == Indicator(Middle(a.nx, x) && Middle(a.ny, y))
  {
    RangeSelects(a.ny / 2 - a.ny / 4, a.ny / 2 + a.ny / 4, 1, a.ny, y);
    if a.ifirst {
      RangeSelects(a.nx / 2 - a.nx / 4, a.nx / 2 + a.nx / 4, 1, a.nx, x);
    } else {
      RangeSelects(a.nx / 2 - a.nx / 4, a.nx / 2 + a.nx / 4, 1, a.nx, z);
    }
  }

  /** For 8 x 8 the sides of the square are the indices 2 to 5. */
  lemma SquareOfEight(x: int)
    ensures Middle(8, x) <==> 2 <= x < 6
  {
  }

  /** The two square layouts are transposes of each other, whatever the two halos. */
  lemma SquareTransposeAndHalo(nx: nat, ny: nat, nz: nat, h: int, h': int, draw: Draw, i: int, j: int, k: int)
    requires 0 <= i < nx && 0 <= j < ny && 0 <= k < nz
    ensures Value(Square, Args(nx, ny, nz, h, true), draw, i, j, k)
         == Value(Square, Args(nx, ny, nz, h', false), draw, k, j, i)
  {
    SquareCells(Args(nx, ny, nz, h, true), draw, i, j, k);
    SquareCells(Args(nx, ny, nz, h', false), draw, k, j, i);
  }

  /** Depth-last random mode writes 2 * tmp - 1 into the interior of Y and X,
      tmp being indexed from the corner of the interior, and leaves every halo
      cell 0. */
  lemma RandomDepthLast(a: Args, draw: Draw, k: int, j: int, i: int)
    requires HaloFits(a) && !a.ifirst && InGrid(a, k, j, i)
    ensures Value(Random, a, draw, k, j, i) ==
      if Interior(a.numHalo, a.ny, j) && Interior(a.numHalo, a.nx, i)
      then 2.0 * draw(k, j - a.numHalo, i - a.numHalo) - 1.0 else 0.0
  {
    InteriorSlice(a.numHalo, a.ny, j);
    InteriorSlice(a.numHalo, a.nx, i);
  }

  /** Depth-first random mode: the interior is on axes 0 and 1, and tmp is
      indexed [i - h, j - h, k]. */
  lemma RandomDepthFirst(a: Args, draw: Draw, i: int, j: int, k: int)
    requires HaloFits(a) && a.ifirst && InGrid(a, i, j, k)
    ensures Value(Random, a, draw, i, j, k) ==
      if Interior(a.numHalo, a.nx, i) && Interior(a.numHalo, a.ny, j)
      then 2.0 * draw(i - a.numHalo, j - a.numHalo, k) - 1.0 else 0.0
  {
    InteriorSlice(a.numHalo, a.nx, i);
    InteriorSlice(a.numHalo, a.ny, j);
  }

  /** Draws uniform in [0, 1) give values in [-1, 1) (that the halo stays 0 is
      RandomDepthLast and RandomDepthFirst). */
  lemma RandomRange(a: Args, draw: Draw, x: int, y: int, z: int)
    requires HaloFits(a) && InGrid(a, x, y, z)
    requires forall p, q, r :: 0.0 <= draw(p, q, r) < 1.0
    ensures -1.0 <= Value(Random, a, draw, x, y, z) < 1.0
  {
    if a.ifirst {
      RandomDepthFirst(a, draw, x, y, z);
    } else {
      RandomDepthLast(a, draw, x, y, z);
    }
  }

  /** The three deterministic patterns only ever write 1 into a zero grid, and
      do not depend on the random source. */
  lemma PatternIsBinary(m: Mode, a: Args, draw: Draw, draw': Draw, x: int, y: int, z: int)
    requires m != Random && Sized(a)
    ensures Value(m, a, draw, x, y, z) == 0.0 || Value(m, a, draw, x, y, z) == 1.0
    ensures Value(m, a, draw', x, y, z) == Value(m, a, draw, x, y, z)
  {
  }
}
