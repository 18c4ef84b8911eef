/** The field generator of the stencil exercise: `initialize_fields` allocates
    a zeroed 3-D grid, writes one of four patterns into a sub-region of it by
    NumPy slice assignment, and returns the grid together with an independent
    copy. The grid is laid out depth-last, [k, j, i] (shape [NZ, NY, NX]), or
    depth-first, [i, j, k] (shape [NX, NY, NZ]).

    Floating-point values are modelled as reals. The random generator is an
    opaque `Draw`: Draw(p, q, r) is the uniform sample tmp[p, q, r] of the block
    `initialize_fields` draws, and the value written is 2 * tmp - 1. Python's `//` by 2
    and by 4 is Dafny's `/` (the two agree for a positive divisor). */
module Fields {
  import opened Slices

  datatype Option<T> = None | Some(value: T)

  datatype Result<T, E> = Success(value: T) | Failure(error: E)

  /** The four patterns. */
  datatype Mode = Random | HorizontalBars | VerticalBars | Square

  /** The ways a call fails; on failure no grid is returned. */
  datatype Error =
    | HaloTooLarge       // the assertion on num_halo fails
    | NegativeDimension  // np.zeros refuses a negative dimension
    | WrongMode          // the mode string is none of the four names
    | ShapeMismatch      // the random block cannot be broadcast onto its slice

  /** The sizes, halo and layout of a call. */
  datatype Args = Args(nx: int, ny: int, nz: int, numHalo: int, ifirst: bool)

  /** The uniform samples tmp[p, q, r] that the random mode draws. */
  type Draw = (int, int, int) -> real

  /** The value assigned to a slice: a scalar broadcast to every selected cell,
      or a block of the given shape indexed by position within the slice. */
  datatype Rhs = Scalar(v: real) | Block(shape: (int, int, int), at: (int, int, int) -> real)

  /** The pair of grids a successful call returns. */
  datatype Grids = Grids(inField: array3<real>, outField: array3<real>)

  function ModeName(m: Mode): string
  {
    match m
    case Random => "random"
    case HorizontalBars => "horizontal-bars"
    case VerticalBars => "vertical-bars"
    case Square => "square"
  }

  /** The if/elif dispatch on the mode string; any other string is no mode. */
  function ParseMode(s: string): (r: Option<Mode>)
    ensures r.Some? ==> ModeName(r.value) == s
    ensures r.None? ==> forall m: Mode :: ModeName(m) != s
  {
    if s == "random" then Some(Random)
    else if s == "horizontal-bars" then Some(HorizontalBars)
    else if s == "vertical-bars" then Some(VerticalBars)
    else if s == "square" then Some(Square)
    else None
  }

  lemma ParseModeName(m: Mode)
    ensures ParseMode(ModeName(m)) == Some(m)
  {
  }

  /** The halo assertion at the entry of `initialize_fields`. */
  predicate HaloAsserted(a: Args)
  {
    a.numHalo < a.nx / 2 && a.numHalo < a.ny / 2
  }

  /** No dimension is negative. */
  predicate Sized(a: Args)
  {
    a.nx >= 0 && a.ny >= 0 && a.nz >= 0
  }

  /** The shape passed to np.zeros: the three sizes in some order, Y always in
      the middle and the depth axis last when ifirst holds, first otherwise. */
  function Shape(a: Args): (r: (int, int, int))
    ensures multiset{r.0, r.1, r.2} == multiset{a.nx, a.ny, a.nz}
    ensures r.1 == a.ny
    ensures (if a.ifirst then r.2 else r.0) == a.nz
  {
    if a.ifirst then (a.nx, a.ny, a.nz) else (a.nz, a.ny, a.nx)
  }

  /** The index expression on the left of each slice assignment. Every axis has
      a positive step, the depth axis is taken whole, and only the bar modes
      stride, by 2 along one axis. */
  function Region(m: Mode, a: Args): (r: (Slice, Slice, Slice))
    ensures WellFormedRegion(r)
    ensures (if a.ifirst then r.2 else r.0) == Full
    ensures Step(r.0) * Step(r.1) * Step(r.2) == if m.HorizontalBars? || m.VerticalBars? then 2 else 1
  {
    var nx, ny, h := a.nx, a.ny, a.numHalo;
    if !a.ifirst then
      match m
      case Random => (Full, Range(h, ny - h, 1), Range(h, nx - h, 1))
      case HorizontalBars => (Full, Range(h, ny / 2 - h, 2), Range(h, nx - h, 1))
      case VerticalBars => (Full, Range(h, ny - h, 1), Range(h, nx / 2 - h, 2))
      case Square => (Full, Range(ny / 2 - ny / 4, ny / 2 + ny / 4, 1), Range(nx / 2 - nx / 4, nx / 2 + nx / 4, 1))
    else
      match m
      case Random => (Range(h, nx - h, 1), Range(h, ny - h, 1), Full)
      case HorizontalBars => (Range(h, nx / 2 - h, 2), Range(h, ny - h, 1), Full)
      case VerticalBars => (Range(h, nx - h, 1), Range(h, ny / 2 - h, 2), Full)
      case Square => (Range(nx / 2 - nx / 4, nx / 2 + nx / 4, 1), Range(ny / 2 - ny / 4, ny / 2 + ny / 4, 1), Full)
  }

  /** The shape of the random block `tmp`: the grid's shape less the halo at
      both ends of the two horizontal axes, the depth axis whole. */
  function BlockShape(a: Args): (r: (int, int, int))
    ensures var (l0, l1, l2) := Shape(a); var h := a.numHalo;
      if a.ifirst then r == (l0 - 2 * h, l1 - 2 * h, l2) else r == (l0, l1 - 2 * h, l2 - 2 * h)
  {
    var h := a.numHalo;
    if a.ifirst then (a.nx - 2 * h, a.ny - 2 * h, a.nz) else (a.nz, a.ny - 2 * h, a.nx - 2 * h)
  }

  /** The value on the right of the slice assignment: the scalar 1 for the
      deterministic patterns, a block of BlockShape for random mode whose
      entries lie in [-1, 1) when the draws lie in [0, 1). */
  function RhsOf(m: Mode, a: Args, draw: Draw): (r: Rhs)
    ensures r.Scalar? <==> m != Random
    ensures r.Scalar? ==> r.v == 1.0
    ensures r.Block? ==> r.shape == BlockShape(a)
    ensures r.Block? && (forall p, q, t :: 0.0 <= draw(p, q, t) < 1.0) ==>
      forall p, q, t :: -1.0 <= r.at(p, q, t) < 1.0
  {
    if m == Random then Block(BlockShape(a), (p, q, r) => 2.0 * draw(p, q, r) - 1.0)
    else Scalar(1.0)
  }

  /** NumPy broadcasting of one block dimension onto a slice of length c: when
      it fits, every position of the slice reads an entry inside the block. */
  predicate Fits(d: int, c: int)
    ensures Fits(d, c) ==> forall p :: 0 <= p < c ==> 0 <= Along(d, p) < d
  {
    d == c || d == 1
  }

  /** A scalar broadcasts onto any slice, and a block onto a slice of its own
      shape; a block dimension that is neither the slice length nor 1 does not. */
  predicate Broadcasts(rhs: Rhs, c0: int, c1: int, c2: int)
    ensures rhs.Scalar? ==> Broadcasts(rhs, c0, c1, c2)
    ensures rhs.Block? && rhs.shape == (c0, c1, c2) ==> Broadcasts(rhs, c0, c1, c2)
    ensures rhs.Block? && rhs.shape.0 != c0 && rhs.shape.0 != 1 ==> !Broadcasts(rhs, c0, c1, c2)
    ensures rhs.Block? && rhs.shape.1 != c1 && rhs.shape.1 != 1 ==> !Broadcasts(rhs, c0, c1, c2)
    ensures rhs.Block? && rhs.shape.2 != c2 && rhs.shape.2 != 1 ==> !Broadcasts(rhs, c0, c1, c2)
  {
    rhs.Scalar? || (Fits(rhs.shape.0, c0) && Fits(rhs.shape.1, c1) && Fits(rhs.shape.2, c2))
  }

  /** Index into a block dimension of size d for position p (a size-1 dimension is stretched). */
  function Along(d: int, p: int): int
  {
    if d == 1 then 0 else p
  }

  /** The value assigned to the cell at positions (p0, p1, p2) of the slice: a
      scalar everywhere, a block entry at the same positions unless a dimension
      of size 1 is stretched. */
  function RhsAt(rhs: Rhs, p0: int, p1: int, p2: int): (r: real)
    ensures rhs.Scalar? ==> r == rhs.v
    ensures rhs.Block? && rhs.shape.0 != 1 && rhs.shape.1 != 1 && rhs.shape.2 != 1 ==>
      r == rhs.at(p0, p1, p2)
    ensures rhs.Block? && rhs.shape == (1, 1, 1) ==> r == rhs.at(0, 0, 0)
  {
    match rhs
    case Scalar(v) => v
    case Block(d, at) => at(Along(d.0, p0), Along(d.1, p1), Along(d.2, p2))
  }

  predicate WellFormedRegion(r: (Slice, Slice, Slice))
  {
    WellFormed(r.0) && WellFormed(r.1) && WellFormed(r.2)
  }

  /** The error a call raises, if any, in the order `initialize_fields` meets them. */
  function Check(a: Args, mode: string): (r: Option<Error>)
    ensures r.None? ==> HaloAsserted(a)
    ensures r.None? ==> ParseMode(mode).Some? && Sized(a)
  {
    if !HaloAsserted(a) then Some(HaloTooLarge)
    else if !Sized(a) then Some(NegativeDimension)
    else match ParseMode(mode)
      case None => Some(WrongMode)
      case Some(m) =>
        var (s0, s1, s2) := Region(m, a);
        var (l0, l1, l2) := Shape(a);
        if Broadcasts(RhsOf(m, a, (p, q, r) => 0.0), Count(s0, l0), Count(s1, l1), Count(s2, l2)) then None
        else Some(ShapeMismatch)
  }

  /** Whether (x, y, z) indexes a cell of the grid. */
  predicate InGrid(a: Args, x: int, y: int, z: int)
  {
    0 <= x < Shape(a).0 && 0 <= y < Shape(a).1 && 0 <= z < Shape(a).2
  }

  /** The value of cell (x, y, z) of the generated grid: the right-hand side at
      the cell's slice positions when the slice selects it, 0 otherwise. */
  function Value(m: Mode, a: Args, draw: Draw, x: int, y: int, z: int): (r: real)
    requires Sized(a)
    ensures r != 0.0 ==> InGrid(a, x, y, z)
    ensures r != 0.0 ==>
      Selects(Region(m, a).0, Shape(a).0, x) && Selects(Region(m, a).1, Shape(a).1, y) &&
      Selects(Region(m, a).2, Shape(a).2, z)
  {
    var (s0, s1, s2) := Region(m, a);
    var l0: nat, l1: nat, l2: nat := Shape(a).0, Shape(a).1, Shape(a).2;
    if Selects(s0, l0, x) && Selects(s1, l1, y) && Selects(s2, l2, z)
    then RhsAt(RhsOf(m, a, draw), Pos(s0, l0, x), Pos(s1, l1, y), Pos(s2, l2, z))
    else 0.0
  }

  /** Grid g has the shape and the cells of a successful call. */
  ghost predicate Generated(g: array3<real>, m: Mode, a: Args, draw: Draw)
    requires Sized(a)
    reads g
  {
    (g.Length0, g.Length1, g.Length2) == Shape(a) &&
    forall x, y, z :: 0 <= x < g.Length0 && 0 <= y < g.Length1 && 0 <= z < g.Length2 ==>
      g[x, y, z] == Value(m, a, draw, x, y, z)
  }

  /** initialize_fields: on success, a fresh grid holding the pattern and a
      second fresh grid, not aliased to the first, holding the same cells. */
  method InitializeFields(nx: int, ny: int, nz: int, mode: string, numHalo: int, ifirst: bool, draw: Draw)
    returns (r: Result<Grids, Error>)
    ensures r.Failure? <==> Check(Args(nx, ny, nz, numHalo, ifirst), mode).Some?
    ensures r.Failure? ==> Check(Args(nx, ny, nz, numHalo, ifirst), mode) == Some(r.error)
    ensures r.Success? ==>
      var a, m := Args(nx, ny, nz, numHalo, ifirst), ParseMode(mode).value;
      var g, o := r.value.inField, r.value.outField;
      fresh(g) && fresh(o) && g != o &&
      Check(a, mode).None? && Generated(g, m, a, draw) && Generated(o, m, a, draw)
  {
    var a := Args(nx, ny, nz, numHalo, ifirst);
    if !HaloAsserted(a) {
      return Failure(HaloTooLarge);
    }
    var (l0, l1, l2) := Shape(a);
    if l0 < 0 || l1 < 0 || l2 < 0 {
      return Failure(NegativeDimension);
    }
    var inField := new real[l0, l1, l2]((x, y, z) => 0.0);
    var m := ParseMode(mode);
    if m.None? {
      return Failure(WrongMode);
    }
    var (s0, s1, s2) := Region(m.value, a);
    var rhs := RhsOf(m.value, a, draw);
    if !Broadcasts(rhs, Count(s0, l0), Count(s1, l1), Count(s2, l2)) {
      assert Check(a, mode) == Some(ShapeMismatch);
      return Failure(ShapeMismatch);
    }
    assert Check(a, mode).None?;
    FillRegion(inField, s0, s1, s2, rhs);
    var outField := CopyGrid(inField);
    return Success(Grids(inField, outField));
  }

  /** Slice assignment `g[s0, s1, s2] = rhs`: each selected cell receives the
      right-hand side at its positions, every other cell keeps its value. */
  method FillRegion(g: array3<real>, s0: Slice, s1: Slice, s2: Slice, rhs: Rhs)
    requires WellFormed(s0) && WellFormed(s1) && WellFormed(s2)
    modifies g
    ensures forall x, y, z :: 0 <= x < g.Length0 && 0 <= y < g.Length1 && 0 <= z < g.Length2 ==>
      g[x, y, z] ==
        if Selects(s0, g.Length0, x) && Selects(s1, g.Length1, y) && Selects(s2, g.Length2, z)
        then RhsAt(rhs, Pos(s0, g.Length0, x), Pos(s1, g.Length1, y), Pos(s2, g.Length2, z))
        else old(g[x, y, z])
  {
    var n := g.Length0;
    var p := 0;
    while p < Count(s0, n)
      invariant 0 <= p <= Count(s0, n)
      invariant forall x, y, z :: 0 <= x < n && 0 <= y < g.Length1 && 0 <= z < g.Length2 ==>
        g[x, y, z] ==
          if Selects(s0, n, x) && Pos(s0, n, x) < p && Selects(s1, g.Length1, y) && Selects(s2, g.Length2, z)
          then RhsAt(rhs, Pos(s0, n, x), Pos(s1, g.Length1, y), Pos(s2, g.Length2, z))
          else old(g[x, y, z])
    {
      var x := Nth(s0, n, p);
      NthSelects(s0, n, p);
      forall x' | Selects(s0, n, x') && Pos(s0, n, x') == p
        ensures x' == x
      {
        PosNth(s0, n, x');
      }
      FillPlane(g, x, p, s1, s2, rhs);
      p := p + 1;
    }
    forall x | Selects(s0, n, x)
      ensures Pos(s0, n, x) < Count(s0, n)
    {
      PosNth(s0, n, x);
    }
  }

  /** `g[x, s1, s2] = rhs` at position p0 of the first axis. */
  method FillPlane(g: array3<real>, x: int, p0: int, s1: Slice, s2: Slice, rhs: Rhs)
    requires 0 <= x < g.Length0
    requires WellFormed(s1) && WellFormed(s2)
    modifies g
    ensures forall x', y, z :: 0 <= x' < g.Length0 && 0 <= y < g.Length1 && 0 <= z < g.Length2 ==>
      g[x', y, z] ==
        if x' == x && Selects(s1, g.Length1, y) && Selects(s2, g.Length2, z)
        then RhsAt(rhs, p0, Pos(s1, g.Length1, y), Pos(s2, g.Length2, z))
        else old(g[x', y, z])
  {
    var n := g.Length1;
    var p := 0;
    while p < Count(s1, n)
      invariant 0 <= p <= Count(s1, n)
      invariant forall x', y, z :: 0 <= x' < g.Length0 && 0 <= y < n && 0 <= z < g.Length2 ==>
        g[x', y, z] ==
          if x' == x && Selects(s1, n, y) && Pos(s1, n, y) < p && Selects(s2, g.Length2, z)
          then RhsAt(rhs, p0, Pos(s1, n, y), Pos(s2, g.Length2, z))
          else old(g[x', y, z])
    {
      var y := Nth(s1, n, p);
      NthSelects(s1, n, p);
      forall y' | Selects(s1, n, y') && Pos(s1, n, y') == p
        ensures y' == y
      {
        PosNth(s1, n, y');
      }
      FillRow(g, x, y, p0, p, s2, rhs);
      p := p + 1;
    }
    forall y | Selects(s1, n, y)
      ensures Pos(s1, n, y) < Count(s1, n)
    {
      PosNth(s1, n, y);
    }
  }

  /** `g[x, y, s2] = rhs` at positions p0, p1 of the first two axes. */
  method FillRow(g: array3<real>, x: int, y: int, p0: int, p1: int, s2: Slice, rhs: Rhs)
    requires 0 <= x < g.Length0 && 0 <= y < g.Length1
    requires WellFormed(s2)
    modifies g
    ensures forall x', y', z :: 0 <= x' < g.Length0 && 0 <= y' < g.Length1 && 0 <= z < g.Length2 ==>
      g[x', y', z] ==
        if x' == x && y' == y && Selects(s2, g.Length2, z)
        then RhsAt(rhs, p0, p1, Pos(s2, g.Length2, z))
        else old(g[x', y', z])
  {
    var n := g.Length2;
    var p := 0;
    while p < Count(s2, n)
      invariant 0 <= p <= Count(s2, n)
      invariant forall x', y', z :: 0 <= x' < g.Length0 && 0 <= y' < g.Length1 && 0 <= z < n ==>
        g[x', y', z] ==
          if x' == x && y' == y && Selects(s2, n, z) && Pos(s2, n, z) < p
          then RhsAt(rhs, p0, p1, Pos(s2, n, z))
          else old(g[x', y', z])
    {
      var z := Nth(s2, n, p);
      NthSelects(s2, n, p);
      forall z' | Selects(s2, n, z') && Pos(s2, n, z') == p
        ensures z' == z
      {
        PosNth(s2, n, z');
      }
      g[x, y, z] := RhsAt(rhs, p0, p1, p);
      p := p + 1;
    }
    forall z | Selects(s2, n, z)
      ensures Pos(s2, n, z) < Count(s2, n)
    {
      PosNth(s2, n, z);
    }
  }

  /** np.copy: a fresh grid with the same shape and cells. */
  method CopyGrid(g: array3<real>) returns (c: array3<real>)
    ensures fresh(c)
    ensures (c.Length0, c.Length1, c.Length2) == (g.Length0, g.Length1, g.Length2)
    ensures forall x, y, z :: 0 <= x < g.Length0 && 0 <= y < g.Length1 && 0 <= z < g.Length2 ==>
      c[x, y, z] == g[x, y, z]
  {
    c := new real[g.Length0, g.Length1, g.Length2](
      (x, y, z) reads g requires 0 <= x < g.Length0 && 0 <= y < g.Length1 && 0 <= z < g.Length2 => g[x, y, z]);
  }
}
