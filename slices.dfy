/** Python's basic slicing along one axis of a NumPy array, for the positive
    steps the field generator uses: `:` selects the whole axis and
    `start:stop:step` selects start, start+step, ... below stop, after both
    bounds have been normalised (a negative bound counts from the end of the
    axis, then the bound is clamped to [0, n]). */
module Slices {

  /** One axis of an index expression. */
  datatype Slice = Full | Range(start: int, stop: int, step: int)

  /** Every slice the generator writes has a positive step. */
  predicate WellFormed(s: Slice)
  {
    s.Full? || s.step > 0
  }

  /** Normalisation of a slice bound on an axis of length n (positive step). */
  function Bound(x: int, n: nat): (r: nat)
    ensures r <= n
    ensures 0 <= x <= n ==> r == x
    ensures x > n ==> r == n
    ensures x < 0 && 0 <= n + x ==> r == n + x
    ensures n + x < 0 ==> r == 0
  {
    if x < 0 then (if x + n < 0 then 0 else x + n)
    else if x > n then n
    else x
  }

  /** First index the slice can select. */
  function Lo(s: Slice, n: nat): nat
  {
    match s
    case Full => 0
    case Range(start, _, _) => Bound(start, n)
  }

  /** Exclusive upper end of the selected indices. */
  function Hi(s: Slice, n: nat): (r: nat)
    ensures r <= n
  {
    match s
    case Full => n
    case Range(_, stop, _) => Bound(stop, n)
  }

  function Step(s: Slice): int
  {
    if s.Full? then 1 else s.step
  }

  /** Number of indices selected: the length of the slice. It never exceeds
      the axis, and an empty bound interval gives an empty slice. */
  function Count(s: Slice, n: nat): (r: nat)
    requires WellFormed(s)
    ensures r <= n
    ensures r == 0 <==> Hi(s, n) <= Lo(s, n)
  {
    if Hi(s, n) <= Lo(s, n) then 0
    else
      DivAtMost(Hi(s, n) - Lo(s, n) - 1, Step(s));
      (Hi(s, n) - Lo(s, n) - 1) / Step(s) + 1
  }

  /** The index at position p of the slice. */
  function Nth(s: Slice, n: nat, p: int): int
  {
    Lo(s, n) + p * Step(s)
  }

  /** Whether index x of an axis of length n is selected by the slice. */
  predicate Selects(s: Slice, n: nat, x: int)
    requires WellFormed(s)
    ensures Selects(s, n, x) ==> 0 <= x < n
    ensures Selects(s, n, x) ==> Count(s, n) > 0
  {
    Lo(s, n) <= x < Hi(s, n) && (x - Lo(s, n)) % Step(s) == 0
  }

  /** Position of a selected index within the slice; this is the index into the
      block of values assigned to the slice. */
  function Pos(s: Slice, n: nat, x: int): (r: int)
    requires WellFormed(s)
    ensures Selects(s, n, x) ==> 0 <= r < Count(s, n) && Nth(s, n, r) == x
  {
    if Selects(s, n, x) then
      DivMono(x - Lo(s, n), Hi(s, n) - Lo(s, n) - 1, Step(s));
      (x - Lo(s, n)) / Step(s)
    else (x - Lo(s, n)) / Step(s)
  }

  /** Every position below Count names a selected, in-bounds index, and Pos
      recovers the position from it. */
  lemma NthSelects(s: Slice, n: nat, p: int)
    requires WellFormed(s) && 0 <= p < Count(s, n)
    ensures 0 <= Nth(s, n, p) < n
    ensures Selects(s, n, Nth(s, n, p))
    ensures Pos(s, n, Nth(s, n, p)) == p
  {
    var lo, hi, st := Lo(s, n), Hi(s, n), Step(s);
    var q := (hi - lo - 1) / st;
    assert p <= q;
    assert q * st <= hi - lo - 1;
    MulMono(p, q, st);
    assert p * st <= hi - lo - 1;
    MulDivMod(p, st);
  }

  /** Every selected index lies at some position below Count, in bounds. */
  lemma PosNth(s: Slice, n: nat, x: int)
    requires WellFormed(s) && Selects(s, n, x)
    ensures 0 <= x < n
    ensures 0 <= Pos(s, n, x) < Count(s, n)
    ensures Nth(s, n, Pos(s, n, x)) == x
  {
    var lo, hi, st := Lo(s, n), Hi(s, n), Step(s);
    var d := x - lo;
    assert d == st * (d / st) + d % st;
    assert d / st <= (hi - lo - 1) / st by {
      DivMono(d, hi - lo - 1, st);
    }
  }

  /** The indices a slice visits, in order: lo, lo + step, ... while below hi,
      as `range(lo, hi, step)` enumerates them. */
  function Visits(lo: int, hi: int, step: int): seq<int>
    requires step > 0
    decreases hi - lo
  {
    if lo >= hi then [] else [lo] + Visits(lo + step, hi, step)
  }

  /** The enumeration has the closed-form length of Count, and its p-th element
      is lo + p * step. */
  lemma {:induction false} VisitsClosedForm(lo: int, hi: int, step: int)
    requires step > 0
    ensures |Visits(lo, hi, step)| == if hi <= lo then 0 else (hi - lo - 1) / step + 1
    ensures forall p :: 0 <= p < |Visits(lo, hi, step)| ==> Visits(lo, hi, step)[p] == lo + p * step
    decreases hi - lo
  {
    if lo < hi {
      var rest := Visits(lo + step, hi, step);
      VisitsClosedForm(lo + step, hi, step);
      if lo + step < hi {
        var a := hi - lo - step - 1;
        assert a == step * (a / step) + a % step;
        DivUnique(hi - lo - 1, step, a / step + 1, a % step);
      } else {
        DivUnique(hi - lo - 1, step, 0, hi - lo - 1);
      }
      forall p | 0 < p < |Visits(lo, hi, step)|
        ensures Visits(lo, hi, step)[p] == lo + p * step
      {
        assert Visits(lo, hi, step)[p] == rest[p - 1];
        assert (p - 1) * step + step == p * step;
      }
    }
  }

  /** A slice visits exactly its selected indices, Count of them, the p-th
      being Nth(p): the closed forms agree with the stepwise enumeration. */
  lemma SliceVisits(s: Slice, n: nat, x: int)
    requires WellFormed(s)
    ensures |Visits(Lo(s, n), Hi(s, n), Step(s))| == Count(s, n)
    ensures forall p :: 0 <= p < Count(s, n) ==> Visits(Lo(s, n), Hi(s, n), Step(s))[p] == Nth(s, n, p)
    ensures x in Visits(Lo(s, n), Hi(s, n), Step(s)) <==> Selects(s, n, x)
  {
    var v := Visits(Lo(s, n), Hi(s, n), Step(s));
    VisitsClosedForm(Lo(s, n), Hi(s, n), Step(s));
    if x in v {
      var p :| 0 <= p < |v| && v[p] == x;
      NthSelects(s, n, p);
    }
    if Selects(s, n, x) {
      PosNth(s, n, x);
      assert v[Pos(s, n, x)] == x;
    }
  }

  /** With non-negative bounds no wrap-around happens: the slice selects the
      indices of [start, stop) at multiples of step from start, within the axis. */
  lemma RangeSelects(start: int, stop: int, step: int, n: nat, x: int)
    requires 0 <= start && 0 <= stop && step > 0
    ensures Selects(Range(start, stop, step), n, x)
        <==> 0 <= x < n && start <= x < stop && (x - start) % step == 0
  {
    if start > n {
      assert Lo(Range(start, stop, step), n) == n;
    }
  }

  /** A slice whose stop is not after its start selects nothing. */
  lemma EmptyRange(start: int, stop: int, step: int, n: nat, x: int)
    requires 0 <= stop <= start && step > 0
    ensures Count(Range(start, stop, step), n) == 0
    ensures !Selects(Range(start, stop, step), n, x)
  {
  }

  /** The whole axis: every in-bounds index, at its own position. */
  lemma FullSelects(n: nat, x: int)
    ensures Selects(Full, n, x) <==> 0 <= x < n
    ensures Count(Full, n) == n
    ensures Pos(Full, n, x) == x
  {
  }

  lemma MulMono(a: int, b: int, c: int)
    requires 0 <= a <= b && 0 < c
    ensures a * c <= b * c
  {
  }

  lemma MulDivMod(a: int, c: int)
    requires 0 <= a && 0 < c
    ensures (a * c) % c == 0 && (a * c) / c == a
  {
    DivUnique(a * c, c, a, 0);
  }

  /** Euclidean division is determined by quotient and remainder. */
  lemma DivUnique(a: int, c: int, q: int, r: int)
    requires 0 < c && a == c * q + r && 0 <= r < c
    ensures a / c == q && a % c == r
  {
    var q', r' := a / c, a % c;
    assert a == c * q' + r';
    assert c * (q - q') == r' - r;
    if q - q' >= 1 {
      MulMono(1, q - q', c);
    } else if q - q' <= -1 {
      MulMono(1, q' - q, c);
    }
  }

  lemma DivAtMost(a: int, c: int)
    requires 0 <= a && 0 < c
    ensures 0 <= a / c <= a
  {
    DivMono(0, a, c);
    if a / c > 0 {
      MulMono(1, c, a / c);
    }
    assert a == c * (a / c) + a % c;
  }

  lemma DivMono(a: int, b: int, c: int)
    requires 0 <= a <= b && 0 < c
    ensures a / c <= b / c
  {
    if a / c > b / c {
      assert a == c * (a / c) + a % c && b == c * (b / c) + b % c;
      MulMono(b / c + 1, a / c, c);
    }
  }
}
