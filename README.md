# Field generator of the high-level stencil programming project

This project models `initialize_fields`, the routine that builds the synthetic
3-D test fields for the stencil exercises of the 2023 high-level programming
project. Given the grid sizes `NX`, `NY`, `NZ`, a pattern `mode`, a halo width
`num_halo` and the axis layout `ifirst`, it:

- asserts `num_halo < NX // 2 and num_halo < NY // 2`;
- allocates a zero grid of shape `[NZ, NY, NX]` (depth-last, `[k, j, i]`) or
  `[NX, NY, NZ]` (depth-first, `[i, j, k]`);
- writes one pattern by a single NumPy slice assignment: uniform random values
  in the interior (`"random"`), every second row or column of the lower half
  (`"horizontal-bars"`, `"vertical-bars"`), or a centred block covering the
  middle half of Y and X (`"square"`); any other mode raises `ValueError`;
- returns the grid and an independent copy of it.

Files:

- `slices.dfy`, module `Slices`: Python basic slicing `start:stop:step` along
  one axis (positive step): negative bounds count from the end, bounds are
  clamped to the axis, the selected indices are `lo, lo + step, ...` below
  `hi`, and a selected index has a position in the slice. Empty slices
  (stop not after start) select nothing. The closed forms used by the loops
  (length, p-th index, membership) are proved equal to the stepwise
  enumeration of the slice.
- `fields.dfy`, module `Fields`: the generator itself. `InitializeFields`
  checks the halo, allocates a fresh zero-initialised `array3<real>`, dispatches
  on the mode string, performs the slice assignment with three nested strided
  loops (`FillRegion`, `FillPlane`, `FillRow`) and copies the grid
  (`CopyGrid`). Its postcondition ties every cell of both grids to the
  specification function `Value`, and the error to `Check`.
- `patterns.dfy`, module `Patterns`: what `Value` and `Check` mean in terms
  of grid indices: which calls fail, and for each mode and layout exactly
  which cells hold 1 (or a random value) and which stay 0.

Modelling choices:

- Integer arguments are unbounded integers of either sign, as in Python. A
  negative `num_halo` passes the assertion whenever NX and NY are
  non-negative; in the bar modes its slices then wrap round Python-style
  (modelled by `Slices.Bound`), and in random mode the
  random block, of `NY - 2*num_halo` rows, no longer fits the wrapped slice, so
  NumPy's broadcasting raises `ValueError` (`ShapeMismatch`). A negative
  dimension makes `np.zeros` raise `ValueError` (`NegativeDimension`).
- Errors are met in the order the code meets them: assertion, allocation,
  mode dispatch, broadcasting. The grid is allocated before the mode is
  checked, as in the code; a failed call returns no grids either way.
- Grid cells are reals. The random source is a parameter `draw`:
  `draw(p, q, r)` is the sample `tmp[p, q, r]` of the block the code draws, and
  the cell receives `2 * tmp - 1`.
- Python's `//` by 2 and by 4 is Dafny's `/`; the two agree because the
  divisor is positive.
- The halo is meant to be non-negative, but the code does not check it, so
  the model follows the code, and the per-mode lemmas that speak of the
  halo interval assume `numHalo >= 0` (random mode guarantees it on success,
  `Patterns.CheckOutcome`).
- The specification function `Fields.Value` takes the parsed mode and the
  numeric arguments; `InitializeFields` links it to the mode string through
  `Fields.ParseMode`.

## Model

| member | source | states |
|---|---|---|
| `Slices.Bound` | projects/2023/project12_highlevel_programming/common.py:25 | a slice bound lands in [0, n]: a bound already in range is kept, any bound past the end becomes n, a negative bound -n <= x < 0 becomes n + x, and one below -n becomes 0 |
| `Slices.Count` | projects/2023/project12_highlevel_programming/common.py:23-48 | the length of a slice never exceeds the axis, and is 0 exactly when the normalised bounds enclose no index |
| `Slices.Selects` | projects/2023/project12_highlevel_programming/common.py:23-48 | an index a slice selects lies inside the axis, and a slice that selects an index is not empty |
| `Slices.Pos` | projects/2023/project12_highlevel_programming/common.py:23-48 | a selected index has a position below the slice length, and the index at that position is the index itself |
| `Slices.NthSelects` | projects/2023/project12_highlevel_programming/common.py:25 | the p-th index of a slice, for p below the slice length, is in bounds, is selected, and has position p |
| `Slices.PosNth` | projects/2023/project12_highlevel_programming/common.py:25 | every selected index is in bounds, has a position below the slice length, and is the index at that position |
| `Slices.VisitsClosedForm` | projects/2023/project12_highlevel_programming/common.py:25 | the stepwise enumeration lo, lo + step, ... below hi has (hi - lo - 1) // step + 1 elements when lo < hi and none otherwise, the p-th being lo + p * step |
| `Slices.SliceVisits` | projects/2023/project12_highlevel_programming/common.py:27 | a slice visits exactly the indices it selects, as many as its length, the p-th at position p: the closed forms agree with the stepwise enumeration |
| `Slices.RangeSelects` | projects/2023/project12_highlevel_programming/common.py:27 | with non-negative bounds, `start:stop:step` selects exactly the in-bounds x with start <= x < stop and (x - start) divisible by step |
| `Slices.EmptyRange` | projects/2023/project12_highlevel_programming/common.py:43 | a slice with a non-negative stop not after its start has length 0 and selects no index |
| `Slices.FullSelects` | projects/2023/project12_highlevel_programming/common.py:23 | `:` selects every index of the axis, each at its own position |
| `Fields.ParseMode` | projects/2023/project12_highlevel_programming/common.py:20-32 | a recognised mode string is the name of the mode returned; an unrecognised one is the name of no mode |
| `Fields.ParseModeName` | projects/2023/project12_highlevel_programming/common.py:38-50 | each of the four mode names is recognised as its own mode |
| `Fields.Check` | projects/2023/project12_highlevel_programming/common.py:11-50 | a call that raises nothing passed the assertion (line 11), allocated its grid (lines 18, 36), has a recognised mode (lines 31-32, 49-50) and no negative dimension; which error is raised, in the code's order, is stated by `Patterns.CheckOutcome` |
| `Fields.Shape` | projects/2023/project12_highlevel_programming/common.py:17-36 | the grid shape is NX, NY, NZ in some order with NY in the middle, NZ first in the depth-last layout (line 18) and last in the depth-first layout (line 36) |
| `Fields.Region` | projects/2023/project12_highlevel_programming/common.py:23-48 | the eight index expressions: every step is positive, the depth axis is `:`, and the product of the steps is 2 in the bar modes (one axis strided by 2) and 1 otherwise |
| `Fields.BlockShape` | projects/2023/project12_highlevel_programming/common.py:21-39 | the random block is the grid's shape less 2 * num_halo on the two horizontal axes, the depth axis whole |
| `Fields.RhsOf` | projects/2023/project12_highlevel_programming/common.py:21-45 | the right-hand side is the scalar 1 exactly in the three deterministic modes; in random mode it is a block of BlockShape whose entries lie in [-1, 1) when the draws lie in [0, 1) |
| `Fields.Fits` | projects/2023/project12_highlevel_programming/common.py:23-41 | a block dimension that broadcasts onto a slice length reads, at every position of the slice, an entry inside the block |
| `Fields.Broadcasts` | projects/2023/project12_highlevel_programming/common.py:23-41 | a scalar broadcasts onto any slice and a block onto a slice of its own shape; a block dimension that is neither the slice length nor 1 does not broadcast |
| `Fields.RhsAt` | projects/2023/project12_highlevel_programming/common.py:23-41 | a scalar gives its value at every position; a block with no size-1 dimension gives its entry at the same positions, and a 1 x 1 x 1 block its single entry everywhere |
| `Fields.Value` | projects/2023/project12_highlevel_programming/common.py:17-50 | a cell that receives a non-zero value lies in the grid and is selected by the slice on all three axes: nothing outside the assigned region is written |
| `Fields.InitializeFields` | projects/2023/project12_highlevel_programming/common.py:5-54 | fails exactly when `Check` reports an error, with that error and no grids; otherwise returns two fresh, distinct grids of the layout's shape whose every cell is `Value` |
| `Fields.FillRegion` | projects/2023/project12_highlevel_programming/common.py:23 | slice assignment: each cell selected on all three axes receives the right-hand side at its slice positions; every other cell keeps its value |
| `Fields.FillPlane` | projects/2023/project12_highlevel_programming/common.py:41 | one index of the first axis: the selected cells of that plane receive the right-hand side, every other cell of the grid is unchanged |
| `Fields.FillRow` | projects/2023/project12_highlevel_programming/common.py:45 | one row: the selected cells of the row receive the right-hand side, every other cell of the grid is unchanged |
| `Fields.CopyGrid` | projects/2023/project12_highlevel_programming/common.py:52-54 | the copy is a fresh grid of the same shape with the same value in every cell |
| `Patterns.InteriorSlice` | projects/2023/project12_highlevel_programming/common.py:21-23 | for 0 <= h < n // 2 the slice h:n-h has length n - 2h, selects exactly [h, n - h) and puts x at position x - h |
| `Patterns.WrappedSliceTooShort` | projects/2023/project12_highlevel_programming/common.py:39-41 | for a negative halo the wrapped slice h:n-h is shorter than the n - 2h block and the block dimension is not 1, so it cannot be broadcast |
| `Patterns.RandomBroadcasts` | projects/2023/project12_highlevel_programming/common.py:21-23 | the random block of shape [NZ, NY - 2h, NX - 2h] fits the slice it is assigned to exactly when the halo is not negative |
| `Patterns.CheckOutcome` | projects/2023/project12_highlevel_programming/common.py:11-50 | the assertion fails exactly when num_halo >= NX//2 or num_halo >= NY//2; a negative dimension fails exactly when the assertion passed; an unknown mode fails exactly when both passed; random fails to broadcast exactly when all those passed and the halo is negative; the call succeeds exactly when none of these applies |
| `Patterns.HorizontalBarsDepthLast` | projects/2023/project12_highlevel_programming/common.py:24-25 | depth-last horizontal bars: cell (k, j, i) is 1 exactly when h <= j < NY//2 - h with j - h even and h <= i < NX - h, else 0; all 0 when NY//2 - h <= h |
| `Patterns.VerticalBarsDepthLast` | projects/2023/project12_highlevel_programming/common.py:26-27 | depth-last vertical bars: the same with Y and X exchanged; all 0 when NX//2 - h <= h |
| `Patterns.HorizontalBarsDepthFirst` | projects/2023/project12_highlevel_programming/common.py:42-43 | depth-first horizontal bars stride axis 0: cell (i, j, k) is 1 exactly when h <= i < NX//2 - h with i - h even and h <= j < NY - h |
| `Patterns.VerticalBarsDepthFirst` | projects/2023/project12_highlevel_programming/common.py:44-45 | depth-first vertical bars stride axis 1: cell (i, j, k) is 1 exactly when h <= i < NX - h and h <= j < NY//2 - h with j - h even |
| `Patterns.BarsTransposeCrossed` | projects/2023/project12_highlevel_programming/common.py:25-45 | for every halo, depth-first horizontal bars at (i, j, k) equal depth-last vertical bars at (k, j, i), and depth-first vertical equal depth-last horizontal |
| `Patterns.HorizontalBarsNotTransposed` | projects/2023/project12_highlevel_programming/common.py:25-43 | on an 8 x 8 x 1 grid depth-last horizontal bars set (0, 0, 1) while depth-first horizontal bars leave its transpose (1, 0, 0) at 0 |
| `Patterns.SquareCells` | projects/2023/project12_highlevel_programming/common.py:28-30 | square: a cell is 1 exactly when its Y and X indices both lie in [N//2 - N//4, N//2 + N//4), at every depth and in either layout (lines 46-48), whatever the halo |
| `Patterns.SquareOfEight` | projects/2023/project12_highlevel_programming/common.py:30 | for a side of 8 the middle half is the indices 2 to 5 |
| `Patterns.SquareTransposeAndHalo` | projects/2023/project12_highlevel_programming/common.py:46-48 | the depth-first square is the transpose of the depth-last square, for any two accepted halos |
| `Patterns.RandomDepthLast` | projects/2023/project12_highlevel_programming/common.py:20-23 | depth-last random: a cell with h <= j < NY - h and h <= i < NX - h receives 2*tmp - 1 with tmp indexed [k, j - h, i - h]; every halo cell is 0 |
| `Patterns.RandomDepthFirst` | projects/2023/project12_highlevel_programming/common.py:38-41 | depth-first random: a cell with h <= i < NX - h and h <= j < NY - h receives 2*tmp - 1 with tmp indexed [i - h, j - h, k]; every halo cell is 0 |
| `Patterns.RandomRange` | projects/2023/project12_highlevel_programming/common.py:21-23 | draws in [0, 1) give cells in [-1, 1) |
| `Patterns.PatternIsBinary` | projects/2023/project12_highlevel_programming/common.py:24-30 | the three deterministic patterns give only 0 or 1 in each cell, whatever the random source |

## Left out

- `plot_field` (lines 56-64): rendering through matplotlib, with no result to state.
- `array_to_gt_storage` (lines 66-81): a passthrough to the gt4py storage constructor, whose contract is not part of this model.
- The random generator (line 14): an unseeded NumPy generator. Its samples are the opaque parameter `draw`; their distribution is not modelled, only where they are written and, for samples in [0, 1), the range of the written values.
- Floating-point arithmetic: cells are reals, so the rounding of `2 * tmp - 1` is not modelled.
- The `order` and `dtype` parameters: the model is of a float32 or float64 `dtype` and an `order` of "C" or "F". Any other `dtype` makes `rng.random` raise TypeError in random mode (lines 21, 39), and `np.zeros` refuses any other `order` (lines 18, 36); neither error is in `Fields.Error`. Within those values they choose memory layout and element type, not which value each index holds.
- Patterns.HorizontalBarsDepthLast: stated for a non-negative halo only; with a negative halo the bar slices wrap round from the end of the axis, and the cells are those `Fields.Value` gives, without a closed form.
- Patterns.VerticalBarsDepthLast: likewise only for a non-negative halo.
- Patterns.HorizontalBarsDepthFirst: likewise only for a non-negative halo.
- Patterns.VerticalBarsDepthFirst: likewise only for a non-negative halo.
- Optimised Python (`python -O`) drops the assertion of line 11; the model always fails with `HaloTooLarge` when it does not hold.
- The default arguments `mode="random"`, `num_halo=0` and `ifirst=False` of line 5: every argument of `Fields.InitializeFields` is explicit.
- `ifirst`: modelled as a boolean; Python's comparison `ifirst == False` with a non-boolean argument is not modelled.
