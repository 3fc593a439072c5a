# Curvature-constrained cubic splines: basis, evaluator and energy model

This project models the numerical core of the CCS (curvature-constrained
splines) fitting code in `ccs/spline_functions.py`. It uses exact `real`
arithmetic throughout.

- **Basis constructor** (`spline_construction`). A uniform grid has `cols`
  knots, `dx` apart. The constructor builds four `(cols-1) x cols` matrices
  C, D, B and A. Row `k` describes the segment that ends at knot `k+1`.
  Column `j` is the unknown curvature at knot `j`. For a curvature vector
  `theta`, segment `k` at offset `delta <= 0` from its right knot is
  `(A[k] + B[k] delta + C[k] delta^2/2 + D[k] delta^3/6) . theta`.
  Module `SplineBasis` follows the numpy steps one by one: diagonal fill,
  roll, masks, row deletion, zero row and scaling. It also gives each matrix
  a closed form, proves that the two agree, and proves what the closed forms
  mean:
  - the segments join with equal value, slope and curvature at every
    interior knot;
  - the unknowns are the curvatures at the knots;
  - the spline and its slope vanish at the outer cutoff.
- **Evaluator** (`spline_eval012`). It resolves the segment that holds a
  distance `r` and returns the value, slope and curvature cubics there.
  Module `SplineEval` models it exactly as written. It also models a
  corrected variant (see Findings).
- **Energy model** (`spline_energy_model`). For each configuration it keeps
  the pair distances inside `[Rmin, Rcut]`. It adds each distance's segment
  row into one row of the design matrix `v`. Module `EnergyModel` models
  this as a fold, including Python's negative indexing, and proves that a
  row:
  - is additive over the distances;
  - does not depend on their order;
  - is zero when no distance is in the window.
- **Pair entity** (`Twobody.__init__` / `get_v`). It derives `dx`, `cols`
  and the `linspace` knot grid, then builds the basis and `v`. Module
  `PairPotential` proves that on such a grid every basis and knot lookup is
  in range, so `v` exists whenever `Dismat` holds `Nconfigs`
  configurations. It also proves that distances on a knot or on a cutoff
  contribute exactly what the basis says. For `Rmin < r <= Rcut` it proves
  that the corrected evaluator's value is the energy model's term dotted
  with the curvatures. At `r = Rmin` the two differ: the evaluator reads
  segment 0, while the energy model's index 0 wraps to the zero row.

Shared vocabulary lives in `Numeric`: results, vectors, matrices, sums, inner
products, the exact ceiling and Python's index wrap.

## Model

| member | source | states |
|---|---|---|
| `SplineBasis.SplineConstruction` | ccs/spline_functions.py:12-57 | `spline_construction` returns four `rows x cols` matrices whose every entry has its closed form: C from `CCoef`, D from `DCoef/dx`, B from `BCoef*dx`, A from `ACoef*dx*dx`. |
| `SplineBasis.ConstructionIsClosedForm` | ccs/spline_functions.py:23-55 | The numpy steps (diagonal fill and roll, masks, division, row deletion, zero row, scaling) produce exactly those closed forms, entry by entry. |
| `SplineBasis.CEntries` | ccs/spline_functions.py:23-25 | The diagonal fill followed by the roll gives a plain super-diagonal: `C[k][j] = 1` exactly when `j = k+1`, and 0 otherwise. Nothing wraps, because rows < cols. |
| `SplineBasis.DEntries` | ccs/spline_functions.py:27-31 | Row `k` of D is `-1/dx` at column `k`, `+1/dx` at column `k+1`, and 0 elsewhere. |
| `SplineBasis.DRowsSumToZero` | ccs/spline_functions.py:27-31 | Every row of D sums to zero. |
| `SplineBasis.BEntries` | ccs/spline_functions.py:33-40 | After the row shift and scaling, `B[k][j]` is `-dx/2` at column `k+1` and in the last column, `-dx` strictly between those, and 0 to the left. The last row is all zero. |
| `SplineBasis.AEntries` | ccs/spline_functions.py:42-55 | After the row shift and scaling, `A[k][j]` is `dx^2/6` at column `k+1`, `dx^2 (j-k-1)` strictly between, `dx^2 (1/3 + (rows-2-k)/2)` in the last column, and 0 to the left. The last row is all zero. |
| `SplineBasis.ShiftedAEntries` | ccs/spline_functions.py:42-54 | The nested descending loops, followed by the row deletion and the zero row, leave the unscaled closed form of A. |
| `SplineBasis.LastColumnTmpClosedForm` | ccs/spline_functions.py:43-46 | The running `tmp` written into the last column of row `row` equals `1/3 + (rows-1-row)/2`. |
| `SplineBasis.SegmentsJoin` | ccs/spline_functions.py:12-57 | For any basis with the closed-form entries, segment `k` at its right knot (offset 0) and segment `k+1` at its left knot (offset `-dx`) agree in value, slope and curvature, column by column. |
| `SplineBasis.SegmentRowsJoin` | ccs/spline_functions.py:12-57 | The same join, stated for whole design rows: row `k` at offset 0 equals row `k+1` at offset `-dx`. |
| `SplineBasis.ConstructionRowsJoin` | ccs/spline_functions.py:12-57 | The join holds for the matrices `spline_construction` actually builds. |
| `SplineBasis.ClosedFormsJoin` | ccs/spline_functions.py:12-57 | The join follows from the closed-form entries of two neighbouring rows alone. |
| `SplineBasis.CoefficientsJoin` | ccs/spline_functions.py:23-55 | The unscaled closed forms of rows `k` and `k+1` satisfy the Taylor identities of a C2 join. |
| `SplineBasis.CurvatureAtKnots` | ccs/spline_functions.py:23-31 | Segment `k`'s curvature is the unknown of knot `k+1` at its right end and that of knot `k` at its left end. |
| `SplineBasis.VanishesAtCutoff` | ccs/spline_functions.py:38-55 | The last rows of A and B are zero. So at the outer cutoff the spline value and slope are 0 for every curvature vector. |
| `SplineBasis.AtRightKnot` | ccs/spline_functions.py:126-130 | At offset 0 a segment's value, slope and curvature are its A, B and C entries. |
| `SplineEval.SegmentIndex` | ccs/spline_functions.py:80-83 | At `r = Rmin` the index is 1. Otherwise it is the ceiling of `(r - Rmin)/dx`, the integer `n` with `n-1 < (r-Rmin)/dx <= n`. It is at least 1 exactly when `r >= Rmin`. |
| `SplineEval.Eval012` | ccs/spline_functions.py:60-94 | The evaluator fails with the `r < Rmin` ValueError exactly when `r < Rmin`. It returns a result exactly when `r >= Rmin` and every lookup is in range; otherwise it is an IndexError. |
| `SplineEval.EvalIsCubic` | ccs/spline_functions.py:86-90 | The three results are cubics in `dr = r - x[index]`: value `a + b dr + c/2 dr^2 + d/3 dr^3` (as written), slope `b + c dr + d/2 dr^2`, curvature `c + d dr`. |
| `SplineEval.EvalAtRightKnot` | ccs/spline_functions.py:86-92 | At a segment's right knot (`dr = 0`) the evaluator returns `(a[k], b[k], c[k])` unchanged. |
| `SplineEval.HornerValue` | ccs/spline_functions.py:87-89 | The nested (Horner) forms of the value and slope terms equal their monomial cubics. |
| `SplineEval.CurvatureIsSlopeDerivative` | ccs/spline_functions.py:89-90 | The curvature cubic is the derivative of the slope cubic. |
| `SplineEval.WrittenSlopeIsDerivativeOnlyWithoutCubic` | ccs/spline_functions.py:87-89 | As written, the slope cubic is the derivative of the value cubic if and only if `d = 0`. |
| `SplineEval.WrittenValueCounterexample` | ccs/spline_functions.py:87-89 | Concrete input: one segment on [0, 1] with `d = 1`, `r = 0.5`. It gives value `-1/24`, but the returned slope `1/8` is the derivative of `-1/48`. |
| `SplineEval.Eval012Corrected` | ccs/spline_functions.py:60-94 | The corrected evaluator keeps every failure case of the original, and its slope and curvature. Only the value term differs. |
| `SplineEval.CorrectedSlopeIsDerivative` | ccs/spline_functions.py:87-89 | With the weight `d/6`, the slope cubic is the derivative of the value cubic for every coefficient set. |
| `SplineEval.CorrectedValueIsDesignRow` | ccs/spline_functions.py:126-130 | Suppose the coefficients come from a curvature vector through the basis (`a[k] = A[k] . theta`, and so on). Then the corrected value at `r` equals the design row of the segment the evaluator picks (`index-1`, at offset `r - x[index]`), dotted with `theta`. For `Rmin < r <= Rcut` that is the energy model's term (`PairPotential.CorrectedValueIsContribution`); at `r = Rmin` it is not (`PairPotential.InnerCutoffDisagrees`). |
| `SplineEval.CorrectedValueAt` | ccs/spline_functions.py:86-88 | The corrected value is segment `index-1`'s value cubic at the offset from knot `index`. |
| `SplineEval.DesignRowAt` | ccs/spline_functions.py:126-130 | A segment's value cubic in the dotted rows `A[k].theta`, ... equals its design row dotted with `theta`. |
| `EnergyModel.Filter` | ccs/spline_functions.py:118 | The kept distances all lie in `[Rmin, Rcut]`. No value is kept more often than it occurs, and every in-window value is kept as often as it occurs, repeats included. |
| `EnergyModel.FilterKeepsEveryCopy` | ccs/spline_functions.py:118 | The count of each value among the kept distances is its count in the configuration when it lies in `[Rmin, Rcut]`, and zero otherwise. |
| `EnergyModel.Contribution` | ccs/spline_functions.py:121-130 | A distance's term exists exactly when both Python lookups, `x[index]` and row `index-1`, are in range (negative indices wrap). It then has length `cols`. |
| `EnergyModel.Combine` | ccs/spline_functions.py:130 | `u + term` succeeds exactly when both parts do. It keeps the row length, and each entry is the sum of the two entries. |
| `EnergyModel.KnotIndex` | ccs/spline_functions.py:121 | The energy model's index is the exact ceiling of `(r - Rmin)/dx`, with no special case at `Rmin`. |
| `EnergyModel.Accumulate` | ccs/spline_functions.py:119-130 | Accumulating from the zero row gives a row of length `cols`. It succeeds exactly when every distance's term exists. |
| `EnergyModel.EnergyRow` | ccs/spline_functions.py:117-132 | A configuration's row has length `cols`. It succeeds exactly when every in-window distance has a term. |
| `EnergyModel.SplineEnergyModel` | ccs/spline_functions.py:97-134 | `v` is a `size x cols` matrix. Row `c` is configuration `c`'s filtered and accumulated row. It fails exactly when a configuration is missing or a lookup fails. |
| `EnergyModel.EnergyRowLoop` | ccs/spline_functions.py:117-132 | The filter loop followed by the accumulation loop computes the configuration's row. An out-of-range lookup aborts the row. |
| `EnergyModel.AccumulateAbsorbsFailure` | ccs/spline_functions.py:120-130 | Once a lookup fails for one distance, the whole row fails. |
| `EnergyModel.CombineCommutes` | ccs/spline_functions.py:130 | Adding terms is commutative. |
| `EnergyModel.CombineAssociates` | ccs/spline_functions.py:130 | Adding terms is associative. |
| `EnergyModel.CombineZero` | ccs/spline_functions.py:119 | The initial zero row is neutral. |
| `EnergyModel.AccumulateAppend` | ccs/spline_functions.py:119-130 | Accumulating two lists one after the other adds their partial sums. |
| `EnergyModel.FilterAppend` | ccs/spline_functions.py:118 | Filtering distributes over concatenation. |
| `EnergyModel.EnergyRowAdditive` | ccs/spline_functions.py:118-132 | The row of two distance lists together is the sum of their rows. It fails exactly when one of them fails. |
| `EnergyModel.EnergyRowSingle` | ccs/spline_functions.py:118-130 | One distance contributes its term when it is in the window, and the zero row otherwise. |
| `EnergyModel.OutOfWindowIgnored` | ccs/spline_functions.py:118 | Inserting a distance outside `[Rmin, Rcut]` anywhere leaves the row unchanged. |
| `EnergyModel.EmptyWindowGivesZeroRow` | ccs/spline_functions.py:115-132 | A configuration with no distance in the window gets the all-zero row of length `cols`. |
| `EnergyModel.EnergyRowPermutation` | ccs/spline_functions.py:118-132 | Any rearrangement of a configuration's distances gives the same row. |
| `PairPotential.Linspace` | ccs/spline_functions.py:206-209 | `linspace(start, stop, num)` has `num` entries; the first is `start` and, with two or more, the last is `stop`. |
| `PairPotential.LinspaceIsUniform` | ccs/spline_functions.py:206-209 | `linspace(Rmin, Rcut, cols)` starts at `Rmin` and ends at `Rcut`. Every knot is `Rmin + i dx`, and the knots increase strictly. |
| `PairPotential.NewTwobody` | ccs/spline_functions.py:178-222 | The constructor stores `name`, `Dismat`, `Nconfigs`, `Nknots` and the cutoffs as given, and gives `dx = (Rcut-Rmin)/Nknots > 0`, `cols = Nknots+1`, and a uniform knot grid from `Rmin` to `Rcut`. The stored basis is `spline_construction(cols-1, cols, dx)`, so every entry has its closed form. `v` is an `Nconfigs x cols` matrix whose rows are the configurations' energy rows. It fails exactly when `Dismat` has fewer than `Nconfigs` configurations. |
| `PairPotential.SegmentResolution` | ccs/spline_functions.py:121-128 | On the derived grid, a distance with `Rmin < r <= Rcut` gets an index in `[1, cols-1]`. Its offset lies in `(-dx, 0]`, and its term is segment `index-1`'s row at that offset. |
| `PairPotential.IndexInRange` | ccs/spline_functions.py:121 | A distance in `(Rmin, Rcut]` has a segment index in `[1, cols-1]`. |
| `PairPotential.OffsetInSegment` | ccs/spline_functions.py:123 | A distance whose knot position has ceiling `k` lies less than one interval to the left of knot `k`. |
| `PairPotential.InnerCutoffAddsNothing` | ccs/spline_functions.py:121-130 | A distance exactly at `Rmin` gets index 0, which Python reads as the last (zero) row at offset 0. It is counted but adds the zero row. |
| `PairPotential.OuterCutoffAddsNothing` | ccs/spline_functions.py:121-130 | A distance exactly at `Rcut` resolves to the last segment at offset 0, whose A row is zero. It adds the zero row. |
| `PairPotential.OuterCutoffIsLastKnot` | ccs/spline_functions.py:121-123 | `Rcut` resolves to the last knot, and that knot is `Rcut`. |
| `PairPotential.LastRowAtZeroIsZero` | ccs/spline_functions.py:53-55 | The last segment's row at offset 0 is the zero row. |
| `PairPotential.KnotDistanceEitherSegment` | ccs/spline_functions.py:121-130 | A distance on interior knot `i` resolves to segment `i-1` at offset 0. Segment `i` at offset `-dx` has the same row, so the choice made on a knot does not change `v`. |
| `PairPotential.InteriorKnot` | ccs/spline_functions.py:121 | Interior knot `i` lies strictly inside the window and resolves to index `i`. |
| `PairPotential.InWindowResolves` | ccs/spline_functions.py:118-128 | On the derived grid, every in-window distance has a term. |
| `PairPotential.AccumulateSucceeds` | ccs/spline_functions.py:119-130 | Accumulating in-window distances on the derived grid never fails. |
| `PairPotential.EnergyRowSucceeds` | ccs/spline_functions.py:117-132 | On the derived grid no row of `v` fails. |
| `PairPotential.GetVSucceeds` | ccs/spline_functions.py:214-222 | `get_v` on the derived grid returns the full matrix whenever `Dismat` holds `Nconfigs` configurations. |
| `PairPotential.ContributionIsSegmentCubic` | ccs/spline_functions.py:121-130 | On the derived grid, for `Rmin < r <= Rcut`, a distance's term dotted with a curvature vector is the value cubic (third derivative weighted `1/6`) of its segment, whose coefficients are the dotted basis rows, at the offset from the segment's right knot. |
| `PairPotential.CorrectedValueIsContribution` | ccs/spline_functions.py:80-90 | On the derived grid, for `Rmin < r <= Rcut` and coefficients fitted through the basis, the corrected evaluator succeeds and its value equals the energy model's term for `r` dotted with the curvatures. |
| `PairPotential.InnerCutoffDisagrees` | ccs/spline_functions.py:80-81 | At `r = Rmin` the evaluator takes index 1 and reads segment 0 at offset `-dx`, whose first entry is `dx^2/6 > 0`. The energy model takes index 0 there and adds the zero row. |
| `PairPotential.WorkedExample` | ccs/spline_functions.py:178-222 | Four intervals on [2, 6] and one configuration with a pair at 3.5 give `v = [[0, 1/48, 25/48, 3/2, 13/12]]`. |
| `PairPotential.ExampleRow` | ccs/spline_functions.py:12-57 | Segment 1 of the four-interval basis with `dx = 1`, at offset `-1/2`, is `[0, 1/48, 25/48, 3/2, 13/12]`. |
| `Numeric.Ceil` | ccs/spline_functions.py:83 | `np.ceil` over exact reals: the least integer not below `t`. |
| `Numeric.WrapIndex` | ccs/spline_functions.py:123-129 | Python indexing: a lookup succeeds exactly for `-n <= i < n`. Negative indices count from the back. |

## Left out

- `write_splinecoeffs` and `write_error`: file output and text formatting only.
- The `print` in `spline_eval012` and every `logger.debug` call: side effects only.
- IEEE-754 floating point: everything is exact `real`. In particular, the `np.around(..., decimals=5)` before the ceiling in `spline_energy_model` is not modelled. The index is the exact ceiling of `(r - Rmin)/dx`. On an interior knot the rounding is harmless: `PairPotential.KnotDistanceEitherSegment` shows that either neighbouring segment gives the same row there. Just above the inner cutoff it is not. For `r` in `(Rmin, Rmin + 5e-6*dx)` the source rounds `(r - Rmin)/dx` to `0`, so its index 0 wraps to the zero last rows of `A` and `B`, and it adds (nearly) the zero row. The model's index there is 1, and it adds segment 0's row at an offset of about `-dx`, whose first entry is about `dx^2/6`. This near-`Rmin` behaviour of the source is not modelled.
- numpy and pandas representation: `np.roll`, `np.delete`, `vstack` and the `Dismat` dataframe are modelled only by their resulting values, as sequences. NaN entries of a dataframe are not modelled.
- The `name`, `Nswitch` and `Rmin=None` defaults of `Twobody`: they do not reach the computation. With `Rmin=None` the source fails on the subtraction, which is outside the model. The unused `scipy.linalg` import is not modelled either.
- The `Rcut` parameter of `spline_eval012` is accepted and ignored, as in the source.
- `SplineBasis.SplineConstruction`: requires `rows >= 1`, `cols == rows + 1` and `dx != 0`. Both callers pass `rows = cols - 1`. With `rows = 0` the row deletion fails on an empty matrix. Other shapes, and the infinities numpy produces for `dx = 0`, are not modelled.
- `SplineEval.Eval012`: requires `dx > 0`. A zero spacing divides by zero in the source. A negative one is never produced by `Twobody`.
- `PairPotential.NewTwobody`: requires `Rmin < Rcut` and `Nknots >= 1`. The source checks neither; with other values the grid degenerates.
- `EnergyModel.SplineEnergyModel`: requires `cols >= 2` and `dx > 0`. That is what its only caller, `Twobody`, passes (:204-205) under its own preconditions. With `cols = 1` the row deletion in `spline_construction` fails. The source also runs with a negative `dx`: the index goes non-positive and the lookups wrap. That case is not modelled.
- `SplineEval.CorrectedValueIsDesignRow`: ties the value to the segment the evaluator picks. At `r = Rmin` that is not the segment the energy model uses, so the agreement with `v` is stated only for `Rmin < r <= Rcut`, in `PairPotential.CorrectedValueIsContribution`.
- The `indices` list of `spline_energy_model` (:116, :122): it is appended to and never read, so it has no effect on `v`.

## Findings

| source | as written | input that shows it | evidently intended | confidence | as-written member | corrected member |
|---|---|---|---|---|---|---|
| ccs/spline_functions.py:87-88 | The value term uses `d*dr/3.0` inside `0.5*c + ...`. This gives the cubic coefficient `d/3`, while the slope term (`0.5*d*dr^2`, :89) and the energy model (`D*delta^3/6`, :128) treat `d` as the third derivative. | `a = b = c = [0]`, `d = [1]`, `x = [0, 1]`, `Rmin = 0`, `dx = 1`, `r = 0.5`: the value is `-1/24`, but the returned slope `1/8` is the derivative of `-1/48`. | `d*dr/6.0`, so that the value's derivative is the returned slope and, for `Rmin < r <= Rcut`, the value equals the energy model's term for `r` dotted with the fitted curvatures. | medium, not executed | `SplineEval.WrittenValueCounterexample` | `SplineEval.Eval012Corrected` |
