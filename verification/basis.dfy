/** The basis constructor of the curvature-constrained spline
    (`spline_construction`). For a uniform grid of `cols` knots and
    `rows = cols - 1` segments it builds four `rows x cols` matrices C, D, B
    and A. Row `k` belongs to the segment ending at knot `k + 1`; column `j`
    to the unknown curvature at knot `j`. For a curvature vector `theta`,
    segment `k` of the spline at offset `delta` from its right knot is
      (A[k] + B[k] delta + C[k] delta^2/2 + D[k] delta^3/6) . theta.

    The construction below follows the numpy steps (masks, roll, row drop,
    scaling); the closed forms of the entries are written separately, as
    reference definitions, and the lemmas prove that the two agree. */
module SplineBasis {
  import opened Numeric

  datatype Basis = Basis(c: Matrix, d: Matrix, b: Matrix, a: Matrix)

  /** All four matrices have shape `rows x cols`. */
  predicate Shaped(m: Basis, rows: nat, cols: nat) {
    && IsMatrix(m.c, rows, cols)
    && IsMatrix(m.d, rows, cols)
    && IsMatrix(m.b, rows, cols)
    && IsMatrix(m.a, rows, cols)
  }

  // ---------------------------------------------------------------------
  // The numpy steps
  // ---------------------------------------------------------------------

  /** `np.fill_diagonal(zeros((rows, cols)), 1, wrap=True)` on a matrix with
      fewer rows than columns: the wrap never fires, so ones sit on the main
      diagonal only. */
  function FilledDiagonal(rows: nat, cols: nat): Matrix {
    seq(rows, i => seq(cols, j => if i == j then 1.0 else 0.0))
  }

  /** `np.roll(m, 1, axis=1)`: every row rotated one place to the right,
      its last entry moving to the front. */
  function RollRight(m: Matrix): Matrix {
    seq(|m|, i requires 0 <= i < |m| =>
      seq(|m[i]|, j requires 0 <= j < |m[i]| => m[i][if j == 0 then |m[i]| - 1 else j - 1]))
  }

  /** `np.delete(m, 0, 0)` followed by `np.vstack` with a zero row. */
  function DropFirstAppendZero(m: Matrix, cols: nat): Matrix
    requires |m| >= 1
  {
    m[1..] + [Zeros(cols)]
  }

  /** `m * s`, entry by entry. */
  function Scale(m: Matrix, s: real): (r: Matrix)
    ensures |r| == |m|
    ensures forall i :: 0 <= i < |m| ==> |r[i]| == |m[i]|
    ensures forall i, j :: 0 <= i < |m| && 0 <= j < |m[i]| ==> r[i][j] == m[i][j] * s
  {
    seq(|m|, i requires 0 <= i < |m| =>
      seq(|m[i]|, j requires 0 <= j < |m[i]| => m[i][j] * s))
  }

  /** `m / s`, entry by entry. */
  function DivideBy(m: Matrix, s: real): Matrix
    requires s != 0.0
  {
    seq(|m|, i requires 0 <= i < |m| =>
      seq(|m[i]|, j requires 0 <= j < |m[i]| => m[i][j] / s))
  }

  /** D before the division: `D[i == j] = -1`, then `D[i == j - 1] = 1`. */
  function MaskedD(rows: nat, cols: nat): Matrix {
    seq(rows, i => seq(cols, j => if i == j then -1.0 else if i == j - 1 then 1.0 else 0.0))
  }

  /** B before the row shift: `B[i == j] = -0.5`, then `B[i < j] = -1`, then
      `B[j == cols - 1] = -0.5`; a later mask overrides an earlier one. */
  function MaskedB(rows: nat, cols: nat): Matrix {
    seq(rows, i => seq(cols, j =>
      if j == cols - 1 then -0.5
      else if i < j then -1.0
      else if i == j then -0.5
      else 0.0))
  }

  /** The running value `tmp` that the descending row loop of A writes into
      the last column of row `row`: 1/3 at the bottom row, then 0.5 more for
      each row above it. */
  function LastColumnTmp(rows: nat, row: nat): real
    requires row < rows
    decreases rows - row
  {
    if row == rows - 1 then 1.0 / 3.0 else LastColumnTmp(rows, row + 1) + 0.5
  }

  /** A before the row shift, as the nested loop leaves it: the inner loop
      covers columns `cols - 2` down to 0 only, writing 1/6 on the diagonal
      and `col - row` above it. */
  function LoopedA(rows: nat, cols: nat): Matrix {
    seq(rows, i requires 0 <= i < rows => seq(cols, j =>
      if j == cols - 1 then LastColumnTmp(rows, i)
      else if i == j then 1.0 / 6.0
      else if j > i then (j - i) as real
      else 0.0))
  }

  /** The numpy steps of `spline_construction(rows, cols, dx)`, returning
      (C, D, B, A). */
  function NumpySteps(rows: nat, cols: nat, dx: real): (m: Basis)
    requires 1 <= rows && cols == rows + 1
    requires dx != 0.0
    ensures Shaped(m, rows, cols)
  {
    Basis(
      c := RollRight(FilledDiagonal(rows, cols)),
      d := DivideBy(MaskedD(rows, cols), dx),
      b := Scale(DropFirstAppendZero(MaskedB(rows, cols), cols), dx),
      a := Scale(Scale(DropFirstAppendZero(LoopedA(rows, cols), cols), dx), dx))
  }

  // ---------------------------------------------------------------------
  // Closed forms of the entries (reference definitions)
  // ---------------------------------------------------------------------

  /** C[k][j]: one on the first super-diagonal. */
  function CCoef(k: int, j: int): real {
    if j == k + 1 then 1.0 else 0.0
  }

  /** dx * D[k][j]: -1 on the diagonal, +1 just right of it. */
  function DCoef(k: int, j: int): real {
    if j == k then -1.0 else if j == k + 1 then 1.0 else 0.0
  }

  /** B[k][j] / dx: zero in the last row and left of column k+1; -1/2 at
      column k+1 and in the last column; -1 strictly between. */
  function BCoef(rows: int, cols: int, k: int, j: int): real {
    if k >= rows - 1 || j < k + 1 then 0.0
    else if j == k + 1 || j == cols - 1 then -0.5
    else -1.0
  }

  /** A[k][j] / dx^2: zero in the last row and left of column k+1; 1/6 at
      column k+1; `j - (k+1)` strictly between; `1/3 + (rows-2-k)/2` in the
      last column. */
  function ACoef(rows: int, cols: int, k: int, j: int): real {
    if k >= rows - 1 || j < k + 1 then 0.0
    else if j == k + 1 then 1.0 / 6.0
    else if j == cols - 1 then 1.0 / 3.0 + (rows - 2 - k) as real / 2.0
    else (j - (k + 1)) as real
  }

  lemma {:induction false} LastColumnTmpClosedForm(rows: nat, row: nat)
    requires row < rows
    ensures LastColumnTmp(rows, row) == 1.0 / 3.0 + (rows - 1 - row) as real / 2.0
    decreases rows - row
  {
    if row < rows - 1 {
      LastColumnTmpClosedForm(rows, row + 1);
    }
  }

  /** C is the identity shifted one column right: `C[i][j] = 1` iff `j == i + 1`. */
  lemma CEntries(rows: nat, cols: nat, dx: real)
    requires 1 <= rows && cols == rows + 1 && dx != 0.0
    ensures forall k, j :: 0 <= k < rows && 0 <= j < cols ==>
      NumpySteps(rows, cols, dx).c[k][j] == CCoef(k, j)
  {
  }

  /** Row k of D is `-1/dx` at column k, `+1/dx` at column k+1, zero elsewhere. */
  lemma DEntries(rows: nat, cols: nat, dx: real)
    requires 1 <= rows && cols == rows + 1 && dx != 0.0
    ensures forall k, j :: 0 <= k < rows && 0 <= j < cols ==>
      NumpySteps(rows, cols, dx).d[k][j] == DCoef(k, j) / dx
  {
  }

  /** Every row of D sums to zero. */
  lemma DRowsSumToZero(rows: nat, cols: nat, dx: real)
    requires 1 <= rows && cols == rows + 1 && dx != 0.0
    ensures forall k :: 0 <= k < rows ==> Sum(SplineConstruction(rows, cols, dx).d[k]) == 0.0
  {
    var m := SplineConstruction(rows, cols, dx);
    forall k | 0 <= k < rows
      ensures Sum(m.d[k]) == 0.0
    {
      ClosedFormRowSum(m, rows, cols, dx, k);
    }
  }

  lemma ClosedFormRowSum(m: Basis, rows: nat, cols: nat, dx: real, k: nat)
    requires cols == rows + 1 && dx != 0.0 && k < rows
    requires ClosedForm(m, rows, cols, dx)
    ensures Sum(m.d[k]) == 0.0
  {
    SumOfTwoEntries(m.d[k], k, k + 1);
  }

  /** B after the shift and scaling matches its closed form; its last row is zero. */
  lemma BEntries(rows: nat, cols: nat, dx: real)
    requires 1 <= rows && cols == rows + 1 && dx != 0.0
    ensures forall k, j :: 0 <= k < rows && 0 <= j < cols ==>
      NumpySteps(rows, cols, dx).b[k][j] == BCoef(rows, cols, k, j) * dx
  {
  }

  /** A after the shift and scaling matches its closed form; its last row is zero. */
  lemma AEntries(rows: nat, cols: nat, dx: real)
    requires 1 <= rows && cols == rows + 1 && dx != 0.0
    ensures forall k, j :: 0 <= k < rows && 0 <= j < cols ==>
      NumpySteps(rows, cols, dx).a[k][j] == ACoef(rows, cols, k, j) * dx * dx
  {
    ShiftedAEntries(rows, cols);
  }

  /** A after the row shift, before scaling. */
  lemma ShiftedAEntries(rows: nat, cols: nat)
    requires 1 <= rows && cols == rows + 1
    ensures var shifted := DropFirstAppendZero(LoopedA(rows, cols), cols);
      forall k, j :: 0 <= k < rows && 0 <= j < cols ==> shifted[k][j] == ACoef(rows, cols, k, j)
  {
    var raw := LoopedA(rows, cols);
    var shifted := DropFirstAppendZero(raw, cols);
    forall k, j | 0 <= k < rows && 0 <= j < cols
      ensures shifted[k][j] == ACoef(rows, cols, k, j)
    {
      if k < rows - 1 {
        assert shifted[k] == raw[k + 1];
        if j == cols - 1 {
          LastColumnTmpClosedForm(rows, k + 1);
        }
      }
    }
  }

  // ---------------------------------------------------------------------
  // What the basis means: one cubic per segment, joined at the knots
  // ---------------------------------------------------------------------

  /** Column `j` of segment `k`'s cubic at offset `delta` from its right knot. */
  function SegmentValue(m: Basis, k: nat, j: nat, delta: real): real
    requires k < |m.a| == |m.b| == |m.c| == |m.d|
    requires j < |m.a[k]| && j < |m.b[k]| && j < |m.c[k]| && j < |m.d[k]|
  {
    m.a[k][j] + m.b[k][j] * delta + m.c[k][j] * (delta * delta / 2.0) + m.d[k][j] * (delta * delta * delta / 6.0)
  }

  /** The derivative of `SegmentValue` in `delta`. */
  function SegmentSlope(m: Basis, k: nat, j: nat, delta: real): real
    requires k < |m.b| == |m.c| == |m.d|
    requires j < |m.b[k]| && j < |m.c[k]| && j < |m.d[k]|
  {
    m.b[k][j] + m.c[k][j] * delta + m.d[k][j] * (delta * delta / 2.0)
  }

  /** The second derivative of `SegmentValue` in `delta`. */
  function SegmentCurvature(m: Basis, k: nat, j: nat, delta: real): real
    requires k < |m.c| == |m.d|
    requires j < |m.c[k]| && j < |m.d[k]|
  {
    m.c[k][j] + m.d[k][j] * delta
  }

  /** The segment row the energy model adds for one distance. */
  function SegmentRow(m: Basis, rows: nat, cols: nat, k: nat, delta: real): (v: Vector)
    requires Shaped(m, rows, cols) && k < rows
    ensures |v| == cols
    ensures forall j :: 0 <= j < cols ==> v[j] == SegmentValue(m, k, j, delta)
  {
    seq(cols, j requires 0 <= j < cols => SegmentValue(m, k, j, delta))
  }

  /** The unscaled identities behind `SegmentsJoin`: segment k at its right
      knot agrees with segment k+1 at its left knot, coefficient by coefficient. */
  lemma CoefficientsJoin(rows: nat, cols: nat, k: nat, j: nat)
    requires 1 <= rows && cols == rows + 1 && k + 1 < rows && j < cols
    ensures ACoef(rows, cols, k, j)
      == ACoef(rows, cols, k + 1, j) - BCoef(rows, cols, k + 1, j) + CCoef(k + 1, j) / 2.0 - DCoef(k + 1, j) / 6.0
    ensures BCoef(rows, cols, k, j)
      == BCoef(rows, cols, k + 1, j) - CCoef(k + 1, j) + DCoef(k + 1, j) / 2.0
    ensures CCoef(k, j) == CCoef(k + 1, j) - DCoef(k + 1, j)
  {
  }

  lemma ScaledValueJoin(dx: real, a0: real, a1: real, b1: real, c1: real, d1: real)
    requires dx != 0.0
    requires a0 == a1 - b1 + c1 / 2.0 - d1 / 6.0
    ensures a0 * dx * dx
      == a1 * dx * dx + b1 * dx * (-dx) + c1 * ((-dx) * (-dx) / 2.0) + d1 / dx * ((-dx) * (-dx) * (-dx) / 6.0)
  {
    assert d1 / dx * dx == d1;
    calc {
      d1 / dx * ((-dx) * (-dx) * (-dx) / 6.0);
      (d1 / dx * dx) * (-(dx * dx) / 6.0);
      d1 * (-(dx * dx) / 6.0);
    }
  }

  lemma ScaledSlopeJoin(dx: real, b0: real, b1: real, c1: real, d1: real)
    requires dx != 0.0
    requires b0 == b1 - c1 + d1 / 2.0
    ensures b0 * dx == b1 * dx + c1 * (-dx) + d1 / dx * ((-dx) * (-dx) / 2.0)
  {
    assert d1 / dx * dx == d1;
    calc {
      d1 / dx * ((-dx) * (-dx) / 2.0);
      (d1 / dx * dx) * (dx / 2.0);
      d1 * (dx / 2.0);
    }
  }

  lemma ScaledCurvatureJoin(dx: real, c0: real, c1: real, d1: real)
    requires dx != 0.0
    requires c0 == c1 - d1
    ensures c0 == c1 + d1 / dx * (-dx)
  {
    assert d1 / dx * dx == d1;
  }

  /** `m` has the closed-form entries of the basis for knot spacing `dx`. */
  predicate ClosedForm(m: Basis, rows: nat, cols: nat, dx: real)
    requires dx != 0.0
  {
    && Shaped(m, rows, cols)
    && forall k, j :: 0 <= k < rows && 0 <= j < cols ==>
      && m.c[k][j] == CCoef(k, j)
      && m.d[k][j] == DCoef(k, j) / dx
      && m.b[k][j] == BCoef(rows, cols, k, j) * dx
      && m.a[k][j] == ACoef(rows, cols, k, j) * dx * dx
  }

  /** The numpy steps produce exactly the closed forms. */
  lemma ConstructionIsClosedForm(rows: nat, cols: nat, dx: real)
    requires 1 <= rows && cols == rows + 1 && dx != 0.0
    ensures ClosedForm(NumpySteps(rows, cols, dx), rows, cols, dx)
  {
    CEntries(rows, cols, dx);
    DEntries(rows, cols, dx);
    BEntries(rows, cols, dx);
    AEntries(rows, cols, dx);
  }

  /** `spline_construction(rows, cols, dx)`, returning (C, D, B, A): the
      numpy steps, whose every entry has its closed form. */
  function SplineConstruction(rows: nat, cols: nat, dx: real): (m: Basis)
    requires 1 <= rows && cols == rows + 1
    requires dx != 0.0
    ensures ClosedForm(m, rows, cols, dx)
  {
    ConstructionIsClosedForm(rows, cols, dx);
    NumpySteps(rows, cols, dx)
  }

  /** The spline is twice continuously differentiable: at every interior
      knot, segment k at its right end (offset 0) and segment k+1 at its left
      end (offset -dx) agree in value, slope and curvature, column by column
      and hence for every curvature vector. */
  lemma SegmentsJoin(m: Basis, rows: nat, cols: nat, dx: real, k: nat, j: nat)
    requires 1 <= rows && cols == rows + 1 && dx != 0.0
    requires ClosedForm(m, rows, cols, dx)
    requires k + 1 < rows && j < cols
    ensures SegmentValue(m, k, j, 0.0) == SegmentValue(m, k + 1, j, -dx)
    ensures SegmentSlope(m, k, j, 0.0) == SegmentSlope(m, k + 1, j, -dx)
    ensures SegmentCurvature(m, k, j, 0.0) == SegmentCurvature(m, k + 1, j, -dx)
  {
    ClosedFormsJoin(m, rows, cols, dx, k, j);
  }

  /** The join, for the whole design row: segment k's row at its right knot
      is segment k+1's row at its left knot. */
  lemma SegmentRowsJoin(m: Basis, rows: nat, cols: nat, dx: real, k: nat)
    requires 1 <= rows && cols == rows + 1 && dx != 0.0
    requires ClosedForm(m, rows, cols, dx) && k + 1 < rows
    ensures SegmentRow(m, rows, cols, k, 0.0) == SegmentRow(m, rows, cols, k + 1, -dx)
  {
    var left, right := SegmentRow(m, rows, cols, k, 0.0), SegmentRow(m, rows, cols, k + 1, -dx);
    forall j | 0 <= j < cols
      ensures left[j] == right[j]
    {
      SegmentsJoin(m, rows, cols, dx, k, j);
    }
  }

  lemma ConstructionRowsJoin(rows: nat, cols: nat, dx: real, k: nat)
    requires 1 <= rows && cols == rows + 1 && dx != 0.0 && k + 1 < rows
    ensures SegmentRow(SplineConstruction(rows, cols, dx), rows, cols, k, 0.0)
         == SegmentRow(SplineConstruction(rows, cols, dx), rows, cols, k + 1, -dx)
  {
    SegmentRowsJoin(SplineConstruction(rows, cols, dx), rows, cols, dx, k);
  }

  /** Any basis whose entries at rows k and k+1 of column j have the closed
      forms joins there. */
  lemma ClosedFormsJoin(m: Basis, rows: nat, cols: nat, dx: real, k: nat, j: nat)
    requires 1 <= rows && cols == rows + 1 && dx != 0.0 && k + 1 < rows && j < cols
    requires Shaped(m, rows, cols)
    requires m.a[k][j] == ACoef(rows, cols, k, j) * dx * dx && m.a[k + 1][j] == ACoef(rows, cols, k + 1, j) * dx * dx
    requires m.b[k][j] == BCoef(rows, cols, k, j) * dx && m.b[k + 1][j] == BCoef(rows, cols, k + 1, j) * dx
    requires m.c[k][j] == CCoef(k, j) && m.c[k + 1][j] == CCoef(k + 1, j)
    requires m.d[k + 1][j] == DCoef(k + 1, j) / dx
    ensures SegmentValue(m, k, j, 0.0) == SegmentValue(m, k + 1, j, -dx)
    ensures SegmentSlope(m, k, j, 0.0) == SegmentSlope(m, k + 1, j, -dx)
    ensures SegmentCurvature(m, k, j, 0.0) == SegmentCurvature(m, k + 1, j, -dx)
  {
    CoefficientsJoin(rows, cols, k, j);
    JoinFromEntries(m, k, j, dx, ACoef(rows, cols, k, j), BCoef(rows, cols, k, j), CCoef(k, j),
                    ACoef(rows, cols, k + 1, j), BCoef(rows, cols, k + 1, j), CCoef(k + 1, j), DCoef(k + 1, j));
  }

  /** The join of two neighbouring segments, from their entries in unscaled form. */
  lemma JoinFromEntries(m: Basis, k: nat, j: nat, dx: real,
                        a0: real, b0: real, c0: real, a1: real, b1: real, c1: real, d1: real)
    requires k + 1 < |m.a| == |m.b| == |m.c| == |m.d|
    requires j < |m.a[k]| && j < |m.b[k]| && j < |m.c[k]| && j < |m.d[k]|
    requires j < |m.a[k + 1]| && j < |m.b[k + 1]| && j < |m.c[k + 1]| && j < |m.d[k + 1]|
    requires dx != 0.0
    requires m.a[k][j] == a0 * dx * dx && m.b[k][j] == b0 * dx && m.c[k][j] == c0
    requires m.a[k + 1][j] == a1 * dx * dx && m.b[k + 1][j] == b1 * dx
    requires m.c[k + 1][j] == c1 && m.d[k + 1][j] == d1 / dx
    requires a0 == a1 - b1 + c1 / 2.0 - d1 / 6.0
    requires b0 == b1 - c1 + d1 / 2.0
    requires c0 == c1 - d1
    ensures SegmentValue(m, k, j, 0.0) == SegmentValue(m, k + 1, j, -dx)
    ensures SegmentSlope(m, k, j, 0.0) == SegmentSlope(m, k + 1, j, -dx)
    ensures SegmentCurvature(m, k, j, 0.0) == SegmentCurvature(m, k + 1, j, -dx)
  {
    AtRightKnot(m, k, j);
    ScaledValueJoin(dx, a0, a1, b1, c1, d1);
    ScaledSlopeJoin(dx, b0, b1, c1, d1);
    ScaledCurvatureJoin(dx, c0, c1, d1);
  }

  /** At offset 0 a segment's value, slope and curvature are its A, B and C entries. */
  lemma AtRightKnot(m: Basis, k: nat, j: nat)
    requires k < |m.a| == |m.b| == |m.c| == |m.d|
    requires j < |m.a[k]| && j < |m.b[k]| && j < |m.c[k]| && j < |m.d[k]|
    ensures SegmentValue(m, k, j, 0.0) == m.a[k][j]
    ensures SegmentSlope(m, k, j, 0.0) == m.b[k][j]
    ensures SegmentCurvature(m, k, j, 0.0) == m.c[k][j]
  {
  }

  /** The curvature unknowns are the spline's second derivatives at the
      knots: segment k's curvature is `theta[k+1]` at its right knot and
      `theta[k]` at its left knot, varying linearly in between. */
  lemma CurvatureAtKnots(rows: nat, cols: nat, dx: real, k: nat, j: nat)
    requires 1 <= rows && cols == rows + 1 && dx != 0.0
    requires k < rows && j < cols
    ensures var m := SplineConstruction(rows, cols, dx);
      && SegmentCurvature(m, k, j, 0.0) == (if j == k + 1 then 1.0 else 0.0)
      && SegmentCurvature(m, k, j, -dx) == (if j == k then 1.0 else 0.0)
  {
    var m := SplineConstruction(rows, cols, dx);
    ScaledCurvatureJoin(dx, CCoef(k, j) - DCoef(k, j), CCoef(k, j), DCoef(k, j));
  }

  /** At the outer cutoff (right end of the last segment) the spline and its
      slope vanish for every curvature vector: the last rows of A and B are zero. */
  lemma VanishesAtCutoff(rows: nat, cols: nat, dx: real, j: nat)
    requires 1 <= rows && cols == rows + 1 && dx != 0.0 && j < cols
    ensures var m := SplineConstruction(rows, cols, dx);
      && m.a[rows - 1][j] == 0.0 && m.b[rows - 1][j] == 0.0
      && SegmentValue(m, rows - 1, j, 0.0) == 0.0
      && SegmentSlope(m, rows - 1, j, 0.0) == 0.0
  {
  }
}
