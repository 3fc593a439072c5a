/** The spline evaluator (`spline_eval012`): given fitted per-segment
    coefficients `a, b, c, d` and the knot sequence `x`, it finds the segment
    holding a query distance `r` and returns the spline's value, first and
    second derivative there, all as cubics in the offset `dr = r - x[index]`
    from the segment's right knot. */
module SplineEval {
  import opened Numeric
  import opened SplineBasis

  datatype EvalError =
    | DomainError       // the ValueError raised for r below the inner cutoff
    | IndexOutOfRange   // the IndexError of an out-of-range array lookup

  /** The cubic `c0 + c1 t + c2 t^2 + c3 t^3`. */
  datatype Cubic = Cubic(c0: real, c1: real, c2: real, c3: real)

  function Apply(p: Cubic, t: real): real {
    p.c0 + p.c1 * t + p.c2 * (t * t) + p.c3 * (t * t * t)
  }

  function Derivative(p: Cubic): Cubic {
    Cubic(p.c1, 2.0 * p.c2, 3.0 * p.c3, 0.0)
  }

  /** The cubic the evaluator's value term computes: its `d*dr/3.0` inside
      `0.5*c + ...` gives the cubic coefficient `d/3`. */
  function WrittenValuePoly(a: real, b: real, c: real, d: real): Cubic {
    Cubic(a, b, c / 2.0, d / 3.0)
  }

  /** The cubic whose coefficients are value, slope, curvature and third
      derivative at the right knot, as the slope and curvature terms and the
      energy model's `delta^3/6` weight read them. */
  function ValuePoly(a: real, b: real, c: real, d: real): Cubic {
    Cubic(a, b, c / 2.0, d / 6.0)
  }

  function SlopePoly(b: real, c: real, d: real): Cubic {
    Cubic(b, c, d / 2.0, 0.0)
  }

  function CurvaturePoly(c: real, d: real): Cubic {
    Cubic(c, d, 0.0, 0.0)
  }

  /** The segment index: 1 exactly at the inner cutoff, otherwise the
      ceiling of `(r - rmin) / dx`, computed exactly. */
  function SegmentIndex(r: real, rmin: real, dx: real): (index: int)
    requires dx > 0.0
    ensures index >= 1 <==> r >= rmin
    ensures r == rmin ==> index == 1
    ensures r != rmin ==> (index - 1) as real < (r - rmin) / dx <= index as real
  {
    if r == rmin then 1 else Ceil((r - rmin) / dx)
  }

  /** The lookups succeed: `x[index]` and entry `index - 1` of every
      coefficient array exist (index is at least 1, so no wrap-around). */
  predicate InRange(index: int, a: seq<real>, b: seq<real>, c: seq<real>, d: seq<real>, x: seq<real>) {
    1 <= index < |x| && index - 1 < |a| && index - 1 < |b| && index - 1 < |c| && index - 1 < |d|
  }

  /** `spline_eval012(a, b, c, d, r, Rcut, Rmin, dx, x)` as written; `rcut`
      is accepted and ignored, as in the source. */
  function Eval012(a: seq<real>, b: seq<real>, c: seq<real>, d: seq<real>,
                   r: real, rcut: real, rmin: real, dx: real, x: seq<real>): (res: Result<(real, real, real), EvalError>)
    requires dx > 0.0
    ensures res == Err(DomainError) <==> r < rmin
    ensures res.Ok? <==> r >= rmin && InRange(SegmentIndex(r, rmin, dx), a, b, c, d, x)
  {
    var index := SegmentIndex(r, rmin, dx);
    if index >= 1 then
      if InRange(index, a, b, c, d, x) then
        var dr := r - x[index];
        var k := index - 1;
        var f0 := a[k] + dr * (b[k] + dr * (0.5 * c[k] + d[k] * dr / 3.0));
        var f1 := b[k] + dr * (c[k] + 0.5 * d[k] * dr);
        var f2 := c[k] + d[k] * dr;
        Ok((f0, f1, f2))
      else
        Err(IndexOutOfRange)
    else
      Err(DomainError)
  }

  /** The three results are the value, slope and curvature cubics of the
      resolved segment, evaluated at `dr`; in particular `f2 = c + d dr`. */
  lemma EvalIsCubic(a: seq<real>, b: seq<real>, c: seq<real>, d: seq<real>,
                    r: real, rcut: real, rmin: real, dx: real, x: seq<real>)
    requires dx > 0.0
    requires Eval012(a, b, c, d, r, rcut, rmin, dx, x).Ok?
    ensures var index := SegmentIndex(r, rmin, dx);
      var k, dr := index - 1, r - x[index];
      Eval012(a, b, c, d, r, rcut, rmin, dx, x).value
        == (Apply(WrittenValuePoly(a[k], b[k], c[k], d[k]), dr),
            Apply(SlopePoly(b[k], c[k], d[k]), dr),
            Apply(CurvaturePoly(c[k], d[k]), dr))
  {
    var index := SegmentIndex(r, rmin, dx);
    var k, dr := index - 1, r - x[index];
    HornerValue(a[k], b[k], c[k], d[k], dr);
    var res := Eval012(a, b, c, d, r, rcut, rmin, dx, x).value;
    assert res.0 == a[k] + dr * (b[k] + dr * (0.5 * c[k] + d[k] * dr / 3.0));
    assert res.1 == b[k] + dr * (c[k] + 0.5 * d[k] * dr);
    assert res.2 == c[k] + d[k] * dr;
    assert res.0 == Apply(WrittenValuePoly(a[k], b[k], c[k], d[k]), dr);
    assert res.1 == Apply(SlopePoly(b[k], c[k], d[k]), dr);
    assert res.2 == Apply(CurvaturePoly(c[k], d[k]), dr);
  }

  lemma HornerValue(a: real, b: real, c: real, d: real, dr: real)
    ensures a + dr * (b + dr * (0.5 * c + d * dr / 3.0)) == Apply(WrittenValuePoly(a, b, c, d), dr)
    ensures b + dr * (c + 0.5 * d * dr) == Apply(SlopePoly(b, c, d), dr)
    ensures a + dr * (b + dr * (0.5 * c + d * dr / 6.0)) == Apply(ValuePoly(a, b, c, d), dr)
  {
    calc {
      a + dr * (b + dr * (0.5 * c + d * dr / 3.0));
      a + b * dr + (c / 2.0) * (dr * dr) + (d / 3.0) * (dr * dr * dr);
    }
    calc {
      a + dr * (b + dr * (0.5 * c + d * dr / 6.0));
      a + b * dr + (c / 2.0) * (dr * dr) + (d / 6.0) * (dr * dr * dr);
    }
  }

  /** Evaluating at a segment's right knot (`dr = 0`) returns that
      segment's `(a, b, c)` unchanged. */
  lemma EvalAtRightKnot(a: seq<real>, b: seq<real>, c: seq<real>, d: seq<real>,
                        r: real, rcut: real, rmin: real, dx: real, x: seq<real>)
    requires dx > 0.0
    requires r >= rmin
    requires var index := SegmentIndex(r, rmin, dx);
      InRange(index, a, b, c, d, x) && x[index] == r
    ensures var k := SegmentIndex(r, rmin, dx) - 1;
      Eval012(a, b, c, d, r, rcut, rmin, dx, x) == Ok((a[k], b[k], c[k]))
  {
    var index := SegmentIndex(r, rmin, dx);
    var k := index - 1;
    var res := Eval012(a, b, c, d, r, rcut, rmin, dx, x).value;
    assert res.0 == a[k] && res.1 == b[k] && res.2 == c[k];
  }

  /** The curvature result is the derivative of the slope result. */
  lemma CurvatureIsSlopeDerivative(b: real, c: real, d: real)
    ensures Derivative(SlopePoly(b, c, d)) == CurvaturePoly(c, d)
  {
  }

  /** As written, the slope result is the derivative of the value result
      only when the segment's `d` coefficient is zero. */
  lemma WrittenSlopeIsDerivativeOnlyWithoutCubic(a: real, b: real, c: real, d: real)
    ensures Derivative(WrittenValuePoly(a, b, c, d)) == SlopePoly(b, c, d) <==> d == 0.0
  {
  }

  /** A concrete input on which the value disagrees with the slope: one
      segment on [0, 1] with `d = 1`, evaluated at r = 0.5. The value is
      `dr^3/3 = -1/24`, while the slope `dr^2/2 = 1/8` is the derivative of
      `dr^3/6 = -1/48`. */
  lemma WrittenValueCounterexample()
    ensures Eval012([0.0], [0.0], [0.0], [1.0], 0.5, 1.0, 0.0, 1.0, [0.0, 1.0])
      == Ok((-1.0 / 24.0, 1.0 / 8.0, -0.5))
    ensures Apply(ValuePoly(0.0, 0.0, 0.0, 1.0), -0.5) == -1.0 / 48.0
    ensures Derivative(ValuePoly(0.0, 0.0, 0.0, 1.0)) == SlopePoly(0.0, 0.0, 1.0)
  {
    assert Ceil(0.5) == 1;
  }

  /** The evaluator with the value term's cubic weight `d*dr/6.0`; the
      slope and curvature terms, and every failure, are those of `Eval012`. */
  function Eval012Corrected(a: seq<real>, b: seq<real>, c: seq<real>, d: seq<real>,
                            r: real, rcut: real, rmin: real, dx: real, x: seq<real>): (res: Result<(real, real, real), EvalError>)
    requires dx > 0.0
    ensures res == Err(DomainError) <==> r < rmin
    ensures res.Ok? <==> r >= rmin && InRange(SegmentIndex(r, rmin, dx), a, b, c, d, x)
    ensures res.Ok? ==> res.value.1 == Eval012(a, b, c, d, r, rcut, rmin, dx, x).value.1
    ensures res.Ok? ==> res.value.2 == Eval012(a, b, c, d, r, rcut, rmin, dx, x).value.2
  {
    match Eval012(a, b, c, d, r, rcut, rmin, dx, x)
    case Err(e) => Err(e)
    case Ok(written) =>
      var index := SegmentIndex(r, rmin, dx);
      var dr := r - x[index];
      var k := index - 1;
      Ok((a[k] + dr * (b[k] + dr * (0.5 * c[k] + d[k] * dr / 6.0)), written.1, written.2))
  }

  /** With the corrected weight the slope result is the derivative of the
      value result for every coefficient set. */
  lemma CorrectedSlopeIsDerivative(a: real, b: real, c: real, d: real)
    ensures Derivative(ValuePoly(a, b, c, d)) == SlopePoly(b, c, d)
  {
  }

  /** When the coefficients come from a curvature vector `theta` through the
      basis (`a[k] = A[k] . theta`, and so on), the corrected value at `r`
      equals the design row of the segment the evaluator picks (segment
      `index - 1` at offset `r - x[index]`) dotted with `theta`, on any knot
      sequence `x`. That this is the energy model's term for `r` holds on the
      uniform grid for `rmin < r <= rcut` only, and is
      `PairPotential.CorrectedValueIsContribution`; at `r = rmin` the two
      differ (`PairPotential.InnerCutoffDisagrees`). */
  lemma CorrectedValueIsDesignRow(m: Basis, rows: nat, cols: nat, theta: Vector,
                                  a: seq<real>, b: seq<real>, c: seq<real>, d: seq<real>,
                                  r: real, rcut: real, rmin: real, dx: real, x: seq<real>)
    requires Shaped(m, rows, cols) && |theta| == cols
    requires |a| == |b| == |c| == |d| == rows
    requires forall k :: 0 <= k < rows ==>
      && a[k] == Dot(m.a[k], theta) && b[k] == Dot(m.b[k], theta)
      && c[k] == Dot(m.c[k], theta) && d[k] == Dot(m.d[k], theta)
    requires dx > 0.0
    requires Eval012Corrected(a, b, c, d, r, rcut, rmin, dx, x).Ok?
    ensures var index := SegmentIndex(r, rmin, dx);
      Eval012Corrected(a, b, c, d, r, rcut, rmin, dx, x).value.0
        == Dot(SegmentRow(m, rows, cols, index - 1, r - x[index]), theta)
  {
    var index := SegmentIndex(r, rmin, dx);
    var k, dr := index - 1, r - x[index];
    CorrectedValueAt(a, b, c, d, r, rcut, rmin, dx, x);
    DesignRowAt(m, rows, cols, theta, a, b, c, d, k, dr);
  }

  /** The corrected value at `r` is segment `index - 1`'s value polynomial
      at the offset from knot `index`. */
  lemma CorrectedValueAt(a: seq<real>, b: seq<real>, c: seq<real>, d: seq<real>,
                         r: real, rcut: real, rmin: real, dx: real, x: seq<real>)
    requires dx > 0.0
    requires Eval012Corrected(a, b, c, d, r, rcut, rmin, dx, x).Ok?
    ensures var index := SegmentIndex(r, rmin, dx);
      var k, dr := index - 1, r - x[index];
      Eval012Corrected(a, b, c, d, r, rcut, rmin, dx, x).value.0
        == Apply(ValuePoly(a[k], b[k], c[k], d[k]), dr)
  {
    var index := SegmentIndex(r, rmin, dx);
    var k, dr := index - 1, r - x[index];
    HornerValue(a[k], b[k], c[k], d[k], dr);
  }

  /** The corrected value polynomial of segment `k` at offset `dr` is the
      segment's design row at `dr` dotted with `theta`. */
  lemma DesignRowAt(m: Basis, rows: nat, cols: nat, theta: Vector,
                    a: seq<real>, b: seq<real>, c: seq<real>, d: seq<real>, k: nat, dr: real)
    requires Shaped(m, rows, cols) && |theta| == cols && k < rows
    requires |a| == |b| == |c| == |d| == rows
    requires && a[k] == Dot(m.a[k], theta) && b[k] == Dot(m.b[k], theta)
             && c[k] == Dot(m.c[k], theta) && d[k] == Dot(m.d[k], theta)
    ensures Apply(ValuePoly(a[k], b[k], c[k], d[k]), dr) == Dot(SegmentRow(m, rows, cols, k, dr), theta)
  {
    ValueOfDottedRows(m, rows, cols, theta, a[k], b[k], c[k], d[k], k, dr);
  }

  lemma ValueOfDottedRows(m: Basis, rows: nat, cols: nat, theta: Vector,
                          a: real, b: real, c: real, d: real, k: nat, dr: real)
    requires Shaped(m, rows, cols) && |theta| == cols && k < rows
    requires && a == Dot(m.a[k], theta) && b == Dot(m.b[k], theta)
             && c == Dot(m.c[k], theta) && d == Dot(m.d[k], theta)
    ensures Apply(ValuePoly(a, b, c, d), dr) == Dot(SegmentRow(m, rows, cols, k, dr), theta)
  {
    RowDotted(m, rows, cols, k, dr, theta);
    ValueExpanded(a, b, c, d, dr);
  }

  /** The monomial form `a + b*dr + c*dr^2/2 + d*dr^3/6` shared by a design
      row and the corrected value polynomial. */
  function Monomials(a: real, b: real, c: real, d: real, dr: real): real {
    a + dr * b + (dr * dr / 2.0) * c + (dr * dr * dr / 6.0) * d
  }

  /** A design row dotted with `theta`, in the dotted coefficient rows. */
  lemma RowDotted(m: Basis, rows: nat, cols: nat, k: nat, dr: real, theta: Vector)
    requires Shaped(m, rows, cols) && |theta| == cols && k < rows
    ensures Dot(SegmentRow(m, rows, cols, k, dr), theta)
         == Monomials(Dot(m.a[k], theta), Dot(m.b[k], theta), Dot(m.c[k], theta), Dot(m.d[k], theta), dr)
  {
    var s2, s3 := dr * dr / 2.0, dr * dr * dr / 6.0;
    RowEntries(m, rows, cols, k, dr, s2, s3);
    RowDot(m, rows, cols, k, dr, s2, s3, theta);
  }

  /** A design row dotted with `theta` is the segment's value polynomial in
      the dotted coefficient rows. */
  lemma RowDot(m: Basis, rows: nat, cols: nat, k: nat, dr: real, s2: real, s3: real, theta: Vector)
    requires Shaped(m, rows, cols) && |theta| == cols && k < rows
    requires var row := SegmentRow(m, rows, cols, k, dr);
      forall j :: 0 <= j < cols ==> row[j] == m.a[k][j] + m.b[k][j] * dr + m.c[k][j] * s2 + m.d[k][j] * s3
    ensures Dot(SegmentRow(m, rows, cols, k, dr), theta)
         == Dot(m.a[k], theta) + dr * Dot(m.b[k], theta) + s2 * Dot(m.c[k], theta) + s3 * Dot(m.d[k], theta)
  {
    DotOfCombination(SegmentRow(m, rows, cols, k, dr), m.a[k], m.b[k], m.c[k], m.d[k], dr, s2, s3, theta);
  }

  lemma RowEntries(m: Basis, rows: nat, cols: nat, k: nat, dr: real, s2: real, s3: real)
    requires Shaped(m, rows, cols) && k < rows
    requires s2 == dr * dr / 2.0 && s3 == dr * dr * dr / 6.0
    ensures var row := SegmentRow(m, rows, cols, k, dr);
      forall j :: 0 <= j < cols ==> row[j] == m.a[k][j] + m.b[k][j] * dr + m.c[k][j] * s2 + m.d[k][j] * s3
  {
  }

  /** The corrected value polynomial in monomial form. */
  lemma ValueExpanded(a: real, b: real, c: real, d: real, dr: real)
    ensures Apply(ValuePoly(a, b, c, d), dr) == Monomials(a, b, c, d, dr)
  {
  }
}
