/** The pair-potential entity (`Twobody`): for one atom-pair type it derives
    the uniform knot grid from the cutoffs and the knot count, builds the
    basis, and builds the design matrix `v` from every configuration's pair
    distances. On such a derived grid every basis and knot lookup the energy
    model makes is in range, so `v` exists whenever `Dismat` holds `Nconfigs`
    configurations. */
module PairPotential {
  import opened Numeric
  import opened SplineBasis
  import opened EnergyModel
  import SplineEval

  /** `np.linspace(start, stop, num)`: `start + i * step` with
      `step = (stop - start) / (num - 1)`, the last entry set to `stop`. */
  function Linspace(start: real, stop: real, num: nat): (xs: seq<real>)
    ensures |xs| == num
    ensures num >= 1 ==> xs[0] == start
    ensures num >= 2 ==> xs[num - 1] == stop
  {
    seq(num, i requires 0 <= i < num =>
      if num > 1 && i == num - 1 then stop
      else if num <= 1 then start
      else start + (i as real) * ((stop - start) / ((num - 1) as real)))
  }

  /** With at least two points, every entry (the last included) lies on the
      line `start + i * step`, so the points are evenly spaced from `start`
      to `stop`, and strictly increasing when `start < stop`. */
  lemma LinspaceIsUniform(start: real, stop: real, num: nat)
    requires num >= 2
    ensures var xs, step := Linspace(start, stop, num), (stop - start) / ((num - 1) as real);
      && xs[0] == start && xs[num - 1] == stop
      && (forall i :: 0 <= i < num ==> xs[i] == start + (i as real) * step)
      && (start < stop ==> forall i :: 0 <= i < num - 1 ==> xs[i] < xs[i + 1])
  {
    var xs, step := Linspace(start, stop, num), (stop - start) / ((num - 1) as real);
    var n := (num - 1) as real;
    assert step * n == stop - start;
    assert xs[num - 1] == start + n * step;
    if start < stop {
      assert step > 0.0;
      forall i | 0 <= i < num - 1
        ensures xs[i] < xs[i + 1]
      {
        assert xs[i + 1] == start + (i as real) * step + step;
      }
    }
  }

  /** A grid as `Twobody` derives it: `cols` evenly spaced knots from `rmin`
      to `rcut`, `dx` apart. */
  predicate UniformGrid(g: Grid) {
    && Valid(g)
    && |g.x| == g.cols
    && g.rcut == g.rmin + ((g.cols - 1) as real) * g.dx
    && forall i :: 0 <= i < g.cols ==> g.x[i] == g.rmin + (i as real) * g.dx
  }

  datatype Twobody = Twobody(
    name: string,
    dismat: seq<seq<real>>,
    nconfigs: nat,
    rcut: real,
    nknots: nat,
    rmin: real,
    dx: real,
    cols: nat,
    interval: seq<real>,
    basis: Basis,
    v: Matrix)

  function GridOf(t: Twobody): Grid {
    Grid(t.rcut, t.rmin, t.cols, t.dx, t.interval)
  }

  /** `Twobody(name, Dismat, Nconfigs, Rcut, Nknots, Rmin)`: the derived
      fields and the design matrix `v` from `get_v`. The cutoffs must be
      ordered and there must be at least one knot interval; the source does
      not check this. Asking for more configurations than `Dismat` holds is
      the IndexError of `df[config, :]`. */
  function NewTwobody(name: string, dismat: seq<seq<real>>, nconfigs: nat,
                      rcut: real, nknots: int, rmin: real): (res: Result<Twobody, LookupError>)
    requires rmin < rcut && nknots >= 1
    ensures res.Ok? <==> nconfigs <= |dismat|
    ensures res.Ok? ==> var t := res.value;
      && t.name == name && t.dismat == dismat && t.nconfigs == nconfigs
      && t.nknots == nknots && t.rcut == rcut && t.rmin == rmin
      && t.dx > 0.0 && (nknots as real) * t.dx == rcut - rmin
      && t.cols == nknots + 1
      && UniformGrid(GridOf(t))
      && t.interval[0] == rmin && t.interval[t.cols - 1] == rcut
      && t.basis == BasisOf(GridOf(t))
      && ClosedForm(t.basis, t.cols - 1, t.cols, t.dx)
      && IsMatrix(t.v, nconfigs, t.cols)
      && forall c :: 0 <= c < nconfigs ==> EnergyRow(GridOf(t), dismat[c]) == Ok(t.v[c])
  {
    var dx := (rcut - rmin) / (nknots as real);
    var cols := nknots + 1;
    var interval := Linspace(rmin, rcut, cols);
    LinspaceIsUniform(rmin, rcut, cols);
    var g := Grid(rcut, rmin, cols, dx, interval);
    assert UniformGrid(g);
    if nconfigs <= |dismat| then
      GetVSucceeds(g, dismat, nconfigs);
      var v := SplineEnergyModel(rcut, rmin, dismat, cols, dx, nconfigs, interval).value;
      Ok(Twobody(name, dismat, nconfigs, rcut, nknots, rmin, dx, cols, interval,
                 SplineConstruction(cols - 1, cols, dx), v))
    else
      Err(IndexOutOfRange)
  }

  // ---------------------------------------------------------------------
  // Every lookup is in range on a uniform grid
  // ---------------------------------------------------------------------

  /** For `rmin < r <= rcut` the segment index lies in `[1, cols - 1]` and
      the offset from that segment's right knot lies in `(-dx, 0]`, so the
      term is segment `index - 1`'s row at that offset. */
  lemma SegmentResolution(g: Grid, r: real)
    requires UniformGrid(g) && g.rmin < r <= g.rcut
    ensures var index := KnotIndex(g, r);
      && 1 <= index <= g.cols - 1
      && -g.dx < r - g.x[index] <= 0.0
      && Contribution(g, r) == Ok(SegmentRow(BasisOf(g), g.cols - 1, g.cols, index - 1, r - g.x[index]))
  {
    var t := (r - g.rmin) / g.dx;
    IndexInRange(g, r, t);
    var index := KnotIndex(g, r);
    OffsetInSegment(r, g.rmin, g.dx, t, index as real, g.x[index]);
  }

  /** The fractional knot position `t = (r - rmin) / dx` of a distance in
      `(rmin, rcut]` lies in `(0, cols - 1]`, so its ceiling is a knot of
      the grid other than the first. */
  lemma IndexInRange(g: Grid, r: real, t: real)
    requires UniformGrid(g) && g.rmin < r <= g.rcut
    requires t == (r - g.rmin) / g.dx
    ensures t * g.dx == r - g.rmin
    ensures 1 <= KnotIndex(g, r) <= g.cols - 1
  {
    var n := (g.cols - 1) as real;
    assert t * g.dx == r - g.rmin;
    assert r - g.rmin <= n * g.dx;
    ScaledBelow(t, n, g.dx);
  }

  lemma ScaledBelow(a: real, b: real, dx: real)
    requires dx > 0.0 && a * dx <= b * dx
    ensures a <= b
  {
  }

  /** A distance whose knot position `t` has ceiling `k` lies within one
      interval to the left of knot `k`. */
  lemma OffsetInSegment(r: real, rmin: real, dx: real, t: real, k: real, xk: real)
    requires dx > 0.0 && t * dx == r - rmin && k - 1.0 < t <= k
    requires xk == rmin + k * dx
    ensures -dx < r - xk <= 0.0
  {
    var u := t - k;
    assert r - xk == u * dx;
    OffsetBounds(u, dx);
  }

  /** A fraction of a knot interval in `(-1, 0]` is an offset in `(-dx, 0]`. */
  lemma OffsetBounds(u: real, dx: real)
    requires dx > 0.0 && -1.0 < u <= 0.0
    ensures -dx < u * dx <= 0.0
  {
  }

  /** A distance exactly at the inner cutoff resolves to index 0, which
      Python reads as the last basis row; with offset 0 that is the zero row
      of A, so the distance is counted but adds nothing. */
  lemma InnerCutoffAddsNothing(g: Grid)
    requires UniformGrid(g)
    ensures KnotIndex(g, g.rmin) == 0
    ensures Contribution(g, g.rmin) == Ok(Zeros(g.cols))
  {
    assert (g.rmin - g.rmin) / g.dx == 0.0;
    LastRowAtZeroIsZero(g);
  }

  /** A distance exactly at the outer cutoff resolves to the last segment at
      offset 0, whose A row is zero: counted, adds nothing. */
  lemma OuterCutoffAddsNothing(g: Grid)
    requires UniformGrid(g)
    ensures KnotIndex(g, g.rcut) == g.cols - 1
    ensures Contribution(g, g.rcut) == Ok(Zeros(g.cols))
  {
    OuterCutoffIsLastKnot(g);
    LastRowAtZeroIsZero(g);
  }

  lemma OuterCutoffIsLastKnot(g: Grid)
    requires UniformGrid(g)
    ensures KnotIndex(g, g.rcut) == g.cols - 1 && g.x[g.cols - 1] == g.rcut
  {
    var n := (g.cols - 1) as real;
    Quotient(g.rcut - g.rmin, n, g.dx);
  }

  lemma Quotient(a: real, n: real, dx: real)
    requires dx > 0.0 && a == n * dx
    ensures a / dx == n
  {
  }

  lemma LastRowAtZeroIsZero(g: Grid)
    requires Valid(g)
    ensures SegmentRow(BasisOf(g), g.cols - 1, g.cols, g.cols - 2, 0.0) == Zeros(g.cols)
  {
    var m := BasisOf(g);
    forall j | 0 <= j < g.cols
      ensures SegmentRow(m, g.cols - 1, g.cols, g.cols - 2, 0.0)[j] == Zeros(g.cols)[j]
    {
      VanishesAtCutoff(g.cols - 1, g.cols, g.dx, j);
      AtRightKnot(m, g.cols - 2, j);
    }
  }

  /** A distance exactly on an interior knot resolves to the segment left of
      it at offset 0; the segment right of it, at offset -dx, would give the
      same row. So exact boundary handling in the index computation cannot
      change `v`. */
  lemma KnotDistanceEitherSegment(g: Grid, i: nat)
    requires UniformGrid(g) && 1 <= i < g.cols - 1
    ensures KnotIndex(g, g.x[i]) == i
    ensures Contribution(g, g.x[i]) == Ok(SegmentRow(BasisOf(g), g.cols - 1, g.cols, i - 1, 0.0))
    ensures SegmentRow(BasisOf(g), g.cols - 1, g.cols, i - 1, 0.0)
      == SegmentRow(BasisOf(g), g.cols - 1, g.cols, i, -g.dx)
  {
    KnotContribution(g, i);
    BasisRowsJoin(g, i - 1);
  }

  lemma BasisRowsJoin(g: Grid, k: nat)
    requires Valid(g) && k + 1 < g.cols - 1
    ensures SegmentRow(BasisOf(g), g.cols - 1, g.cols, k, 0.0) == SegmentRow(BasisOf(g), g.cols - 1, g.cols, k + 1, -g.dx)
  {
    BasisIsClosedForm(g);
    SegmentRowsJoin(BasisOf(g), g.cols - 1, g.cols, g.dx, k);
  }

  lemma BasisIsClosedForm(g: Grid)
    requires Valid(g)
    ensures ClosedForm(BasisOf(g), g.cols - 1, g.cols, g.dx)
  {
  }

  /** The term of a distance on interior knot `i` is segment `i - 1`'s row at offset 0. */
  lemma KnotContribution(g: Grid, i: nat)
    requires UniformGrid(g) && 1 <= i < g.cols - 1
    ensures KnotIndex(g, g.x[i]) == i
    ensures Contribution(g, g.x[i]) == Ok(SegmentRow(BasisOf(g), g.cols - 1, g.cols, i - 1, 0.0))
  {
    InteriorKnot(g, i);
    var r := g.x[i];
    SegmentResolution(g, r);
    assert r - g.x[KnotIndex(g, r)] == 0.0;
  }

  /** An interior knot lies strictly inside the window and sits at knot
      position `i`. */
  lemma InteriorKnot(g: Grid, i: nat)
    requires UniformGrid(g) && 1 <= i < g.cols - 1
    ensures KnotIndex(g, g.x[i]) == i
    ensures g.rmin < g.x[i] < g.rcut
  {
    var ir, n := i as real, (g.cols - 1) as real;
    Quotient(g.x[i] - g.rmin, ir, g.dx);
    ScaledAbove(ir, n, g.dx);
  }

  lemma ScaledAbove(a: real, b: real, dx: real)
    requires dx > 0.0 && a < b
    ensures a * dx < b * dx
  {
  }

  /** Every distance inside the window has a term. */
  lemma InWindowResolves(g: Grid, r: real)
    requires UniformGrid(g) && InWindow(g, r)
    ensures Contribution(g, r).Ok?
  {
    if r == g.rmin {
      InnerCutoffAddsNothing(g);
    } else {
      SegmentResolution(g, r);
    }
  }

  lemma {:induction false} AccumulateSucceeds(g: Grid, rs: seq<real>)
    requires UniformGrid(g)
    requires forall i :: 0 <= i < |rs| ==> InWindow(g, rs[i])
    ensures Accumulate(g, rs).Ok?
  {
    if |rs| > 0 {
      AccumulateSucceeds(g, rs[..|rs| - 1]);
      InWindowResolves(g, rs[|rs| - 1]);
    }
  }

  /** On a uniform grid no row of the design matrix fails. */
  lemma EnergyRowSucceeds(g: Grid, ds: seq<real>)
    requires UniformGrid(g)
    ensures EnergyRow(g, ds).Ok?
  {
    AccumulateSucceeds(g, Filter(g, ds));
  }

  /** `get_v` on a uniform grid returns the full `nconfigs x cols` matrix. */
  lemma GetVSucceeds(g: Grid, dismat: seq<seq<real>>, nconfigs: nat)
    requires UniformGrid(g) && nconfigs <= |dismat|
    ensures SplineEnergyModel(g.rcut, g.rmin, dismat, g.cols, g.dx, nconfigs, g.x).Ok?
  {
    forall c | 0 <= c < nconfigs
      ensures EnergyRow(g, dismat[c]).Ok?
    {
      EnergyRowSucceeds(g, dismat[c]);
    }
  }

  // ---------------------------------------------------------------------
  // The evaluator and the design matrix describe one spline
  // ---------------------------------------------------------------------

  /** Coefficients fitted through the basis of `g`: `a[k] = A[k] . theta`,
      and so on for every segment. */
  predicate FromCurvatures(g: Grid, theta: Vector, a: seq<real>, b: seq<real>, c: seq<real>, d: seq<real>)
    requires Valid(g)
  {
    var m := BasisOf(g);
    && |theta| == g.cols
    && |a| == |b| == |c| == |d| == g.cols - 1
    && forall k :: 0 <= k < g.cols - 1 ==>
      && a[k] == Dot(m.a[k], theta) && b[k] == Dot(m.b[k], theta)
      && c[k] == Dot(m.c[k], theta) && d[k] == Dot(m.d[k], theta)
  }

  /** For `rmin < r <= rcut` on the derived grid, the corrected evaluator
      succeeds, and its value is the energy model's term for `r` dotted with
      `theta`: the pair energy a design row predicts is the spline's value. */
  lemma CorrectedValueIsContribution(g: Grid, theta: Vector, a: seq<real>, b: seq<real>, c: seq<real>, d: seq<real>, r: real)
    requires UniformGrid(g) && g.rmin < r <= g.rcut
    requires FromCurvatures(g, theta, a, b, c, d)
    ensures Contribution(g, r).Ok?
    ensures SplineEval.Eval012Corrected(a, b, c, d, r, g.rcut, g.rmin, g.dx, g.x).Ok?
    ensures SplineEval.Eval012Corrected(a, b, c, d, r, g.rcut, g.rmin, g.dx, g.x).value.0
         == Dot(Contribution(g, r).value, theta)
  {
    ContributionIsSegmentCubic(g, theta, a, b, c, d, r);
    CorrectedOnGrid(g, a, b, c, d, r);
  }

  /** On the derived grid, for `rmin < r <= rcut`, the evaluator resolves
      the same index as the energy model and succeeds with one coefficient
      per segment. */
  lemma CorrectedOnGrid(g: Grid, a: seq<real>, b: seq<real>, c: seq<real>, d: seq<real>, r: real)
    requires UniformGrid(g) && g.rmin < r <= g.rcut
    requires |a| == |b| == |c| == |d| == g.cols - 1
    ensures var index := KnotIndex(g, r);
      && 1 <= index < g.cols
      && SplineEval.SegmentIndex(r, g.rmin, g.dx) == index
      && SplineEval.Eval012Corrected(a, b, c, d, r, g.rcut, g.rmin, g.dx, g.x).Ok?
      && SplineEval.Eval012Corrected(a, b, c, d, r, g.rcut, g.rmin, g.dx, g.x).value.0
         == SplineEval.Apply(SplineEval.ValuePoly(a[index - 1], b[index - 1], c[index - 1], d[index - 1]), r - g.x[index])
  {
    IndexInRange(g, r, (r - g.rmin) / g.dx);
    assert SplineEval.SegmentIndex(r, g.rmin, g.dx) == KnotIndex(g, r);
    SplineEval.CorrectedValueAt(a, b, c, d, r, g.rcut, g.rmin, g.dx, g.x);
  }

  /** For `rmin < r <= rcut` on the derived grid, a distance's term dotted
      with `theta` is the value cubic of its segment, with the dotted basis
      rows as coefficients, at the offset from the segment's right knot. */
  lemma ContributionIsSegmentCubic(g: Grid, theta: Vector, a: seq<real>, b: seq<real>, c: seq<real>, d: seq<real>, r: real)
    requires UniformGrid(g) && g.rmin < r <= g.rcut
    requires FromCurvatures(g, theta, a, b, c, d)
    ensures var index := KnotIndex(g, r);
      && 1 <= index < g.cols
      && Contribution(g, r).Ok?
      && Dot(Contribution(g, r).value, theta)
         == SplineEval.Apply(SplineEval.ValuePoly(a[index - 1], b[index - 1], c[index - 1], d[index - 1]), r - g.x[index])
  {
    SegmentResolution(g, r);
    var index := KnotIndex(g, r);
    SegmentCubic(g, theta, a, b, c, d, index - 1, r - g.x[index]);
  }

  /** Segment `k`'s design row at offset `dr`, dotted with `theta`, is its value cubic. */
  lemma SegmentCubic(g: Grid, theta: Vector, a: seq<real>, b: seq<real>, c: seq<real>, d: seq<real>, k: nat, dr: real)
    requires Valid(g) && FromCurvatures(g, theta, a, b, c, d) && k < g.cols - 1
    ensures Dot(SegmentRow(BasisOf(g), g.cols - 1, g.cols, k, dr), theta)
         == SplineEval.Apply(SplineEval.ValuePoly(a[k], b[k], c[k], d[k]), dr)
  {
    SplineEval.DesignRowAt(BasisOf(g), g.cols - 1, g.cols, theta, a, b, c, d, k, dr);
  }

  /** At `r = rmin` the two disagree. The evaluator takes index 1 and reads
      segment 0 at offset `-dx`, whose first entry is `dx^2/6`, never zero;
      the energy model takes index 0, wraps to the zero row and adds
      nothing. */
  lemma InnerCutoffDisagrees(g: Grid)
    requires UniformGrid(g)
    ensures SplineEval.SegmentIndex(g.rmin, g.rmin, g.dx) == 1
    ensures g.rmin - g.x[1] == -g.dx
    ensures SegmentRow(BasisOf(g), g.cols - 1, g.cols, 0, -g.dx)[0] == g.dx * g.dx / 6.0 > 0.0
    ensures Contribution(g, g.rmin) == Ok(Zeros(g.cols))
  {
    InnerCutoffAddsNothing(g);
    var m := BasisOf(g);
    assert m.d[0][0] == -1.0 / g.dx;
    FirstEntryAtLeftKnot(g.dx, m.a[0][0], m.b[0][0], m.c[0][0], m.d[0][0]);
  }

  lemma FirstEntryAtLeftKnot(dx: real, a: real, b: real, c: real, d: real)
    requires dx > 0.0 && a == 0.0 && b == 0.0 && c == 0.0 && d == -1.0 / dx
    ensures a + b * (-dx) + c * ((-dx) * (-dx) / 2.0) + d * ((-dx) * (-dx) * (-dx) / 6.0) == dx * dx / 6.0 > 0.0
  {
    calc {
      d * ((-dx) * (-dx) * (-dx) / 6.0);
      -1.0 / dx * (-(dx * dx * dx) / 6.0);
      (dx * dx * dx) / dx / 6.0;
      dx * dx / 6.0;
    }
  }

  // ---------------------------------------------------------------------
  // A worked example
  // ---------------------------------------------------------------------

  /** Four intervals on [2, 6] (so dx = 1 and knots 2, 3, 4, 5, 6) and one
      configuration with a single pair at distance 3.5: the distance
      resolves to index 2 (segment 1) at offset -1/2, and `v` is that
      segment's row there. */
  lemma WorkedExample()
    ensures NewTwobody("pair", [[3.5]], 1, 6.0, 4, 2.0)
      == Ok(Twobody("pair", [[3.5]], 1, 6.0, 4, 2.0, 1.0, 5, [2.0, 3.0, 4.0, 5.0, 6.0],
                    SplineConstruction(4, 5, 1.0),
                    [[0.0, 1.0 / 48.0, 25.0 / 48.0, 3.0 / 2.0, 13.0 / 12.0]]))
  {
    var t := NewTwobody("pair", [[3.5]], 1, 6.0, 4, 2.0).value;
    var g := GridOf(t);
    assert t.interval == [2.0, 3.0, 4.0, 5.0, 6.0];
    assert EnergyRow(g, [3.5]) == Ok(t.v[0]);
    EnergyRowSingle(g, 3.5);
    SegmentResolution(g, 3.5);
    assert KnotIndex(g, 3.5) == 2;
    ExampleRow();
    assert t.dx == 1.0 && t.cols == 5;
    assert t.v == [t.v[0]];
  }

  /** Segment 1 of the four-interval basis with dx = 1, at offset -1/2. */
  lemma ExampleRow()
    ensures SegmentRow(SplineConstruction(4, 5, 1.0), 4, 5, 1, -0.5)
      == [0.0, 1.0 / 48.0, 25.0 / 48.0, 3.0 / 2.0, 13.0 / 12.0]
  {
    var m := SplineConstruction(4, 5, 1.0);
    assert m.a[1] == [0.0, 0.0, 1.0 / 6.0, 1.0, 5.0 / 6.0];
    assert m.b[1] == [0.0, 0.0, -0.5, -1.0, -0.5];
    assert m.c[1] == [0.0, 0.0, 1.0, 0.0, 0.0];
    assert m.d[1] == [0.0, -1.0, 1.0, 0.0, 0.0];
  }
}
