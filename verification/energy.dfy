/** The energy design-matrix builder (`spline_energy_model`). Each
    configuration's pair distances inside `[rmin, rcut]` are mapped to their
    segment, and the basis rows of that segment, weighted by powers of the
    offset from the segment's right knot, are summed into one row `v[c]`.
    For a curvature vector `theta`, `v[c] . theta` is the configuration's
    pairwise energy. */
module EnergyModel {
  import opened Numeric
  import opened SplineBasis

  /** The only failure here is Python's IndexError on an out-of-range lookup. */
  datatype LookupError = IndexOutOfRange

  type Row = Result<Vector, LookupError>

  /** The parameters `spline_energy_model` reads besides the distances:
      the cutoff window, the knot count `cols`, the spacing and the knots. */
  datatype Grid = Grid(rcut: real, rmin: real, cols: nat, dx: real, x: seq<real>)

  /** At least two knots (the row deletion in the basis constructor fails
      on an empty matrix) and a positive spacing, as `Twobody`, the only
      caller, derives it from ordered cutoffs. */
  predicate Valid(g: Grid) {
    g.cols >= 2 && g.dx > 0.0
  }

  function BasisOf(g: Grid): (m: Basis)
    requires Valid(g)
    ensures Shaped(m, g.cols - 1, g.cols)
  {
    SplineConstruction(g.cols - 1, g.cols, g.dx)
  }

  predicate InWindow(g: Grid, r: real) {
    r <= g.rcut && r >= g.rmin
  }

  /** The list comprehension that keeps the distances inside the window, in
      order: every kept distance is in the window, and every in-window value
      keeps all its copies. */
  function Filter(g: Grid, ds: seq<real>): (kept: seq<real>)
    ensures forall i :: 0 <= i < |kept| ==> InWindow(g, kept[i])
    ensures multiset(kept) <= multiset(ds)
    ensures forall i :: 0 <= i < |ds| && InWindow(g, ds[i]) ==> multiset(kept)[ds[i]] == multiset(ds)[ds[i]]
  {
    ComprehensionCounts(g, ds);
    Comprehension(g, ds)
  }

  /** The comprehension itself, one distance at a time from the right. */
  function Comprehension(g: Grid, ds: seq<real>): seq<real>
  {
    if |ds| == 0 then []
    else Comprehension(g, ds[..|ds| - 1]) + (if InWindow(g, ds[|ds| - 1]) then [ds[|ds| - 1]] else [])
  }

  lemma {:induction false} ComprehensionCounts(g: Grid, ds: seq<real>)
    ensures var kept := Comprehension(g, ds);
      && (forall i :: 0 <= i < |kept| ==> InWindow(g, kept[i]))
      && multiset(kept) <= multiset(ds)
      && forall i :: 0 <= i < |ds| && InWindow(g, ds[i]) ==> multiset(kept)[ds[i]] == multiset(ds)[ds[i]]
  {
    if |ds| > 0 {
      var init, r := ds[..|ds| - 1], ds[|ds| - 1];
      ComprehensionCounts(g, init);
      assert ds == init + [r];
      assert multiset(ds) == multiset(init) + multiset{r};
      var tail := if InWindow(g, r) then [r] else [];
      assert multiset(Comprehension(g, ds)) == multiset(Comprehension(g, init)) + multiset(tail);
    }
  }

  /** The filter keeps every copy of every in-window distance and nothing
      else: the count of each value in the kept list is its count in `ds`
      when it lies in the window, and zero otherwise. */
  lemma FilterKeepsEveryCopy(g: Grid, ds: seq<real>)
    ensures forall r :: multiset(Filter(g, ds))[r] == if InWindow(g, r) then multiset(ds)[r] else 0
  {
    var kept := Filter(g, ds);
    forall r
      ensures multiset(kept)[r] == if InWindow(g, r) then multiset(ds)[r] else 0
    {
      if InWindow(g, r) && r in ds {
        var i :| 0 <= i < |ds| && ds[i] == r;
      }
    }
  }

  /** The segment index, `ceil((r - rmin) / dx)` computed exactly. */
  function KnotIndex(g: Grid, r: real): (index: int)
    requires g.dx > 0.0
    ensures (index - 1) as real < (r - g.rmin) / g.dx <= index as real
  {
    Ceil((r - g.rmin) / g.dx)
  }

  /** One distance's term `A[k] + B[k] delta + C[k] delta^2/2 + D[k] delta^3/6`
      with `k = index - 1` and `delta = r - x[index]`, both lookups following
      Python's indexing (so `index = 0` reads the last basis row). */
  function Contribution(g: Grid, r: real): (res: Row)
    requires Valid(g)
    ensures res.Ok? ==> |res.value| == g.cols
    ensures res.Ok? <==> -|g.x| <= KnotIndex(g, r) < |g.x| && -(g.cols - 1) <= KnotIndex(g, r) - 1 < g.cols - 1
  {
    var index := KnotIndex(g, r);
    match (WrapIndex(index, |g.x|), WrapIndex(index - 1, g.cols - 1))
    case (Some(xi), Some(k)) =>
      var delta := r - g.x[xi];
      Ok(SegmentRow(BasisOf(g), g.cols - 1, g.cols, k, delta))
    case _ => Err(IndexOutOfRange)
  }

  /** `u = u + term`, where any failure aborts the whole row. */
  function Combine(u: Row, t: Row): (res: Row)
    requires u.Ok? && t.Ok? ==> |u.value| == |t.value|
    ensures res.Ok? <==> u.Ok? && t.Ok?
    ensures res.Ok? ==> |res.value| == |u.value|
    ensures res.Ok? ==> forall i :: 0 <= i < |res.value| ==> res.value[i] == u.value[i] + t.value[i]
  {
    if u.Err? then u
    else if t.Err? then t
    else Ok(Add(u.value, t.value))
  }

  /** The accumulation loop over already filtered distances, starting from
      the zero row. */
  function Accumulate(g: Grid, rs: seq<real>): (res: Row)
    requires Valid(g)
    ensures res.Ok? ==> |res.value| == g.cols
    ensures res.Ok? <==> forall i :: 0 <= i < |rs| ==> Contribution(g, rs[i]).Ok?
  {
    if |rs| == 0 then Ok(Zeros(g.cols))
    else Combine(Accumulate(g, rs[..|rs| - 1]), Contribution(g, rs[|rs| - 1]))
  }

  /** One row of `v`: the distances of one configuration, filtered and accumulated. */
  function EnergyRow(g: Grid, ds: seq<real>): (res: Row)
    requires Valid(g)
    ensures res.Ok? ==> |res.value| == g.cols
    ensures res.Ok? <==> forall i :: 0 <= i < |ds| && InWindow(g, ds[i]) ==> Contribution(g, ds[i]).Ok?
  {
    var kept := Filter(g, ds);
    KeptAreDistances(g, ds, kept);
    Accumulate(g, kept)
  }

  /** The kept distances are exactly the in-window entries of `ds`. */
  lemma KeptAreDistances(g: Grid, ds: seq<real>, kept: seq<real>)
    requires kept == Filter(g, ds)
    ensures forall i :: 0 <= i < |kept| ==> kept[i] in ds
    ensures forall i :: 0 <= i < |ds| && InWindow(g, ds[i]) ==> ds[i] in kept
  {
    forall i | 0 <= i < |kept|
      ensures kept[i] in ds
    {
      assert multiset(kept)[kept[i]] > 0;
    }
    forall i | 0 <= i < |ds| && InWindow(g, ds[i])
      ensures ds[i] in kept
    {
      assert multiset(ds)[ds[i]] > 0;
    }
  }

  /** `spline_energy_model(Rcut, Rmin, df, cols, dx, size, x)`: one row per
      configuration `0 <= c < size`; indexing past the end of `df` is an
      IndexError, like any failed lookup inside a row. */
  function SplineEnergyModel(rcut: real, rmin: real, df: seq<seq<real>>, cols: nat, dx: real,
                             size: nat, x: seq<real>): (v: Result<Matrix, LookupError>)
    requires cols >= 2 && dx > 0.0
    ensures v.Ok? ==> IsMatrix(v.value, size, cols)
    ensures v.Ok? ==> size <= |df| && forall c :: 0 <= c < size ==>
      EnergyRow(Grid(rcut, rmin, cols, dx, x), df[c]) == Ok(v.value[c])
    ensures v.Err? <==> size > |df| || exists c :: 0 <= c < size && EnergyRow(Grid(rcut, rmin, cols, dx, x), df[c]).Err?
  {
    var g := Grid(rcut, rmin, cols, dx, x);
    if size <= |df| && forall c :: 0 <= c < size ==> EnergyRow(g, df[c]).Ok? then
      Ok(seq(size, c requires 0 <= c < size => EnergyRow(g, df[c]).value))
    else
      Err(IndexOutOfRange)
  }

  /** The source's two loops, filter then accumulate, written as loops. */
  method EnergyRowLoop(g: Grid, ds: seq<real>) returns (res: Row)
    requires Valid(g)
    ensures res == EnergyRow(g, ds)
  {
    var distances := [];
    var i := 0;
    while i < |ds|
      invariant 0 <= i <= |ds|
      invariant distances == Filter(g, ds[..i])
    {
      FilterStep(g, ds, i);
      if InWindow(g, ds[i]) {
        distances := distances + [ds[i]];
      }
      i := i + 1;
    }
    assert ds[..|ds|] == ds;
    var u := Zeros(g.cols);
    var n := 0;
    while n < |distances|
      invariant 0 <= n <= |distances|
      invariant |u| == g.cols
      invariant Accumulate(g, distances[..n]) == Ok(u)
    {
      AccumulateStep(g, distances, n);
      var term := Contribution(g, distances[n]);
      if term.Err? {
        AccumulateAbsorbsFailure(g, distances, n + 1);
        FailureIsIndexError(Accumulate(g, distances));
        return Err(IndexOutOfRange);
      }
      u := Add(u, term.value);
      n := n + 1;
    }
    assert distances[..|distances|] == distances;
    res := Ok(u);
  }

  lemma FilterStep(g: Grid, ds: seq<real>, i: nat)
    requires i < |ds|
    ensures Filter(g, ds[..i + 1]) == Filter(g, ds[..i]) + (if InWindow(g, ds[i]) then [ds[i]] else [])
  {
    assert ds[..i + 1][..i] == ds[..i];
  }

  lemma AccumulateStep(g: Grid, rs: seq<real>, n: nat)
    requires Valid(g) && n < |rs|
    ensures Accumulate(g, rs[..n + 1]) == Combine(Accumulate(g, rs[..n]), Contribution(g, rs[n]))
  {
    assert rs[..n + 1][..n] == rs[..n];
  }

  /** Once a prefix fails, every longer prefix fails. */
  lemma {:induction false} AccumulateAbsorbsFailure(g: Grid, rs: seq<real>, n: nat)
    requires Valid(g) && n <= |rs|
    requires Accumulate(g, rs[..n]).Err?
    ensures Accumulate(g, rs).Err?
    decreases |rs| - n
  {
    if n < |rs| {
      assert rs[..n + 1][..n] == rs[..n];
      AccumulateAbsorbsFailure(g, rs, n + 1);
    } else {
      assert rs[..n] == rs;
    }
  }

  /** Every failed row carries the one error there is. */
  lemma FailureIsIndexError(u: Row)
    requires u.Err?
    ensures u == Err(IndexOutOfRange)
  {
    match u.error {
      case IndexOutOfRange =>
    }
  }

  // ---------------------------------------------------------------------
  // Algebra of rows
  // ---------------------------------------------------------------------

  /** Rows that succeed have the row length. */
  predicate WellShaped(g: Grid, u: Row) {
    u.Ok? ==> |u.value| == g.cols
  }

  lemma CombineCommutes(g: Grid, u: Row, t: Row)
    requires WellShaped(g, u) && WellShaped(g, t)
    ensures Combine(u, t) == Combine(t, u)
  {
    if u.Ok? && t.Ok? {
      AddCommutes(u.value, t.value);
    } else if u.Err? && t.Err? {
      FailureIsIndexError(u);
      FailureIsIndexError(t);
    }
  }

  lemma CombineAssociates(g: Grid, u: Row, t: Row, w: Row)
    requires WellShaped(g, u) && WellShaped(g, t) && WellShaped(g, w)
    ensures Combine(Combine(u, t), w) == Combine(u, Combine(t, w))
  {
    if u.Ok? && t.Ok? && w.Ok? {
      AddAssociates(u.value, t.value, w.value);
    }
  }

  lemma CombineZero(g: Grid, u: Row)
    requires WellShaped(g, u)
    ensures Combine(Ok(Zeros(g.cols)), u) == u
    ensures Combine(u, Ok(Zeros(g.cols))) == u
  {
    if u.Ok? {
      AddZeros(u.value);
    }
  }

  /** Accumulating a concatenation combines the two partial sums. */
  lemma {:induction false} AccumulateAppend(g: Grid, rs1: seq<real>, rs2: seq<real>)
    requires Valid(g)
    ensures Accumulate(g, rs1 + rs2) == Combine(Accumulate(g, rs1), Accumulate(g, rs2))
    decreases |rs2|
  {
    if |rs2| == 0 {
      assert rs1 + rs2 == rs1;
      CombineZero(g, Accumulate(g, rs1));
    } else {
      var init, r := rs2[..|rs2| - 1], rs2[|rs2| - 1];
      assert (rs1 + rs2)[..|rs1 + rs2| - 1] == rs1 + init;
      AccumulateAppend(g, rs1, init);
      CombineAssociates(g, Accumulate(g, rs1), Accumulate(g, init), Contribution(g, r));
    }
  }

  lemma FilterAppend(g: Grid, ds1: seq<real>, ds2: seq<real>)
    ensures Filter(g, ds1 + ds2) == Filter(g, ds1) + Filter(g, ds2)
  {
    ComprehensionAppend(g, ds1, ds2);
  }

  lemma {:induction false} ComprehensionAppend(g: Grid, ds1: seq<real>, ds2: seq<real>)
    ensures Comprehension(g, ds1 + ds2) == Comprehension(g, ds1) + Comprehension(g, ds2)
    decreases |ds2|
  {
    if |ds2| == 0 {
      assert ds1 + ds2 == ds1;
    } else {
      var init := ds2[..|ds2| - 1];
      assert (ds1 + ds2)[..|ds1 + ds2| - 1] == ds1 + init;
      ComprehensionAppend(g, ds1, init);
    }
  }

  /** Additivity: the row of two distance lists together is the sum of
      their rows (and fails exactly when one of them fails). */
  lemma EnergyRowAdditive(g: Grid, ds1: seq<real>, ds2: seq<real>)
    requires Valid(g)
    ensures EnergyRow(g, ds1 + ds2) == Combine(EnergyRow(g, ds1), EnergyRow(g, ds2))
  {
    FilterAppend(g, ds1, ds2);
    AccumulateAppend(g, Filter(g, ds1), Filter(g, ds2));
  }

  /** A single distance contributes its term if it is inside the window and
      the zero row otherwise. */
  lemma EnergyRowSingle(g: Grid, r: real)
    requires Valid(g)
    ensures EnergyRow(g, [r]) == if InWindow(g, r) then Contribution(g, r) else Ok(Zeros(g.cols))
  {
    assert [r][..0] == [];
    assert Filter(g, []) == [];
    if InWindow(g, r) {
      assert Filter(g, [r]) == [r];
      assert [r][..|[r]| - 1] == [];
      assert Accumulate(g, []) == Ok(Zeros(g.cols));
      assert Accumulate(g, [r]) == Combine(Ok(Zeros(g.cols)), Contribution(g, r));
      CombineZero(g, Contribution(g, r));
    } else {
      assert Filter(g, [r]) == [];
    }
  }

  /** Inserting a distance outside `[rmin, rcut]` anywhere leaves the row unchanged. */
  lemma OutOfWindowIgnored(g: Grid, ds1: seq<real>, r: real, ds2: seq<real>)
    requires Valid(g) && !InWindow(g, r)
    ensures EnergyRow(g, ds1 + [r] + ds2) == EnergyRow(g, ds1 + ds2)
  {
    EnergyRowAdditive(g, ds1 + [r], ds2);
    EnergyRowAdditive(g, ds1, [r]);
    EnergyRowAdditive(g, ds1, ds2);
    EnergyRowSingle(g, r);
    CombineZero(g, EnergyRow(g, ds1));
  }

  /** A configuration with no distance inside the window gets the all-zero
      row of length `cols`. */
  lemma {:induction false} EmptyWindowGivesZeroRow(g: Grid, ds: seq<real>)
    requires Valid(g)
    requires forall i :: 0 <= i < |ds| ==> !InWindow(g, ds[i])
    ensures EnergyRow(g, ds) == Ok(Zeros(g.cols))
  {
    if |ds| > 0 {
      var init, r := ds[..|ds| - 1], ds[|ds| - 1];
      assert ds == init + [r];
      EmptyWindowGivesZeroRow(g, init);
      EnergyRowAdditive(g, init, [r]);
      EnergyRowSingle(g, r);
      CombineZero(g, Ok(Zeros(g.cols)));
    }
  }

  /** The row does not depend on the order of the distances: any
      rearrangement of a configuration's distances gives the same row. */
  lemma {:induction false} EnergyRowPermutation(g: Grid, ds1: seq<real>, ds2: seq<real>)
    requires Valid(g)
    requires multiset(ds1) == multiset(ds2)
    ensures EnergyRow(g, ds1) == EnergyRow(g, ds2)
    decreases |ds1|
  {
    if |ds1| == 0 {
      assert |ds2| == |multiset(ds2)| == 0;
    } else {
      var init, r := ds1[..|ds1| - 1], ds1[|ds1| - 1];
      assert ds1 == init + [r];
      assert r in multiset(ds2);
      var i :| 0 <= i < |ds2| && ds2[i] == r;
      var before, after := ds2[..i], ds2[i + 1..];
      assert ds2 == before + [r] + after;
      RemoveMatched(ds1, ds2, i);
      EnergyRowPermutation(g, init, before + after);
      MoveToEnd(g, before, r, after);
      EnergyRowAdditive(g, init, [r]);
    }
  }

  /** Removing the last element of `ds1` and a matching element of `ds2`
      keeps two permutations of each other. */
  lemma RemoveMatched(ds1: seq<real>, ds2: seq<real>, i: nat)
    requires |ds1| > 0 && multiset(ds1) == multiset(ds2)
    requires i < |ds2| && ds2[i] == ds1[|ds1| - 1]
    ensures multiset(ds1[..|ds1| - 1]) == multiset(ds2[..i] + ds2[i + 1..])
  {
    var init, r := ds1[..|ds1| - 1], ds1[|ds1| - 1];
    var before, after := ds2[..i], ds2[i + 1..];
    assert ds1 == init + [r];
    assert ds2 == before + [r] + after;
    assert multiset(ds1) == multiset(init) + multiset{r};
    assert multiset(ds2) == multiset(before) + multiset{r} + multiset(after);
    assert multiset(before + after) == multiset(before) + multiset(after);
    assert multiset(init) == multiset(ds1) - multiset{r};
    assert multiset(before + after) == multiset(ds2) - multiset{r};
  }

  /** A distance in the middle of a list contributes as if it came last. */
  lemma MoveToEnd(g: Grid, before: seq<real>, r: real, after: seq<real>)
    requires Valid(g)
    ensures EnergyRow(g, before + [r] + after) == Combine(EnergyRow(g, before + after), EnergyRow(g, [r]))
  {
    var rowB, rowR, rowA := EnergyRow(g, before), EnergyRow(g, [r]), EnergyRow(g, after);
    calc {
      EnergyRow(g, before + [r] + after);
      { EnergyRowAdditive(g, before + [r], after); EnergyRowAdditive(g, before, [r]); }
      Combine(Combine(rowB, rowR), rowA);
      { CombineAssociates(g, rowB, rowR, rowA); }
      Combine(rowB, Combine(rowR, rowA));
      { CombineCommutes(g, rowR, rowA); }
      Combine(rowB, Combine(rowA, rowR));
      { CombineAssociates(g, rowB, rowA, rowR); }
      Combine(Combine(rowB, rowA), rowR);
      { EnergyRowAdditive(g, before, after); }
      Combine(EnergyRow(g, before + after), rowR);
    }
  }
}
