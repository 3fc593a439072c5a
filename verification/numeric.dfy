/** Small numeric vocabulary shared by the spline modules: failure-carrying
    results, vectors and matrices of exact reals, the exact ceiling, and
    Python's rule for indexing a sequence with a possibly negative index. */
module Numeric {

  datatype Option<+T> = None | Some(value: T)

  datatype Result<+T, +E> = Ok(value: T) | Err(error: E)

  type Vector = seq<real>
  type Matrix = seq<seq<real>>

  /** `m` has `rows` rows of `cols` entries each. */
  predicate IsMatrix(m: Matrix, rows: nat, cols: nat) {
    |m| == rows && forall i :: 0 <= i < rows ==> |m[i]| == cols
  }

  function Zeros(n: nat): (z: Vector)
    ensures |z| == n
    ensures forall i :: 0 <= i < n ==> z[i] == 0.0
  {
    seq(n, _ => 0.0)
  }

  /** Elementwise sum; numpy's `+` on two arrays of one shape. */
  function Add(u: Vector, v: Vector): (w: Vector)
    requires |u| == |v|
    ensures |w| == |u|
    ensures forall i :: 0 <= i < |w| ==> w[i] == u[i] + v[i]
  {
    seq(|u|, i requires 0 <= i < |u| => u[i] + v[i])
  }

  lemma AddCommutes(u: Vector, v: Vector)
    requires |u| == |v|
    ensures Add(u, v) == Add(v, u)
  {
  }

  lemma AddAssociates(u: Vector, v: Vector, w: Vector)
    requires |u| == |v| == |w|
    ensures Add(Add(u, v), w) == Add(u, Add(v, w))
  {
  }

  lemma AddZeros(u: Vector)
    ensures Add(Zeros(|u|), u) == u
    ensures Add(u, Zeros(|u|)) == u
  {
  }

  /** Sum of the entries, added left to right. */
  function Sum(v: Vector): real
  {
    if |v| == 0 then 0.0 else Sum(v[..|v| - 1]) + v[|v| - 1]
  }

  /** A vector that is zero outside positions `p` and `q` sums to `v[p] + v[q]`. */
  lemma {:induction false} SumOfTwoEntries(v: Vector, p: nat, q: nat)
    requires p < q < |v|
    requires forall i :: 0 <= i < |v| && i != p && i != q ==> v[i] == 0.0
    ensures Sum(v) == v[p] + v[q]
  {
    var n := |v| - 1;
    var init := v[..n];
    if n == q {
      SumOfOneEntry(init, p);
    } else {
      assert init[n - 1] == v[n - 1];
      SumOfTwoEntries(init, p, q);
    }
  }

  lemma {:induction false} SumOfOneEntry(v: Vector, p: nat)
    requires p < |v|
    requires forall i :: 0 <= i < |v| && i != p ==> v[i] == 0.0
    ensures Sum(v) == v[p]
  {
    var n := |v| - 1;
    if n == p {
      SumOfZeros(v[..n]);
    } else {
      SumOfOneEntry(v[..n], p);
    }
  }

  lemma {:induction false} SumOfZeros(v: Vector)
    requires forall i :: 0 <= i < |v| ==> v[i] == 0.0
    ensures Sum(v) == 0.0
  {
    if |v| > 0 {
      SumOfZeros(v[..|v| - 1]);
    }
  }

  /** Inner product, accumulated left to right. */
  function Dot(u: Vector, v: Vector): real
    requires |u| == |v|
  {
    DotUpTo(u, v, |u|)
  }

  /** Inner product of the first `n` entries. */
  function DotUpTo(u: Vector, v: Vector, n: nat): real
    requires n <= |u| == |v|
  {
    if n == 0 then 0.0 else DotUpTo(u, v, n - 1) + u[n - 1] * v[n - 1]
  }

  /** The inner product is linear in its first argument: if `w = u + s v`
      entrywise then `w . theta = u . theta + s (v . theta)`. */
  lemma DotOfSum(w: Vector, u: Vector, v: Vector, s: real, theta: Vector)
    requires |w| == |u| == |v| == |theta|
    requires forall j :: 0 <= j < |w| ==> w[j] == u[j] + v[j] * s
    ensures Dot(w, theta) == Dot(u, theta) + s * Dot(v, theta)
  {
    PrefixOfSum(w, u, v, s, theta, |w|);
  }

  lemma {:induction false} PrefixOfSum(w: Vector, u: Vector, v: Vector, s: real, theta: Vector, n: nat)
    requires |w| == |u| == |v| == |theta| && n <= |w|
    requires forall j :: 0 <= j < |w| ==> w[j] == u[j] + v[j] * s
    ensures DotUpTo(w, theta, n) == DotUpTo(u, theta, n) + s * DotUpTo(v, theta, n)
  {
    if n > 0 {
      var m := n - 1;
      PrefixOfSum(w, u, v, s, theta, m);
      SumStep(DotUpTo(w, theta, m), DotUpTo(u, theta, m), DotUpTo(v, theta, m),
              w[m], u[m], v[m], theta[m], s,
              DotUpTo(w, theta, n), DotUpTo(u, theta, n), DotUpTo(v, theta, n));
    }
  }

  /** One more term keeps `w = u + s v` among the partial inner products:
      `x1` is `x0` extended by the term `xm * t`. */
  lemma SumStep(w0: real, u0: real, v0: real, wm: real, um: real, vm: real, t: real, s: real,
                w1: real, u1: real, v1: real)
    requires w0 == u0 + s * v0 && wm == um + vm * s
    requires w1 == w0 + wm * t && u1 == u0 + um * t && v1 == v0 + vm * t
    ensures w1 == u1 + s * v1
  {
    calc {
      wm * t;
      (um + vm * s) * t;
      um * t + s * (vm * t);
    }
  }

  /** The four-term combinations `w = a + s1 b + s2 c + s3 d` the spline
      design rows are made of. */
  lemma DotOfCombination(w: Vector, a: Vector, b: Vector, c: Vector, d: Vector,
                         s1: real, s2: real, s3: real, theta: Vector)
    requires |w| == |a| == |b| == |c| == |d| == |theta|
    requires forall j :: 0 <= j < |w| ==> w[j] == a[j] + b[j] * s1 + c[j] * s2 + d[j] * s3
    ensures Dot(w, theta) == Dot(a, theta) + s1 * Dot(b, theta) + s2 * Dot(c, theta) + s3 * Dot(d, theta)
  {
    var n := |w|;
    var ab := seq(n, j requires 0 <= j < n => a[j] + b[j] * s1);
    var abc := seq(n, j requires 0 <= j < n => ab[j] + c[j] * s2);
    DotOfSum(ab, a, b, s1, theta);
    DotOfSum(abc, ab, c, s2, theta);
    DotOfSum(w, abc, d, s3, theta);
  }

  /** The least integer not below `t`, exact over the reals. */
  function Ceil(t: real): (n: int)
    ensures n as real - 1.0 < t <= n as real
  {
    -((-t).Floor)
  }

  /** Python's `s[i]` for a sequence of length `n`: non-negative indices
      count from the front, negative ones from the back, anything else
      raises IndexError (here: None). */
  function WrapIndex(i: int, n: nat): (k: Option<nat>)
    ensures k.Some? <==> -(n as int) <= i < n
    ensures k.Some? ==> k.value < n
    ensures k.Some? && 0 <= i ==> k.value == i
    ensures k.Some? && i < 0 ==> k.value == i + n
  {
    if 0 <= i < n then Some(i)
    else if -(n as int) <= i < 0 then Some(i + n)
    else None
  }
}
