/** Real vectors: sums, dot products and the algebra the solver relies on. */
module Vectors {

  type Vector = seq<real>

  function Sum(v: Vector): real {
    if |v| == 0 then 0.0 else v[0] + Sum(v[1..])
  }

  function Dot(v: Vector, w: Vector): real
    requires |v| == |w|
  {
    if |v| == 0 then 0.0 else v[0] * w[0] + Dot(v[1..], w[1..])
  }

  /** The vector of length `n` whose entries are all `c`. */
  function Constant(n: nat, c: real): (r: Vector)
    ensures |r| == n
    ensures forall j :: 0 <= j < n ==> r[j] == c
  {
    seq(n, _ => c)
  }

  /** The share `1/n` each of `n` entries gets in the uniform distribution. */
  function Share(n: nat): (c: real)
    requires n > 0
    ensures c * n as real == 1.0
    ensures 0.0 < c
  {
    1.0 / n as real
  }

  /** Element-wise difference, as `new - old` on two pandas series. */
  function Difference(v: Vector, w: Vector): (r: Vector)
    requires |v| == |w|
    ensures |r| == |v|
    ensures forall j :: 0 <= j < |v| ==> w[j] + r[j] == v[j]
  {
    seq(|v|, j requires 0 <= j < |v| => v[j] - w[j])
  }

  /** Element-wise sum. */
  function Add(v: Vector, w: Vector): (r: Vector)
    requires |v| == |w|
    ensures |r| == |v|
    ensures forall j :: 0 <= j < |v| ==> r[j] - w[j] == v[j]
  {
    seq(|v|, j requires 0 <= j < |v| => v[j] + w[j])
  }

  /** The element-wise affine map `a * v + b`. */
  function Affine(a: real, v: Vector, b: real): (r: Vector)
    ensures |r| == |v|
    ensures forall j :: 0 <= j < |v| ==> r[j] - b == a * v[j]
  {
    seq(|v|, j requires 0 <= j < |v| => a * v[j] + b)
  }

  /** Element-wise division by `d`, as `Series.div`. */
  function Divide(v: Vector, d: real): (r: Vector)
    requires d != 0.0
    ensures |r| == |v|
    ensures forall j :: 0 <= j < |v| ==> r[j] * d == v[j]
  {
    seq(|v|, j requires 0 <= j < |v| => v[j] / d)
  }

  predicate NonNegative(v: Vector) {
    forall j :: 0 <= j < |v| ==> 0.0 <= v[j]
  }

  predicate AtLeast(v: Vector, b: real) {
    forall j :: 0 <= j < |v| ==> b <= v[j]
  }

  /** A discrete probability distribution: non-negative entries summing to 1. */
  predicate IsDistribution(v: Vector) {
    NonNegative(v) && Sum(v) == 1.0
  }

  lemma {:induction false} SumConstant(n: nat, c: real)
    ensures Sum(Constant(n, c)) == n as real * c
  {
    if n > 0 {
      assert Constant(n, c)[1..] == Constant(n - 1, c);
      SumConstant(n - 1, c);
    }
  }

  lemma {:induction false} SumAdd(v: Vector, w: Vector)
    requires |v| == |w|
    ensures Sum(Add(v, w)) == Sum(v) + Sum(w)
  {
    if |v| > 0 {
      assert Add(v, w)[1..] == Add(v[1..], w[1..]);
      SumAdd(v[1..], w[1..]);
    }
  }

  /** `Affine` splits into its first entry and `Affine` of the tail. */
  lemma AffineTail(a: real, v: Vector, b: real)
    requires |v| > 0
    ensures Affine(a, v, b)[0] == a * v[0] + b
    ensures Affine(a, v, b)[1..] == Affine(a, v[1..], b)
  {
    forall j | 0 <= j < |v| - 1 ensures Affine(a, v, b)[1..][j] == Affine(a, v[1..], b)[j] {
      assert v[1..][j] == v[j + 1];
    }
  }

  /** The arithmetic step of `SumAffine`: the head term joins the tail's sum. */
  lemma Regroup(a: real, x: real, s: real, b: real, n: nat)
    requires n >= 1
    ensures (a * x + b) + (a * s + (n - 1) as real * b) == a * (x + s) + n as real * b
  {
  }

  lemma {:induction false} SumAffine(a: real, v: Vector, b: real)
    ensures Sum(Affine(a, v, b)) == a * Sum(v) + |v| as real * b
  {
    if |v| > 0 {
      AffineTail(a, v, b);
      SumAffine(a, v[1..], b);
      Regroup(a, v[0], Sum(v[1..]), b, |v|);
    }
  }

  lemma {:induction false} SumDivide(v: Vector, d: real)
    requires d != 0.0
    ensures Sum(Divide(v, d)) == Sum(v) / d
  {
    if |v| > 0 {
      assert Divide(v, d)[1..] == Divide(v[1..], d);
      SumDivide(v[1..], d);
    }
  }

  /** A sum of non-negative entries is non-negative, and zero only if every entry is. */
  lemma {:induction false} SumNonNegative(v: Vector)
    requires NonNegative(v)
    ensures 0.0 <= Sum(v)
    ensures Sum(v) == 0.0 ==> forall j :: 0 <= j < |v| ==> v[j] == 0.0
  {
    if |v| > 0 {
      SumNonNegative(v[1..]);
      forall j | 1 <= j < |v| ensures Sum(v) == 0.0 ==> v[j] == 0.0 {
        assert v[1..][j - 1] == v[j];
      }
    }
  }

  /** Dot product against a constant vector scales the sum. */
  lemma {:induction false} DotConstant(v: Vector, c: real)
    ensures Dot(v, Constant(|v|, c)) == c * Sum(v)
  {
    if |v| > 0 {
      assert Constant(|v|, c)[1..] == Constant(|v| - 1, c);
      DotConstant(v[1..], c);
    }
  }

  /** A weighted average of entries that are all at least `b` is at least `b`. */
  lemma {:induction false} DotLowerBound(v: Vector, w: Vector, b: real)
    requires |v| == |w|
    requires NonNegative(v)
    requires AtLeast(w, b)
    ensures b * Sum(v) <= Dot(v, w)
  {
    if |v| > 0 {
      DotLowerBound(v[1..], w[1..], b);
      assert 0.0 <= v[0] * (w[0] - b);
    }
  }

  /** The total of a difference is the difference of the totals. */
  lemma {:induction false} SumDifference(v: Vector, w: Vector)
    requires |v| == |w|
    ensures Sum(Difference(v, w)) == Sum(v) - Sum(w)
  {
    if |v| > 0 {
      SumDifference(v[1..], w[1..]);
      assert Difference(v, w)[1..] == Difference(v[1..], w[1..]);
    }
  }

  lemma {:induction false} DotZero(v: Vector)
    requires forall j :: 0 <= j < |v| ==> v[j] == 0.0
    ensures Dot(v, v) == 0.0
  {
    if |v| > 0 {
      DotZero(v[1..]);
    }
  }

  /** A one-entry vector that sums to 1 is exactly `[1.0]`. */
  lemma SingletonDistribution(v: Vector)
    requires |v| == 1 && Sum(v) == 1.0
    ensures v == [1.0]
  {
    assert Sum(v) == v[0] + Sum(v[1..]);
  }
}
