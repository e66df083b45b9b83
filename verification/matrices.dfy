/** Dense real matrices, row-major: `m[r][c]` is the weight in row `r`, column `c`. */
module Matrices {
  import opened Vectors

  type Matrix = seq<seq<real>>

  /** Every row of `m` has exactly `width` entries. */
  predicate Rectangular(m: Matrix, width: nat) {
    forall i :: 0 <= i < |m| ==> |m[i]| == width
  }

  predicate IsSquare(m: Matrix, n: nat) {
    |m| == n && Rectangular(m, n)
  }

  predicate AllNonNegative(m: Matrix) {
    forall i :: 0 <= i < |m| ==> NonNegative(m[i])
  }

  predicate RowSumsOne(m: Matrix) {
    forall i :: 0 <= i < |m| ==> Sum(m[i]) == 1.0
  }

  /** Non-negative with every row summing to 1. */
  predicate RowStochastic(m: Matrix) {
    AllNonNegative(m) && RowSumsOne(m)
  }

  predicate EntriesAtLeast(m: Matrix, b: real) {
    forall i :: 0 <= i < |m| ==> AtLeast(m[i], b)
  }

  function Column(m: Matrix, width: nat, j: nat): (c: Vector)
    requires Rectangular(m, width) && j < width
    ensures |c| == |m|
    ensures forall i :: 0 <= i < |m| ==> c[i] == m[i][j]
  {
    seq(|m|, i requires 0 <= i < |m| => m[i][j])
  }

  /** The row-vector/matrix product `v · m`, as `Series.dot(DataFrame)`. */
  function Product(v: Vector, m: Matrix, width: nat): (r: Vector)
    requires |v| == |m| && Rectangular(m, width)
    ensures |r| == width
  {
    seq(width, j requires 0 <= j < width => Dot(v, Column(m, width, j)))
  }

  /** Peeling off the first row: `v · m == v[0] * m[0] + v[1..] · m[1..]`. */
  lemma ProductFirstRow(v: Vector, m: Matrix, width: nat)
    requires |v| == |m| > 0 && Rectangular(m, width)
    ensures Product(v, m, width)
         == Add(Affine(v[0], m[0], 0.0), Product(v[1..], m[1..], width))
  {
    forall j | 0 <= j < width
      ensures Product(v, m, width)[j]
           == Add(Affine(v[0], m[0], 0.0), Product(v[1..], m[1..], width))[j]
    {
      assert Column(m, width, j)[1..] == Column(m[1..], width, j);
    }
  }

  /** The total mass of `v · m` is `v` weighted by the row sums of `m`. */
  lemma {:induction false} ProductSum(v: Vector, m: Matrix, width: nat)
    requires |v| == |m| && Rectangular(m, width)
    ensures Sum(Product(v, m, width)) == Dot(v, RowSums(m))
  {
    if |v| == 0 {
      assert Product(v, m, width) == Constant(width, 0.0);
      SumConstant(width, 0.0);
    } else {
      ProductFirstRow(v, m, width);
      SumAdd(Affine(v[0], m[0], 0.0), Product(v[1..], m[1..], width));
      SumAffine(v[0], m[0], 0.0);
      ProductSum(v[1..], m[1..], width);
      assert RowSums(m)[1..] == RowSums(m[1..]);
    }
  }

  function RowSums(m: Matrix): (r: Vector)
    ensures |r| == |m|
    ensures forall i :: 0 <= i < |m| ==> r[i] == Sum(m[i])
  {
    seq(|m|, i requires 0 <= i < |m| => Sum(m[i]))
  }

  /** A product with a matrix whose rows sum to 1 conserves total mass. */
  lemma ProductConservesMass(v: Vector, m: Matrix, width: nat)
    requires |v| == |m| && Rectangular(m, width)
    requires RowSumsOne(m)
    ensures Sum(Product(v, m, width)) == Sum(v)
  {
    ProductSum(v, m, width);
    assert RowSums(m) == Constant(|m|, 1.0);
    DotConstant(v, 1.0);
  }

  /** A non-negative vector times a matrix whose entries are all at least `b`
      has every entry at least `b` times its mass. */
  lemma ProductLowerBound(v: Vector, m: Matrix, width: nat, b: real)
    requires |v| == |m| && Rectangular(m, width)
    requires NonNegative(v) && EntriesAtLeast(m, b)
    ensures AtLeast(Product(v, m, width), b * Sum(v))
  {
    forall j | 0 <= j < width ensures b * Sum(v) <= Product(v, m, width)[j] {
      DotLowerBound(v, Column(m, width, j), b);
    }
  }

  /** If every entry of `m` is `c`, then every entry of `v · m` is `c` times the mass of `v`. */
  lemma ProductOfConstant(v: Vector, m: Matrix, width: nat, c: real)
    requires |v| == |m| && Rectangular(m, width)
    requires forall i, j :: 0 <= i < |m| && 0 <= j < width ==> m[i][j] == c
    ensures forall j :: 0 <= j < width ==> Product(v, m, width)[j] == c * Sum(v)
  {
    forall j | 0 <= j < width ensures Product(v, m, width)[j] == c * Sum(v) {
      assert Column(m, width, j) == Constant(|v|, c);
      DotConstant(v, c);
    }
  }
}
