/**
 Real vectors and square matrices as values, the row-stochastic property of a
 transition matrix, and the link between a heap-allocated two-dimensional
 array and the matrix value it holds.
 */
module Matrices {

  type Vector = seq<real>
  type Matrix = seq<Vector>

  /** The sum of the entries of v, accumulated from the left. */
  function Sum(v: Vector): real
  {
    if |v| == 0 then 0.0 else Sum(v[..|v| - 1]) + v[|v| - 1]
  }

  lemma SumPair(a: real, b: real)
    ensures Sum([a, b]) == a + b
  {
    assert [a, b][..1] == [a];
    assert [a][..0] == [];
    assert Sum([a]) == a;
  }

  /** n zeros. */
  function Zeros(n: nat): (z: Vector)
    ensures |z| == n
    ensures forall j :: 0 <= j < n ==> z[j] == 0.0
  {
    seq(n, _ => 0.0)
  }

  /** M has n rows of n entries each. */
  predicate IsSquare(M: Matrix, n: nat)
  {
    |M| == n && forall i :: 0 <= i < n ==> |M[i]| == n
  }

  predicate RowsSumToOne(M: Matrix)
  {
    forall i :: 0 <= i < |M| ==> Sum(M[i]) == 1.0
  }

  predicate NonNegative(M: Matrix)
  {
    forall i, j :: 0 <= i < |M| && 0 <= j < |M[i]| ==> 0.0 <= M[i][j]
  }

  /** A transition matrix: every entry is non-negative and every row sums to 1. */
  predicate Stochastic(M: Matrix)
  {
    RowsSumToOne(M) && NonNegative(M)
  }

  /** The array a (rows by columns) holds exactly the square matrix M. */
  ghost predicate Represents(a: array2<real>, M: Matrix)
    reads a
  {
    && IsSquare(M, a.Length0)
    && a.Length1 == a.Length0
    && forall i, j :: 0 <= i < a.Length0 && 0 <= j < a.Length1 ==> a[i, j] == M[i][j]
  }

  lemma {:induction false} SumAppend(x: Vector, y: Vector)
    ensures Sum(x + y) == Sum(x) + Sum(y)
    decreases |y|
  {
    if |y| == 0 {
      assert x + y == x;
    } else {
      var xy := x + y;
      assert xy[..|xy| - 1] == x + y[..|y| - 1];
      SumAppend(x, y[..|y| - 1]);
    }
  }

  lemma {:induction false} SumOfZeros(v: Vector)
    requires forall j :: 0 <= j < |v| ==> v[j] == 0.0
    ensures Sum(v) == 0.0
    decreases |v|
  {
    if |v| > 0 {
      SumOfZeros(v[..|v| - 1]);
    }
  }

  /** Summing a vector scaled entrywise by h scales the sum by h. */
  lemma {:induction false} SumScaled(h: real, x: Vector, v: Vector)
    requires |v| == |x|
    requires forall j :: 0 <= j < |v| ==> v[j] == h * x[j]
    ensures Sum(v) == h * Sum(x)
    decreases |v|
  {
    if |v| > 0 {
      var n := |v|;
      SumScaled(h, x[..n - 1], v[..n - 1]);
      assert Sum(v) == Sum(v[..n - 1]) + v[n - 1];
      assert Sum(x) == Sum(x[..n - 1]) + x[n - 1];
      assert h * Sum(x) == h * Sum(x[..n - 1]) + h * x[n - 1];
    }
  }

  /** Summing an entrywise weighted combination of four vectors gives the
      same weighted combination of their sums. */
  lemma {:induction false} SumOfCombination(a: real, b: real, c: real, d: real, w: Vector, x: Vector, y: Vector, z: Vector, v: Vector)
    requires |w| == |v| && |x| == |v| && |y| == |v| && |z| == |v|
    requires forall j :: 0 <= j < |v| ==> v[j] == a * w[j] + b * x[j] + c * y[j] + d * z[j]
    ensures Sum(v) == a * Sum(w) + b * Sum(x) + c * Sum(y) + d * Sum(z)
    decreases |v|
  {
    if |v| > 0 {
      var n := |v|;
      SumOfCombination(a, b, c, d, w[..n - 1], x[..n - 1], y[..n - 1], z[..n - 1], v[..n - 1]);
      assert a * Sum(w) == a * Sum(w[..n - 1]) + a * w[n - 1];
      assert b * Sum(x) == b * Sum(x[..n - 1]) + b * x[n - 1];
      assert c * Sum(y) == c * Sum(y[..n - 1]) + c * y[n - 1];
      assert d * Sum(z) == d * Sum(z[..n - 1]) + d * z[n - 1];
    }
  }

  /** In a vector without negative entries, no entry exceeds the sum. */
  lemma {:induction false} EntryAtMostSum(v: Vector, j: nat)
    requires j < |v|
    requires forall k :: 0 <= k < |v| ==> 0.0 <= v[k]
    ensures 0.0 <= v[j] <= Sum(v)
    decreases |v|
  {
    var n := |v|;
    if j == n - 1 {
      SumNonNegative(v[..n - 1]);
    } else {
      EntryAtMostSum(v[..n - 1], j);
    }
  }

  lemma {:induction false} SumNonNegative(v: Vector)
    requires forall k :: 0 <= k < |v| ==> 0.0 <= v[k]
    ensures 0.0 <= Sum(v)
    decreases |v|
  {
    if |v| > 0 {
      SumNonNegative(v[..|v| - 1]);
    }
  }

  /** Every entry of a stochastic matrix is a probability. */
  lemma StochasticEntriesInUnitInterval(M: Matrix)
    requires Stochastic(M)
    ensures forall i, j :: 0 <= i < |M| && 0 <= j < |M[i]| ==> 0.0 <= M[i][j] <= 1.0
  {
    forall i, j | 0 <= i < |M| && 0 <= j < |M[i]|
      ensures 0.0 <= M[i][j] <= 1.0
    {
      EntryAtMostSum(M[i], j);
    }
  }
}
