/**
 Tauchen's (1986) discretisation of z' = rho * z + e: a uniform grid over
 plus or minus m standard deviations, and a transition matrix whose entries
 are CDF differences over bins of half-width d / 2 around the grid points,
 the two tails going to the end columns. The matrix is specified for an
 arbitrary CDF; the program itself uses the normal CDF approximation Phi.
 */
module Tauchen {
  import opened Matrices
  import opened Ar1
  import NormalCdf

  /** Standardised upper boundary of bin j as seen from grid point i: the
      bin has standardised width d / sigE. */
  function Upper(z: seq<real>, d: real, rho: real, sigE: PosReal, i: nat, j: nat): (b: real)
    requires i < |z| && j < |z|
    ensures b == Lower(z, d, rho, sigE, i, j) + d / sigE
  {
    (z[j] + d / 2.0 - rho * z[i]) / sigE
  }

  /** Standardised lower boundary of bin j as seen from grid point i: back
      in the units of z it lies at z[j] - d / 2, measured from the
      conditional mean rho * z[i]. */
  function Lower(z: seq<real>, d: real, rho: real, sigE: PosReal, i: nat, j: nat): (b: real)
    requires i < |z| && j < |z|
    ensures rho * z[i] + sigE * b == z[j] - d / 2.0
  {
    (z[j] - d / 2.0 - rho * z[i]) / sigE
  }

  /** Probability of moving from grid point i to grid point j: all mass below
      the first upper boundary for column 0, all mass above the last lower
      boundary for the last column, the mass of bin j otherwise. With a
      genuine CDF and a non-negative step it is a probability. */
  function Entry(z: seq<real>, d: real, rho: real, sigE: PosReal, cdf: real -> real, i: nat, j: nat): (p: real)
    requires i < |z| && j < |z|
    ensures IsCdf(cdf) && d >= 0.0 ==> 0.0 <= p <= 1.0
  {
    if j == 0 then cdf(Upper(z, d, rho, sigE, i, 0))
    else if j == |z| - 1 then 1.0 - cdf(Lower(z, d, rho, sigE, i, |z| - 1))
    else cdf(Upper(z, d, rho, sigE, i, j)) - cdf(Lower(z, d, rho, sigE, i, j))
  }

  function Row(z: seq<real>, d: real, rho: real, sigE: PosReal, cdf: real -> real, i: nat): (r: Vector)
    requires i < |z|
    ensures |r| == |z|
  {
    seq(|z|, j requires 0 <= j < |z| => Entry(z, d, rho, sigE, cdf, i, j))
  }

  function TransitionMatrix(z: seq<real>, d: real, rho: real, sigE: PosReal, cdf: real -> real): (M: Matrix)
    ensures IsSquare(M, |z|)
  {
    seq(|z|, i requires 0 <= i < |z| => Row(z, d, rho, sigE, cdf, i))
  }

  /** A cumulative distribution function: non-decreasing, with values in [0, 1]. */
  ghost predicate IsCdf(cdf: real -> real)
  {
    && (forall x, y :: x <= y ==> cdf(x) <= cdf(y))
    && (forall x :: 0.0 <= cdf(x) <= 1.0)
  }

  /** On an equally spaced grid the upper boundary of one bin is the lower
      boundary of the next. */
  lemma AdjacentBoundaries(z: seq<real>, d: real, rho: real, sigE: PosReal, i: nat, j: nat)
    requires EquallySpaced(z, d) && i < |z| && j + 1 < |z|
    ensures Lower(z, d, rho, sigE, i, j + 1) == Upper(z, d, rho, sigE, i, j)
  {
    assert z[j + 1] - d / 2.0 == z[j] + d / 2.0;
  }

  /** The first k entries of a row telescope to the CDF at the upper boundary of bin k - 1. */
  lemma {:induction false} RowPrefixSum(z: seq<real>, d: real, rho: real, sigE: PosReal, cdf: real -> real, i: nat, k: nat)
    requires EquallySpaced(z, d) && i < |z| && 1 <= k < |z|
    ensures Sum(Row(z, d, rho, sigE, cdf, i)[..k]) == cdf(Upper(z, d, rho, sigE, i, k - 1))
  {
    var r := Row(z, d, rho, sigE, cdf, i);
    if k == 1 {
      assert r[..1][..0] == [];
    } else {
      RowPrefixSum(z, d, rho, sigE, cdf, i, k - 1);
      assert r[..k][..k - 1] == r[..k - 1];
      AdjacentBoundaries(z, d, rho, sigE, i, k - 2);
    }
  }

  /** Every row sums to 1, whatever the function cdf is, because the bins
      tile the real line. */
  lemma RowSumsToOne(z: seq<real>, d: real, rho: real, sigE: PosReal, cdf: real -> real, i: nat)
    requires EquallySpaced(z, d) && |z| >= 2 && i < |z|
    ensures Sum(Row(z, d, rho, sigE, cdf, i)) == 1.0
  {
    var r, n := Row(z, d, rho, sigE, cdf, i), |z|;
    RowPrefixSum(z, d, rho, sigE, cdf, i, n - 1);
    assert r[..n - 1] == r[..|r| - 1];
    AdjacentBoundaries(z, d, rho, sigE, i, n - 2);
  }

  lemma MatrixRowsSumToOne(z: seq<real>, d: real, rho: real, sigE: PosReal, cdf: real -> real)
    requires EquallySpaced(z, d) && |z| >= 2
    ensures RowsSumToOne(TransitionMatrix(z, d, rho, sigE, cdf))
  {
    forall i | 0 <= i < |z|
      ensures Sum(TransitionMatrix(z, d, rho, sigE, cdf)[i]) == 1.0
    {
      RowSumsToOne(z, d, rho, sigE, cdf, i);
    }
  }

  /** The code's phi is a cumulative distribution function whenever exp
      behaves as the exponential does on the non-positive reals. */
  lemma PhiIsCdf(sqrt2: PosReal, exp: real -> real)
    requires NormalCdf.ExpLike(exp)
    ensures IsCdf(NormalCdf.StdNormalCdf(sqrt2, exp))
  {
    var cdf := NormalCdf.StdNormalCdf(sqrt2, exp);
    forall x, y | x <= y
      ensures cdf(x) <= cdf(y)
    {
      NormalCdf.PhiMonotone(x, y, sqrt2, exp);
    }
    forall x
      ensures 0.0 <= cdf(x) <= 1.0
    {
      assert cdf(x) == NormalCdf.Phi(x, sqrt2, exp);
    }
  }

  lemma MatrixStochastic(z: seq<real>, d: real, rho: real, sigE: PosReal, cdf: real -> real)
    requires IsCdf(cdf) && d >= 0.0 && EquallySpaced(z, d) && |z| >= 2
    ensures Stochastic(TransitionMatrix(z, d, rho, sigE, cdf))
  {
    MatrixRowsSumToOne(z, d, rho, sigE, cdf);
    forall i, j | 0 <= i < |z| && 0 <= j < |z|
      ensures 0.0 <= TransitionMatrix(z, d, rho, sigE, cdf)[i][j]
    {
      assert TransitionMatrix(z, d, rho, sigE, cdf)[i][j] == Entry(z, d, rho, sigE, cdf, i, j);
    }
  }

  /** The grid: both ends assigned directly, the interior built by repeatedly
      adding the step d to the previous point. */
  method MakeGrid(n: nat, zMax: real) returns (vZ: array<real>)
    requires n >= 2
    ensures fresh(vZ) && vZ[..] == Linspace(n, -zMax, zMax)
  {
    var zMin := -zMax;
    var d := (zMax - zMin) / ((n - 1) as real);
    ghost var g := Linspace(n, zMin, zMax);
    vZ := new real[n];
    vZ[0] := zMin;
    vZ[n - 1] := zMax;
    for i := 1 to n - 1
      invariant vZ[n - 1] == g[n - 1]
      invariant forall k :: 0 <= k < i ==> vZ[k] == g[k]
    {
      vZ[i] := vZ[i - 1] + d;
      LinspaceNext(n, zMin, zMax, i - 1);
    }
    assert forall k :: 0 <= k < n ==> vZ[k] == g[k];
  }

  /** Row i of the transition matrix, filled entry by entry; the other rows
      are left as they were. */
  method FillRow(mPI: array2<real>, vZ: array<real>, i: nat, d: real, rho: real, sigE: PosReal, cdf: real -> real)
    requires mPI.Length0 == mPI.Length1 == vZ.Length && i < vZ.Length
    modifies mPI
    ensures forall c :: 0 <= c < vZ.Length ==> mPI[i, c] == Entry(vZ[..], d, rho, sigE, cdf, i, c)
    ensures forall r, c :: 0 <= r < mPI.Length0 && 0 <= c < mPI.Length1 && r != i ==> mPI[r, c] == old(mPI[r, c])
  {
    var n := vZ.Length;
    ghost var z := vZ[..];
    for j := 0 to n
      invariant forall c :: 0 <= c < j ==> mPI[i, c] == Entry(z, d, rho, sigE, cdf, i, c)
      invariant forall r, c :: 0 <= r < n && 0 <= c < n && r != i ==> mPI[r, c] == old(mPI[r, c])
    {
      var p: real;
      if j == 0 {
        p := cdf((vZ[0] + d / 2.0 - rho * vZ[i]) / sigE);
        assert Upper(z, d, rho, sigE, i, 0) == (vZ[0] + d / 2.0 - rho * vZ[i]) / sigE;
      } else if j == n - 1 {
        p := 1.0 - cdf((vZ[n - 1] - d / 2.0 - rho * vZ[i]) / sigE);
        assert Lower(z, d, rho, sigE, i, j) == (vZ[n - 1] - d / 2.0 - rho * vZ[i]) / sigE;
      } else {
        p := cdf((vZ[j] + d / 2.0 - rho * vZ[i]) / sigE) - cdf((vZ[j] - d / 2.0 - rho * vZ[i]) / sigE);
        assert Upper(z, d, rho, sigE, i, j) == (vZ[j] + d / 2.0 - rho * vZ[i]) / sigE;
        assert Lower(z, d, rho, sigE, i, j) == (vZ[j] - d / 2.0 - rho * vZ[i]) / sigE;
      }
      mPI[i, j] := p;
    }
  }

  /** The transition matrix, filled row by row. */
  method FillMatrix(vZ: array<real>, d: real, rho: real, sigE: PosReal, cdf: real -> real) returns (mPI: array2<real>)
    ensures fresh(mPI) && Represents(mPI, TransitionMatrix(vZ[..], d, rho, sigE, cdf))
  {
    var n := vZ.Length;
    mPI := new real[n, n];
    for i := 0 to n
      invariant forall r, c :: 0 <= r < i && 0 <= c < n ==> mPI[r, c] == Entry(vZ[..], d, rho, sigE, cdf, r, c)
    {
      FillRow(mPI, vZ, i, d, rho, sigE, cdf);
    }
  }

  /** With phi as the CDF, the matrix over the grid from -zMax to zMax is
      stochastic. */
  lemma GridMatrixStochastic(n: nat, zMax: real, rho: real, sigE: PosReal, sqrt2: PosReal, exp: real -> real)
    requires n >= 2 && zMax >= 0.0 && NormalCdf.ExpLike(exp)
    ensures Stochastic(TransitionMatrix(Linspace(n, -zMax, zMax), Spacing(-zMax, zMax, n), rho, sigE, NormalCdf.StdNormalCdf(sqrt2, exp)))
  {
    LinspaceEquallySpaced(n, -zMax, zMax);
    PhiIsCdf(sqrt2, exp);
    MatrixStochastic(Linspace(n, -zMax, zMax), Spacing(-zMax, zMax, n), rho, sigE, NormalCdf.StdNormalCdf(sqrt2, exp));
  }

  /** The whole discretiser with the normal CDF approximation: sigZ is the
      process's standard deviation, sqrt2 the square root of 2, exp the
      exponential. Every row of the result sums to 1. */
  method Discretize(n: nat, m: real, rho: real, sigE: PosReal, sigZ: real, sqrt2: PosReal, exp: real -> real)
    returns (vZ: array<real>, mPI: array2<real>)
    requires n >= 2 && StationarySd(sigZ, sigE, rho) && sqrt2 * sqrt2 == 2.0
    ensures fresh(vZ) && fresh(mPI)
    ensures vZ[..] == Linspace(n, -(m * sigZ), m * sigZ)
    ensures Represents(mPI, TransitionMatrix(vZ[..], Spacing(-(m * sigZ), m * sigZ, n), rho, sigE, NormalCdf.StdNormalCdf(sqrt2, exp)))
    ensures RowsSumToOne(TransitionMatrix(vZ[..], Spacing(-(m * sigZ), m * sigZ, n), rho, sigE, NormalCdf.StdNormalCdf(sqrt2, exp)))
    ensures m >= 0.0 && NormalCdf.ExpLike(exp) ==>
      Stochastic(TransitionMatrix(vZ[..], Spacing(-(m * sigZ), m * sigZ, n), rho, sigE, NormalCdf.StdNormalCdf(sqrt2, exp)))
  {
    var zMax := m * sigZ;
    var zMin := -zMax;
    var d := (zMax - zMin) / ((n - 1) as real);
    vZ := MakeGrid(n, zMax);
    mPI := FillMatrix(vZ, d, rho, sigE, NormalCdf.StdNormalCdf(sqrt2, exp));
    LinspaceEquallySpaced(n, zMin, zMax);
    MatrixRowsSumToOne(vZ[..], d, rho, sigE, NormalCdf.StdNormalCdf(sqrt2, exp));
    if m >= 0.0 && NormalCdf.ExpLike(exp) {
      assert 0.0 <= zMax;
      GridMatrixStochastic(n, zMax, rho, sigE, sqrt2, exp);
    }
  }
}
