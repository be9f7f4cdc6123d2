/**
 Parameters of the AR(1) process z' = rho * z + e, e ~ N(0, sigE^2), and the
 equally spaced grids both discretisers place on it.
 */
module Ar1 {

  type PosReal = r: real | r > 0.0 witness 1.0

  /** sigZ is the unconditional standard deviation of the process,
      sqrt(sigE^2 / (1 - rho^2)); this needs |rho| < 1. */
  predicate StationarySd(sigZ: real, sigE: real, rho: real)
  {
    -1.0 < rho < 1.0 && 0.0 <= sigZ && sigZ * sigZ * (1.0 - rho * rho) == sigE * sigE
  }

  /** The step between consecutive points of n equally spaced points from lo to hi. */
  function Spacing(lo: real, hi: real, n: nat): (d: real)
    requires n >= 2
    ensures lo + ((n - 1) as real) * d == hi
  {
    (hi - lo) / ((n - 1) as real)
  }

  /** n points from lo to hi: the first is lo, each next one adds the spacing,
      and the last is set to hi outright. */
  function Linspace(n: nat, lo: real, hi: real): (g: seq<real>)
    requires n >= 2
    ensures |g| == n && g[0] == lo && g[n - 1] == hi
  {
    seq(n, i requires 0 <= i < n => if i == n - 1 then hi else lo + (i as real) * Spacing(lo, hi, n))
  }

  predicate EquallySpaced(g: seq<real>, d: real)
  {
    forall j :: 0 <= j < |g| - 1 ==> g[j + 1] == g[j] + d
  }

  /** Every point, the last one included, is lo plus a whole number of steps. */
  lemma LinspaceAt(n: nat, lo: real, hi: real, i: nat)
    requires n >= 2 && i < n
    ensures Linspace(n, lo, hi)[i] == lo + (i as real) * Spacing(lo, hi, n)
  {
    if i == n - 1 {
      var d := Spacing(lo, hi, n);
      assert ((n - 1) as real) * d == hi - lo;
    }
  }

  /** Consecutive points differ by the spacing, so the last step lands on hi. */
  lemma LinspaceEquallySpaced(n: nat, lo: real, hi: real)
    requires n >= 2
    ensures EquallySpaced(Linspace(n, lo, hi), Spacing(lo, hi, n))
  {
    var g, d := Linspace(n, lo, hi), Spacing(lo, hi, n);
    forall j | 0 <= j < n - 1
      ensures g[j + 1] == g[j] + d
    {
      LinspaceNext(n, lo, hi, j);
    }
  }

  lemma LinspaceNext(n: nat, lo: real, hi: real, j: nat)
    requires n >= 2 && j < n - 1
    ensures Linspace(n, lo, hi)[j + 1] == Linspace(n, lo, hi)[j] + Spacing(lo, hi, n)
  {
    var d := Spacing(lo, hi, n);
    LinspaceAt(n, lo, hi, j);
    LinspaceAt(n, lo, hi, j + 1);
    assert ((j + 1) as real) * d == (j as real) * d + d;
  }

  /** A grid from -hi to hi is symmetric about 0. */
  lemma LinspaceSymmetric(n: nat, lo: real, hi: real)
    requires n >= 2 && lo == -hi
    ensures forall i :: 0 <= i < n ==> Linspace(n, lo, hi)[i] == -Linspace(n, lo, hi)[n - 1 - i]
  {
    var g, d := Linspace(n, lo, hi), Spacing(lo, hi, n);
    forall i | 0 <= i < n
      ensures g[i] == -g[n - 1 - i]
    {
      LinspaceAt(n, lo, hi, i);
      LinspaceAt(n, lo, hi, n - 1 - i);
      assert ((n - 1) as real) * d == 2.0 * hi;
      assert ((n - 1 - i) as real) * d == ((n - 1) as real) * d - (i as real) * d;
    }
  }

  /** A grid from lo to a larger hi is strictly increasing. */
  lemma LinspaceStrictlyIncreasing(n: nat, lo: real, hi: real)
    requires n >= 2 && lo < hi
    ensures forall i, j :: 0 <= i < j < n ==> Linspace(n, lo, hi)[i] < Linspace(n, lo, hi)[j]
  {
    var g := Linspace(n, lo, hi);
    forall i, j | 0 <= i < j < n
      ensures g[i] < g[j]
    {
      LinspaceLess(n, lo, hi, i, j);
    }
  }

  lemma LinspaceLess(n: nat, lo: real, hi: real, i: nat, j: nat)
    requires n >= 2 && lo < hi && i < j < n
    ensures Linspace(n, lo, hi)[i] < Linspace(n, lo, hi)[j]
  {
    var d := Spacing(lo, hi, n);
    assert d > 0.0;
    LinspaceAt(n, lo, hi, i);
    LinspaceAt(n, lo, hi, j);
    StepsLess(lo, d, i, j);
  }

  /** With a positive step, fewer steps from lo end lower. */
  lemma StepsLess(lo: real, d: real, i: nat, j: nat)
    requires d > 0.0 && i < j
    ensures lo + (i as real) * d < lo + (j as real) * d
  {
    assert (j as real) * d - (i as real) * d == ((j - i) as real) * d;
  }
}
