/**
 Rouwenhorst's (1995) discretisation of z' = rho * z + e: a grid of n equally
 spaced points over plus or minus sigZ * sqrt(n - 1), and a transition matrix
 grown from the 2 x 2 base [[p, 1 - p], [1 - q, q]] one size at a time by
 embedding the previous matrix at four offsets, weighting the copies and
 halving the interior rows. The pure functions below are the reference; the
 methods build the same matrices in two-dimensional arrays.
 */
module Rouwenhorst {
  import opened Matrices
  import opened Ar1

  /** p = q = (1 + rho) / 2, a probability strictly between 0 and 1 exactly
      when the process is stationary. */
  function SwitchProb(rho: real): (p: real)
    ensures -1.0 < rho < 1.0 <==> 0.0 < p < 1.0
  {
    (1.0 + rho) / 2.0
  }

  /** n equally spaced points from -sigZ * root to sigZ * root, where root is
      sqrt(n - 1). */
  function Grid(n: nat, sigZ: real, root: real): (g: seq<real>)
    requires n >= 2 && 0.0 <= root && root * root == (n - 1) as real
    ensures |g| == n && g[0] == -(sigZ * root) && g[n - 1] == sigZ * root
    ensures EquallySpaced(g, Spacing(-(sigZ * root), sigZ * root, n))
    ensures forall i :: 0 <= i < n ==> g[i] == -g[n - 1 - i]
    ensures sigZ > 0.0 ==> forall i, j :: 0 <= i < j < n ==> g[i] < g[j]
  {
    var h := sigZ * root;
    LinspaceEquallySpaced(n, -h, h);
    LinspaceSymmetric(n, -h, h);
    GridIncreasing(n, -h, h, sigZ, root);
    Linspace(n, -h, h)
  }

  lemma GridIncreasing(n: nat, lo: real, hi: real, sigZ: real, root: real)
    requires n >= 2 && 0.0 <= root && root * root == (n - 1) as real
    requires hi == sigZ * root && lo == -hi
    ensures sigZ > 0.0 ==> forall i, j :: 0 <= i < j < n ==> Linspace(n, lo, hi)[i] < Linspace(n, lo, hi)[j]
  {
    if sigZ > 0.0 {
      assert root > 0.0;
      assert hi > 0.0;
      LinspaceStrictlyIncreasing(n, lo, hi);
    }
  }

  function Base(p: real, q: real): (B: Matrix)
    ensures IsSquare(B, 2)
  {
    [[p, 1.0 - p], [1.0 - q, q]]
  }

  /** The base matrix: its rows sum to 1 for any p and q, and it is a
      transition matrix when p and q are probabilities. */
  lemma BaseStochastic(p: real, q: real)
    ensures RowsSumToOne(Base(p, q))
    ensures 0.0 <= p <= 1.0 && 0.0 <= q <= 1.0 ==> Stochastic(Base(p, q))
  {
    SumPair(p, 1.0 - p);
    SumPair(1.0 - q, q);
  }

  /** Whether (r, c) lies in the block of size x size entries whose top-left
      corner is (r0, c0). */
  predicate InBlock(size: nat, r0: nat, c0: nat, r: int, c: int)
  {
    r0 <= r < r0 + size && c0 <= c < c0 + size
  }

  /** A zero matrix one larger than M with M written at offset (r0, c0). */
  function Embed(M: Matrix, r0: nat, c0: nat): (E: Matrix)
    requires IsSquare(M, |M|) && r0 <= 1 && c0 <= 1
    ensures IsSquare(E, |M| + 1)
  {
    var k := |M| + 1;
    seq(k, r requires 0 <= r < k =>
      seq(k, c requires 0 <= c < k =>
        if InBlock(|M|, r0, c0, r, c) then M[r - r0][c - c0] else 0.0))
  }

  /** p E1 + (1 - p) E2 + (1 - q) E3 + q E4, entry by entry. */
  function Combine(E1: Matrix, E2: Matrix, E3: Matrix, E4: Matrix, p: real, q: real): (C: Matrix)
    requires IsSquare(E1, |E1|) && IsSquare(E2, |E1|) && IsSquare(E3, |E1|) && IsSquare(E4, |E1|)
    ensures IsSquare(C, |E1|)
  {
    var k := |E1|;
    seq(k, i requires 0 <= i < k =>
      seq(k, j requires 0 <= j < k =>
        p * E1[i][j] + (1.0 - p) * E2[i][j] + (1.0 - q) * E3[i][j] + q * E4[i][j]))
  }

  /** Every row but the first and the last divided by 2. */
  function HalveInterior(A: Matrix): (H: Matrix)
    requires IsSquare(A, |A|)
    ensures IsSquare(H, |A|)
  {
    seq(|A|, i requires 0 <= i < |A| =>
      if 0 < i < |A| - 1 then seq(|A|, j requires 0 <= j < |A| => 0.5 * A[i][j]) else A[i])
  }

  /** One round of the recursion: from the matrix of size k - 1 to size k. */
  function Step(M: Matrix, p: real, q: real): (S: Matrix)
    requires IsSquare(M, |M|)
    ensures IsSquare(S, |M| + 1)
  {
    HalveInterior(Combine(Embed(M, 0, 0), Embed(M, 0, 1), Embed(M, 1, 0), Embed(M, 1, 1), p, q))
  }

  /** The n x n transition matrix: the base for n = 2, one more step per size. */
  function TransitionMatrix(n: nat, p: real, q: real): (M: Matrix)
    requires n >= 2
    ensures IsSquare(M, n)
    decreases n
  {
    if n == 2 then Base(p, q) else Step(TransitionMatrix(n - 1, p, q), p, q)
  }

  /** An embedding equals M inside its offset block and is zero everywhere else. */
  lemma EmbedEntry(M: Matrix, r0: nat, c0: nat, r: nat, c: nat)
    requires IsSquare(M, |M|) && r0 <= 1 && c0 <= 1 && r <= |M| && c <= |M|
    ensures Embed(M, r0, c0)[r][c] == if InBlock(|M|, r0, c0, r, c) then M[r - r0][c - c0] else 0.0
  {
  }

  /** A row of an embedding sums to the embedded row, or to 0 outside the block. */
  lemma EmbedRowSum(M: Matrix, r0: nat, c0: nat, r: nat)
    requires IsSquare(M, |M|) && r0 <= 1 && c0 <= 1 && r <= |M|
    ensures Sum(Embed(M, r0, c0)[r]) == if r0 <= r < r0 + |M| then Sum(M[r - r0]) else 0.0
  {
    var row := Embed(M, r0, c0)[r];
    if r0 <= r < r0 + |M| {
      var before, after := Zeros(c0), Zeros(1 - c0);
      var whole := before + M[r - r0] + after;
      forall c | 0 <= c <= |M|
        ensures row[c] == whole[c]
      {
        EmbedEntry(M, r0, c0, r, c);
        if c < c0 {
          assert whole[c] == before[c];
        } else if c < c0 + |M| {
          assert whole[c] == M[r - r0][c - c0];
        } else {
          assert whole[c] == after[c - c0 - |M|];
        }
      }
      assert row == whole;
      SumAppend(before + M[r - r0], after);
      SumAppend(before, M[r - r0]);
      SumOfZeros(before);
      SumOfZeros(after);
    } else {
      forall c | 0 <= c <= |M|
        ensures row[c] == 0.0
      {
        EmbedEntry(M, r0, c0, r, c);
      }
      SumOfZeros(row);
    }
  }

  /** Entry (i, j) after a step: the weighted sum of the four embeddings,
      halved on the interior rows. */
  lemma StepEntry(M: Matrix, p: real, q: real, i: nat, j: nat)
    requires IsSquare(M, |M|) && i <= |M| && j <= |M|
    ensures Step(M, p, q)[i][j] ==
      var c := Combine(Embed(M, 0, 0), Embed(M, 0, 1), Embed(M, 1, 0), Embed(M, 1, 1), p, q)[i][j];
      if 0 < i < |M| then 0.5 * c else c
  {
    var C := Combine(Embed(M, 0, 0), Embed(M, 0, 1), Embed(M, 1, 0), Embed(M, 1, 1), p, q);
    if 0 < i < |M| {
      HalveInteriorEntry(C, i, j);
    } else {
      HalveBoundaryEntry(C, i, j);
    }
  }

  /** Entry (i, j) of the weighted sum of four matrices. */
  lemma CombineEntry(E1: Matrix, E2: Matrix, E3: Matrix, E4: Matrix, p: real, q: real, i: nat, j: nat)
    requires IsSquare(E1, |E1|) && IsSquare(E2, |E1|) && IsSquare(E3, |E1|) && IsSquare(E4, |E1|)
    requires i < |E1| && j < |E1|
    ensures Combine(E1, E2, E3, E4, p, q)[i][j] == p * E1[i][j] + (1.0 - p) * E2[i][j] + (1.0 - q) * E3[i][j] + q * E4[i][j]
  {
  }

  lemma HalveInteriorEntry(A: Matrix, i: nat, j: nat)
    requires IsSquare(A, |A|) && 0 < i < |A| - 1 && j < |A|
    ensures HalveInterior(A)[i][j] == 0.5 * A[i][j]
  {
  }

  lemma HalveBoundaryEntry(A: Matrix, i: nat, j: nat)
    requires IsSquare(A, |A|) && (i == 0 || i == |A| - 1) && j < |A|
    ensures HalveInterior(A)[i][j] == A[i][j]
  {
  }

  /** Row i of the weighted sum sums to the weighted row sums. */
  lemma CombineRowSum(E1: Matrix, E2: Matrix, E3: Matrix, E4: Matrix, p: real, q: real, i: nat)
    requires IsSquare(E1, |E1|) && IsSquare(E2, |E1|) && IsSquare(E3, |E1|) && IsSquare(E4, |E1|) && i < |E1|
    ensures Sum(Combine(E1, E2, E3, E4, p, q)[i]) == p * Sum(E1[i]) + (1.0 - p) * Sum(E2[i]) + (1.0 - q) * Sum(E3[i]) + q * Sum(E4[i])
  {
    SumOfCombination(p, 1.0 - p, 1.0 - q, q, E1[i], E2[i], E3[i], E4[i], Combine(E1, E2, E3, E4, p, q)[i]);
  }

  /** Halving divides the sum of an interior row by 2 and keeps the others. */
  lemma HalveRowSum(A: Matrix, i: nat)
    requires IsSquare(A, |A|) && i < |A|
    ensures Sum(HalveInterior(A)[i]) == if 0 < i < |A| - 1 then 0.5 * Sum(A[i]) else Sum(A[i])
  {
    if 0 < i < |A| - 1 {
      SumScaled(0.5, A[i], HalveInterior(A)[i]);
    }
  }

  /** The first row after a step sums to p + (1 - p): only the two copies at
      row offset 0 reach it. */
  lemma StepFirstRowSum(M: Matrix, p: real, q: real)
    requires IsSquare(M, |M|) && |M| >= 1 && RowsSumToOne(M)
    ensures Sum(Step(M, p, q)[0]) == 1.0
  {
    var E1, E2, E3, E4 := Embed(M, 0, 0), Embed(M, 0, 1), Embed(M, 1, 0), Embed(M, 1, 1);
    CombineRowSum(E1, E2, E3, E4, p, q, 0);
    HalveRowSum(Combine(E1, E2, E3, E4, p, q), 0);
    EmbedRowSum(M, 0, 0, 0);
    EmbedRowSum(M, 0, 1, 0);
    EmbedRowSum(M, 1, 0, 0);
    EmbedRowSum(M, 1, 1, 0);
    assert Sum(E1[0]) == 1.0 && Sum(E2[0]) == 1.0 && Sum(E3[0]) == 0.0 && Sum(E4[0]) == 0.0;
  }

  /** The last row after a step sums to (1 - q) + q: only the two copies at
      row offset 1 reach it. */
  lemma StepLastRowSum(M: Matrix, p: real, q: real)
    requires IsSquare(M, |M|) && |M| >= 1 && RowsSumToOne(M)
    ensures Sum(Step(M, p, q)[|M|]) == 1.0
  {
    var k := |M|;
    var E1, E2, E3, E4 := Embed(M, 0, 0), Embed(M, 0, 1), Embed(M, 1, 0), Embed(M, 1, 1);
    CombineRowSum(E1, E2, E3, E4, p, q, k);
    HalveRowSum(Combine(E1, E2, E3, E4, p, q), k);
    EmbedRowSum(M, 0, 0, k);
    EmbedRowSum(M, 0, 1, k);
    EmbedRowSum(M, 1, 0, k);
    EmbedRowSum(M, 1, 1, k);
    assert Sum(E1[k]) == 0.0 && Sum(E2[k]) == 0.0 && Sum(E3[k]) == 1.0 && Sum(E4[k]) == 1.0;
  }

  /** An interior row after a step sums to (p + (1 - p) + (1 - q) + q) / 2:
      all four copies reach it, and it is halved. */
  lemma StepInteriorRowSum(M: Matrix, p: real, q: real, i: nat)
    requires IsSquare(M, |M|) && RowsSumToOne(M) && 0 < i < |M|
    ensures Sum(Step(M, p, q)[i]) == 1.0
  {
    var E1, E2, E3, E4 := Embed(M, 0, 0), Embed(M, 0, 1), Embed(M, 1, 0), Embed(M, 1, 1);
    CombineRowSum(E1, E2, E3, E4, p, q, i);
    HalveRowSum(Combine(E1, E2, E3, E4, p, q), i);
    EmbedRowSum(M, 0, 0, i);
    EmbedRowSum(M, 0, 1, i);
    EmbedRowSum(M, 1, 0, i);
    EmbedRowSum(M, 1, 1, i);
    assert Sum(E1[i]) == 1.0 && Sum(E2[i]) == 1.0 && Sum(E3[i]) == 1.0 && Sum(E4[i]) == 1.0;
  }

  /** A step keeps every row summing to 1, whatever p and q are: the first row
      gets p + (1 - p), the last (1 - q) + q, and an interior row
      (p + (1 - p) + (1 - q) + q) / 2. */
  lemma StepRowsSumToOne(M: Matrix, p: real, q: real)
    requires IsSquare(M, |M|) && |M| >= 1 && RowsSumToOne(M)
    ensures RowsSumToOne(Step(M, p, q))
  {
    forall i | 0 <= i <= |M|
      ensures Sum(Step(M, p, q)[i]) == 1.0
    {
      if i == 0 {
        StepFirstRowSum(M, p, q);
      } else if i == |M| {
        StepLastRowSum(M, p, q);
      } else {
        StepInteriorRowSum(M, p, q, i);
      }
    }
  }

  /** With weights in [0, 1] a step keeps every entry non-negative: the
      embeddings, their weighted sum and the halving each do. */
  lemma StepNonNegative(M: Matrix, p: real, q: real)
    requires IsSquare(M, |M|) && NonNegative(M)
    requires 0.0 <= p <= 1.0 && 0.0 <= q <= 1.0
    ensures NonNegative(Step(M, p, q))
  {
    var E1, E2, E3, E4 := Embed(M, 0, 0), Embed(M, 0, 1), Embed(M, 1, 0), Embed(M, 1, 1);
    EmbedNonNegative(M, 0, 0);
    EmbedNonNegative(M, 0, 1);
    EmbedNonNegative(M, 1, 0);
    EmbedNonNegative(M, 1, 1);
    CombineNonNegative(E1, E2, E3, E4, p, q);
    HalveNonNegative(Combine(E1, E2, E3, E4, p, q));
  }

  lemma EmbedNonNegative(M: Matrix, r0: nat, c0: nat)
    requires IsSquare(M, |M|) && NonNegative(M) && r0 <= 1 && c0 <= 1
    ensures NonNegative(Embed(M, r0, c0))
  {
    forall r, c | 0 <= r <= |M| && 0 <= c <= |M|
      ensures 0.0 <= Embed(M, r0, c0)[r][c]
    {
      EmbedEntry(M, r0, c0, r, c);
    }
  }

  /** With p and q in [0, 1] the weights p, 1 - p, 1 - q and q are
      non-negative, and so is their combination of non-negative matrices. */
  lemma CombineNonNegative(E1: Matrix, E2: Matrix, E3: Matrix, E4: Matrix, p: real, q: real)
    requires IsSquare(E1, |E1|) && IsSquare(E2, |E1|) && IsSquare(E3, |E1|) && IsSquare(E4, |E1|)
    requires NonNegative(E1) && NonNegative(E2) && NonNegative(E3) && NonNegative(E4)
    requires 0.0 <= p <= 1.0 && 0.0 <= q <= 1.0
    ensures NonNegative(Combine(E1, E2, E3, E4, p, q))
  {
    var C := Combine(E1, E2, E3, E4, p, q);
    forall i, j | 0 <= i < |E1| && 0 <= j < |E1|
      ensures 0.0 <= C[i][j]
    {
      ProductNonNegative(p, E1[i][j]);
      ProductNonNegative(1.0 - p, E2[i][j]);
      ProductNonNegative(1.0 - q, E3[i][j]);
      ProductNonNegative(q, E4[i][j]);
    }
  }

  lemma HalveNonNegative(A: Matrix)
    requires IsSquare(A, |A|) && NonNegative(A)
    ensures NonNegative(HalveInterior(A))
  {
  }

  lemma ProductNonNegative(a: real, b: real)
    requires 0.0 <= a && 0.0 <= b
    ensures 0.0 <= a * b
  {
  }

  /** Every row of the n x n matrix sums to 1, for any p and q. */
  lemma {:induction false} MatrixRowsSumToOne(n: nat, p: real, q: real)
    requires n >= 2
    ensures RowsSumToOne(TransitionMatrix(n, p, q))
    decreases n
  {
    if n == 2 {
      BaseStochastic(p, q);
    } else {
      MatrixRowsSumToOne(n - 1, p, q);
      GrowRowsSumToOne(n, p, q);
    }
  }

  lemma GrowRowsSumToOne(n: nat, p: real, q: real)
    requires n > 2 && RowsSumToOne(TransitionMatrix(n - 1, p, q))
    ensures RowsSumToOne(TransitionMatrix(n, p, q))
  {
    StepRowsSumToOne(TransitionMatrix(n - 1, p, q), p, q);
  }

  lemma GrowNonNegative(n: nat, p: real, q: real)
    requires n > 2 && NonNegative(TransitionMatrix(n - 1, p, q))
    requires 0.0 <= p <= 1.0 && 0.0 <= q <= 1.0
    ensures NonNegative(TransitionMatrix(n, p, q))
  {
    StepNonNegative(TransitionMatrix(n - 1, p, q), p, q);
  }

  /** With p and q in [0, 1] the n x n matrix is a transition matrix, and so
      every entry lies in [0, 1]. */
  lemma MatrixStochastic(n: nat, p: real, q: real)
    requires n >= 2 && 0.0 <= p <= 1.0 && 0.0 <= q <= 1.0
    ensures Stochastic(TransitionMatrix(n, p, q))
    ensures forall i, j :: 0 <= i < n && 0 <= j < n ==> 0.0 <= TransitionMatrix(n, p, q)[i][j] <= 1.0
  {
    MatrixRowsSumToOne(n, p, q);
    MatrixNonNegative(n, p, q);
    StochasticEntriesInUnitInterval(TransitionMatrix(n, p, q));
  }

  /** With p and q in [0, 1] no entry of the n x n matrix is negative. */
  lemma {:induction false} MatrixNonNegative(n: nat, p: real, q: real)
    requires n >= 2 && 0.0 <= p <= 1.0 && 0.0 <= q <= 1.0
    ensures NonNegative(TransitionMatrix(n, p, q))
    decreases n
  {
    if n == 2 {
      BaseStochastic(p, q);
    } else {
      MatrixNonNegative(n - 1, p, q);
      GrowNonNegative(n, p, q);
    }
  }

  /** The initial matrix in a 2 x 2 array. */
  method BaseArray(p: real, q: real) returns (B: array2<real>)
    ensures fresh(B) && Represents(B, Base(p, q))
  {
    B := new real[2, 2];
    B[0, 0], B[0, 1] := p, 1.0 - p;
    B[1, 0], B[1, 1] := 1.0 - q, q;
  }

  /** A fresh zero matrix one larger than prev with prev copied into the
      block at offset (r0, c0). */
  method EmbedArray(prev: array2<real>, ghost M: Matrix, r0: nat, c0: nat) returns (E: array2<real>)
    requires Represents(prev, M) && r0 <= 1 && c0 <= 1
    ensures fresh(E)
    ensures E.Length0 == prev.Length0 + 1 && E.Length1 == prev.Length0 + 1
    ensures forall r, c :: 0 <= r < E.Length0 && 0 <= c < E.Length1 ==>
      E[r, c] == if InBlock(prev.Length0, r0, c0, r, c) then prev[r - r0, c - c0] else 0.0
    ensures Represents(E, Embed(M, r0, c0))
  {
    var size := prev.Length0;
    E := new real[size + 1, size + 1]((_, _) => 0.0);
    for r := 0 to size
      invariant forall rr, cc :: 0 <= rr <= size && 0 <= cc <= size ==>
        E[rr, cc] == if InBlock(size, r0, c0, rr, cc) && rr < r0 + r then prev[rr - r0, cc - c0] else 0.0
    {
      for c := 0 to size
        invariant forall rr, cc :: 0 <= rr <= size && 0 <= cc <= size ==>
          E[rr, cc] == if InBlock(size, r0, c0, rr, cc) && (rr < r0 + r || (rr == r0 + r && cc < c0 + c))
                       then prev[rr - r0, cc - c0] else 0.0
      {
        E[r0 + r, c0 + c] := prev[r, c];
      }
    }
  }

  /** A fresh array holding the weighted sum of four equally sized arrays. */
  method CombineArrays(E1: array2<real>, E2: array2<real>, E3: array2<real>, E4: array2<real>, p: real, q: real)
    returns (C: array2<real>)
    requires E1.Length0 == E1.Length1
    requires E2.Length0 == E1.Length0 && E2.Length1 == E1.Length0
    requires E3.Length0 == E1.Length0 && E3.Length1 == E1.Length0
    requires E4.Length0 == E1.Length0 && E4.Length1 == E1.Length0
    ensures fresh(C) && C.Length0 == E1.Length0 && C.Length1 == E1.Length0
    ensures forall i, j :: 0 <= i < C.Length0 && 0 <= j < C.Length1 ==>
      C[i, j] == p * E1[i, j] + (1.0 - p) * E2[i, j] + (1.0 - q) * E3[i, j] + q * E4[i, j]
  {
    var k := E1.Length0;
    C := new real[k, k];
    for i := 0 to k
      invariant forall r, c :: 0 <= r < i && 0 <= c < k ==>
        C[r, c] == p * E1[r, c] + (1.0 - p) * E2[r, c] + (1.0 - q) * E3[r, c] + q * E4[r, c]
    {
      CombineRow(C, E1, E2, E3, E4, p, q, i);
    }
  }

  /** Row i of the weighted sum, entry by entry; the other rows of C keep
      their values. */
  method CombineRow(C: array2<real>, E1: array2<real>, E2: array2<real>, E3: array2<real>, E4: array2<real>, p: real, q: real, i: nat)
    requires C.Length0 == C.Length1 == E1.Length0 == E1.Length1 && i < C.Length0
    requires E2.Length0 == E1.Length0 && E2.Length1 == E1.Length0
    requires E3.Length0 == E1.Length0 && E3.Length1 == E1.Length0
    requires E4.Length0 == E1.Length0 && E4.Length1 == E1.Length0
    requires C != E1 && C != E2 && C != E3 && C != E4
    modifies C
    ensures forall c :: 0 <= c < C.Length1 ==>
      C[i, c] == p * E1[i, c] + (1.0 - p) * E2[i, c] + (1.0 - q) * E3[i, c] + q * E4[i, c]
    ensures forall r, c :: 0 <= r < C.Length0 && 0 <= c < C.Length1 && r != i ==> C[r, c] == old(C[r, c])
  {
    var k := C.Length1;
    for j := 0 to k
      invariant forall c :: 0 <= c < j ==>
        C[i, c] == p * E1[i, c] + (1.0 - p) * E2[i, c] + (1.0 - q) * E3[i, c] + q * E4[i, c]
      invariant forall r, c :: 0 <= r < k && 0 <= c < k && r != i ==> C[r, c] == old(C[r, c])
    {
      C[i, j] := p * E1[i, j] + (1.0 - p) * E2[i, j] + (1.0 - q) * E3[i, j] + q * E4[i, j];
    }
  }

  /** Divides rows 1 .. k - 2 (all columns) by 2 in place; the first and the
      last row keep their weighted sums. */
  method HalveInteriorRows(A: array2<real>, ghost M: Matrix)
    requires Represents(A, M)
    modifies A
    ensures Represents(A, HalveInterior(M))
    ensures forall i, j :: 0 <= i < A.Length0 && 0 <= j < A.Length1 ==>
      A[i, j] == if 0 < i < A.Length0 - 1 then 0.5 * old(A[i, j]) else old(A[i, j])
  {
    var i := 1;
    while i < A.Length0 - 1
      invariant 1 <= i
      invariant forall r, c :: 0 <= r < A.Length0 && 0 <= c < A.Length1 ==>
        A[r, c] == if 0 < r < i && r < A.Length0 - 1 then 0.5 * old(A[r, c]) else old(A[r, c])
    {
      for j := 0 to A.Length1
        invariant forall r, c :: 0 <= r < A.Length0 && 0 <= c < A.Length1 ==>
          A[r, c] == if 0 < r < i || (r == i && c < j) then 0.5 * old(A[r, c]) else old(A[r, c])
      {
        A[i, j] := 0.5 * A[i, j];
      }
      i := i + 1;
    }
  }

  /** The weighted sum of four arrays that hold the four embeddings of M
      holds their weighted sum. */
  lemma CombinedArray(C: array2<real>, E1: array2<real>, E2: array2<real>, E3: array2<real>, E4: array2<real>, M: Matrix, p: real, q: real)
    requires IsSquare(M, |M|)
    requires Represents(E1, Embed(M, 0, 0)) && Represents(E2, Embed(M, 0, 1))
    requires Represents(E3, Embed(M, 1, 0)) && Represents(E4, Embed(M, 1, 1))
    requires C.Length0 == E1.Length0 && C.Length1 == E1.Length0
    requires forall i, j :: 0 <= i < C.Length0 && 0 <= j < C.Length1 ==>
      C[i, j] == p * E1[i, j] + (1.0 - p) * E2[i, j] + (1.0 - q) * E3[i, j] + q * E4[i, j]
    ensures Represents(C, Combine(Embed(M, 0, 0), Embed(M, 0, 1), Embed(M, 1, 0), Embed(M, 1, 1), p, q))
  {
    var S1, S2, S3, S4 := Embed(M, 0, 0), Embed(M, 0, 1), Embed(M, 1, 0), Embed(M, 1, 1);
    var S := Combine(S1, S2, S3, S4, p, q);
    forall i, j | 0 <= i < C.Length0 && 0 <= j < C.Length1
      ensures C[i, j] == S[i][j]
    {
      assert E1[i, j] == S1[i][j] && E2[i, j] == S2[i][j] && E3[i, j] == S3[i][j] && E4[i, j] == S4[i][j];
    }
  }

  /** One round of the loop: four embeddings, their weighted sum, and the
      halving of the interior rows. */
  method StepArray(prev: array2<real>, ghost M: Matrix, p: real, q: real) returns (next: array2<real>)
    requires Represents(prev, M)
    ensures fresh(next) && Represents(next, Step(M, p, q))
  {
    var E1 := EmbedArray(prev, M, 0, 0);
    var E2 := EmbedArray(prev, M, 0, 1);
    var E3 := EmbedArray(prev, M, 1, 0);
    var E4 := EmbedArray(prev, M, 1, 1);
    next := CombineArrays(E1, E2, E3, E4, p, q);
    ghost var C := Combine(Embed(M, 0, 0), Embed(M, 0, 1), Embed(M, 1, 0), Embed(M, 1, 1), p, q);
    CombinedArray(next, E1, E2, E3, E4, M, p, q);
    HalveInteriorRows(next, C);
  }

  /** The whole discretiser: sigZ is the process's standard deviation and
      root the square root of n - 1. The matrix is the base for n = 2 and is
      grown by one step for each size 3 .. n. */
  method Discretize(n: nat, rho: real, sigE: real, sigZ: real, root: real) returns (vZ: seq<real>, mPI: array2<real>)
    requires n >= 2 && StationarySd(sigZ, sigE, rho)
    requires 0.0 <= root && root * root == (n - 1) as real
    ensures fresh(mPI)
    ensures vZ == Grid(n, sigZ, root)
    ensures Represents(mPI, TransitionMatrix(n, SwitchProb(rho), SwitchProb(rho)))
    ensures Stochastic(TransitionMatrix(n, SwitchProb(rho), SwitchProb(rho)))
  {
    vZ := Grid(n, sigZ, root);
    var p := (1.0 + rho) / 2.0;
    var q := p;
    var mOld := BaseArray(p, q);
    for i := 3 to n + 1
      invariant fresh(mOld) && Represents(mOld, TransitionMatrix(i - 1, p, q))
    {
      mOld := StepArray(mOld, TransitionMatrix(i - 1, p, q), p, q);
    }
    mPI := mOld;
    MatrixStochastic(n, p, q);
  }
}
