# Discretising an AR(1) process: Tauchen and Rouwenhorst

This project models, in Dafny, the two programs of the repository that turn the
AR(1) process z' = rho z + e, with e ~ N(0, sigma_e^2), into a finite Markov chain.
Each produces a grid of N points and an N x N transition matrix.

- **Tauchen's method** (`tauchen.cpp`) works as follows.
  - The grid runs uniformly from -m sigma_z to m sigma_z. Both ends are assigned
    directly, and each interior point is the previous one plus the step d.
  - Entry (i, j) of the matrix is a difference of CDF values at bin boundaries
    z_j +- d/2, shifted by rho z_i and standardised by sigma_e.
  - Column 0 takes all the mass below the first boundary, and the last column
    takes all the mass above the last one.
  - The CDF is `phi`, the Abramowitz-Stegun approximation (formula 7.1.26).
- **Rouwenhorst's method** (`rouwenhorst.cpp`) works as follows.
  - The grid is `linspace(-sigma_z sqrt(N-1), sigma_z sqrt(N-1), N)`.
  - The matrix starts from the 2 x 2 base `[[p, 1-p], [1-q, q]]` with
    p = q = (1 + rho)/2.
  - Each size i = 3..N embeds the previous matrix in four zero i x i matrices at
    offsets (0,0), (0,1), (1,0) and (1,1).
  - It then combines the four copies with weights p, 1-p, 1-q and q, and halves
    rows 1..i-2.

Both programs do all their work inline in `main`, apart from tauchen.cpp's
`phi`. Here that work is split into
named operations:
- In the imperative parts (the grid loop, the matrix fill, and the Rouwenhorst
  embed/combine/halve loop), methods work on `array` and `array2`.
- Each of these methods is proved equal to a pure specification function over
  `seq<real>`.
- The lemmas about those functions carry the properties.

Modules:
- `Matrices` (`matrices.dfy`) holds:
  - `Sum`;
  - square and row-stochastic matrices;
  - `Represents`, which says that an `array2` holds a matrix value;
  - lemmas on sums.
- `Ar1` (`ar1.dfy`) holds:
  - the stationary standard deviation relation;
  - the grid spacing and `Linspace`, with its endpoints, equal spacing, symmetry
    and monotonicity.
- `NormalCdf` (`normal_cdf.dfy`) holds `phi`.
- `Tauchen` (`tauchen.dfy`) and `Rouwenhorst` (`rouwenhorst.dfy`) hold the two
  discretisers.

All arithmetic is over exact `real`. Some quantities are inputs, tied to the
others by preconditions:
- sigma_z must satisfy `sigZ >= 0 && sigZ^2 (1 - rho^2) == sigE^2` with
  |rho| < 1 (the predicate `StationarySd`).
- sqrt(N-1) is a given `root >= 0` with `root * root == N - 1`.
- sqrt(2) is a given positive `sqrt2` with `sqrt2 * sqrt2 == 2`.
- `exp` is an arbitrary function `real -> real`.

Tauchen's matrix is specified for an arbitrary CDF passed as a function. Every
row sums to 1 for any function at all. With a genuine CDF (non-decreasing, with
values in [0, 1]) and d >= 0, every entry is a probability.

The standard normal CDF has Phi(0) = 0.5 and Phi(-x) = 1 - Phi(x). The code's
approximation departs from this at 0:
- a1 + ... + a5 = 0.999999999, so with exp(0) = 1 the code gives
  Phi(0) = 0.5000000005. `NormalCdf.PhiAtZero` proves this, together with the
  failure of the reflection at 0.
- The reflection is therefore proved for x != 0 only (`NormalCdf.PhiReflection`).
- The value of the approximation does lie in [0, 1] whenever exp maps the
  non-positive reals into [0, 1] (`NormalCdf.Phi`): the polynomial in t stays
  within [0, 1] for t in (0, 1] (`NormalCdf.PolyNonNegative`,
  `NormalCdf.PolyAtMostOne`).
- The approximation is also non-decreasing whenever exp is non-decreasing with
  values in [0, 1] on the non-positive reals (the predicate `ExpLike`), as the
  exponential is (`NormalCdf.PhiMonotone`):
  - every chord of the polynomial between non-negative points has a positive
    slope (`NormalCdf.SlopePositive`, with `NormalCdf.PolyChord`), so the
    polynomial rises;
  - t falls as |x| grows, and so does exp(-x^2);
  - hence y rises with |x| (`NormalCdf.YMonotone`). y also stays above
    1 - 0.999999999 > 0 (`NormalCdf.YPositive`), so phi is strictly below 0.5
    left of 0 and at or above 0.5 from 0 on (`NormalCdf.PhiAroundHalf`).
  With such an exp, `phi` is a CDF (`Tauchen.PhiIsCdf`), and the matrix that
  `Tauchen.Discretize` returns is row-stochastic.

The code validates nothing; the conditions it needs are preconditions here:
- N >= 2 and |rho| < 1 for both methods;
- sigma_e > 0 for Tauchen only (the `PosReal` type of its `sigE`). sigma_e is a
  standard deviation, and Tauchen divides by it; with sigma_e > 0 the
  standardised bin width d / sigma_e is non-negative, which the bound on each
  entry needs. The code would also run with a negative sigma_e; that case is not
  modelled. Rouwenhorst never divides by sigma_e and accepts sigma_e = 0.

Rouwenhorst with N = 2:
- the code never enters its loop. `mPI_new` is then the 3 x 3 matrix declared
  at rouwenhorst.cpp:58 and never filled, and the display loop
  (rouwenhorst.cpp:97-110) prints its top-left N x N = 2 x 2 entries;
- the model deliberately returns the 2 x 2 base matrix instead
  (`Rouwenhorst.TransitionMatrix`, `Rouwenhorst.Discretize`).

## Model

| member | source | states |
|---|---|---|
| `Ar1.StationarySd` | tauchen.cpp:50 | definition only: -1 < rho < 1, sigma_z >= 0 and sigma_z^2 (1 - rho^2) = sigma_e^2, the relation that the square root computing sig_z satisfies (rouwenhorst.cpp:44 computes the same) |
| `Ar1.Spacing` | tauchen.cpp:53 | d = (hi - lo)/(n - 1), and n - 1 steps of d lead from lo exactly to hi |
| `Ar1.Linspace` | rouwenhorst.cpp:49 | the grid has n points, starts at lo and ends exactly at hi |
| `Ar1.LinspaceAt` | tauchen.cpp:56-62 | every point, the last one included, is lo plus i whole steps d = (hi - lo)/(n - 1) |
| `Ar1.LinspaceNext` | tauchen.cpp:59-62 | each point is its predecessor plus d, the step the grid loop adds |
| `Ar1.LinspaceEquallySpaced` | tauchen.cpp:53-62 | each point is its predecessor plus d, so the last step reaches hi |
| `Ar1.LinspaceSymmetric` | tauchen.cpp:51-62 | a grid from -hi to hi is symmetric: g[i] = -g[n-1-i] |
| `Ar1.LinspaceLess` | tauchen.cpp:53-62 | with lo < hi, an earlier point lies strictly below a later one |
| `Ar1.LinspaceStrictlyIncreasing` | tauchen.cpp:53-62 | a grid from lo to a larger hi is strictly increasing |
| `NormalCdf.Sign` | tauchen.cpp:141-143 | the saved sign is -1 exactly when x < 0, else +1 (0 included) |
| `NormalCdf.Scaled` | tauchen.cpp:144 | the argument abs(x)/sqrt(2) is non-negative, and times sqrt(2) it gives abs(x) |
| `NormalCdf.ScaledIsEven` | tauchen.cpp:144 | the scaled argument depends on x only through abs(x) |
| `NormalCdf.T` | tauchen.cpp:147 | for a non-negative argument, t = 1/(1 + p x) lies in (0, 1] |
| `NormalCdf.Poly` | tauchen.cpp:148 | definition only: the Horner polynomial (((((a5 t + a4) t) + a3) t + a2) t + a1) t |
| `NormalCdf.PolyNonNegative` | tauchen.cpp:148 | the polynomial a1 t + ... + a5 t^5 is non-negative for t in [0, 1] |
| `NormalCdf.PolyDifference` | tauchen.cpp:148 | Poly(1) - Poly(t) factors as (1 - t) times a quartic whose constant term is a1 + ... + a5 |
| `NormalCdf.QuotientPositive` | tauchen.cpp:133-137 | that quartic is positive on [0, 1] |
| `NormalCdf.PolyAtMostOne` | tauchen.cpp:148 | the polynomial is at most a1 + ... + a5 = 0.999999999 < 1 for t in [0, 1] |
| `NormalCdf.PolyChord` | tauchen.cpp:148 | Poly(t) - Poly(s) factors as (t - s) times the chord slope, a symmetric quartic in s and t |
| `NormalCdf.SlopePositive` | tauchen.cpp:133-137 | with the code's coefficients, the chord slope is positive for all non-negative s and t |
| `NormalCdf.PolyMonotone` | tauchen.cpp:148 | the polynomial is non-decreasing on the non-negative reals |
| `NormalCdf.TDecreasing` | tauchen.cpp:147 | t = 1/(1 + p x) does not grow as the non-negative x grows |
| `NormalCdf.GaussianDecreasing` | tauchen.cpp:148 | with an exp that is non-decreasing and [0, 1]-valued on the non-positive reals, exp(-x^2) is non-negative and falls as the non-negative x grows |
| `NormalCdf.PolyOfTDecreasing` | tauchen.cpp:147-148 | the polynomial at t(x) is non-negative and falls as x grows |
| `NormalCdf.WeightedDecreasing` | tauchen.cpp:147-148 | the polynomial at t(x), times a non-negative weight that falls, falls as x grows |
| `NormalCdf.YMonotone` | tauchen.cpp:147-148 | y rises with the non-negative x wherever exp(-x^2) falls and stays non-negative |
| `NormalCdf.Y` | tauchen.cpp:147-148 | y lies in [0, 1] whenever exp(-x^2) does, and at x = 0 it is 1 - 0.999999999 exp(0) |
| `NormalCdf.YPositive` | tauchen.cpp:147-148 | y is strictly positive (and at most 1) whenever exp(-x^2) lies in [0, 1] |
| `NormalCdf.Phi` | tauchen.cpp:130-151 | phi(x) lies in [0, 1] whenever exp maps the non-positive reals into [0, 1] |
| `NormalCdf.ScaledMonotone` | tauchen.cpp:144 | abs(x)/sqrt(2) keeps the order of abs(x) |
| `NormalCdf.PhiMonotoneOnSide` | tauchen.cpp:140-150 | for x <= y on the same side of 0, phi follows y: up for x >= 0, mirrored by the sign for y < 0 |
| `NormalCdf.PhiAroundHalf` | tauchen.cpp:140-150 | phi(x) < 0.5 for x < 0 and phi(x) >= 0.5 for x >= 0, whenever exp(-x^2/2) lies in [0, 1] |
| `NormalCdf.PhiMonotone` | tauchen.cpp:130-151 | phi is non-decreasing whenever exp is non-decreasing with values in [0, 1] on the non-positive reals |
| `NormalCdf.PhiReflection` | tauchen.cpp:130-151 | phi(-x) = 1 - phi(x) for every x != 0, whatever exp is |
| `NormalCdf.PhiAtZero` | tauchen.cpp:133-150 | phi(0) = 1 - 0.4999999995 exp(0); with exp(0) = 1 it is 0.5000000005 and the reflection fails at 0 |
| `Tauchen.Upper` | tauchen.cpp:76-84 | the standardised upper boundary of bin j is the lower one plus the bin width d / sigma_e |
| `Tauchen.Lower` | tauchen.cpp:80-84 | the standardised lower boundary of bin j, mapped back by sigma_e and shifted by rho z_i, is z_j - d/2 |
| `Tauchen.Entry` | tauchen.cpp:74-85 | with a non-decreasing cdf valued in [0, 1] and d >= 0, every entry of the three branches lies in [0, 1] |
| `Tauchen.Row` | tauchen.cpp:72-87 | row i holds the N entries of the inner loop, one per column j |
| `Tauchen.TransitionMatrix` | tauchen.cpp:68-88 | shape only: the matrix is N x N (its content is stated by the lemmas below) |
| `Tauchen.MakeGrid` | tauchen.cpp:50-62 | the fresh array built by assigning both ends and adding d for the interior equals `Linspace(n, -zMax, zMax)` |
| `Tauchen.FillRow` | tauchen.cpp:72-87 | the inner loop sets row i to the three-branch entry: the lower tail in column 0, the upper tail in column N-1, a CDF difference elsewhere; the other rows keep their values |
| `Tauchen.FillMatrix` | tauchen.cpp:68-88 | the outer loop fills a fresh N x N array, row by row, with the specified matrix |
| `Tauchen.AdjacentBoundaries` | tauchen.cpp:76-84 | on an equally spaced grid, the lower boundary of bin j+1 equals the upper boundary of bin j |
| `Tauchen.RowPrefixSum` | tauchen.cpp:76-84 | the first k entries of a row telescope to cdf at the upper boundary of bin k-1 |
| `Tauchen.RowSumsToOne` | tauchen.cpp:70-88 | every row sums to exactly 1 for an arbitrary function cdf |
| `Tauchen.MatrixRowsSumToOne` | tauchen.cpp:70-88 | all rows of the matrix sum to 1 for an arbitrary cdf |
| `Tauchen.MatrixStochastic` | tauchen.cpp:70-88 | with a non-decreasing cdf valued in [0, 1] the matrix is row-stochastic |
| `Tauchen.PhiIsCdf` | tauchen.cpp:130-151 | phi is a CDF, non-decreasing with values in [0, 1], whenever exp behaves as the exponential does on the non-positive reals |
| `Tauchen.GridMatrixStochastic` | tauchen.cpp:50-88 | with phi as the CDF and such an exp, the matrix over the grid from -zMax to zMax (zMax >= 0) is row-stochastic |
| `Tauchen.Discretize` | tauchen.cpp:50-88 | the program's fresh grid is the symmetric linspace over +-m sigma_z; its fresh matrix, with phi as the CDF, is the specified matrix, and its rows sum to 1; with m >= 0 and an exp that is non-decreasing with values in [0, 1] on the non-positive reals, every entry also lies in [0, 1] |
| `Rouwenhorst.SwitchProb` | rouwenhorst.cpp:47 | p = (1 + rho)/2 lies strictly in (0, 1) if and only if rho lies in (-1, 1) |
| `Rouwenhorst.Grid` | rouwenhorst.cpp:44-49 | N points from -sigma_z sqrt(N-1) to sigma_z sqrt(N-1), equally spaced, symmetric about 0, strictly increasing when sigma_z > 0 |
| `Rouwenhorst.GridIncreasing` | rouwenhorst.cpp:45-49 | with sigma_z > 0 the span is positive, so the grid strictly increases |
| `Rouwenhorst.Base` | rouwenhorst.cpp:55 | shape only: the base is 2 x 2 (its rows are stated by `BaseStochastic`) |
| `Rouwenhorst.BaseStochastic` | rouwenhorst.cpp:55 | the 2 x 2 base has rows summing to 1, and with p, q in [0, 1] it is row-stochastic |
| `Rouwenhorst.Embed` | rouwenhorst.cpp:67-76 | shape only: an embedding is one size larger (its entries are stated by `EmbedEntry`) |
| `Rouwenhorst.EmbedEntry` | rouwenhorst.cpp:67-76 | each embedding equals the previous matrix inside its offset block and is zero everywhere else |
| `Rouwenhorst.EmbedRowSum` | rouwenhorst.cpp:73-76 | a row of an embedding sums to the embedded row's sum inside the block and to 0 outside it |
| `Rouwenhorst.EmbedNonNegative` | rouwenhorst.cpp:67-76 | embedding a non-negative matrix among zeros gives a non-negative matrix |
| `Rouwenhorst.Combine` | rouwenhorst.cpp:78 | shape only: the weighted sum keeps the size (its entries are stated by `CombineEntry`) |
| `Rouwenhorst.CombineEntry` | rouwenhorst.cpp:78 | entry (i, j) of the weighted sum is p E1[i][j] + (1-p) E2[i][j] + (1-q) E3[i][j] + q E4[i][j] |
| `Rouwenhorst.CombineRowSum` | rouwenhorst.cpp:78 | a row of the weighted sum sums to the same weighted sum of the four row sums |
| `Rouwenhorst.CombineNonNegative` | rouwenhorst.cpp:78 | with p, q in [0, 1] the weighted sum of non-negative matrices is non-negative |
| `Rouwenhorst.HalveInterior` | rouwenhorst.cpp:79 | shape only: halving keeps the size (its entries are stated by the two lemmas below) |
| `Rouwenhorst.HalveInteriorEntry` | rouwenhorst.cpp:79 | an entry of rows 1..i-2 is halved |
| `Rouwenhorst.HalveBoundaryEntry` | rouwenhorst.cpp:79 | an entry of row 0 or row i-1 is unchanged |
| `Rouwenhorst.HalveRowSum` | rouwenhorst.cpp:79 | halving divides the sum of an interior row by 2 and leaves rows 0 and i-1 unchanged |
| `Rouwenhorst.HalveNonNegative` | rouwenhorst.cpp:79 | halving keeps a non-negative matrix non-negative |
| `Rouwenhorst.Step` | rouwenhorst.cpp:64-84 | shape only: a step grows the matrix by one (its entries are stated by `StepEntry`) |
| `Rouwenhorst.StepEntry` | rouwenhorst.cpp:78-79 | entry (i, j) after a step is the weighted sum of the four embeddings at (i, j), halved exactly on rows 1..i-2 |
| `Rouwenhorst.StepFirstRowSum` | rouwenhorst.cpp:73-78 | row 0 after a step sums to p + (1-p) = 1, since only the copies at row offset 0 reach it |
| `Rouwenhorst.StepLastRowSum` | rouwenhorst.cpp:73-78 | the last row after a step sums to (1-q) + q = 1, since only the copies at row offset 1 reach it |
| `Rouwenhorst.StepInteriorRowSum` | rouwenhorst.cpp:73-79 | an interior row after a step sums to (p + (1-p) + (1-q) + q)/2 = 1 |
| `Rouwenhorst.StepRowsSumToOne` | rouwenhorst.cpp:64-84 | one step preserves "every row sums to 1", for any p and q |
| `Rouwenhorst.StepNonNegative` | rouwenhorst.cpp:67-79 | with weights in [0, 1], one step preserves non-negativity |
| `Rouwenhorst.TransitionMatrix` | rouwenhorst.cpp:55-84 | the matrix after the loop is N x N |
| `Rouwenhorst.GrowRowsSumToOne` | rouwenhorst.cpp:64-84 | if the matrix of size N-1 has rows summing to 1, so has the matrix of size N |
| `Rouwenhorst.MatrixRowsSumToOne` | rouwenhorst.cpp:55-84 | by induction over the sizes, every row of the final matrix sums to 1 |
| `Rouwenhorst.GrowNonNegative` | rouwenhorst.cpp:64-84 | with p, q in [0, 1], if the matrix of size N-1 is non-negative, so is the matrix of size N |
| `Rouwenhorst.MatrixNonNegative` | rouwenhorst.cpp:55-84 | by induction over the sizes, with p, q in [0, 1] no entry of the final matrix is negative |
| `Rouwenhorst.MatrixStochastic` | rouwenhorst.cpp:55-84 | with p, q in [0, 1] the final matrix is row-stochastic, and every entry lies in [0, 1] |
| `Rouwenhorst.BaseArray` | rouwenhorst.cpp:55 | a fresh 2 x 2 array holds `[[p, 1-p], [1-q, q]]` |
| `Rouwenhorst.EmbedArray` | rouwenhorst.cpp:67-76 | a fresh zero (k+1) x (k+1) array, with the previous k x k array copied into the block at the given offset and zeros elsewhere |
| `Rouwenhorst.CombineRow` | rouwenhorst.cpp:78 | row i of the array gets p E1 + (1-p) E2 + (1-q) E3 + q E4 entry by entry; the other rows keep their values |
| `Rouwenhorst.CombineArrays` | rouwenhorst.cpp:78 | a fresh array holding p E1 + (1-p) E2 + (1-q) E3 + q E4 entry by entry, filled row by row |
| `Rouwenhorst.HalveInteriorRows` | rouwenhorst.cpp:79 | rows 1..k-2 (all columns) are halved in place; rows 0 and k-1 keep their values |
| `Rouwenhorst.CombinedArray` | rouwenhorst.cpp:78 | an array holding the weighted sum of the four embedding arrays holds the specified combination |
| `Rouwenhorst.StepArray` | rouwenhorst.cpp:67-82 | one iteration of the loop produces a fresh array holding the next specified matrix |
| `Rouwenhorst.Discretize` | rouwenhorst.cpp:44-84 | the program's grid is `Grid`; its final fresh array holds `TransitionMatrix(N, p, p)` with p = (1 + rho)/2, and that matrix is row-stochastic |

## Left out

- Console printing of the grid and the matrix (tauchen.cpp:94-114, rouwenhorst.cpp:90-110): formatting and I/O only.
- The hard-coded parameter values (tauchen.cpp:40-43, rouwenhorst.cpp:36-38): they are inputs of the `Discretize` methods.
- Floating-point rounding: everything is exact `real`.
  - `sqrt`, `pow` and `exp` are not computed. sigma_z, sqrt(N-1) and sqrt(2) are given reals tied by preconditions, and `exp` is an arbitrary function.
  - The accuracy of `phi` (about 1.5e-7) is not stated.
- NormalCdf.Phi: its range [0, 1] and its monotonicity (`NormalCdf.PhiMonotone`) are proved only for an `exp` that is non-decreasing with values in [0, 1] on the non-positive reals, since `exp` is not computed.
- Tauchen.Discretize: promises entries in [0, 1] only for m >= 0 and for such an `exp`. With m < 0 the grid runs from a positive end down to a negative one, and the bin width d is negative.
- The Armadillo library: only the effect of `linspace`, `zeros`, `submat` and `resize` is modelled. `resize` followed by assignment (rouwenhorst.cpp:81-82) becomes rebinding the loop's array to the new one.
- The unused `<random>` include.
- Degenerate sizes: N = 1 is excluded by preconditions. In Tauchen it divides by zero at tauchen.cpp:53.
- Rouwenhorst.Discretize: for N = 2 it returns the base matrix, not the top-left 2 x 2 entries of the unfilled 3 x 3 `mPI_new` that the code prints.
