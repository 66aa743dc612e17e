# Dense QR solves and the Jacobian-free Newton-Krylov engine

This project models two numerical components of the Solvers library in Dafny over exact `real` arithmetic.

**Dense inverse** (`src/DenseInverse.cpp`). This covers:
- upper-triangular back-substitution on column-major (`i + m*j`) buffers;
- the Householder reflection applier `applyQ`;
- the factorisation `householderQR`, which writes the transpose of Q into `qt` and R over `a`;
- the three routines built on them: least-squares solve, square solve and matrix inverse.

Every routine is an in-place loop over `array<real>`, proved against a specification function on the buffer contents:
- `ApplyQSpec` is one reflection applied to a range of columns.
- `QRStep` and `QR` are one elimination step and the whole factorisation.
- `SolvesUpper` is the triangular system that back-substitution solves.

**JFNK** (`include/Solver/JFNK.h`). This is the Newton engine after Knoll and Keyes (2003), modelled as the class `JFNKSolver.JFNK`. It holds:
- the caller's iterate `x` and six working buffers;
- the settings;
- the fields `residual`, `alpha` and `iter`.

Its operations are:
- the central finite-difference Jacobian-vector operator;
- the residual at a step length;
- three line searches (none, linear sampling, bisection);
- one Newton `update` and the driver loop `solve`.

Each line search is proved equal to a pure search over the residual curve `alpha |-> residual(x - alpha dx)`, in module `LineSearch`. Properties of those searches are proved there: bracket invariants and which sample wins. The bisection as written can end worse than its better end; the corrected bisection (see Findings) never does.

`solve` is proved equal to `JFNKSolver.Run`, a pure function that repeats `JFNKSolver.Step` (one `update`) and stops after the first update that meets the stopping test.

The floating-point values the engine compares are modelled by `FloatModel.Float`: a finite number, +infinity or NaN, ordered as IEEE-754 orders them. The caller's function `F`, the vector L2 norm, the Krylov linear solver and the stop callback are parameters of the model.

Module layout:
- `ColumnMajor`: the column-major index map, row sums, matrix-vector products, columns, unit vectors and the identity.
- `DenseInverse`: back-substitution, `applyQ`, the Householder factorisation and the solves built on it.
- `FloatModel`: the `Float` values, their IEEE order, `fmin`, the NaN replacement and the norm divided by n.
- `LineSearch`: the three searches as pure functions, their properties, and the bisection finding below.
- `FiniteDifference`: `x ± eps v`, the central difference, and its exactness on affine functions.
- `JFNKSolver`: the residual, the stop conditions and the class `JFNK`.

## Model

| member | source | states |
|---|---|---|
| DenseInverse.SolvesUpper | src/DenseInverse.cpp:10-19 | The system back-substitution solves: for every i < n, the sum over j from i to n-1 of `a[i+m*j]*x[j]` equals `b[i]` |
| DenseInverse.BackSubstituteUpperTriangular | src/DenseInverse.cpp:10-19 | Writes only `x[xOff..xOff+n)`. When every diagonal entry `a[i+m*i]` (i < n) is nonzero, the written x solves the upper-triangular system: for every i < n, the sum over j from i to n-1 of `a[i+m*j]*x[j]` equals `b[i]` |
| DenseInverse.SolvedTailSum | src/DenseInverse.cpp:13-16 | The inner loop's `sum` is the row sum of row i over columns i+1..n-1 with the already solved entries of x |
| DenseInverse.BackSubstituteStep | src/DenseInverse.cpp:17 | Solving row i from the tail sum keeps every row r ≥ i solved; rows below i are not disturbed |
| DenseInverse.SolveRow | src/DenseInverse.cpp:17 | `x[i] = (b[i] - sum) / a[i+m*i]` makes row i's equation hold when the pivot is nonzero |
| DenseInverse.SolutionsAgreeFrom | src/DenseInverse.cpp:12-18 | Two solutions of the same triangular system with a nonzero diagonal agree on every entry from row i down |
| DenseInverse.PivotDetermined | src/DenseInverse.cpp:17 | With a nonzero pivot and an agreeing tail, row i's equation determines x[i] |
| DenseInverse.TailAgrees | src/DenseInverse.cpp:14-16 | The tail sum of row i depends only on x[i+1..n) |
| DenseInverse.PivotFromRow | src/DenseInverse.cpp:17 | Any x satisfying row i with a nonzero pivot has x[i] equal to the value back-substitution writes |
| DenseInverse.SolvesUpperUnique | src/DenseInverse.cpp:10-19 | The system has at most one solution when the diagonal is nonzero, so the written x is the solution |
| DenseInverse.SolvesUpperReadsUpperOnly | src/DenseInverse.cpp:14-17 | Whether x solves the system, and whether the diagonal is nonzero, depend only on the entries on or above the diagonal of the first n rows |
| DenseInverse.RowSumZero | src/DenseInverse.cpp:14-16 | A row sum over zero coefficients is zero |
| DenseInverse.IdentitySolvesToRhs | src/DenseInverse.cpp:10-19 | With an identity upper block, the system holds exactly when x is b's first n entries |
| DenseInverse.ColDot | src/DenseInverse.cpp:24-27 | `vDotMj`: the sum over rows k..hi-1 of `v[i-k]·a[i + m·j]` |
| DenseInverse.ColDotFrame | src/DenseInverse.cpp:24-27 | The dot product `v·a[k..m, j]` reads only rows k..m-1 of column j |
| DenseInverse.ColumnOf | src/DenseInverse.cpp:26 | Offset `i + m*j` (i < m) lies in column j' exactly when j = j' |
| DenseInverse.ReflectColumnEntry | src/DenseInverse.cpp:24-30 | Reflecting column jc changes only rows k..m-1 of that column. Each such entry becomes `a[i,jc] - 2·(v·a[k..m,jc])·v[i-k]`, with the dot product taken before any write |
| DenseInverse.ApplyQFrame | src/DenseInverse.cpp:22-32 | `applyQ` leaves every entry with i < k, j < jmin or j ≥ jmax unchanged |
| DenseInverse.ApplyQTouched | src/DenseInverse.cpp:22-32 | Every entry with k ≤ i < m and jmin ≤ j < jmax becomes `a[i,j] - 2·(v·a[k..m,j])·v[i-k]`, computed from the column's original values |
| DenseInverse.ColumnUntouched | src/DenseInverse.cpp:23-31 | Reflecting columns jmin..jmax-1 does not change the dot product of any later column |
| DenseInverse.ApplyQSpecStep | src/DenseInverse.cpp:23 | One more column of the outer loop reflects column j of the buffer reached so far |
| DenseInverse.Reflect | src/DenseInverse.cpp:29 | The update of one entry: `a -= 2·vDotMj·v[i-k]` |
| DenseInverse.ReflectColumn | src/DenseInverse.cpp:24-30 | Column c with rows k..m-1 reflected by v: each entry less 2·(v·column)·v[i-k], the dot product taken from the column before any write; the buffer keeps its length |
| DenseInverse.ApplyQSpec | src/DenseInverse.cpp:22-32 | Columns jmin..jmax-1 reflected one after the other, in the order of the outer loop; the buffer keeps its length |
| DenseInverse.ApplyQ | src/DenseInverse.cpp:22-32 | The array afterwards is `ApplyQSpec` of its old contents: exactly the reflection of columns jmin..jmax-1 in rows k..m-1 |
| DenseInverse.ReflectColumnOf | src/DenseInverse.cpp:24-30 | One pass of the outer loop of `applyQ`: the array becomes its old contents with one column reflected |
| DenseInverse.ColumnDot | src/DenseInverse.cpp:24-27 | The first inner loop of `applyQ` computes `v·a[k..m, j]` |
| DenseInverse.ReflectColumnAt | src/DenseInverse.cpp:29 | The entry at row i ≥ k of the reflected column is `Reflect` of the old entry |
| DenseInverse.ReflectColumnInPlace | src/DenseInverse.cpp:28-30 | The second inner loop of `applyQ` turns the column into its reflection, given the dot product |
| DenseInverse.SubColumn | src/DenseInverse.cpp:48 | The copy into `v` holds `a[k+t, k]` for t < m-k |
| DenseInverse.Normalised | src/DenseInverse.cpp:53-55 | Every normalised entry times the length gives back the entry before division |
| DenseInverse.SignedBy | src/DenseInverse.cpp:50 | `vLen·(v[0] < 0 ? -1 : 1)`: the length with the sign of v[0], a zero v[0] counting as positive |
| DenseInverse.Shifted | src/DenseInverse.cpp:49-50 | The copied column with its first entry moved by its norm, away from zero; same length |
| DenseInverse.Reflector | src/DenseInverse.cpp:48-56 | The reflector of column k: the shifted subcolumn, divided by its new norm only when that norm exceeds 1e-10; m-k entries |
| DenseInverse.ShiftAwayFromZero | src/DenseInverse.cpp:50 | The first entry is shifted by +norm when v[0] ≥ 0 and by -norm when v[0] < 0. The shift moves it away from zero, and the other entries are kept |
| DenseInverse.ReflectorNormalised | src/DenseInverse.cpp:51-55 | When the new norm exceeds 1e-10, every reflector entry is the shifted entry divided by that norm |
| DenseInverse.ReflectorUnnormalised | src/DenseInverse.cpp:52 | When the new norm is at most 1e-10, the reflector is the shifted column, not divided |
| DenseInverse.QRStep | src/DenseInverse.cpp:47-58 | One elimination step k: build the reflector of column k of R, apply it to columns k..n-1 of R and to all m columns of Qᵀ; both buffers keep their sizes |
| DenseInverse.QRStepsFrom | src/DenseInverse.cpp:46-59 | The elimination loop from step k: steps k..n-1 in order; both buffers keep their sizes |
| DenseInverse.QR | src/DenseInverse.cpp:35-60 | The factorisation: Qᵀ starts as the m×m identity and R as a, then steps 0..n-1 run in order; sizes m·m and m·n |
| DenseInverse.QRStepKeepsR | src/DenseInverse.cpp:57 | Step k leaves rows i < k and columns j < k of `a` unchanged |
| DenseInverse.QRStepKeepsQt | src/DenseInverse.cpp:58 | Step k leaves rows i < k of `qt` unchanged |
| DenseInverse.SettledTransitive | src/DenseInverse.cpp:46-59 | "Rows and columns below s unchanged" composes over successive steps |
| DenseInverse.QRStepSettles | src/DenseInverse.cpp:57-58 | Step k leaves everything settled before s ≤ k unchanged |
| DenseInverse.SettledMonotone | src/DenseInverse.cpp:46-59 | Being settled up to s implies being settled up to any s' ≤ s |
| DenseInverse.QRStepsSettle | src/DenseInverse.cpp:46-59 | Steps k..n-1 leave columns j < k of `a` and rows i < k of both buffers unchanged |
| DenseInverse.QRStepsSettleStep | src/DenseInverse.cpp:46-59 | Inductive step of the previous lemma for k < n |
| DenseInverse.SettledChain | src/DenseInverse.cpp:46-59 | Settled up to s, followed by settled up to s+1, is settled up to s |
| DenseInverse.SettledReflexive | src/DenseInverse.cpp:46-59 | A state is settled with respect to itself |
| DenseInverse.SetIdentity | src/DenseInverse.cpp:40-44 | The first m·m entries become the m×m identity; entries beyond them are unchanged |
| DenseInverse.SetIdentityRow | src/DenseInverse.cpp:41-43 | One pass of the outer identity loop sets row i to the identity's row and changes nothing else |
| DenseInverse.HouseholderQR | src/DenseInverse.cpp:35-60 | `(qt, a)` afterwards is `QR` of the old `a`: the identity is written into `qt` before any reflection, then the n elimination steps run in order |
| DenseInverse.HouseholderStep | src/DenseInverse.cpp:47-58 | One pass of the elimination loop is `QRStep`: build the reflector from column k, apply it to columns k..n-1 of `a`, then to all columns of `qt` |
| DenseInverse.BuildReflector | src/DenseInverse.cpp:48-56 | `v[0..m-k)` becomes the reflector of column k: copy, shift, and normalise only above 1e-10 |
| DenseInverse.FactorCopy | src/DenseInverse.cpp:65-69 | Factorises a private copy of `a` (the same copy is made again at lines 91-95); the caller's `a` is not written |
| DenseInverse.RowTimes | src/DenseInverse.cpp:75-78 | The inner product of row i of `qt` with the vector (the same loop recurs at lines 110-113) |
| DenseInverse.TransformRhs | src/DenseInverse.cpp:73-80 | `qtb` becomes `qt·b` in a buffer separate from x and qt |
| DenseInverse.SolveLinearLeastSquares | src/DenseInverse.cpp:63-82 | With `QR(a) = (qt, r)`: if r's diagonal is nonzero, `x[0..n)` solves `r x = qt·b`. It writes nothing but `x[0..n)`, reads `a` and `b` as they were on entry, and does not require x to differ from b |
| DenseInverse.SolveLinear | src/DenseInverse.cpp:85-87 | The m = n case of the least-squares solve, with the same guarantee |
| DenseInverse.MatrixInverse | src/DenseInverse.cpp:90-118 | With `QR(a) = (qt, r)`: if r's diagonal is nonzero, each column j of `ainv` solves `r x = qt·e_j`. Nothing beyond the first n·n entries is written |
| DenseInverse.InvertColumns | src/DenseInverse.cpp:104-117 | Starting from identity columns, the loop turns each column j into the solution of `r x = qt·e_j` |
| DenseInverse.InverseColumn | src/DenseInverse.cpp:109-116 | Column j is solved from `qt` times its own current contents, and only column j is written |
| ColumnMajor.IdxInjective | src/DenseInverse.cpp:15 | `i + m*j` with i < m identifies the entry: distinct (i, j) have distinct offsets |
| ColumnMajor.IdxBound | src/DenseInverse.cpp:15 | Entry (i, j) of an m×cols buffer lies inside it |
| ColumnMajor.OffsetSplit | src/DenseInverse.cpp:40-44 | Every offset of an m×cols buffer is `i + m*j` for some i < m, j < cols |
| ColumnMajor.RowSum | src/DenseInverse.cpp:14-16 | The inner sum of back-substitution: the sum over columns lo..hi-1 of `a[i+m*j]·x[j]` |
| ColumnMajor.RowSumFrame | src/DenseInverse.cpp:14-16 | A row sum reads only its row's coefficients and the vector's entries in range |
| ColumnMajor.RowSumFirst | src/DenseInverse.cpp:14-16 | A row sum splits into its first term plus the rest |
| ColumnMajor.MatVec | src/DenseInverse.cpp:74-80 | Entry i of `qt·y` is row i's sum over all columns |
| ColumnMajor.Column | src/DenseInverse.cpp:116 | Column j is the slice starting at `n*j`, the pointer `ainv + n*j` |
| ColumnMajor.Unit | src/DenseInverse.cpp:101 | Unit vector e_j: 1 at j, 0 elsewhere |
| ColumnMajor.UnitColumns | src/DenseInverse.cpp:99-103 | The unit vectors e_0..e_(cols-1) one after another, m·cols entries, as the column-by-column identity fill of `ainv` writes them |
| ColumnMajor.Identity | src/DenseInverse.cpp:40-44 | The m×m identity that `qt` is filled with, m·m entries |
| ColumnMajor.UnitColumnsEntry | src/DenseInverse.cpp:42 | Entry (i, j) of the identity block is 1 when i = j and 0 otherwise |
| ColumnMajor.IdentityEntry | src/DenseInverse.cpp:42 | The same for the square identity |
| ColumnMajor.IdentityByEntries | src/DenseInverse.cpp:40-44 | A buffer with those entries is the identity |
| ColumnMajor.IdentityColumn | src/DenseInverse.cpp:99-103 | Column j of the identity is e_j |
| ColumnMajor.OtherColumnsKept | src/DenseInverse.cpp:116 | Writing inside column j keeps every other column |
| FloatModel.Lt | include/Solver/JFNK.h:278 | The double comparison `<`: false whenever either side is NaN, and +inf above every number |
| FloatModel.Le | include/Solver/JFNK.h:299 | The double comparison `<=`: `<` or equal, false whenever either side is NaN |
| FloatModel.IsFinite | include/Solver/JFNK.h:338 | `std::isfinite`: a number, neither +inf nor NaN |
| FloatModel.Trichotomy | include/Solver/JFNK.h:278 | Non-NaN values are totally ordered by `<` |
| FloatModel.LtTransitive | include/Solver/JFNK.h:278 | `<` is transitive |
| FloatModel.LtThenNotAbove | include/Solver/JFNK.h:278 | For c not NaN, a < b and not c < b give a < c |
| FloatModel.LeTransitive | include/Solver/JFNK.h:299 | `<=` is transitive |
| FloatModel.Fmin | include/Solver/JFNK.h:315 | `fmin` returns the smaller of two non-NaN values and ignores a NaN argument |
| FloatModel.Sanitise | include/Solver/JFNK.h:259 | A NaN residual becomes the largest finite double, which is finite; anything else is kept |
| FloatModel.NormOverSize | include/Solver/JFNK.h:240 | `normL2/n` is non-negative when finite. It is NaN exactly for an undefined norm or 0/0, and +inf exactly for an overflowing norm or x/0 with x > 0 |
| FiniteDifference.AddScaled | include/Solver/JFNK.h:213 | `x + v·ε` entry by entry, as long as x |
| FiniteDifference.SubScaled | include/Solver/JFNK.h:214 | `x - v·ε` entry by entry, as long as x; also the point `x - dx·α` of residualAtAlpha and update |
| FiniteDifference.CentralDifference | include/Solver/JFNK.h:212-236 | The operator's result: `(F(x+εv) - F(x-εv)) / (2ε)`, n entries |
| FiniteDifference.SubScaledZero | include/Solver/JFNK.h:248 | `x - dx·0` is x |
| FiniteDifference.CentralDifferenceAt | include/Solver/JFNK.h:229-235 | Entry i is `(F(x+εv)[i] - F(x-εv)[i]) / (2ε)` |
| FiniteDifference.AffineDifference | include/Solver/JFNK.h:212-218 | For an affine F(u) = A·u + c, the difference of the two images is `2ε·(A·v)[i]` |
| FiniteDifference.CentralDifferenceEntry | include/Solver/JFNK.h:229-235 | That difference divided by 2ε is `(A·v)[i]` |
| FiniteDifference.RowSumAddScaled | include/Solver/JFNK.h:213 | A row sum over `x + εv` is the row sum over x plus ε times the row sum over v |
| FiniteDifference.RowSumSubScaled | include/Solver/JFNK.h:214 | A row sum over `x - εv` is the row sum over x minus ε times the row sum over v |
| FiniteDifference.CentralDifferenceOfAffine | include/Solver/JFNK.h:196-236 | For affine F = A·u + c, the operator handed to the Krylov solver is exactly the Jacobian product A·v, for any nonzero ε |
| FiniteDifference.CentralDifferenceOfAffineEntry | include/Solver/JFNK.h:233-235 | Entry-wise form of the previous lemma |
| LineSearch.Search | include/Solver/JFNK.h:334 | The search update runs for each value of the selector: the full step, the linear scan, or bisection as written |
| LineSearch.SampleAlpha | include/Solver/JFNK.h:276 | Sample i of the linear scan: `maxAlpha·i/lineSearchMaxIter` (alpha 0 when lineSearchMaxIter = 0, see Left out) |
| LineSearch.LinearFrom | include/Solver/JFNK.h:275-282 | The scan from sample i on, replacing the best pick only by a strictly smaller residual |
| LineSearch.LinearSearch | include/Solver/JFNK.h:271-285 | The scan of samples 0..lineSearchMaxIter from alpha 0 and the largest double |
| LineSearch.SearchResidualAtAlpha | include/Solver/JFNK.h:264-317 | Whichever search runs, a nonzero returned alpha comes with the residual at that alpha |
| LineSearch.LinearFromPicks | include/Solver/JFNK.h:275-282 | From sample i on, the loop keeps its best pick or moves to the first sample strictly below every earlier one. No sample from i on is strictly below the result |
| LineSearch.LinearPicksFirst | include/Solver/JFNK.h:271-285 | `lineSearch_linear` returns (0, DBL_MAX) when no sample beats DBL_MAX. Otherwise it returns the first sample α = maxAlpha·k/lineSearchMaxIter attaining the strict minimum, with its residual; no sample is smaller |
| LineSearch.Mid | include/Solver/JFNK.h:295 | `alphaMid = .5·(alphaL + alphaR)` |
| LineSearch.Round | include/Solver/JFNK.h:295-312 | One round: as written when `corrected` is false, and with the Findings' corrected stop test when it is true |
| LineSearch.Rounds | include/Solver/JFNK.h:294-313 | At most k rounds, ending at the first round that stops |
| LineSearch.Finish | include/Solver/JFNK.h:315-316 | `residual = fmin(residualL, residualR)` and alphaL only when residualL < residualR |
| LineSearch.FinishPicksEnd | include/Solver/JFNK.h:315-316 | Away from NaN the recorded residual is that of the end returned, and the smaller of the two; ties go to alphaR |
| LineSearch.StartBracket | include/Solver/JFNK.h:289-292 | The bracket [0, maxAlpha] with the residuals at both ends |
| LineSearch.BisectSearch | include/Solver/JFNK.h:288-317 | The whole bisection from [0, maxAlpha]: as written, or with the corrected stop test |
| LineSearch.RoundAsWritten | include/Solver/JFNK.h:295-312 | A round as written either stops or replaces exactly one end of the bracket by the midpoint and its residual |
| LineSearch.RoundKeepsBracket | include/Solver/JFNK.h:295-312 | A round keeps both ends within [0, maxAlpha] (within [maxAlpha, 0] for negative maxAlpha). For maxAlpha ≥ 0 it keeps alphaL ≤ alphaR, and each end keeps its recorded residual |
| LineSearch.RoundsStep | include/Solver/JFNK.h:294-297 | A round that stops ends the loop where it is; otherwise the loop continues from the new bracket with one round fewer |
| LineSearch.RoundsKeepBracket | include/Solver/JFNK.h:294-313 | The same after any number of rounds |
| LineSearch.BisectResidualAtAlpha | include/Solver/JFNK.h:288-317 | Bisection returns an alpha within [0, maxAlpha] with 0 ≤ alphaL ≤ alphaR ≤ maxAlpha, and the residual at that alpha. It returns alphaL when residualL < residualR and alphaR otherwise, so ties go to alphaR |
| LineSearch.RoundKeepsBest | include/Solver/JFNK.h:295-312 | With the corrected stop test, a round never makes the better end worse |
| LineSearch.RoundsKeepBest | include/Solver/JFNK.h:294-313 | The same after any number of rounds; no end becomes NaN |
| LineSearch.BisectNeverWorse | include/Solver/JFNK.h:288-317 | Corrected bisection returns a residual no larger than min(r(0), r(maxAlpha)) |
| LineSearch.BisectAsWrittenLosesBest | include/Solver/JFNK.h:297 | The as-written stop test loses the better endpoint on the input in Findings; the corrected one keeps it |
| JFNKSolver.CalcResidual | include/Solver/JFNK.h:239-241 | `calcResidual`: normL2 of the vector divided by n (see `FloatModel.NormOverSize` for NaN and infinity) |
| JFNKSolver.Residual | include/Solver/JFNK.h:251-261 | The residual residualAtAlpha records at a point: calcResidual of F there, NaN replaced by the largest double |
| JFNKSolver.Curve | include/Solver/JFNK.h:244-262 | `residualAtAlpha` as a function of alpha: the residual at `x - α·dx` |
| JFNKSolver.Accepted | include/Solver/JFNK.h:336-349 | update moves x only for a nonzero alpha with a finite residual |
| JFNKSolver.ShouldStop | include/Solver/JFNK.h:355-360 | The four breaks of solve: the callback is set and fires, alpha is 0, the residual is not finite, or it is below stopEpsilon |
| JFNKSolver.Stopping | include/Solver/JFNK.h:356-359 | The breaks of solve tested on the state after an update, at the current iter |
| JFNKSolver.Step | include/Solver/JFNK.h:323-350 | One update on values: F(x), the Krylov step, the selected search along it, and x moved only when accepted. A rejected step leaves x; an accepted one records the residual of the new x; iter and the sizes are kept |
| JFNKSolver.Pass | include/Solver/JFNK.h:354-355 | An update that does not break, followed by `++iter`: iter goes up by one and the sizes are kept |
| JFNKSolver.Iterate | include/Solver/JFNK.h:354-360 | j passes of the loop that did not break: iter goes up by j and the sizes are kept |
| JFNKSolver.Run | include/Solver/JFNK.h:353-361 | solve on values. It changes nothing when iter ≥ maxiter. Otherwise iter ends between its start and maxiter, and if it ends below maxiter the last update met the stopping test |
| JFNKSolver.RunStopsAtFirst | include/Solver/JFNK.h:353-361 | solve runs k updates with 1 ≤ k ≤ maxiter - iter. None of the first k - 1 meets the stopping test. It ends on the k-th: at that update's state if it meets the test, otherwise with iter advanced, which happens only when k = maxiter - iter |
| JFNKSolver.IterateFirst | include/Solver/JFNK.h:354 | j + 1 passes of the loop are one pass followed by j more |
| JFNKSolver.NoStopBefore | include/Solver/JFNK.h:354-361 | No stop in the first pass and none in the k - 1 after it means none in the first k |
| JFNKSolver.CurveFacts | include/Solver/JFNK.h:244-262 | The residual curve is never NaN, and at alpha = 0 it is the residual at x |
| JFNKSolver.JFNK.constructor | include/Solver/JFNK.h:150-182 | Stores n, x, F, stopEpsilon and maxiter, and allocates six fresh distinct buffers of size n. Defaults: bisection, maxAlpha 1, 20 line-search rounds, epsilon 1e-6, residual, alpha and iter 0, no callback. dx is a copy of x |
| JFNKSolver.JFNK.ApplyF | include/Solver/JFNK.h:217-218 | `F(y, v)`: y receives F of v's contents (also called at lines 252 and 326) |
| JFNKSolver.JFNK.KrylovLinearFunc | include/Solver/JFNK.h:196-236 | Sets `x_plus_dx = x + εv` and `x_minus_dx = x - εv` and their images under F. Sets y to the central difference with ε = jacobianEpsilon. The member x is not written |
| JFNKSolver.JFNK.FillShifted | include/Solver/JFNK.h:212-215 | The first loop writes exactly `x ± εv` |
| JFNKSolver.JFNK.FillQuotients | include/Solver/JFNK.h:229-235 | The last loop writes exactly the central difference |
| JFNKSolver.JFNK.ResidualAtAlpha | include/Solver/JFNK.h:244-262 | Writes `x - α·dx` into `x_plus_dx` and F of it into `F_of_x_plus_dx`. Returns `normL2/n` there, with NaN replaced by the largest double; x and dx are not written |
| JFNKSolver.JFNK.LineSearchNone | include/Solver/JFNK.h:265-268 | Returns maxAlpha and records the residual there; the settings, alpha and iter are unchanged |
| JFNKSolver.JFNK.LineSearchLinear | include/Solver/JFNK.h:271-285 | Equals the pure linear search on the residual curve, whose first-strict-minimum property is `LinearPicksFirst` |
| JFNKSolver.JFNK.KeepIfBetter | include/Solver/JFNK.h:276-281 | One pass of the sampling loop: the residual at the sample replaces the best one, together with its alpha, only when strictly smaller; only `residual` and the two step buffers are written |
| JFNKSolver.JFNK.LineSearchBisect | include/Solver/JFNK.h:288-317 | Equals the pure bisection as written: `residual = fmin(residualL, residualR)`, and alphaL only when residualL < residualR |
| JFNKSolver.JFNK.Bisection | include/Solver/JFNK.h:288-317 | Along any curve that agrees with the residual curve, the end it returns and its recorded residual are those of the bisection as written; the residual is never NaN |
| JFNKSolver.JFNK.EndResiduals | include/Solver/JFNK.h:289-292 | The starting bracket: alphaL = 0 and alphaR = maxAlpha with the residuals there on any curve that agrees with the residual curve, neither NaN |
| JFNKSolver.JFNK.BisectRounds | include/Solver/JFNK.h:294-313 | From any bracket, along any curve that agrees with the residual curve, the loop runs at most lineSearchMaxIter rounds. It stops at the first round that says stop and ends at `Rounds` of that bracket |
| JFNKSolver.JFNK.BisectRound | include/Solver/JFNK.h:295-312 | One pass of the loop body is the round as written: it stops only when the midpoint is strictly worse than both ends. On stop the bracket is unchanged; otherwise exactly one end moves to the midpoint |
| JFNKSolver.JFNK.RunLineSearch | include/Solver/JFNK.h:334 | `(this->*lineSearch)()` runs the selected search, bisection as written by default |
| JFNKSolver.JFNK.Update | include/Solver/JFNK.h:323-350 | `F_of_x = F(x)`, then dx is the linear solver's result, then (alpha, residual) is the selected search along x - α·dx. x is unchanged when alpha is 0 or the residual is not finite; otherwise it is `x - α·dx`, and the residual is that of the new x. The new state is `Step` of the old one |
| JFNKSolver.JFNK.KrylovSolve | include/Solver/JFNK.h:330 | `linearSolver->solve()` sets dx to the solver's result; it may also overwrite the four scratch buffers of krylovLinearFunc |
| JFNKSolver.JFNK.Advance | include/Solver/JFNK.h:346-348 | `x[i] -= dx[i]·α` for every i < n |
| JFNKSolver.JFNK.Solve | include/Solver/JFNK.h:353-361 | x, dx, F(x), alpha, residual and iter afterwards are `Run` of the state before: updates until the first one that meets the stopping test, or until iter reaches maxiter (see `RunStopsAtFirst`) |

## Left out

- The Krylov (GMRES) solver is not part of this model. `linearSolver->solve()` is a parameter `linearSolve`: a function from x, F(x) and the old dx to the new dx. How it calls `krylovLinearFunc` is not modelled: those calls overwrite `x_plus_dx`, `x_minus_dx` and their images under F, and the model lets the solve leave anything in those four buffers without saying what.
- `calcResidual` is virtual (include/Solver/JFNK.h:100). A subclass that overrides it is outside the model, which fixes it as normL2/n.
- The caller's `F` is a function of the vector. A callback that keeps state between calls, or that writes its input, is outside the model.
- `Vector<real>::normL2` is a parameter returning a non-negative length, an overflow or an undefined value. Square roots are not modelled.
- The stop callback is modelled as a function of the iteration at which `solve` asks it. A callback with its own state is outside the model.
- Rounding is not modelled: arithmetic is exact `real`. Of IEEE-754 behaviour, only NaN, +infinity, the largest finite double and the ordering of `<`, `<=` and `fmin` are modelled.
- The comment at include/Solver/JFNK.h:258 claims the NaN replacement fails `isfinite`. The largest double is finite, and the model follows the code.
- The disabled adaptive-epsilon block (include/Solver/JFNK.h:197-207) is not modelled.
- These are not modelled:
  - the destructor (include/Solver/JFNK.h:185-192);
  - stack arrays and `memcpy`, which appear as fresh arrays and loops;
  - `shared_ptr` ownership;
  - the float and double template instantiations (src/DenseInverse.cpp:120-124).
- The member-function selector `lineSearch` is the three-value `LineSearch.Strategy`.
- Orthogonality of `qt`, A = QR, A·A⁻¹ = I and Newton convergence are not proved: they depend on the norm and on real analysis. The solves are stated against the factorisation the code computes.
- `LineSearch.SampleAlpha`: with `lineSearchMaxIter == 0` the source computes `maxAlpha·0/0`, which is NaN. The model takes that sample as alpha 0.
- `LineSearch.LinearFrom` inherits that difference: with `lineSearchMaxIter == 0` it takes the alpha-0 sample, not NaN.
- `LineSearch.LinearSearch` inherits it too, through `LinearFrom`.
- `JFNKSolver.JFNK.LineSearchLinear` inherits that difference: with `lineSearchMaxIter == 0` it samples alpha 0, not NaN.
- `JFNKSolver.JFNK.KrylovLinearFunc` requires jacobianEpsilon to be nonzero, since `/0` is not modelled. It also requires the output and input vectors not to alias the working buffers they would overwrite.
- `DenseInverse.BackSubstituteUpperTriangular` promises the solved system only when the diagonal is nonzero; a zero pivot's division by zero is left unspecified. It requires x to be separate from a and b. `SolveLinearLeastSquares`, `SolveLinear` and `MatrixInverse` copy before back-substituting and need no such restriction.
- Ties in bisection go to alphaR, as the code at include/Solver/JFNK.h:316 does, although the comment at include/Solver/JFNK.h:299 speaks of preferring the origin; that comment concerns only the choice of which end to replace.

## Findings

| source | as written | input that shows it | evidently intended | confidence | as-written member | corrected member |
|---|---|---|---|---|---|---|
| include/Solver/JFNK.h:297 | The round stops only when the midpoint is strictly worse than both ends. A midpoint that ties the left end and is worse than the right end falls through to the last branch, which overwrites the right end. | Residual 5 everywhere except r(1) = 3; maxAlpha = 1 and one round. The midpoint 0.5 has residual 5, which ties r(0). The right end is replaced, and the search returns alpha 0.5 with residual 5, worse than r(maxAlpha) = 3. | The search never returns a residual worse than the better of its two starting ends: stop when the midpoint is no better than the left end and strictly worse than the right end. | not executed | LineSearch.BisectAsWrittenLosesBest | LineSearch.BisectNeverWorse |
