# Greedy optimal-design exchange, modelled in Dafny

This project models `genOptimalDesign` of the skpr package: the routine that
turns a seed design matrix into a D-, I- or A-improved one by a single greedy
sweep of row exchanges against a candidate list, and returns the final model
matrix together with a provenance vector (which candidate row, 1-based, now
occupies each design row, or the caller's seed index when the row was kept).

The model follows the routine's three parts:

- **SingularityGuard** (`singularity_guard.dfy`): the "too few runs" check,
  then at most `MaxSingularityChecks` = 10 rounds that overwrite every design
  row with a candidate row chosen by a supplied index vector, until X^T X can
  be inverted. `Bootstrap` does this in place on an `array<Row>`;
  `BootstrapOutcome` is the specification it is proved against.
- **Criteria** (`criteria.dfy`, `linear_algebra.dfy`): the D exchange gain
  `Delta` over an exact bilinear form u V w^T, and the I and A criteria
  trace((X^T X)^-1 M) and trace((X^T X)^-1). The symmetric positive-definite
  inverse is an uninterpreted parameter `invSympd: Matrix -> Option<Matrix>`
  applied to the concrete information matrix `Gram(X, p)`; `None` is the
  library's "singular" report. Products, traces and X^T X are written out over
  `real`.
- **ExchangeEngine** (`exchange_engine.dfy`): the candidate scans `ScanD`
  and `ScanVariance` (strict improvement only, increasing candidate order, the
  scratch copy `temp`, singular candidates skipped) and the row sweeps
  `SweepD` and `SweepVariance`, which overwrite design rows and provenance
  entries in place. Each sweep is proved against `RowsOk`: row k is decided
  against `Mid(start, final, k)`, the design with rows before k already
  committed and the rest as at the start, so "rows are visited once in
  increasing order, only row k changes at step k, later rows see earlier
  commits" is one statement.
- **OptimalDesign** (`optimal_design.dfy`): the exported routine: bootstrap,
  the sweep selected by the condition string, and the `Fit` result.

Inputs the source takes from its environment become parameters: the random
index vectors of the repair loop are the sequence `draws` (one vector of
`nTrials` indices in `[0, totalPoints)` per round), and the inverse is
`invSympd`. The seed indices `initialRows` are a vector of doubles; storing
one into the integer provenance vector truncates toward zero (`TruncToInt`).

Two behaviours of the code that are easy to miss, both kept:

- The code takes `inv_sympd` of the current design at the start of every D
  row outside any `try`, so a singular intermediate design ends the routine. The model
  keeps that path (`SingularInSweep`) and proves it can only arise after at
  least one exchange (`StoppedOnlyAfterExchange`).
- With an empty candidate list and a singular seed, the index generator is
  asked for integers in `[0, -1]`, which it rejects; the model returns
  `InvalidDrawRange` there.

## Model

| member | source | states |
|---|---|---|
| `LinearAlgebra.Gram` | src/genOptimalDesign.cpp:37 | X^T X of a design with p columns (lines 11, 17, 37, 40, 48, 59) is a p x p matrix |
| `LinearAlgebra.Mul` | src/genOptimalDesign.cpp:11 | the product of the inverse and the moments matrix is a p x p matrix |
| `LinearAlgebra.Trace` | src/genOptimalDesign.cpp:11 | the trace taken at lines 11 and 17; a matrix whose diagonal is non-negative has a non-negative trace |
| `LinearAlgebra.Form` | src/genOptimalDesign.cpp:7 | the products x V y^T the gain is built from; a zero row gives 0 |
| `LinearAlgebra.GramSymmetric` | src/genOptimalDesign.cpp:37 | the information matrix X^T X handed to the symmetric inverse is symmetric |
| `Criteria.Invertible` | src/genOptimalDesign.cpp:37 | the boolean form `inv_sympd(test, X^T X)` of lines 37, 40 and 48: the inverse of X^T X exists |
| `Criteria.Delta` | src/genOptimalDesign.cpp:6-8 | the D exchange gain; replacing a row by itself gains exactly 0 |
| `Criteria.DeltaIsFedorovIncrement` | src/genOptimalDesign.cpp:7 | the gain equals (1 + d(y))(1 - d(x)) + d(y,x)^2 - 1, the form in which Fedorov's exchange function is usually written |
| `Criteria.IVariance` | src/genOptimalDesign.cpp:10-13 | the I criterion has a value exactly when X^T X is invertible |
| `Criteria.AVariance` | src/genOptimalDesign.cpp:16-19 | the A criterion has a value exactly when X^T X is invertible |
| `Criteria.AVarianceIsUnweightedIVariance` | src/genOptimalDesign.cpp:10-19 | the A criterion is the I criterion with the identity as moments matrix |
| `Criteria.Variance` | src/genOptimalDesign.cpp:89 | the criterion an I or A sweep evaluates (line 89 for I, line 120 for A) fails exactly on a singular design |
| `SingularityGuard.Resample` | src/genOptimalDesign.cpp:41-44 | one repair round overwrites every design row with a candidate row |
| `SingularityGuard.Attempt` | src/genOptimalDesign.cpp:40-44 | the design tested after t repair rounds: the seed for t = 0, otherwise a design of nTrials rows each taken from the candidate list |
| `SingularityGuard.FirstInvertible` | src/genOptimalDesign.cpp:40-46 | the repair loop stops at the first round, at most 10, whose design is invertible, and every earlier one was singular; none means all 10 were singular |
| `SingularityGuard.BootstrapOutcome` | src/genOptimalDesign.cpp:27-51 | fails with too few runs exactly when nTrials <= columns; on success the design is invertible, has nTrials rows and is the seed or one of the first `MaxSingularityChecks` = 10 (line 27) resampled designs; fails after repair exactly when the seed and all 10 rounds are singular (the error of line 49); never reports a sweep failure |
| `SingularityGuard.RepairExit` | src/genOptimalDesign.cpp:40-50 | leaving the loop with an invertible design succeeds with that design; leaving it after 10 singular rounds fails |
| `SingularityGuard.ResampleRows` | src/genOptimalDesign.cpp:42-44 | one round overwrites the design array in place with the resampled design |
| `SingularityGuard.Bootstrap` | src/genOptimalDesign.cpp:33-51 | the in-place repair of the design array ends in exactly the outcome `BootstrapOutcome` specifies |
| `ExchangeEngine.TruncToInt` | src/genOptimalDesign.cpp:73 | a seed index stored into the integer provenance vector is truncated toward zero |
| `ExchangeEngine.ScanD` | src/genOptimalDesign.cpp:55-68 | a candidate is found only if some gain is strictly above 0; the one found has the largest gain and is the lowest index attaining it; otherwise no gain is positive |
| `ExchangeEngine.CurrentRowNeverBestD` | src/genOptimalDesign.cpp:56-62 | with threshold 0 and a strict comparison, re-inserting the current row is never the chosen D swap |
| `ExchangeEngine.Trial` | src/genOptimalDesign.cpp:88-89 | candidate c written into row i of the scratch copy and evaluated (lines 88-89 for I, 119-120 for A): it evaluates exactly when that design is invertible, and writing back the current row gives the current criterion |
| `ExchangeEngine.ScanVariance` | src/genOptimalDesign.cpp:84-99 | singular candidates are skipped; a candidate is found only if its criterion is strictly below the threshold; it is the least among those that evaluate and the lowest index attaining it; otherwise the threshold is returned unchanged and nothing that evaluates is below it |
| `ExchangeEngine.CurrentRowNeverBestVar` | src/genOptimalDesign.cpp:90 | re-inserting the current row is never the chosen I or A swap |
| `ExchangeEngine.RowsOkStep` | src/genOptimalDesign.cpp:100-105 | committing row i keeps every earlier row's decision valid and leaves the rows after i as at the start |
| `ExchangeEngine.SweepProvenance` | src/genOptimalDesign.cpp:69-74 | every provenance entry is a 1-based candidate index whose candidate now fills the row, or the seed index of a row left as it was |
| `ExchangeEngine.RowStepUnique` | src/genOptimalDesign.cpp:60-68 | the per-row decision has exactly one outcome (ties keep the earlier candidate) |
| `ExchangeEngine.SweepDeterministic` | src/genOptimalDesign.cpp:54-75 | any two row-by-row runs of the sweep agree on every row decided so far |
| `ExchangeEngine.CompletedSweepUnique` | src/genOptimalDesign.cpp:54-75 | a completed sweep has one possible final design and provenance vector |
| `ExchangeEngine.VarianceStep` | src/genOptimalDesign.cpp:85-105 | one I or A row keeps the design invertible, never raises the criterion and lowers it strictly when the row changes |
| `ExchangeEngine.VarianceNeverIncreases` | src/genOptimalDesign.cpp:79-106 | along an I or A sweep the criterion of the design in effect never rises above its value at any earlier row |
| `ExchangeEngine.StoppedOnlyAfterExchange` | src/genOptimalDesign.cpp:59 | a D sweep that starts invertible can hit a singular inverse only after some earlier row was exchanged |
| `ExchangeEngine.SweepD` | src/genOptimalDesign.cpp:53-76 | the in-place D sweep either decides every row by the D rule against the design it sees, or stops at a row whose inverse fails |
| `ExchangeEngine.SweepVariance` | src/genOptimalDesign.cpp:78-107 | the in-place I or A sweep (A at lines 109-138) decides every row by the variance rule, carrying the threshold from row to row, and ends non-singular with a criterion no larger than at the start |
| `OptimalDesign.RuleFor` | src/genOptimalDesign.cpp:53 | "D", "I" and "A" (lines 53, 78, 109) select their sweeps and every other string selects none |
| `OptimalDesign.Optimize` | src/genOptimalDesign.cpp:52-138 | runs the selected sweep; with no sweep the design and the zero provenance vector stay as they are |
| `OptimalDesign.Improve` | src/genOptimalDesign.cpp:52-140 | from a non-singular design and zero provenance, the result is the selected sweep's outcome, or zeros and the unchanged design with no sweep; indices are valid candidate or seed indices; the I and A criteria do not rise |
| `OptimalDesign.GenOptimalDesign` | src/genOptimalDesign.cpp:25-141 | fails with too few runs or a failed repair exactly as the bootstrap specifies; otherwise the result is the selected sweep from the repaired design, or zeros and the unchanged design for an unknown condition; indices and design have nTrials entries; every index is a valid candidate index or the seed index; the I and A criteria of the result are at most those of the starting design |

## Left out

- Floating-point arithmetic: entries, gains and traces are exact reals, so rounding, NaN and infinities are not modelled.
- The numerical inverse `inv_sympd`: it is an uninterpreted parameter returning a matrix or "singular"; nothing is assumed about the matrix it returns.
- D-criterion determinant monotonicity: proving that an exchange with positive gain raises det(X^T X), and hence that the D sweep cannot meet a singular design, needs a real inverse and is not attempted.
- The random generator `arma::randi`: its index vectors are the supplied `draws`; seeding and distribution are not modelled.
- Redirecting the library's error stream (lines 38-39) is output configuration only.
- Rcpp argument marshalling and the `List::create` packaging (lines 1-4, 21-26, 140): the result is the `Fit` datatype.
- C++ exceptions: the fatal `throw`s become `Failure` results; the per-candidate `try`/`catch` becomes the `Option` the criteria return.
- Dimension errors from the matrix library: both matrices are required to be rectangular with the same column count, as the routine's callers supply them.
- OptimalDesign.GenOptimalDesign: for condition "I" the moments matrix is required to be p x p; with any other shape the product at line 11 raises a dimension error that no `catch` at lines 96-98 handles, and that failure is not modelled.
- 32-bit integer widths of `nTrials`, `totalPoints` and the provenance entries, and out-of-range double-to-int conversions, are not modelled.
- `entryx` is always the current row index when a swap is found, so the model writes row i directly.
- The three separate `if (condition == ...)` blocks are modelled as one selection (`RuleFor`); the strings are distinct, so at most one block runs either way.
- The claim that a design already holding every candidate row comes back unchanged is not proved; what is proved is that re-inserting a row's own value is never chosen (`CurrentRowNeverBestD`, `CurrentRowNeverBestVar`).
- Global optimality and repeated sweeps: the routine performs exactly one pass and the model does the same; no fixed-point property is claimed.
- OptimalDesign.GenOptimalDesign: for a D sweep that fails, it states only that some row-by-row state reached a singular inverse, not which row; `SweepDeterministic` shows the decided rows are the same in any such state.
