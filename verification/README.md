# COBYLA (C# port): verified model of the simplex bookkeeping

This project models the discrete, index-heavy bookkeeping of `Cobyla2.cs`,
the C# port of Powell's COBYLA constrained optimiser. The numerical
optimisation itself is not modelled. The model covers:

- the array helpers `PART`, `PART1`, `PART2`, `TRANSFORM1`, `TRANSFORM2` and
  `DOT_PRODUCT` (module `Buffers`);
- the zero-based to one-based rebasing in `Minimize` and its `icalcfc`
  wrapper around the caller's `calcfc` routine (module `Rebase`);
- the initial simplex built by `cobylb` (module `InitialSimplex`);
- the choice of the optimal vertex `nbest` (module `Selection`);
- the switch of `nbest` into pole position, which updates `sim`, `simi` and
  `datmat` (module `Pivot`);
- the choice of the vertex `jdrop` to drop when the simplex is not
  acceptable (module `DropChoice`).

Two discrete slips found next to this core are modelled both as written and
as evidently intended:

- the greatest constraint violation `RESMAX` (module `Violation`);
- the squared lengths behind `sigma` and `eta` (module `EdgeNorms`).

Doubles are exact `real`s. Buffers are one-based, as in the Fortran original:

- a vector of n entries is a `seq<real>` of length n + 1;
- an r by c matrix is r + 1 rows of c + 1 entries;
- row 0 and column 0 are never written by the modelled code, except column 0
  of `datmat`, which `Violation.RecordVertex` (Cobyla2.cs:203) writes in rows
  1..mpp when no vertex is chosen to drop (`jdrop == 0`); the model accepts
  `jdrop == 0` for that reason;
- slot 0 is read: `con.Min()` at Cobyla2.cs:185 includes `con[0]`, and on the
  `jdrop == 0` path the left-out repair step reads `vsig[0]` and row 0 of
  `simi` (Cobyla2.cs:373-374, 398), which are never written and so are 0. It
  then writes column 0 of `sim` (397), and divides row 0 of `simi` by
  `temp`, the sum of `simi[0, i] * dx[i]`, which is 0 (398-400).

The central invariant is `LinearAlgebra.IsLeftInverse(simi, sim, n)`: row i
of `simi` dotted with column j of `sim` is 1 when i == j and 0 otherwise. This
is the exact-arithmetic form of the quantity that the rounding-error check of
`cobylb` (Cobyla2.cs:296-310) measures.

The caller's evaluation routine is a parameter of type `Vector -> Evaluation`.

## Model

| member | source | states |
|---|---|---|
| Buffers.Part | Cobyla2.cs:426-432 | PART returns exactly last - first + 1 entries, and entry d is src[first + d]; an empty range gives an empty array |
| Buffers.Part1 | Cobyla2.cs:434-440 | PART1 returns last - first + 1 entries, and entry d is row first + d of column fix2 |
| Buffers.Part2 | Cobyla2.cs:442-448 | PART2 returns last - first + 1 entries, and entry d is column first + d of row fix1 |
| Buffers.Part2IsPartOfRow | Cobyla2.cs:426-448 | slicing row i with PART2 gives the same array as slicing the row vector with PART |
| Buffers.Transform1 | Cobyla2.cs:416-419 | TRANSFORM1 applies func to column j in rows first..last only; every other cell and every row length is unchanged |
| Buffers.Transform2 | Cobyla2.cs:421-424 | TRANSFORM2 applies func to row i in columns first..last only; every other cell and every row length is unchanged |
| Buffers.Part1OfTransform1 | Cobyla2.cs:416-440 | reading back a transformed column with PART1 gives func applied to each entry of the original slice |
| Buffers.Transform1RoundTrip | Cobyla2.cs:416-419 | transforming a column with func and then with an inverse of func restores the matrix |
| Buffers.Transform2RoundTrip | Cobyla2.cs:421-424 | transforming a row with func and then with an inverse of func restores the matrix |
| Buffers.DotProduct | Cobyla2.cs:450-453 | DOT_PRODUCT is 0 when either input is empty |
| Buffers.DotProductSymmetric | Cobyla2.cs:450-453 | DOT_PRODUCT does not depend on the order of its operands |
| Buffers.DotProductTruncates | Cobyla2.cs:450-453 | only the common prefix of the operands contributes, because Zip truncates to the shorter input |
| Buffers.DotProductSnoc | Cobyla2.cs:450-453 | appending one pair of entries adds their product to the dot product |
| Buffers.SumPart1Step | Cobyla2.cs:283-289 | extending a column slice by one row adds that row's entry to its sum; this is the accumulation of tempa |
| LinearAlgebra.Row | Cobyla2.cs:301 | PART2(simi, i, 1, n) has n entries, and entry d is simi[i, d + 1] |
| LinearAlgebra.Column | Cobyla2.cs:301 | PART1(sim, 1, n, j) has n entries, and entry d is sim[d + 1, j] |
| LinearAlgebra.ColumnSumsDot | Cobyla2.cs:283-289 | the vector of column sums of simi, dotted with v, equals the sum over the rows of simi dotted with v |
| LinearAlgebra.SumReplaceOne | Cobyla2.cs:289 | changing one entry of a column changes its sum by the same amount |
| Rebase.ToOneBased | Cobyla2.cs:99-100 | iox has n + 1 slots, iox[0] is 0, and iox[i + 1] == x[i] for 0 <= i < n |
| Rebase.CopyBack | Cobyla2.cs:115 | the first n entries of x receive iox[1..n], and any further entries of x keep their values |
| Rebase.UserArgument | Cobyla2.cs:107-108 | the wrapper hands the caller ixx with ixx[i] == xx[i + 1] for 0 <= i < nn |
| Rebase.StoreConstraints | Cobyla2.cs:109-111 | the caller's constraint i lands in con[i + 1]; slot 0 and the slots above mm keep their values |
| Rebase.Icalcfc | Cobyla2.cs:104-112 | the wrapped routine evaluates calcfc at slots 1..nn of xx, passes its f through, puts constraint i - 1 of calcfc into slot i for 1 <= i <= mm, and leaves slot 0 and the slots above mm unchanged |
| Rebase.RebaseRoundTrip | Cobyla2.cs:99-115 | copying the rebased point straight back leaves the caller's array unchanged |
| Rebase.CopyBackRoundTrip | Cobyla2.cs:99-115 | rebasing the copied-back result reproduces the one-based buffer that cobylb left |
| Rebase.WrapperSeesCallerPoint | Cobyla2.cs:99-112 | through icalcfc, calcfc is evaluated at exactly the caller's zero-based point; its f is passed on, and its constraints come back shifted up one slot with the other slots untouched |
| InitialSimplex.BuildInitialSimplex | Cobyla2.cs:145-163 | column np of sim equals x, the leading n by n block of sim is rho times the identity, simi is (1 / rho) times the identity, and simi is therefore the exact inverse of that block |
| InitialSimplex.ScaledIdentityInverse | Cobyla2.cs:145-163 | (1 / rho) I is the inverse of rho I under the row-against-column product of line 301 |
| Selection.SelectBest | Cobyla2.cs:248-264 | nbest lies in 1..np, beats every vertex scanned before it, and is beaten by no later one; hence phi(nbest) <= phi(j) for every vertex, and when parmu == 0 it has the least violation among the minimisers of phi |
| Selection.SelectedIsArgmin | Cobyla2.cs:248-264 | any vertex satisfying the scan's selection rule is an argmin of phi = f + parmu * violation, with the violation tie-break when parmu == 0 |
| Selection.SelectionIsUnique | Cobyla2.cs:248-264 | the selection rule names at most one vertex: two vertices that both satisfy it are equal (`Selection.SelectBest` shows that one exists) |
| Pivot.SwapDataColumns | Cobyla2.cs:271-276 | columns nbest and np of datmat are exchanged in rows 1..mpp and every other entry keeps its value |
| Pivot.MovePole | Cobyla2.cs:277-290 | the pole moves by the displacement of nbest, column nbest becomes minus its old value, every other displacement column loses the old column nbest, and only row nbest of simi changes, to minus the column sums of the old simi; the in-place update of simi reads each column before overwriting it |
| Pivot.SwitchToPole | Cobyla2.cs:269-291 | if nbest == np nothing changes. Otherwise datmat columns nbest and np are swapped in rows 1..mpp and nothing else in datmat changes. The new pole is the old pole plus the displacement of nbest, column nbest becomes minus its old value, and every other column k becomes old column k minus old column nbest. Only row nbest of simi changes, and it becomes minus the column sums of the old simi. Each vertex keeps its position under the exchange of labels nbest and np. If simi was the inverse of the leading block before, it still is |
| Pivot.PivotRelabelsVertices | Cobyla2.cs:276-286 | after the switch, vertex j sits where vertex Exchange(j, nbest, np) sat before: the simplex is only relabelled |
| Pivot.OldRowAgainstNewColumn | Cobyla2.cs:279-288 | an old row t of simi dotted with a re-based column j of sim gives delta(t, j) - delta(t, nbest) for j != nbest, and -delta(t, nbest) for j == nbest |
| Pivot.NewRowAgainst | Cobyla2.cs:282-289 | the rewritten row nbest of simi dotted with any v is minus the sum of the old rows dotted with v |
| Pivot.PivotInverseEntry | Cobyla2.cs:126-128 | after the switch, row i of simi dotted with column j of sim is delta(i, j) |
| Pivot.PivotKeepsInverse | Cobyla2.cs:126-128 | in exact arithmetic, the switch keeps simi the inverse of the first n columns of sim |
| Pivot.PivotTwiceRestores | Cobyla2.cs:269-291 | switching the same vertex into pole position twice restores sim and simi |
| DropChoice.ChooseDrop | Cobyla2.cs:349-369 | jdrop lies in 0..n. If some veta[j] > beta * rho, jdrop is the first index of the largest veta. Otherwise it is the first index of the smallest vsig below beta * rho. Otherwise it is 0. An unacceptable simplex with rho >= 0 always gets a vertex to drop |
| DropChoice.UnacceptableHasDrop | Cobyla2.cs:333-369 | if some vsig falls below alpha * rho or some veta exceeds beta * rho, with rho >= 0, one of the two scans finds a vertex |
| DropChoice.DropChoiceIsUnique | Cobyla2.cs:349-369 | the drop rule names at most one vertex |
| Violation.MinEntry | Cobyla2.cs:185 | Enumerable.Min returns an entry of the buffer that is no larger than any other entry |
| Violation.MaxViolation | Cobyla2.cs:185 | the corrected RESMAX is nonnegative, is at least -con[i] for every constraint i in 1..m, and is either 0 or one of those -con[i] |
| Violation.StaleObjectiveInflatesViolation | Cobyla2.cs:185 | counterexample: con = [0, 1, -5, 0] with m = 1 gives 5 as written and 0 as intended |
| Violation.AsWrittenAgreesIffStaleSlotsHarmless | Cobyla2.cs:185 | with m > 0, the as-written value equals the intended one exactly when no slot above m holds a value whose negation exceeds the true violation |
| Violation.AsWrittenIsUpperBound | Cobyla2.cs:185 | with m > 0 and con[0] == 0, the as-written RESMAX is nonnegative, at least the intended one and at least -con[i] for every constraint i: the slip only ever overstates the violation |
| Violation.RecordVertex | Cobyla2.cs:193-203 | con[mp] becomes f and con[mpp] becomes the given resmax. Column jdrop of datmat receives con[1..mpp] and nothing else in datmat changes. When resmax is the corrected value, or the as-written value with con[0] == 0, the recorded violation is nonnegative and at least minus every recorded constraint value |
| Violation.RecordEvaluation | Cobyla2.cs:185-203 | with the corrected RESMAX, the new column of datmat holds the constraint values and f, and its violation entry is 0 or the largest -con[i] over the constraints |
| EdgeNorms.SquaredNorm | Cobyla2.cs:338-339 | the intended sum of squares is nonnegative, and it is zero exactly when every entry is zero |
| EdgeNorms.UnseededAggregateDiscrepancy | Cobyla2.cs:338-339 | the unseeded Aggregate equals the sum of squares minus s[0]^2 plus s[0] |
| EdgeNorms.UnseededAggregateAgreesIff | Cobyla2.cs:338-339 | the unseeded Aggregate agrees with the sum of squares exactly when the first entry is 0 or 1 |
| EdgeNorms.NegativeFirstEntryCounterexample | Cobyla2.cs:338-340 | counterexample: the row [-1] gives -1 as written, whose square root is NaN, and 1 as intended |
| EdgeNorms.SquaredNormSingleEntry | Cobyla2.cs:338-339 | a vector with a single nonzero entry v has squared length v^2 |
| EdgeNorms.InitialSimplexNorms | Cobyla2.cs:145-163 | on the initial simplex, every column of sim has squared length rho^2 and every row of simi has squared length (1 / rho)^2 |
| EdgeNorms.InitialSimplexAsWrittenCounterexample | Cobyla2.cs:338-340 | counterexample on the initial simplex with n = 1 and rho = 2: the row (1 / 2) gives wsig = 1 / 2 as written instead of 1 / 4 |

The second scan of the `jdrop` choice compares `vsig` with `pareta`
(beta * rho), not with `parsig` (alpha * rho). The Fortran text kept in
Cobyla2.cs (lines 682-694) does the same, so the model follows it.

## Left out

- The calls to the caller's `calcfc` (Cobyla2.cs:184) are left out. The routine is an opaque parameter of `Rebase.Icalcfc`, and the model requires it to return exactly m constraint values.
- The `Console.WriteLine` progress output (for example Cobyla2.cs:187-191) is output only and is left out.
- The `while (true)` driver, the `maxfun` budget and termination (Cobyla2.cs:172-410) are left out. The C# control flow is unfinished, with `TODO` branches at 195 and 348, so no convergence or termination claim can be made.
- The exchange of a new initial vertex with the pole (Cobyla2.cs:205-240) is outside the modelled core.
- The linear approximations `A` (Cobyla2.cs:316-326), the trust-region step and the repair step (Cobyla2.cs:371-409) are left out. In particular, the repair step is missing the row update at line 406, so the inverse invariant is not claimed after it.
- The square roots for `vsig` and `veta` (Cobyla2.cs:340-341) are left out. The `jdrop` rule takes both vectors as inputs, and `EdgeNorms` models only the squared lengths.
- The 0.1 rounding-error check (Cobyla2.cs:296-310) is floating-point numerics and is left out. Its exact form is the invariant `LinearAlgebra.IsLeftInverse`.
- The commented-out Fortran reference text, including `trstlp` (Cobyla2.cs:459-1356), is not compiled code and is left out.
- IEEE double semantics (rounding, NaN and infinities) are not modelled. In particular, `rho == 0` (where `1.0 / rho` is infinite) is excluded by the precondition of `InitialSimplex.BuildInitialSimplex`.
- The helpers are generic over `T` in the source. The model fixes `T` to `real`, the only instantiation that `cobylb` uses.
- The C# exception paths are left out. `Buffers.Part`, `Buffers.Part1`, `Buffers.Part2`, `Buffers.Transform1` and `Buffers.Transform2` require in-range indices and a range with `last >= first - 1`, where the source would throw `OverflowException` for a negative array size (Cobyla2.cs:428, 436, 444) or `IndexOutOfRangeException` (Cobyla2.cs:418, 423, 430, 438, 446). The `Rebase` functions likewise require buffers long enough for the `Array.Copy` calls at Cobyla2.cs:100, 108, 111 and 115. Every call site in the modelled core passes such arguments, so these paths are never taken there.
- Selection.SelectBest: the argmin holds over the exact reals; with NaN values of phi the C# comparisons would behave differently.

## Findings

| source | as written | input that shows it | evidently intended | confidence | as-written member | corrected member |
|---|---|---|---|---|---|---|
| Cobyla2.cs:185 | `resmax = -con.Min()` ranges over the whole buffer: slot 0, the stale objective in slot mp and the stale RESMAX in slot mpp | m = 1, con = [0, 1, -5, 0] (the previous evaluation had f = -5): RESMAX is 5 although the only constraint holds | the running maximum of 0 and -con(k) over k = 1..m, as in the Fortran text at Cobyla2.cs:538-543 | high; not executed | Violation.MaxViolationAsWritten (shown by Violation.StaleObjectiveInflatesViolation) | Violation.MaxViolation (used by Violation.RecordEvaluation) |
| Cobyla2.cs:338-339 | `Aggregate((sum, item) => sum + item * item)` has no seed, so the first entry is added unsquared | a row of simi equal to [-1] gives wsig = -1 and vsig = NaN; with n = 1 and rho = 2 the initial row (1 / 2) gives wsig = 1 / 2 instead of 1 / 4 | SUM(simi(j,1:n)**2) and SUM(sim(1:n,j)**2), as in the Fortran text at Cobyla2.cs:670-671 | high; not executed | EdgeNorms.SquaredNormAsWritten (shown by EdgeNorms.UnseededAggregateDiscrepancy and EdgeNorms.NegativeFirstEntryCounterexample) | EdgeNorms.SquaredNorm (proved by EdgeNorms.InitialSimplexNorms) |
