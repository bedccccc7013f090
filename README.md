# k-means seeding: kmpp, kmc2, afkmc2, afkmc2_mem

This project models the four k-means seeding procedures of `afkmc2/afkmc2.py`
and proves properties of them. Each takes a dataset `X` (n points of d
coordinates) and a number of centers `k`. It fills a k-by-d `centers` array
row by row and returns it.

- `kmpp`: k-means++. Each new center is the first point whose cumulative
  share of `D2` reaches a uniform threshold `r`. `D2` is each point's squared
  distance to its nearest chosen center.
- `kmc2`: each new center is where a Metropolis chain of `m` uniformly
  proposed points ends. The chain moves from `x` to `y` when
  `dy2/dx2 > u`.
- `afkmc2`: the same chain, but points are proposed from
  `q = d2/(2·Σd2) + 1/(2n)`, and a move is accepted when
  `(dy2·q[x])/(dx2·q[y]) > u`. Here `d2` is each point's squared distance to
  the first center.
- `afkmc2_mem`: `afkmc2` with every point-to-center distance memoised in an
  n-by-k table.

All randomness becomes input:

- `first` is the index drawn for center 0.
- `rs` holds the thresholds of `kmpp`, one per loop iteration.
- `chains` holds one `ChainDraws` per new center: the chain's start index and
  its `m - 1` further candidates `Step(y, u)`.

Coordinates and distances are `real`. `np.linalg.norm(a - b)**2` is the sum of
squared coordinate differences (`Distance.SqDist`).

A call either returns `Success(rows)` or `Failure(e)`, where `e` is the
exception Python raises:

- `NegativeDimension`: `np.zeros` with `k < 0`.
- `EmptyDataset`: `np.random.choice(0)`.
- `NoFirstRow`: indexing row 0 when `k == 0`.
- `NoThresholdIndex`: in `kmpp`, all of `D2` is zero, so `probs` is NaN,
  or no cumulative entry reaches `r`.
- `InvalidProposal`: in `afkmc2`, every point equals the first center, so
  `q` is NaN, and a chain must be drawn (`k > 1`).

The acceptance test uses numpy's float64 division by zero. A positive
numerator over zero is `+inf`, so the move is accepted. Zero over zero is NaN,
so it is rejected.

Each procedure is a method that allocates the `centers` array, fills it in
loops and returns its contents. It is proved equal to a recursive
specification function: `KmppSpec`, `Kmc2Spec` or `Afkmc2Spec`. The
properties are lemmas about those functions.

`afkmc2_mem` is modelled in two ways:

- The lookup as written (line 173) is a single-cell function, shown to return
  a leftover non-zero cell (see "## Findings").
- The corrected memo, `Memo.DistanceMemo`, flags each cell once it is
  computed. That version is proved to return exactly `Afkmc2Spec`, so on the
  same draws it returns what `afkmc2` returns.

Modules:

- `Data`: points, errors, `Result`.
- `Sums`: `np.sum`, `cumsum` and broadcasting.
- `Distance`: squared distances and the nearest-center minimum.
- `KMeansPP`
- `Chain`: the Metropolis chain and the outer loop shared by the three chain
  samplers.
- `KMC2`
- `AFKMC2`
- `Memo`

Nothing in the code rejects `k > n` or a zero `D2` total before sampling
starts, and the model does not either. With `k > n`:

- `kmc2` and `afkmc2` repeat points.
- `kmpp` raises once every distinct row is a center. At that point ΣD2 = 0,
  `probs` is NaN, and line 46 raises IndexError (`NoThresholdIndex`). The
  exception is a threshold of exactly 0.0, which selects index 0.

A zero total in `afkmc2` is the ValueError of the proposal draw
(`InvalidProposal`).

## Model

| member | source | states |
|---|---|---|
| Data.Preflight | afkmc2/afkmc2.py:32-35 | the call gets past allocating `centers`, the first draw and the store into row 0 exactly when k >= 1 and the dataset is non-empty |
| Data.Range | afkmc2/afkmc2.py:37 | `range(lo, hi)` holds exactly the integers lo <= i < hi, in increasing order |
| Data.RangeSize | afkmc2/afkmc2.py:37 | `range(lo, hi)` has hi - lo elements when lo < hi and none otherwise |
| Data.LoopCountIsRangeSize | afkmc2/afkmc2.py:37 | the number of iterations the model gives the loop `for i in range(1, n)` is the number of indices `range(1, n)` visits |
| Data.RowOutside | afkmc2/afkmc2.py:37-49 | when the chosen centers are fewer than the distinct dataset rows, some dataset row is not among them |
| Sums.Sum | afkmc2/afkmc2.py:43 | `np.sum`. It has no contract of its own; its properties are the lemmas below |
| Sums.ScaleShift | afkmc2/afkmc2.py:116 | numpy's broadcast `s / c + b` (also `D2/np.sum(D2)` at line 43) keeps one entry per entry of s |
| Sums.CumSum | afkmc2/afkmc2.py:44 | `cumsum` keeps one entry per entry, and its last entry is the whole sum |
| Sums.SumZeroIff | afkmc2/afkmc2.py:43 | a sum of non-negative distances is non-negative and is zero exactly when every term is zero |
| Sums.SumPrefixBounded | afkmc2/afkmc2.py:43-44 | every prefix sum of non-negative terms lies between 0 and the total |
| Sums.SumScaleShift | afkmc2/afkmc2.py:116 | the sum of `s/c + b` is `Σs/c + n·b` |
| Sums.CumSumScaled | afkmc2/afkmc2.py:43-44 | entry j of `(s/c).cumsum()` is the prefix sum of s through j divided by c |
| Distance.SqDist | afkmc2/afkmc2.py:39 | a squared distance is non-negative |
| Distance.Min | afkmc2/afkmc2.py:39-40 | Python's `min` of two values is at most both and equal to one of them |
| Distance.MinSqDist | afkmc2/afkmc2.py:39-40 | the nearest-center distance over the centers chosen so far, as also computed at lines 76, 82-83, 123, 129-130, 187 and 193-194. It is non-negative; the lemmas below give its meaning |
| Distance.SqDistZeroIff | afkmc2/afkmc2.py:39 | the squared distance is zero exactly between equal points |
| Distance.MinSqDistIsNearest | afkmc2/afkmc2.py:39-40 | the `min` over the chosen centers is at most the distance to each center and equals the distance to one of them |
| Distance.MinSqDistZeroIff | afkmc2/afkmc2.py:39-40 | the nearest-center distance is zero exactly when the point is one of the centers |
| KMeansPP.D2 | afkmc2/afkmc2.py:39-40 | `D2` has one non-negative entry per point |
| KMeansPP.D2ZeroAtCenters | afkmc2/afkmc2.py:39-40 | a point's `D2` entry is zero exactly when the point is a chosen center, and it lower-bounds the distance to every center |
| KMeansPP.IndexAtLeast | afkmc2/afkmc2.py:46 | `np.where(c >= r)[0][0]` is the least index whose entry reaches r; None, the IndexError, when there is none |
| KMeansPP.Select | afkmc2/afkmc2.py:39-46 | one iteration's choice: an index into X, or None when the lookup at line 46 raises |
| KMeansPP.LastShareIsOne | afkmc2/afkmc2.py:43-44 | with a positive total, the last entry of `cumprobs` is exactly 1 |
| KMeansPP.ShareAtMostOne | afkmc2/afkmc2.py:43-44 | no entry of `cumprobs` exceeds 1 |
| KMeansPP.SelectSomeIff | afkmc2/afkmc2.py:39-46 | an index is found exactly when ΣD2 > 0 and r <= 1 |
| KMeansPP.SelectIsFirstOverThreshold | afkmc2/afkmc2.py:43-46 | the chosen index is the first whose share of ΣD2 reaches r; every shorter prefix falls short |
| KMeansPP.SelectIsFresh | afkmc2/afkmc2.py:43-49 | for r > 0 the chosen point has positive `D2`, so it is not already a center |
| KMeansPP.KmppFrom | afkmc2/afkmc2.py:37-49 | the remaining iterations add one row per threshold, and IndexError is the only exception they raise |
| KMeansPP.KmppSpec | afkmc2/afkmc2.py:20-51 | `kmpp` raises when k < 1 or X is empty; a returned array has one row per threshold plus row 0 |
| KMeansPP.KmppFromTrace | afkmc2/afkmc2.py:37-49 | each iteration appends the row its threshold selects against the rows before it, and keeps those rows |
| KMeansPP.KmppRows | afkmc2/afkmc2.py:32-51 | a returned array has k rows, row 0 is `X[first]`, every row is a dataset row, and row i is the point threshold `rs[i-1]` selects against rows 0..i-1 |
| KMeansPP.KmppFromDistinct | afkmc2/afkmc2.py:37-49 | extending distinct rows with thresholds in (0, 1], while enough distinct points remain, never raises and keeps the rows distinct |
| KMeansPP.KmppDistinctCenters | afkmc2/afkmc2.py:20-51 | with at least k distinct points and thresholds in (0, 1], `kmpp` returns k pairwise distinct centers |
| KMeansPP.Kmpp | afkmc2/afkmc2.py:20-51 | the method returns or raises exactly what `KmppSpec` gives for the same draws |
| Chain.Exceeds | afkmc2/afkmc2.py:85 | the float64 test `num / den > u`; over a zero denominator it passes exactly when num > 0 (`+inf`), and 0/0 = NaN fails |
| Chain.ExceedsCrossMultiplied | afkmc2/afkmc2.py:85 | over a positive denominator the quotient test is `num > u·den` |
| Chain.Accepts | afkmc2/afkmc2.py:132 | the acceptance tests at lines 85, 132 and 196, chosen by proposal kind. It has no contract of its own; its meaning is the next two rows |
| Chain.AcceptsCrossMultiplied | afkmc2/afkmc2.py:132 | for dx2 > 0 and positive weights, `kmc2` moves when dy2 > u·dx2 and `afkmc2` moves when dy2·q[x] > u·dx2·q[y] (line 85 is the uniform case) |
| Chain.AcceptsFresh | afkmc2/afkmc2.py:85-87 | with u >= 0 and positive weights, a chain away from the centers moves only to points away from them, and a chain on a center moves exactly to candidates away from the centers (`+inf` / NaN cases included) |
| Chain.ChainFrom | afkmc2/afkmc2.py:79-87 | the chain ends on its start or on one of its candidates |
| Chain.ChainFromFresh | afkmc2/afkmc2.py:79-87 | the end point is at positive distance from the centers exactly when the start or some candidate is |
| Chain.ChainFromNew | afkmc2/afkmc2.py:126-134 | the end point is not a center exactly when the start or some candidate is not a center |
| Chain.RunChain | afkmc2/afkmc2.py:74-87 | the loop ends where `ChainFrom` says; throughout, `dx2` is the current point's nearest-center distance |
| Chain.McmcFrom | afkmc2/afkmc2.py:72-90 | one row per chain is added |
| Chain.FillCenters | afkmc2/afkmc2.py:119-137 | starting from row 0, the outer loop fills the array with exactly the rows `McmcFrom` gives |
| Chain.McmcFromPrefix | afkmc2/afkmc2.py:72-90 | the outer loop keeps the rows it starts from, and every row has the dataset's width |
| Chain.McmcFromTrace | afkmc2/afkmc2.py:72-90 | row i is where chain i - 1 ends against the rows before it |
| Chain.McmcRows | afkmc2/afkmc2.py:66-90 | seeded with a dataset row, the result has one row per chain plus one, all of them dataset rows |
| KMC2.Kmc2Spec | afkmc2/afkmc2.py:66-69 | `kmc2` raises exactly when k < 1 or the dataset is empty |
| KMC2.Kmc2Rows | afkmc2/afkmc2.py:54-92 | a returned array has k rows, row 0 is `X[first]`, every row is a dataset row, and row i is where chain i - 1 ends against rows 0..i-1 |
| KMC2.Kmc2NewCenterIff | afkmc2/afkmc2.py:72-90 | with draws u in [0, 1), row i is a new center exactly when its chain saw a candidate that is not yet a center |
| KMC2.Kmc2SingleCandidate | afkmc2/afkmc2.py:74-90 | with m <= 1 every later row is its chain's initial draw |
| KMC2.Kmc2 | afkmc2/afkmc2.py:54-92 | the method returns or raises exactly what `Kmc2Spec` gives for the same draws |
| AFKMC2.FirstCenterD2 | afkmc2/afkmc2.py:114-115 | `d2` has one non-negative entry per point |
| AFKMC2.FirstCenterD2ZeroIff | afkmc2/afkmc2.py:114-116 | Σd2 is zero exactly when every point equals the first center |
| AFKMC2.Proposal | afkmc2/afkmc2.py:116 | `q` (also line 180) has one weight per point; the lemmas below make it a distribution |
| AFKMC2.ProposalSumsToOne | afkmc2/afkmc2.py:116 | the entries of q sum to exactly 1 |
| AFKMC2.ProposalFloor | afkmc2/afkmc2.py:116 | every q[i] is at least 1/(2n) and so positive |
| AFKMC2.ProposalOrder | afkmc2/afkmc2.py:116 | q orders points the way their distance to the first center does |
| AFKMC2.ProposalIsDistribution | afkmc2/afkmc2.py:113-116 | for Σd2 > 0, q is a probability vector, bounded below by 1/(2n) and monotone in d2 |
| AFKMC2.ProposalFits | afkmc2/afkmc2.py:116-121 | q has one positive weight per point, as `np.random.choice(n, p=q)` needs |
| AFKMC2.Afkmc2Spec | afkmc2/afkmc2.py:95-139 | `afkmc2` raises exactly when k < 1, X is empty, or k > 1 and Σd2 = 0; a returned array has k rows |
| AFKMC2.Afkmc2InvalidIff | afkmc2/afkmc2.py:116-121 | the call raises for an undefined q exactly when k > 1 and the non-empty dataset has a single distinct point |
| AFKMC2.Afkmc2Rows | afkmc2/afkmc2.py:95-139 | a returned array has k rows, row 0 is `X[first]`, every row is a dataset row, and for k > 1 Σd2 > 0 and row i is where chain i - 1, proposing from q, ends |
| AFKMC2.Afkmc2NewCenterIff | afkmc2/afkmc2.py:119-137 | with draws u in [0, 1), row i is a new center exactly when its chain saw a candidate that is not yet a center |
| AFKMC2.Afkmc2SingleCandidate | afkmc2/afkmc2.py:121-137 | with m <= 1 every later row is its chain's initial draw from q |
| AFKMC2.Afkmc2 | afkmc2/afkmc2.py:95-139 | the method returns or raises exactly what `Afkmc2Spec` gives for the same draws |
| Memo.Lookup | afkmc2/afkmc2.py:173-175 | the falsy test returns the true distance when the cell holds 0 or that distance, and returns the cell otherwise |
| Memo.GarbageCellReturned | afkmc2/afkmc2.py:162-175 | a cell holding a non-zero value other than the distance is returned as the distance |
| Memo.GarbageCellExample | afkmc2/afkmc2.py:162-175 | a point equal to its center has true distance 0 but is read back as 5.0 from a cell left at 5.0 |
| Memo.DistanceMemo.constructor | afkmc2/afkmc2.py:162 | the store is n-by-k with arbitrary contents and no cell marked computed |
| Memo.DistanceMemo.ValidExtends | afkmc2/afkmc2.py:183-201 | placing a new center keeps every computed cell correct |
| Memo.DistanceMemo.Distance | afkmc2/afkmc2.py:164-175 | the corrected, flagged `distance(i, j)` returns the true squared distance, stores it in cell (i, j) only, and keeps the memo valid |
| Memo.DistanceMemo.MinDistance | afkmc2/afkmc2.py:187 | returns the nearest-center distance and leaves row x computed for every chosen center, nothing else changed |
| Memo.CandidatesStep | afkmc2/afkmc2.py:190-194 | one more step adds its candidate to the set of measured points |
| Memo.RunChainMemo | afkmc2/afkmc2.py:185-198 | the chain ends where `ChainFrom` says, and exactly the rows of its start and candidates become computed |
| Memo.FirstDistances | afkmc2/afkmc2.py:178-179 | `d2` equals `FirstCenterD2`, and column 0 becomes computed |
| Memo.FillCentersMemo | afkmc2/afkmc2.py:183-201 | the outer loop fills the array with exactly the rows `McmcFrom` gives, and the memo stays valid |
| Memo.Afkmc2Mem | afkmc2/afkmc2.py:142-203 | `afkmc2_mem` with the corrected, flagged memo returns or raises exactly what `afkmc2` does on the same draws. The lookup as written at line 173 is not proved to do so |

## Left out

- Randomness: `np.random.choice` and `np.random.uniform` are replaced by draws passed in. The sampling distributions are not modelled. Neither are the probabilistic claims of the docstrings: convergence to the k-means++ distribution and seeding quality.
- InvalidProposal: the model assumes a numpy whose `np.random.choice(n, p=q)` raises ValueError when q contains NaN. Older numpy releases checked only `p < 0` and `|Σp − 1| > atol`. Both tests are false on NaN, so such a numpy returns an index instead of raising, and `afkmc2` goes on sampling with NaN weights. That behaviour is not modelled.
- Draw validity: indices must lie below n, and each chain must have `m - 1` steps. These are preconditions because the generator guarantees them. The u-in-[0, 1) and r-in-(0, 1] ranges are assumed only by the lemmas that need them.
- Floating point: arithmetic is over the reals. Rounding is not modelled, for example a last `cumprobs` entry just below 1. The modelled exceptions are the outcome of each NaN or `±inf`: NaN `probs` in `kmpp`, a NaN `q` in `afkmc2`, and division by a zero `dx2` in the acceptance test.
- `np.linalg.norm`: replaced by the exact sum of squares, without the square root and re-squaring.
- KMeansPP.KmppDistinctCenters: requires every threshold r > 0. `np.random.uniform()` can return 0.0. Then index 0 is chosen even when `X[0]` is already a center.
- Arguments and documentation: `m` enters only through the number of steps in each chain. The sklearn example in the module docstring and the stale `m`, `af` and `memo` argument docs describe nothing to model.
- Input checks: the code has none for `k > n`, non-integer k or m, or non-2-D `X`. The model requires a rectangular `X` and integer k and m.
- Python 2 comprehensions leak `j`: the inner comprehension rebinds it, but the outer `range` iterator is unaffected, so each chain runs exactly `m - 1` steps.
- Returned arrays: each method returns the contents of the array it filled. Aliasing of the returned numpy array is not modelled.
- Memo.RunChainMemo: `centers` is passed to the memo as the sequence of rows chosen so far, in place of the closure that reads the array.
- Memo.FillCentersMemo: states only that the memo stays valid, not which cells end up computed.

## Findings

| source | as written | input that shows it | evidently intended | confidence | as-written member | corrected member |
|---|---|---|---|---|---|---|
| afkmc2/afkmc2.py:162-175 | `d_store` comes from `np.empty`, and `distance` trusts any non-zero cell | a cell that `np.empty` leaves at 5.0 for a point equal to center j: `distance` returns 5.0 where the true value is 0 | every cell is unset until computed, so a lookup only ever returns a true distance | not executed; `np.empty` leaves memory uninitialised | Memo.GarbageCellReturned | Memo.Afkmc2Mem |

The corrected memo, `Memo.DistanceMemo`, keeps a separate table of
"computed" flags beside the uninitialised store. A stored true distance of 0
is then no longer recomputed on every lookup.
