# NetColoc network localization, modelled in Dafny

This project models `netprop_localization` from NetColoc. The function scores how
localized a seed gene set is after network propagation.

- The real seed set's proximal network size is the number of genes whose
  propagation z-score is strictly above a threshold, minus the number of seed genes.
- Each random propagation trial (one row of `random_final_heats`) is scored
  leave-one-out. Its row is overwritten with a NaN row. The per-gene mean and
  standard deviation of the log heats are taken over the remaining rows, skipping
  NaN. The trial's own row is standardized against them, and the trial's size is
  counted the same way as the real one.
- The final score places the log of the real size against the NaN-skipping mean
  and standard deviation of the logs of the trial sizes.

Files:

- `floats.dfy` (module `Floats`): doubles as `Finite(real) | PosInf | NegInf | NaN`.
  It spells out the IEEE behaviour that decides what gets counted:
  - `np.log` at zero, below zero, at NaN and at the infinities;
  - which entries `np.nanmean` and `np.nanstd` skip, what they give when an
    infinity is left, and their exact values for a single entry;
  - `(x - mu) / sd` on NaN, on infinite operands and over a zero deviation;
  - `x > t` being false for NaN and -inf.

  The remaining numeric kernels are function-valued fields of a `Kernels` value
  passed in as a parameter. They are the logarithm of a positive double, the mean
  and deviation of two or more finite doubles, and `(x - mu) / sd` for finite
  operands over a positive deviation. Nothing is proved about their values.
- `network_localization.dfy` (module `NetworkLocalization`): the scorer.
  - `NetpropLocalization` is the loop as written. It works on an `array<seq<Float>>`
    whose rows are values, as when the input is a list of row lists. It is proved
    against the specification function `Localize`.
  - `NetpropLocalizationOnView` runs the same steps on an `array<array<Float>>`
    whose rows are storage, as with a 2-D NumPy array (see Findings).

What the code does, and does not do, at its edges:

- A random trial of size exactly 0 stays in the statistics of the null
  distribution. `np.log(0)` is `-inf`, which `np.nanmean` and `np.nanstd` do
  not skip, so a single such trial makes the score NaN (`ScoreUndefined`,
  `ZeroSizedTrialExample`). Only negative sizes have a NaN log, and only those
  are skipped (`ScoreOverPositiveEntries`). Every trial stays in the returned list.
- The code does not check how many trials there are. With one trial, every
  per-gene mean and deviation is NaN, and no error is raised. With two trials
  and positive finite heats, each trial's deviation is 0, so each gene scores
  +inf, -inf or NaN depending on how its log heat compares with the other row's
  (`OneOtherRowScore`). Where the other row's heat is 0, negative, NaN or
  infinite, the deviation is NaN and the gene scores NaN whatever its own heat.
- A heat of 0, or any heat that is not positive, never counts. A heat of +inf
  always counts when its column's statistics are finite numbers
  (`NonPositiveHeatNeverCounts`, `InfiniteHeatCounts`).
- A real proximal size of exactly 0 has log -inf. The score is then -inf, or NaN
  when the statistics of the random logs are not finite numbers. It is never a
  finite number (`EmptyProximalScore`).
- The code does not check that the row width matches the length of `z_scores`.
  The two are never combined.
- An empty matrix raises `IndexError` at line 52 (`EmptyHeats`).
- Rows of unequal width make `np.log` raise at line 59 in the first trial. By
  then row 0 has already been overwritten with the NaN row (`RaggedHeats`).
- The restore at line 66 gives back the original row only when `focal_row` is a
  copy of the row (see Findings).
- The threshold defaults to 3, as at line 22.

## Model

| member | source | states |
|---|---|---|
| `Floats.Greater` | netcoloc/network_localization.py:64 | (definition) `x > t` on a double: true for a finite value above `t` and for +inf, false for NaN and -inf |
| `Floats.Log` | netcoloc/network_localization.py:59-62 | (definition) `np.log` of one double: the uninterpreted logarithm of a positive value, -inf at 0, NaN below 0 and at NaN or -inf, +inf at +inf |
| `Floats.FiniteMean` | netcoloc/network_localization.py:59 | (definition) the mean of finite doubles: a single value is its own mean, longer runs go to the uninterpreted mean |
| `Floats.FiniteStd` | netcoloc/network_localization.py:60 | (definition) the population deviation of finite doubles: exactly 0 for a single value, the uninterpreted deviation for longer runs; never negative and never -inf |
| `Floats.NanMean` | netcoloc/network_localization.py:59 | (definition) `np.nanmean` of one column: NaN when only NaN is left, NaN when both infinities are left, the infinity when one is left, otherwise the mean of the non-NaN entries |
| `Floats.NanStd` | netcoloc/network_localization.py:60 | (definition) `np.nanstd` of one column: NaN when only NaN is left or when an infinity is left, otherwise the deviation of the non-NaN entries |
| `Floats.Standardize` | netcoloc/network_localization.py:62 | (definition) `(x - mu) / sd` with `sd` a deviation: NaN when any operand is NaN; for finite `x` and `mu`, the uninterpreted quotient over a positive `sd`, +inf or -inf by the sign of `x - mu` over a zero `sd` (NaN when `x == mu`), and 0 over an infinite `sd`; an infinite `x - mu` keeps its sign over a finite `sd`, and `inf - inf` and `inf / inf` are NaN |
| `Floats.NonNaN` | netcoloc/network_localization.py:59-60 | (definition) the entries `np.nanmean` and `np.nanstd` look at, in order. Its own contract only bounds the length by the column's; what it keeps is stated by `NonNaNMembers`, `NonNaNConcat` and `NonNaNOfNoNaN` |
| `Floats.NonNaNMembers` | netcoloc/network_localization.py:59-60 | the entries the NaN-skipping statistics see are exactly the non-NaN entries of the column, infinities included |
| `Floats.NonNaNConcat` | netcoloc/network_localization.py:59-60 | skipping NaN distributes over concatenating two parts of a column |
| `Floats.NonNaNOfNoNaN` | netcoloc/network_localization.py:72 | a column without NaN is seen whole by the NaN-skipping statistics |
| `NetworkLocalization.CountAbove` | netcoloc/network_localization.py:64 | `sum(xs > t)` never exceeds the number of entries |
| `NetworkLocalization.CountAboveIsCardinality` | netcoloc/network_localization.py:69 | the count is the number of positions whose entry is strictly greater than the threshold; NaN and -inf never count, +inf always does |
| `NetworkLocalization.AtThresholdNotCounted` | netcoloc/network_localization.py:69 | an entry exactly equal to the threshold is not counted, at whatever position it stands |
| `NetworkLocalization.CountAboveMonotone` | netcoloc/network_localization.py:64 | raising the threshold never increases the count |
| `NetworkLocalization.CountAboveAllNaN` | netcoloc/network_localization.py:64 | a row of NaN scores counts nothing |
| `NetworkLocalization.NanRow` | netcoloc/network_localization.py:52 | (definition) `[np.nan] * width`: a row of `width` NaN entries |
| `NetworkLocalization.Rectangular` | netcoloc/network_localization.py:59 | (definition) every row is as wide as row 0. This is the condition under which `np.log` of the matrix does not raise; when it fails the function returns `RaggedHeats` |
| `NetworkLocalization.Excluded` | netcoloc/network_localization.py:58 | (definition) the matrix while trial `r` runs: row `r` replaced by a NaN row as wide as row 0, every other row as given |
| `NetworkLocalization.LogColumn` | netcoloc/network_localization.py:59-60 | (definition) column `j` of `np.log(random_final_heats)`, one entry per row |
| `NetworkLocalization.ExcludedColumnSkipped` | netcoloc/network_localization.py:58-60 | in every column, the entries the NaN-skipping statistics see with row `r` blanked are exactly those they see with row `r` removed |
| `NetworkLocalization.TrialScores` | netcoloc/network_localization.py:59-62 | one score per gene of the focal row |
| `NetworkLocalization.TrialSize` | netcoloc/network_localization.py:62-64 | a trial's size lies between `-len(seed_genes)` and the row width minus `len(seed_genes)` |
| `NetworkLocalization.ExcludedRowIsSkipped` | netcoloc/network_localization.py:56-62 | with row `r` blanked by NaN, every per-gene score of trial `r` equals the score computed from the other rows alone, in order: the trial sees exactly the other rows |
| `NetworkLocalization.NonPositiveHeatNeverCounts` | netcoloc/network_localization.py:59-64 | a gene whose heat is 0, negative, NaN or -inf never counts in its trial, whatever the other rows hold |
| `NetworkLocalization.InfiniteHeatCounts` | netcoloc/network_localization.py:59-64 | a gene whose heat is +inf counts in its trial whenever its column's mean and deviation over the other rows are finite numbers |
| `NetworkLocalization.OneOtherRowScore` | netcoloc/network_localization.py:59-62 | against a single other row with positive heats, a gene scores +inf when its log heat is above the other row's, -inf when below, and NaN when equal |
| `NetworkLocalization.TrialSizes` | netcoloc/network_localization.py:54-64 | one entry per row, entry `r` from trial `r` in row order, each within the trial bounds |
| `NetworkLocalization.ProximalSize` | netcoloc/network_localization.py:69 | the real proximal size lies between `-len(seed_genes)` and `len(z_scores) - len(seed_genes)` |
| `NetworkLocalization.Localize` | netcoloc/network_localization.py:52-83 | the returned list of random sizes has one entry per row of the matrix |
| `NetworkLocalization.LocalizeCounts` | netcoloc/network_localization.py:64-69 | the returned real size is the number of genes strictly above the threshold less the seed count; entry `r` of the random sizes is the number of genes of row `r` whose score against the other rows is strictly above the threshold, less the seed count |
| `NetworkLocalization.LocalizeMonotone` | netcoloc/network_localization.py:64-69 | raising the threshold never increases the real size nor any entry of the random sizes |
| `NetworkLocalization.LogSizes` | netcoloc/network_localization.py:72 | (definition) `np.log` of the list of random sizes, entry by entry |
| `NetworkLocalization.LocalizationZ` | netcoloc/network_localization.py:72 | (definition) the log of the real size, standardized by the NaN-skipping mean and deviation of the logs of the trial sizes |
| `NetworkLocalization.Positives` | netcoloc/network_localization.py:72 | the kept trial sizes are exactly the positive ones |
| `NetworkLocalization.NonNaNLogSizes` | netcoloc/network_localization.py:72 | with no trial of size 0, the logs the NaN-skipping statistics keep are exactly the logs of the positive trials, in order |
| `NetworkLocalization.ScoreOverPositiveEntries` | netcoloc/network_localization.py:72 | with a positive real size, no trial of size 0 and some positive trial, the score uses the mean and deviation of the logs of the positive trials only; negative trials drop out of the statistics |
| `NetworkLocalization.ScoreUndefined` | netcoloc/network_localization.py:72 | the score is NaN when the real size is negative, when some trial has size 0, or when every trial is negative |
| `NetworkLocalization.ScoreOverPositiveTrials` | netcoloc/network_localization.py:72 | when the real size and every trial size are positive, nothing is skipped and the score standardizes the log real size by the mean and deviation of all the log trial sizes |
| `NetworkLocalization.EmptyProximalScore` | netcoloc/network_localization.py:72 | a real size of 0 gives a score of -inf or NaN, never a finite number; -inf whenever the mean and deviation of the random logs are finite numbers |
| `NetworkLocalization.ProximalSizeExample` | netcoloc/network_localization.py:69 | z-scores 1, 1, 1, 10, 10 with one seed gene and threshold 3 give a proximal size of 1 |
| `NetworkLocalization.ZeroSizedTrialExample` | netcoloc/network_localization.py:72 | random sizes 0, 1, 2 give a NaN score |
| `NetworkLocalization.NetpropLocalization` | netcoloc/network_localization.py:22-83 | with value rows and the threshold defaulting to 3: an empty matrix fails as `IndexError` with the matrix untouched; a ragged one fails with row 0 left as the NaN row; otherwise the result is `Localize` of the input, which reads only the length of `seed_genes`, and every row is restored to its value before the call |
| `NetworkLocalization.ViewRows` | netcoloc/network_localization.py:57-59 | (definition) the current values of the ndarray's rows, read through their storage, as `np.log` sees the matrix |
| `NetworkLocalization.CopyIntoRow` | netcoloc/network_localization.py:58 | assigning a list to an ndarray row copies it into the row's storage |
| `NetworkLocalization.TrialOnView` | netcoloc/network_localization.py:57-66 | one pass on a view row: the row ends all NaN and the trial size is `-len(seed_genes)` |
| `NetworkLocalization.NaNFocalCountsNothing` | netcoloc/network_localization.py:57-64 | scoring an all-NaN focal row gives exactly `-len(seed_genes)`, whatever the other rows hold |
| `NetworkLocalization.ViewScoreIsNaN` | netcoloc/network_localization.py:72 | when every trial has size `-len(seed_genes)` the score is NaN |
| `NetworkLocalization.NetpropLocalizationOnView` | netcoloc/network_localization.py:52-83 | with rows that are views: every row ends all NaN, every trial size is `-len(seed_genes)`, the real size is still the count above the threshold, and the score is NaN |

## Left out

- The values of `np.log` on a positive double, of the mean and deviation of two or more finite doubles, and of `(x - mu) / sd` for finite operands over a positive deviation are not modelled. They are uninterpreted kernels. Rounding is not modelled either.
- Floats.Standardize: overflow of a finite difference `x - mu` to an infinity is not modelled, because here both operands are logarithms of doubles and their difference stays far below the largest double. Signed zero is folded into 0, so `x / -0.0` is not distinguished; a deviation is never -0.0.
- Floats.FiniteMean: overflow of the sum of finite values to an infinity is left to the kernel, which may return any value.
- NumPy runtime warnings (mean of an empty slice, log of zero, division by zero) are not modelled. They are not exceptions and do not change the returned values.
- The plotting branch (lines 75-81) is left out. It is a side effect that does not influence the returned values.
- The `tqdm` progress bar (line 55), the imports and the empty module-level `__init__` (line 17) carry no logic and are left out.
- The `save_localization_scores` option in the docstring has no parameter and no code, so it is not modelled.
- The gene-name index of `z_scores` is not modelled: only its values are compared with the threshold.
- The threshold is a real number. A NaN threshold is not modelled.
- `NetpropLocalizationOnView` assumes a float ndarray whose rows are disjoint storage. An integer ndarray, where assigning NaN raises, is not modelled.
- Determinism needs no statement: every member is a function of its inputs and the kernels.

## Findings

| source | as written | input that shows it | evidently intended | confidence | as-written member | corrected member |
|---|---|---|---|---|---|---|
| netcoloc/network_localization.py:57-66 | `focal_row = random_final_heats[row]` is a view of the row when the input is a 2-D NumPy array, as the docstring asks. Writing the NaN row at line 58 also blanks `focal_row`, and line 66 writes NaN back. The matrix comes back all NaN, every trial size is `-len(seed_genes)`, and the score is NaN. | any 2-D float array with at least one row, e.g. `[[1.0, 2.0], [3.0, 4.0]]` with one seed gene | `focal_row` is a copy of the row: each trial scores its original row against the other rows, and the row is restored afterwards, as the comments at lines 56 and 65 say | not executed; high | `NetworkLocalization.NetpropLocalizationOnView` | `NetworkLocalization.NetpropLocalization` |
