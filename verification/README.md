# Nearest-neighbour ABC samplers and feature-subset selection, in Dafny

This project models the approximate-Bayesian-computation (ABC) algorithms of
`summaries/algorithm.py`, together with the properties they promise.

- **Reference table.** An `ABCAlgorithm` is built from a reference table: simulated features
  (`train_data`) and simulated parameters (`train_params`), with one row per simulation.
  - Construction checks that both tables are two-dimensional and have the same number of rows.
  - It can standardise the features with a fitted standard scaler.
- **Nearest-neighbour sampler.** `NearestNeighborAlgorithm` answers a query by returning, for
  each observation, the parameter rows of the `k` training rows nearest to it in Euclidean
  distance.
- **Subset search.** `SubsetSelectionAlgorithm`, and `NunesAlgorithm` with the entropy loss,
  run one child nearest-neighbour sampler per non-empty subset of the feature columns.
  - Each child's candidate samples are scored per observation.
  - For each observation, the search keeps the samples, the mask and the loss of the first
    subset whose loss is smallest.
- **Static compressor.** `StaticCompressorNearestNeighborAlgorithm` compresses the training
  data once and each query once, then samples as the nearest-neighbour sampler does.
  `FearnheadAlgorithm` is the instance whose compressor is a fitted linear regression.

The modules follow the program's structure:

- `NdArrays` (ndarrays.dfy): arrays of rank 0, 1 or 2, `np.atleast_2d`, the error conditions
  and the `Result`/`Option` wrappers.
- `Neighbors` (neighbors.dfy): the k-nearest-neighbour query, stated by its specification
  (`IsKNearest`, `IsAnswer`) and realised by a brute-force selection (`Nearest`, `Query`).
- `FeatureMasks` (masks.dfy): the enumeration of masks in `itertools.product` order, filtered by
  `any`, and the selection of columns by a mask.
- `BestSoFar` (bestsofar.dfy): the minimum and the first minimiser of a sequence of losses, and
  how both change when one more loss is appended.
- `Algorithm` (algorithm.dfy):
  - the reference-table constructor;
  - the nearest-neighbour sampler class;
  - the static-compressor sampler class, with its Fearnhead constructor;
  - the double-standardisation finding.
- `SubsetSearch` (subset.dfy):
  - `SelectBest`, the reference definition of the subset search;
  - the class `SubsetSelection`, whose `Sample` method runs the search as the source does, by
    an in-place keep-best update of arrays over the masks;
  - the lemmas relating the two.

Numeric collaborators appear as function-valued parameters:

- the standard scaler's fit (`Fitter`) and its fitted transform (`RowMap`);
- the entropy estimator (`LossStrategy.Entropy`);
- the linear-regression fit and its prediction (`RegressionFitter`, `Compressor`).

## Model

| member | source | states |
|---|---|---|
| Algorithm.CheckReference | summaries/algorithm.py:76-91 | Construction fails with the first failing check: features not two-dimensional, parameters not two-dimensional, or different row counts. It succeeds exactly when all three hold. On success the table is valid and keeps the feature width and the parameter rows. With standardisation it stores a scaler fitted on the features and the transformed features. Without it there is no scaler and the raw features are kept. |
| Algorithm.Reference.NumParams | summaries/algorithm.py:93-95 | `num_params` is the number of entries of every parameter row of a valid table. Every sampler class holds its checked table, so its `table.NumParams()` is the sampler's `num_params`. |
| Algorithm.NearestNeighborSampler.New | summaries/algorithm.py:108-110 | Construction fails exactly with the reference-table error. Otherwise it yields a fresh, valid sampler whose table is the one the constructor checks produce. |
| Algorithm.Transform | summaries/algorithm.py:130-131 | The scaler's transform (also used at :143-144 and :226-227) fails when the data are not a matrix, then when the matrix has no row, then when its column count differs from the fitted one; it succeeds exactly when none of these holds. On success each row is transformed on its own and the column count is kept. |
| Algorithm.PreparedQuery | summaries/algorithm.py:129-131 | The query is made at least two-dimensional, then transformed by the scaler when there is one, and is otherwise left as it is. |
| Algorithm.NearestSample | summaries/algorithm.py:129-134 | A preparation error is passed on. Success happens exactly when the prepared query has the table's width, `k >= 1`, and either `k` is at most the number of training rows or there is no observation. On success every observation gets its `k` nearest training rows, with their parameter rows and distances. Each sample has `num_params` entries. |
| Algorithm.NearestNeighborSampler.Sample | summaries/algorithm.py:112-134 | The class method has the same success condition and the same k-nearest answer, over the sampler's own fields. |
| Algorithm.TrainingRowSelfMatch | summaries/algorithm.py:129-134 | Query a sampler built by the constructor of :76-91 with one of its own raw training rows, with or without standardisation. The first neighbour is then at distance zero, and its stored features equal that row's stored form. |
| Algorithm.NearestSelfMatch | summaries/algorithm.py:129-134 | Take an observation whose prepared form equals a training row: with standardisation, this means an observation equal to the raw training row. Its first neighbour is then at distance zero, and that neighbour's stored features are the prepared observation. |
| Neighbors.Query | summaries/algorithm.py:132-133 | The spatial-index query with the parameter lookup. It fails with `k < 1`, with a width mismatch, or with more neighbours than rows when there is an observation. Otherwise every observation gets `k` distinct in-range indices, nearest first, with no omitted row closer than the last one. The samples are the parameter rows at those indices and the distances are theirs. |
| Neighbors.Nearest | summaries/algorithm.py:132 | The brute-force selection returns `k` nearest rows in the sense of `IsKNearest`. |
| Neighbors.FirstIsClosest | summaries/algorithm.py:132 | The first neighbour returned is at least as close as every reference row. |
| Neighbors.UniqueClosestFirst | summaries/algorithm.py:132 | A reference row strictly closer than every other row is the first neighbour returned. |
| Neighbors.SelfMatch | summaries/algorithm.py:132 | A query equal to a reference row gets a first neighbour at distance zero whose features equal the query. |
| Neighbors.SqDistZero | summaries/algorithm.py:115-116 | The (squared) Euclidean distance is zero exactly between equal rows. |
| FeatureMasks.ProductComplete | summaries/algorithm.py:149 | The product of `(False, True)` over `p` positions contains a mask exactly when the mask has length `p`. |
| FeatureMasks.MasksCount | summaries/algorithm.py:148-150 | There are exactly `2^p - 1` candidate masks. Each has length `p` and keeps at least one column. |
| FeatureMasks.MasksIncreasing | summaries/algorithm.py:149-150 | The masks come in strictly increasing lexicographic order, with `False` before `True`, so no mask occurs twice. |
| FeatureMasks.MasksComplete | summaries/algorithm.py:149-150 | Every non-empty mask of length `p` is among the candidates. |
| FeatureMasks.MasksEndWithAllTrue | summaries/algorithm.py:149-150 | With at least one feature, the all-True mask comes last. |
| FeatureMasks.SelectAll | summaries/algorithm.py:156 | Indexing a row by the all-True mask gives the row unchanged. |
| FeatureMasks.SelectAt | summaries/algorithm.py:156 | A kept column `j` is entry `Count(m[..j])` of the selection, the number of kept columns before it. So every kept column is selected, and in column order. |
| FeatureMasks.SelectOnlyKept | summaries/algorithm.py:156 | Every entry of the selection is the entry of some kept column. |
| FeatureMasks.SelectSplit | summaries/algorithm.py:156 | Boolean-mask indexing works column by column and keeps the selected entries in column order. |
| SubsetSearch.EvaluateLoss | summaries/algorithm.py:182-208 | The base class's loss always fails as not implemented. The entropy loss succeeds with one value per observation, each the estimate of that observation's own samples. |
| SubsetSearch.ChildReference | summaries/algorithm.py:156-158 | The child's table holds the masked feature columns (as many as the mask keeps) and the same parameters, with no scaler. |
| SubsetSearch.ChildConstruction | summaries/algorithm.py:156-158 | Building the child with `standardize=False` always succeeds and gives that table. |
| SubsetSearch.ChildSameMask | summaries/algorithm.py:156-160 | The child succeeds exactly when `k >= 1` and either `k` is at most the number of training rows or there is no observation. Its answer is the k-nearest answer over the masked training features for the masked query, with the same mask applied to both. It also states the two errors. |
| SubsetSearch.FullMaskChild | summaries/algorithm.py:156-160 | The all-True mask's child is the plain, unstandardised nearest-neighbour sample on all columns. |
| SubsetSearch.ChildAnswersAt | summaries/algorithm.py:152-160 | Answer `t` of the walk is mask `t`'s child's answer. |
| SubsetSearch.EvaluateSound | summaries/algorithm.py:160-164 | In a successful walk every child succeeded. The recorded samples are that child's, and the recorded loss vector is their loss. |
| SubsetSearch.EvaluateKeepsError | summaries/algorithm.py:160-164 | The first error ends the walk: once a prefix fails, the whole walk fails with that error. |
| SubsetSearch.WinnersFirst | summaries/algorithm.py:165-168 | After the first mask, every observation's winner is that mask, with its samples and its losses. |
| SubsetSearch.KeepStrictlyBetter | summaries/algorithm.py:170-173 | The vectorised update never raises a best loss, and each new best loss is at most the new loss (`np.minimum`). |
| SubsetSearch.WinnersExtend | summaries/algorithm.py:170-173 | The first-minimum winners over one more mask are the previous winners after one strict keep-best update. |
| BestSoFar.MinOfExtend | summaries/algorithm.py:173 | The running minimum changes only when the new loss is strictly smaller. |
| BestSoFar.FirstArgMin | summaries/algorithm.py:170-172 | The chosen position has the smallest loss, and every earlier position has a strictly larger one. |
| BestSoFar.FirstArgMinExtend | summaries/algorithm.py:170-172 | The first minimiser moves to the new mask exactly when its loss is strictly below the current minimum. On a tie the earlier mask stays. |
| SubsetSearch.Choose | summaries/algorithm.py:160-179 | The search over the children's answers fails exactly when the walk fails. Otherwise it reports the masks, one loss vector per mask, and a winner with one entry per observation. |
| SubsetSearch.ChooseFirstMinimum | summaries/algorithm.py:165-173 | Observation `i`'s winner is a mask `b` whose loss for `i` is the smallest. Every earlier mask's loss is strictly larger. The winner's samples for `i` are mask `b`'s answer for `i`. |
| SubsetSearch.ChooseOutcome | summaries/algorithm.py:160-164 | Suppose the children all succeed or all fail alike. Then the search fails with the first child's error, otherwise with the loss hook's error, and otherwise succeeds. |
| SubsetSearch.SelectBestEarlyOutcome | summaries/algorithm.py:143-159 | A standardisation error is passed on. With no feature the search returns no winner and no masks. Data that are not a matrix, or that have the wrong number of columns, fail. |
| SubsetSearch.SelectBestOutcome | summaries/algorithm.py:152-164 | On prepared data: `k < 1` fails. More neighbours than training rows, with an observation, fails. Otherwise the base class fails with its missing loss and the entropy loss succeeds. |
| SubsetSearch.SelectBestShape | summaries/algorithm.py:148-180 | A successful search reports the enumerated masks (`2^p - 1` of them) and one loss vector per mask. It reports a winner exactly when there is a feature. Winners and loss vectors have one entry per observation. |
| SubsetSearch.SelectBestLosses | summaries/algorithm.py:163-164 | Each reported loss vector is the loss of that mask's child samples. |
| SubsetSearch.BestIsFirstMinimum | summaries/algorithm.py:165-173 | `best_loss[i]` is the loss of `best_mask[i]` and no mask has a smaller one. Every mask before `best_mask[i]` has a strictly larger one. |
| SubsetSearch.BestSamples | summaries/algorithm.py:167-171 | `best_samples[i]` is what the child of `best_mask[i]` returns for observation `i`. |
| SubsetSearch.BestAtMostFullMask | summaries/algorithm.py:165-173 | The last mask is the full feature set, and every best loss is at most that mask's loss. |
| SubsetSearch.SubsetSelection.New | summaries/algorithm.py:76-91 | The base subset-selection sampler is built exactly as the reference table is, with no loss. |
| SubsetSearch.SubsetSelection.Nunes | summaries/algorithm.py:202-208 | The Nunes sampler is built the same way, with the entropy loss. |
| SubsetSearch.SubsetSelection.GetCompressor | summaries/algorithm.py:195-199 | Always fails: subset selection offers no compressor. |
| SubsetSearch.SubsetSelection.Sample | summaries/algorithm.py:141-180 | The imperative sample returns exactly `SelectBest`, including every error case. |
| SubsetSearch.SubsetSelection.Search | summaries/algorithm.py:151-179 | The loop over the masks returns exactly the first-minimum search over the children's answers. Its invariant holds the in-place arrays equal to the winners of the masks so far. |
| SubsetSearch.SubsetSelection.Assess | summaries/algorithm.py:156-164 | One step of the loop: the error that ends the walk, or mask `t`'s samples and loss vector appended to the walk. |
| SubsetSearch.SubsetSelection.AskChild | summaries/algorithm.py:156-160 | A fresh child sampler on the masked columns, queried with the masked rows, gives mask `t`'s answer. |
| SubsetSearch.SubsetSelection.Record | summaries/algorithm.py:165-173 | The arrays become the winners of the masks up to `t`. The first mask allocates them; later masks update them in place. |
| SubsetSearch.SubsetSelection.FirstBest | summaries/algorithm.py:165-168 | The first mask's samples, that mask repeated once per observation, and its losses. |
| SubsetSearch.SubsetSelection.KeepStrictlyBetterInPlace | summaries/algorithm.py:170-173 | The in-place update of the three arrays is one strict keep-best step. |
| Algorithm.StaticCompressorSampler.New | summaries/algorithm.py:215-220 | The compressor and the raw training data are kept. The table is built from the compressed training data, with the same error conditions. |
| Algorithm.StaticCompressorSampler.Fearnhead | summaries/algorithm.py:241-245 | The regression fit's input validation runs first: construction fails with `RegressionInputInvalid` exactly when the fit refuses the tables. Otherwise a regression of parameters on raw features is fitted once, its prediction becomes the static compressor, and the remaining errors and the stored table are `CheckReference`'s on the predicted features. |
| Algorithm.RegressionInputCases | summaries/algorithm.py:244 | The fit refuses features that are not a matrix or have no row or no column, scalar targets, a target matrix without columns, and targets whose count differs from the feature rows; it accepts a non-empty feature matrix with one target vector entry or target row per feature row. |
| Algorithm.StaticCompressorSampler.GetCompressor | summaries/algorithm.py:232-234 | Fails for any data. Without data it returns exactly the constructor's compressor. |
| Algorithm.StaticSampleAsWritten | summaries/algorithm.py:222-230 | The query is compressed and standardised, recorded as `compressed_data`, then prepared again by the nearest-neighbour sample, which standardises it a second time. A first-stage error is passed on. It succeeds exactly when both stages succeed, and a nearest-neighbour error is passed on. The neighbours answer the doubly prepared query. |
| Algorithm.StaticSample | summaries/algorithm.py:222-230 | The corrected sample compresses and standardises once. It succeeds exactly when the nearest-neighbour conditions hold for that data. It returns the k nearest rows of exactly the recorded `compressed_data`. |
| Algorithm.StaticCompressorSampler.Sample | summaries/algorithm.py:222-230 | The class method compresses the query with the compressor from `get_compressor(None)` and standardises it once. It returns the k nearest training rows of the recorded `compressed_data`, and fails only for the listed reasons. |
| Algorithm.StaticSampleAgreeWithoutScaler | summaries/algorithm.py:226-228 | Without standardisation the as-written and corrected samples agree. |
| Algorithm.StaticSelfMatch | summaries/algorithm.py:222-230 | With single standardisation, a query whose compressed form equals a compressed training row finds a neighbour at distance zero. |
| Algorithm.CounterexampleReference | summaries/algorithm.py:87-89 | Training features `[[0], [4]]` with standardisation are stored as `[[-1], [1]]`. |
| Algorithm.DoubleStandardizationMisses | summaries/algorithm.py:226-228 | On that table the observation `[[4]]`, identical to training row 1, is standardised twice to `[[-0.5]]`. The as-written sample then returns row 0 at a positive distance. |
| Algorithm.SingleStandardizationMatches | summaries/algorithm.py:226-229 | On the same input the corrected sample returns row 1 at distance zero. |

## Left out

- The KD-tree's own structure (summaries/algorithm.py:110) is not modelled. Queries are answered
  from the table by a brute-force selection with the same contract.
  - Among equidistant rows, the model happens to pick the lowest index, but no stated property
    depends on that choice.
  - The index's `distances` are modelled as squared Euclidean distances, which order rows as
    Euclidean distances do.
- Extra keyword arguments forwarded to the KD-tree query (`**kwargs`) are not modelled.
- Numeric collaborators are function parameters whose numerics are not modelled:
  - the standard scaler's fitting and transform;
  - the entropy estimator;
  - the linear-regression fit and prediction;
  - any compressor.
- Floating point is not modelled: NaN losses, rounding and `np.minimum`'s NaN propagation. Values
  are exact reals.
- The spatial index's query (`KDTree.query`) squeezes its answer for `k == 1`: one index per
  observation rather than a list of one. This is not modelled: every observation always gets a
  sequence of `k` samples.
- Arrays of rank above two, and `np.asarray` conversion of arbitrary inputs, are not modelled.
- Asking for more neighbours than there are training rows makes the index pad its answer with an
  out-of-range index, and the parameter lookup then fails. This is modelled as one error,
  `TooFewReferenceRows`, which does not occur when there is no observation to look up.
- The error raised for `k < 1` comes from the spatial index, which is not part of this model. It
  is modelled as `NumSamplesNotPositive`.
- A scaler fitted on data it cannot handle is not modelled, so scaler fitting never fails in the
  model. Fitting on a table with no row or no column, which the scaler's input validation
  refuses, therefore succeeds in the model.
- The scaler's transform is modelled with the input checks of its validation that the samplers
  can reach: a matrix, at least one row, and the fitted column count. A query with rows but no
  column is reported as `QueryWidthMismatch`.
- Algorithm.StaticCompressorSampler.Fearnhead: the regression fit's input validation is a
  library check outside the source files. Its refusals are modelled by `RegressionInputValid`,
  all as one error, `RegressionInputInvalid`. Once validation passes, the fit itself never fails.
- Compressors are total functions in the model. A compressor that raises, such as the linear
  regression's `predict` given a one-dimensional query (summaries/algorithm.py:245), is not
  modelled.
- Progress bars, the `show_progress` flag and logging have no effect on results and are left out.
- The constructors take `standardize` last, with the source's default: `true`, and `false` for
  `Fearnhead`. The scaler fitter `fit` comes before it, since Dafny defaults must follow it.
- The predictor attribute that `FearnheadAlgorithm` keeps is not stored. Only its prediction
  function is, as the compressor.
- The `info` dictionaries are modelled as result records:
  - `Neighbours` holds the indices and distances;
  - `CompressedSample` holds `compressed_data`;
  - `Selection` holds `best_mask`, `best_loss`, `masks` and `losses`.
- Aliasing between the caller's numpy arrays and the sampler's fields is not modelled. Tables are
  values, and only the subset search's running winners are arrays updated in place.
- Algorithm.StaticCompressorSampler.Sample: runs the corrected single standardisation
  (`StaticSample`), not the double standardisation of summaries/algorithm.py:226-228 with :130-131.
  With standardisation on, it differs from the source, as the Findings row shows.
  - The source standardises a query twice (see Findings). `StaticSampleAsWritten` models the code
    as written. The class method uses the single standardisation that the recorded
    `compressed_data` and the standardised training data call for.
  - Without standardisation, which is `FearnheadAlgorithm`'s default, the two agree
    (`StaticSampleAgreeWithoutScaler`).
- Algorithm.StaticCompressorSampler.Sample: "the compressor is applied once per call" is stated
  only as "the result is the compressor's value on the query". Pure functions cannot count
  calls.
- Algorithm.StaticCompressorSampler.Sample: its failure clause lists the possible causes but not
  which error each raises. `StaticSample` states the exact success condition.
- The abstract `Algorithm.sample` and `CompressorMixin.get_compressor` interfaces only raise
  `NotImplementedError` and have no behaviour of their own.
- `summaries/benchmark.py`, `summaries/distributions.py` and `summaries/examples` are not part of
  this model.

Where the model follows the code:

- Subset selection does not call `np.atleast_2d`, so its data must already be a matrix.
  - Without a scaler, a vector or scalar fails when it is indexed by a mask (`QueryNotTwoDimensional`).
  - With a scaler, the scaler's transform rejects it first.
- With no feature columns there is no candidate mask, so the loop never runs. The search then
  returns no winner (`None`), whatever the data.

## Findings

| source | as written | input that shows it | evidently intended | confidence | as-written member | corrected member |
|---|---|---|---|---|---|---|
| summaries/algorithm.py:226-228 | With `standardize=True`, `StaticCompressorNearestNeighborAlgorithm.sample` transforms the compressed query with the scaler, and `NearestNeighborAlgorithm.sample` then transforms it again. The index is searched with a doubly standardised query, while the training data were standardised once. | Training data `[[0], [4]]`, parameters `[[0], [1]]`, an identity compressor and a scaler with mean 2 and scale 2. The query `[[4]]` becomes `[[1]]` and then `[[-0.5]]`, so training row 0 is returned at a positive distance instead of row 1 at distance zero. | The query is standardised once, like the training data and like the recorded `compressed_data`. | high (not executed) | Algorithm.DoubleStandardizationMisses | Algorithm.SingleStandardizationMatches |
