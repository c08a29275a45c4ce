# Rain forecast core in Dafny

This project models the two computational cores of a small rain-forecast
service.

1. **The IMERG reader** (`read_imerg.py`). It looks up the precipitation
   at a latitude/longitude in one half-hourly IMERG granule. If the nearest
   grid cell holds the missing-value sentinel `-9999.9` or NaN, it averages
   an ever larger window around that cell. It then summarises all granules:
   the mean hourly rate, the daily rate (three times the hourly rate), the
   percentage of rainy half-hours (rate above 0.1 mm/h, rounded to one
   decimal), a will-it-rain flag and an intensity category.
2. **The weather predictor** (`model/rand_forest.py`). It learns from a
   table of daily observations and later predicts "rain tomorrow" from only
   a date and a location. Every other feature is imputed from per-location,
   per-month and global statistics kept at training time. Categorical
   columns are label-encoded, and the encoders are fitted during training.

Module layout:

- `Wrappers`: `Option`, `Result` and `Outcome`.
- `SeqFacts`: first positions, mapping a function over a sequence, and
  multiset facts shared by both cores.
- `LabelOrder`: Python's string order and the `LabelEncoder` code of a
  label. A label's code is its rank among the sorted classes.
- `ImergExtract`: the floating-point model, the grid, orientation of the
  latitude axis, longitude normalisation, nearest index, the search
  window, the lookup and the method `ExtractPrecipAtLocation` that carries
  the radius loop.
- `ImergSummary`: rounding, the category, the summary, and the method
  `ProcessAllFiles` with its collection loop.
- `ForestFeatures`:
  - the feature lists;
  - label encoding, column by column and over several columns;
  - the imputation rules;
  - the inference feature matrix as a specification function;
  - the training-frame cleaning (marker replacement, target filter,
    `fillna('Unknown')`).
- `ForestPredictor`: the class `WeatherPredictor`, whose methods update the
  encoders, statistics, feature order and fitted flag in place. It also
  holds the prediction outcome and the two expressions of the `/predict`
  route.

In `ImergExtract` and `ImergSummary`, precipitation values are `Num(x)`
with an exact real `x`, or `NaN`; the coordinate axes and the query point
are exact reals. A comparison with NaN is false and a mean
that includes NaN is NaN, as in NumPy. The predictor's statistics and
features are exact reals without NaN.

## Model

| member | source | states |
|---|---|---|
| LabelOrder.StrLessTotal | model/rand_forest.py:103 | Python's string order is total on distinct strings; together with irreflexivity and transitivity this makes the sorted `classes_` well defined |
| LabelOrder.RankBound | model/rand_forest.py:111 | the code `transform` gives a class is below the number of classes |
| LabelOrder.RankStrictlyMonotone | model/rand_forest.py:111 | a smaller label gets a smaller code, so codes follow the sorted order of `classes_` |
| LabelOrder.RankInjective | model/rand_forest.py:111 | two different classes never share a code |
| ImergExtract.Orient | read_imerg.py:21-23 | after orientation the first latitude is at most the last, the longitudes are unchanged and the grid keeps its shape |
| ImergExtract.OrientKeepsRowsWithLatitudes | read_imerg.py:21-23 | flipping the latitudes flips the precipitation rows with them: row `i` still belongs to latitude `i` |
| ImergExtract.FloorMod | read_imerg.py:28 | Python's `%` with a positive modulus: the result lies in `[0, m)` and differs from `x` by a multiple of `m` |
| ImergExtract.NormalizeLon | read_imerg.py:26-28 | a longitude inside [-180, 180] is kept; any other is mapped into [-180, 180) and differs from the input by a multiple of 360 |
| ImergExtract.NearestIndex | read_imerg.py:31-32 | `argmin` of the distance: the index is nearest to the target, and no earlier index is as near (first minimum wins) |
| ImergExtract.WindowLo | read_imerg.py:43-45 | the lower window bound never exceeds the centre; it is `c - radius` when that is not negative and is clamped to 0 otherwise |
| ImergExtract.WindowHi | read_imerg.py:44-46 | the upper bound never exceeds the axis length and lies past the centre; it is `c + radius + 1` when that fits and is clamped to the axis length otherwise |
| ImergExtract.WindowNested | read_imerg.py:42-46 | a larger radius gives a window that contains the smaller one |
| ImergExtract.KeptCells | read_imerg.py:49 | the boolean-mask filter keeps exactly the entries that are not the sentinel (how often each value is kept is `KeptCellsCounts`) |
| ImergExtract.KeptCellsCounts | read_imerg.py:49 | the filter keeps every copy of a kept value and drops every copy of a sentinel, so each kept value occurs as often as in the input |
| ImergExtract.KeptCellsConcat | read_imerg.py:49 | filtering a concatenation is the concatenation of the filtered parts, so the filter keeps the order of the cells |
| ImergExtract.WindowCells | read_imerg.py:48-49 | the flattened region holds only kept values, and every kept cell of the window is in it (how often each value occurs is `WindowCellsCounts`) |
| ImergExtract.WindowSlice | read_imerg.py:42-48 | the slice `precip[i_min:i_max, j_min:j_max]` holds every cell of the window (its layout is `WindowSliceLayout`) |
| ImergExtract.WindowSliceLayout | read_imerg.py:42-49 | the flattened slice has `(i_max - i_min) * (j_max - j_min)` entries, each window cell exactly once, in row-major order, as NumPy flattens a mask selection |
| ImergExtract.RowStartIsProduct | read_imerg.py:48-49 | in the row-major layout, row `k` of a block with `m` columns starts at position `k * m` |
| ImergExtract.WindowCellsIsMaskedSlice | read_imerg.py:48-49 | the region (`Region`, the filtered window) is the boolean mask applied to the row-major window slice, cell for cell and in order |
| ImergExtract.WindowCellsCounts | read_imerg.py:48-49 | a kept value occurs in the region as often as in the window slice, and a sentinel not at all |
| ImergExtract.RegionNonEmptyIff | read_imerg.py:48-50 | `region.size > 0` holds exactly when some cell in the window is not the sentinel |
| ImergExtract.RegionGrows | read_imerg.py:42-50 | once a radius finds a value, every larger radius finds one too |
| ImergExtract.SumByPermutation | read_imerg.py:75 | a sum over values does not depend on their order |
| ImergExtract.SearchNoneIff | read_imerg.py:42-54 | the radius search gives None exactly when no radius up to `max_radius` has a kept cell |
| ImergExtract.SearchFindsSmallestRadius | read_imerg.py:42-51 | a successful search returns the mean of the region at the smallest radius that has a kept cell |
| ImergExtract.Search | read_imerg.py:38-54 | a value found by the search comes from a radius within `max_radius` (its meaning is `SearchNoneIff` and `SearchFindsSmallestRadius`) |
| ImergExtract.Mean | read_imerg.py:51 | `np.mean` is NaN exactly when a value is NaN |
| ImergExtract.TotalBounded | read_imerg.py:51 | the sum of `n` values between two bounds lies between `n` times each bound |
| ImergExtract.MeanBounded | read_imerg.py:51 | the mean of non-NaN values lies between their lower and upper bound |
| ImergExtract.Locate | read_imerg.py:18-35 | a located cell is at the nearest index on the oriented latitude axis and on the longitude axis of the normalised longitude, inside the oriented grid of at least two rows and two columns; the lookup gives None exactly when an axis is empty, the grid has a single row or column (squeezed below two dimensions), or a nearest index lies outside the precipitation grid |
| ImergExtract.ExtractMeaning | read_imerg.py:11-58 | an unreadable file or an unusable grid gives None; a usable nearest cell is returned as is; otherwise the result is None exactly when no window has data, and is the mean at the first radius that has data |
| ImergExtract.ExtractWith | read_imerg.py:13-54 | a lookup that gives a value read a file and located a cell (its meaning is `ExtractMeaning`) |
| ImergExtract.Extract | read_imerg.py:13-54 | the lookup as written gives a value only for a readable file with a located cell |
| ImergExtract.NaNNearestCellYieldsNaN | read_imerg.py:38-51 | a NaN nearest cell makes the radius-1 mean NaN, because the filter keeps NaN |
| ImergExtract.NaNCellExample | read_imerg.py:38-51 | a 2 x 2 grid whose cell nearest the query holds NaN yields NaN as the lookup's value |
| ImergExtract.SearchNeverNaN | read_imerg.py:48-51 | with NaN filtered as well, the search never gives NaN |
| ImergExtract.ExtractCorrectedNeverNaN | read_imerg.py:11-58 | the corrected lookup never gives NaN |
| ImergExtract.ExtractCorrectedAgrees | read_imerg.py:11-58 | on a grid without NaN the corrected lookup and the lookup as written agree |
| ImergExtract.ExtractPrecipAtLocation | read_imerg.py:11-58 | the imperative lookup, with its radius loop, computes the lookup function |
| ImergExtract.LocateCell | read_imerg.py:15-35 | the squeeze, orientation, normalisation and nearest-index steps compute `Locate`, raising (None) at the flip or the lookup when the grid is squeezed below two dimensions |
| ImergExtract.SearchWindows | read_imerg.py:42-54 | the loop over radii 1..`max_radius` computes the radius search |
| ImergSummary.RainyCountBounds | read_imerg.py:77 | the number of rainy values is between 0 and the number of values |
| ImergSummary.RainyCountIsCardinality | read_imerg.py:77 | `sum(v > 0.1 for v in values)` is the number of positions whose reading exceeds 0.1 |
| ImergSummary.RainPercentage | read_imerg.py:77-78 | the unrounded percentage is 100 times the number of readings above 0.1 mm/h, divided by the number of readings, and lies between 0 and 100 |
| ImergSummary.RoundedTenths | read_imerg.py:78 | `round(x, 1)` picks the nearest tenth, and a tie goes to the even tenth |
| ImergSummary.Round1 | read_imerg.py:78 | the rounded value is a whole number of tenths within 0.05 of the input |
| ImergSummary.RoundKeepsPercentRange | read_imerg.py:78 | rounding keeps a percentage within [0, 100] |
| ImergSummary.RoundedAboveThirty | read_imerg.py:78-80 | the rounded percentage exceeds 30 exactly when the raw percentage exceeds 30.05 |
| ImergSummary.Categorise | read_imerg.py:82-89 | the four intensity bands, each stated as an iff on the mean, and NaN falls to "heavy rain" |
| ImergSummary.CategoryMonotone | read_imerg.py:82-89 | a larger mean never gets a lighter category |
| ImergSummary.Summarise | read_imerg.py:71-98 | no values give exactly the error result with its message; otherwise the percentage lies in [0, 100] within 0.05 of the raw percentage |
| ImergSummary.ReportAverages | read_imerg.py:75-89 | without NaN, the hourly average is the arithmetic mean, the daily one three times it, and the category is that of the hourly average |
| ImergSummary.ZeroValueJoinsAverage | read_imerg.py:68-75 | a zero reading counts in the average: it adds nothing to the total but one to the divisor (a None lookup is not collected at all, see `PresentMember` and `PresentCounts`) |
| ImergSummary.WillItRainIff | read_imerg.py:78-80 | it will rain exactly when the raw percentage exceeds 30.05 or the mean exceeds 0.2 |
| ImergSummary.NaNValueGivesHeavyRain | read_imerg.py:75-89 | one NaN value makes the average NaN and the category "heavy rain" |
| ImergSummary.SummaryOrderIndependent | read_imerg.py:71-98 | the summary does not depend on the order of the collected values (used by `ListingOrderIndependent`) |
| ImergSummary.ListingOrderIndependent | read_imerg.py:64-98 | the summary does not depend on the order in which the directory lists the granules |
| ImergSummary.PresentMember | read_imerg.py:68-69 | the kept values are exactly the lookups that were not None (how often each is kept is `PresentCounts`) |
| ImergSummary.PresentCounts | read_imerg.py:68-69 | each value is kept as often as a lookup gave it |
| ImergSummary.CollectedMembers | read_imerg.py:63-69 | a value is collected exactly when some granule's lookup gives it (how often each is collected is `CollectedCounts`) |
| ImergSummary.CollectedCounts | read_imerg.py:63-69 | each value is collected as often as a granule's lookup gave it |
| ImergSummary.CollectWith | read_imerg.py:63-69 | no more values are collected than there are granules (the counts are `CollectedCounts`) |
| ImergSummary.Collected | read_imerg.py:63-69 | the loop as written collects at most one value per granule |
| ImergSummary.NoDataIffNothingFound | read_imerg.py:63-72 | the error result comes back exactly when every granule's lookup gives None |
| ImergSummary.CorrectedSummaryIsNumeric | read_imerg.py:63-98 | with the corrected lookup every report has a numeric average, equal to the arithmetic mean of the collected values |
| ImergSummary.ProcessAllFiles | read_imerg.py:61-98 | the imperative collection loop computes the summary of the collected values |
| ForestFeatures.TrainingFeatureOrder | model/rand_forest.py:265-284 | the stored order has 29 names, and each is a temporal, location, categorical or numeric feature |
| ForestFeatures.EncodeColumn | model/rand_forest.py:105-111 | a successful encoding has one code per row (its meaning is `EncodeColumnMeaning`) |
| ForestFeatures.EncodeColumnMeaning | model/rand_forest.py:105-111 | encoding succeeds exactly when 'Unknown' is a class or every filled entry is a class; each code is below the number of classes and is the rank of the entry, or of 'Unknown' for an unseen entry |
| ForestFeatures.EncodedLabelsDistinct | model/rand_forest.py:111 | two known entries share a code exactly when they are the same label |
| ForestFeatures.FittedColumnEncodes | model/rand_forest.py:99-111 | fitting on a column and then transforming that column never raises |
| ForestFeatures.UnseenLabelRaises | model/rand_forest.py:106-111 | one entry outside the classes, with 'Unknown' not a class, makes the encoding raise |
| ForestFeatures.UnseenLocationExample | model/rand_forest.py:106-111 | encoding "Atlantis" against the classes {"Sydney"} raises |
| ForestFeatures.EncodeColumnCorrected | model/rand_forest.py:105-111 | the corrected encoding gives one code per row (its meaning is `EncodeColumnCorrectedMeaning`) |
| ForestFeatures.EncodeColumnCorrectedMeaning | model/rand_forest.py:105-111 | the corrected codes stay below the number of classes and agree with the encoding as written whenever that succeeds |
| ForestFeatures.Refit | model/rand_forest.py:95-103 | after fitting, every listed column in the frame has the classes of its own values as encoder, and every other encoder is kept |
| ForestFeatures.RefitStep | model/rand_forest.py:95-103 | fitting one more column changes that column's encoder and no other |
| ForestFeatures.EncodeAll | model/rand_forest.py:95-111 | only listed columns that are in the frame and have an encoder are encoded, and a failure names a listed column (its closed form is `EncodeAllSuccess` and `EncodeAllFirstFailure`) |
| ForestFeatures.EncodeAllSuccess | model/rand_forest.py:95-111 | encoding succeeds exactly when every listed column that is in the frame and has an encoder encodes; then the result holds exactly those columns, each with the codes of its own encoding |
| ForestFeatures.EncodeAllFirstFailure | model/rand_forest.py:95-111 | a failing call reports the unseen labels of the first such column that does not encode, and every such column before it encodes |
| ForestFeatures.EncodeAllDependsOnListed | model/rand_forest.py:95-111 | the result depends only on the encoders of listed columns present in the frame |
| ForestFeatures.RefitKeepsEarlier | model/rand_forest.py:95-111 | fitting a later column does not change how the earlier columns encode |
| ForestFeatures.EncodeAllFailureSticks | model/rand_forest.py:95-111 | once one column raises, the whole call raises with that error |
| ForestFeatures.EncodeAllFittedSucceeds | model/rand_forest.py:99-111 | encoding with encoders fitted on each listed column never raises |
| ForestFeatures.ImputationPrecedence | model/rand_forest.py:347-384 | a numeric feature takes the first available of the month's mean, the location's mean, the global mean, or 0 |
| ForestFeatures.CategoricalImputationMeaning | model/rand_forest.py:369-386 | a categorical feature takes the code of the location's mode when the encoder knows the mode, and 0 otherwise |
| ForestFeatures.ImputeNumeric | model/rand_forest.py:345-384 | a location without statistics gets the global mean, or 0 (its meaning is `ImputationPrecedence`) |
| ForestFeatures.ImputeCategorical | model/rand_forest.py:369-386 | a location without statistics or a column without an encoder gets 0, and any other code is a valid code of the column's encoder (its meaning is `CategoricalImputationMeaning`) |
| ForestFeatures.ImputedColumns | model/rand_forest.py:341-342 | the imputed columns are exactly the categorical and the numeric features |
| ForestFeatures.ImputedNotTemporal | model/rand_forest.py:319-342 | no imputed column is a temporal feature or the location |
| ForestFeatures.EncodedLocationsWith | model/rand_forest.py:313-316 | a successful location encoding has one entry per location, and only the encoding as written fails, with the unseen labels of `Location` (its meaning is `EncodedLocationsIsEncodeAll`) |
| ForestFeatures.EncodedLocationsIsEncodeAll | model/rand_forest.py:313-316 | the location column is the multi-column encoding of a one-column frame: the same failures, coded entries when an encoder exists, and names otherwise |
| ForestFeatures.FirstMissingName | model/rand_forest.py:389 | the lookup of stored names finds no missing one exactly when every name is a feature; otherwise it reports a missing name from the list, and every name before its first position is a feature, so it is the first missing name |
| ForestFeatures.InferenceMatrixWith | model/rand_forest.py:307-392 | a successful matrix has a row per date and a column per stored name; a failure is an unseen location (as written only), no columns, unequal lengths, or a stored name without a feature |
| ForestFeatures.InferenceMatrix | model/rand_forest.py:307-392 | the matrix as written has the same shape and fails only for those reasons |
| ForestFeatures.CorrectedInferenceMatrix | model/rand_forest.py:307-392 | the corrected matrix never fails on a location label, and equals the matrix as written when that one succeeds |
| ForestFeatures.MatrixShape | model/rand_forest.py:388-390 | a successful matrix has at least one column, a row per date, only known names, and as many locations as dates when the location is a column |
| ForestFeatures.ImputedEntry | model/rand_forest.py:340-390 | an entry of an imputed column holds the imputed value |
| ForestFeatures.TrainedOrderLayout | model/rand_forest.py:388-390 | with the order stored at training (lines 265-284), each row is 8 temporal values, the location code, 4 categorical codes and 16 numeric values, in that order |
| ForestFeatures.TrainedTemporalEntry | model/rand_forest.py:388-390 | with the training order, entry `t < 8` is the `t`-th temporal feature |
| ForestFeatures.TrainedCategoricalEntry | model/rand_forest.py:388-390 | with the training order, entry `9 + c` is the imputed code of the `c`-th categorical feature |
| ForestFeatures.TrainedNumericEntry | model/rand_forest.py:388-390 | with the training order, entry `13 + c` is the imputed value of the `c`-th numeric feature |
| ForestFeatures.NumericEntriesPrecedence | model/rand_forest.py:345-384 | every numeric entry of a matrix row follows the seasonal, location, global, zero precedence |
| ForestFeatures.NoSeasonEntries | model/rand_forest.py:361-367 | a known location without data for the month uses its own mean, then the global mean |
| ForestFeatures.UnknownLocationEntries | model/rand_forest.py:381-386 | a location without statistics gets the global means and categorical code 0 |
| ForestFeatures.CategoricalEntries | model/rand_forest.py:369-386 | every categorical entry of a matrix row is the code of the location's mode, or 0 |
| ForestFeatures.ShortLocationEntries | model/rand_forest.py:341-390 | samples beyond the shorter of dates and locations keep their zero-initialised imputed values, and then the location is not a column |
| ForestFeatures.Strip | model/rand_forest.py:227 | `str.strip()` leaves no white space at either end and empties only an all-white-space string |
| ForestFeatures.StripRemovesOnlyEnds | model/rand_forest.py:227 | the stripped string is the input without a white-space prefix and a white-space suffix; with the contract of `Strip` these are the longest such |
| ForestFeatures.TargetMask | model/rand_forest.py:227-228 | a row is kept exactly when its cleaned, stripped target reads "Yes" or "No" |
| ForestFeatures.KeepRowsMembers | model/rand_forest.py:217-228 | the filtered column holds exactly the cleaned entries of the kept rows |
| ForestFeatures.Labelled | model/rand_forest.py:217-228 | the marker replacement and the target filter keep every column (the rows kept are `TargetMask` and `KeepRowsMembers`) |
| ForestFeatures.FillColumns | model/rand_forest.py:241 | the fill keeps every column |
| ForestFeatures.TrainingClasses | model/rand_forest.py:217-244 | a label is a fitted class of a categorical column exactly when some row with a labelled target carries it after the marker replacement and the fill |
| ForestPredictor.AssembleFeatureNames | model/rand_forest.py:265-284 | the assembly loops build the training feature order |
| ForestPredictor.SetAt | model/rand_forest.py:354-367 | `feature_dict[col][i] = value` for each listed column: entry `i` of each listed column gets its value, and every other entry and column is unchanged |
| ForestPredictor.ZeroColumns | model/rand_forest.py:341-342 | exactly the listed columns are created, each as `n` zeros |
| ForestPredictor.StackedMatrix | model/rand_forest.py:388-390 | stacking the filled columns in stored order gives the specified feature matrix |
| ForestPredictor.Prediction | model/rand_forest.py:462-479 | an unfitted model refuses; a fitted one fails with the matrix's error; a success needs a fitted model and a matrix |
| ForestPredictor.PredictionShape | model/rand_forest.py:462-479 | a successful prediction needs a fitted model and gives, per date, the class in {0, 1} and the probability in [0, 1] that the model gives that date's feature row |
| ForestPredictor.WeatherPredictor.constructor | model/rand_forest.py:80-89 | a new predictor has no encoders, no statistics, no feature order and is not fitted |
| ForestPredictor.WeatherPredictor.EncodeCategorical | model/rand_forest.py:91-113 | fitting refits exactly the listed present columns and always succeeds; the codes are the multi-column encoding under the resulting encoders; no other field changes |
| ForestPredictor.WeatherPredictor.ImputeNumericSample | model/rand_forest.py:347-384 | sample `i` of every numeric column gets its imputed value and nothing else changes |
| ForestPredictor.WeatherPredictor.ImputeCategoricalSample | model/rand_forest.py:369-386 | sample `i` of every categorical column gets its imputed code and nothing else changes |
| ForestPredictor.WeatherPredictor.ImputeSample | model/rand_forest.py:347-386 | sample `i` of every imputed column gets its categorical code or numeric value, and every other entry and column is unchanged |
| ForestPredictor.WeatherPredictor.FillImputed | model/rand_forest.py:340-386 | after the loop every imputed column holds the imputed value of each sample, or 0 beyond the shorter input |
| ForestPredictor.WeatherPredictor.PrepareInferenceFeatures | model/rand_forest.py:290-392 | the imperative feature preparation computes the specified matrix, including its failures |
| ForestPredictor.WeatherPredictor.Train | model/rand_forest.py:394-442 | a missing date/location or target column fails with the state unchanged; the statistics are stored; the encoders are those fitted on the labelled, filled rows; training passes exactly when all columns are present, and then records the training order and becomes fitted |
| ForestPredictor.WeatherPredictor.Predict | model/rand_forest.py:444-479 | a single date or location is wrapped in a list; an unfitted model refuses; otherwise the result is the prediction on the feature matrix |
| ForestPredictor.UnseenLocationFailsPrediction | model/rand_forest.py:313-316 | a location outside the fitted classes, with no 'Unknown' class, makes the prediction fail, so the global-statistics branch is never reached for it |
| ForestPredictor.PredictBeforeTraining | model/rand_forest.py:462-463 | a predictor that was never trained refuses to predict |
| ForestPredictor.PredictionLabel | model/rand_forest.py:597 | the label is "Yes" exactly for class 1 and "No" otherwise |
| ForestPredictor.Interpretation | model/rand_forest.py:605 | the band is High above 0.7, Moderate in (0.4, 0.7] and Low at or below 0.4, each an iff |
| ForestPredictor.InterpretationMonotone | model/rand_forest.py:605 | a higher probability never gets a lower band |

## Left out

- Reading HDF5 files, listing the data directory and the `.HDF5` suffix
  filter are not modelled. A granule is given as its contents, or as
  `Unreadable` when opening or reading it would raise. The list of granules
  is a parameter. The message written to standard error is not modelled.
- `np.squeeze` is modelled only on the two grid axes: a precipitation grid
  with a single row or a single column is squeezed below two dimensions,
  and the lookup then raises and gives None. Extra size-1 axes of the
  stored array (such as a time axis) are not modelled: the grid is given
  by its two horizontal axes.
- The coordinate axes `lat` and `lon` and the query point are exact reals,
  with no NaN and no infinities. With NaN among them the source differs:
  the flip test `lat[0] > lat[-1]` is false and `argmin` returns the first
  NaN position, or 0 for a NaN target.
- Binary floating point is modelled by exact reals plus NaN. Infinities,
  the rounding error of the subtraction in `argmin`, and the binary value
  of `-9999.9` are not modelled.
- The `round(..., 3)` of the two averages, the `location` string, JSON
  output and the command-line entry point of the reader are not modelled.
  The summary keeps the unrounded averages.
- ImergSummary.RoundedTenths: rounds the exact real rather than its binary
  double, so a decimal tie such as 0.25 goes to even here, while the double
  nearest to it may round the other way in Python.
- The scaler, the gradient-boosting or random-forest model and their
  fitting, `train_test_split`, the accuracy and the classification report
  are not modelled. Prediction takes the scaled model as one function from
  a feature row to a vote in {0, 1} with a probability in [0, 1].
- ForestPredictor.WeatherPredictor.Train: passes whenever the columns are
  present. Failures raised inside scikit-learn (too few samples to split,
  a single class, non-numeric data) are not modelled.
- ForestFeatures.ImputationPrecedence: the statistics are exact reals.
  pandas `.mean()` of a column with no values at a location, or in a month
  (187, 209), is NaN, and the source then imputes that NaN (357-358,
  364-365) instead of falling back to the next statistic. The model does
  not represent such NaN statistics.
- `_calculate_location_statistics` (146-211) is not modelled as a
  computation. Train takes the per-location and global statistics it would
  compute as an input and stores them as the source does: new locations
  are added and existing ones overwritten.
- `_extract_temporal_features` (115-144) is not modelled as a computation.
  Each date is given with its month and its sine/cosine and
  days-from-reference values, because trigonometry and calendar arithmetic
  are out of scope. For the same reason `reference_date` (220-221) is not
  stored.
- The numeric coercion and mean fill of the training frame (260-263) and
  the target mapping (247-248) only shape the training matrix that goes to
  the model, so they are not modelled. Only the categorical cleaning that
  decides the fitted encoders is modelled.
- ForestFeatures.Strip: strips space, tab, line feed, carriage return,
  vertical tab and form feed only. Python also strips `\x1c`-`\x1f`,
  `\x85`, `\xa0` and the other Unicode white space.
- The marker replacement (217) is modelled on string-valued cells. The
  cells of a frame are optional strings, and numeric cells are not
  modelled.
- ForestFeatures.TrainingFeatureOrder: states the length and that every
  name is a known feature, not that the 29 names are pairwise distinct.
- The choice of model type and its hyper-parameters in `__init__`, model
  persistence, the Flask application apart from the two expressions at
  597 and 605, the confidence string, the timestamp and the HTTP error
  handling are not modelled.

## Findings

| source | as written | input that shows it | evidently intended | confidence | as-written member | corrected member |
|---|---|---|---|---|---|---|
| read_imerg.py:38,48-51 | when the nearest cell is NaN, the search window at radius 1 contains that cell, and the filter `region != MISSING_VALUE` keeps NaN, so `np.mean` gives NaN; the summary then reports a NaN average and "heavy rain" | the 2 x 2 grid `[[NaN, 1.0], [2.0, 3.0]]` with latitudes and longitudes `[0.0, 1.0]`, queried at (0.0, 0.0) | treat NaN like the sentinel in the window as well, so that only valid values are averaged | not executed | ImergExtract.NaNCellExample | ImergExtract.ExtractCorrectedNeverNaN |
| model/rand_forest.py:106-111 | a label outside `classes_` is replaced by 'Unknown', but `transform` raises on 'Unknown' unless it was a training label; so a location unseen at training makes `predict` raise, and the branch that uses global statistics for unknown locations is unreachable for it | encoder classes {"Sydney"} and the location "Atlantis" | an unseen label is encoded as unknown instead of raising | not executed | ForestFeatures.UnseenLocationExample | ForestFeatures.EncodeColumnCorrectedMeaning |

The methods follow the code as written. Each corrected definition is used
one level up, by a flag on the shared definition:
- `CollectWith(..., true)` with `CorrectedSummaryIsNumeric` for the lookup;
- `InferenceMatrixWith(..., true)` with `CorrectedInferenceMatrix` for the
  encoding.
