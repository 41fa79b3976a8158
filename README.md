# Student-performance data pipeline: a Dafny model of its rules

The repository has five Python scripts that work on a student dataset. One raw
CSV file holds mathematics students and one holds Portuguese students. The
scripts run in order:

- `qc_check.py` checks the raw files.
- `clean_v1_enforce_types.py` enforces column types and drops rows with no grades.
- `outlier_check.py` scans for outliers and proposes caps.
- `apply_caps_make_v2.py` caps `absences` and exports version 2.
- `eda_explore.py` assigns attendance tiers and builds the per-tier table.

This project models the value-level rules of those scripts and proves what they
promise.

How the program's data is represented:

- **Cell.** A table cell is `Num(x)` (a float, modelled as a `real`), `Missing`
  (NaN) or `Text(s)`. Comparisons with NaN are false, and that is written out
  explicitly.
- **Frame.** A table is a `Frame`: its column names in order, a map from names
  to columns, and the row count. A column holding some `Text` cell has pandas'
  `object` dtype. `Typed()` says that no column mixes numbers and text, as a CSV
  reader's result never does.
- **Numeric parsing.** `pd.to_numeric(errors="coerce")` and `float(...)` parse
  decimal numbers. Text that does not parse becomes `Missing`.
- **Quantiles.** pandas' linear-interpolation quantile is modelled over the
  sorted non-missing values.
- **Objects updated in place.** These become classes. `CapPolicy.CapRegistry` is
  the `DEFAULT_CAPS` dictionary that `load_caps` mutates. `Qc.QcRun` is the
  module-level `issues` list of `qc_check.py`, together with the categorical
  samples it reports.
- **Loops.** Loops that rebuild frames or dictionaries become methods. Each
  method is proved equal to a specification function, and the properties are
  proved about that function.

Modules, one per concern:

- `Wrappers`: Option and Result.
- `Cells`: cells, stripping, numeric parsing.
- `Frames`: tables, column updates, row filtering, numeric coercion.
- `Json`: the JSON value and Python's `in`, `[...]` and `.get` on it, including
  their error paths.
- `Statistics`: sorting, quantiles, mean and variance.
- `StringOrder`: Python's string order, and the sorted-sample method.
- `CapPolicy`: the cap policy and `load_caps`.
- `Capping`: `cap_series`.
- `ApplyCaps`: `process_one` and the export loop.
- `Outliers`: `outlier_check.py`.
- `Qc`: `qc_check.py`.
- `Clean`: `clean_v1_enforce_types.py`.
- `Eda`: `eda_explore.py`.

## Model

| member | source | states |
|---|---|---|
| Cells.Strip | scripts/qc_check.py:55 | `str.strip()`: the result is a contiguous infix of the text with only whitespace cut on either side, and it neither starts nor ends with whitespace |
| Cells.StripIdempotent | scripts/clean_v1_enforce_types.py:37-39 | stripping a stripped string changes nothing |
| Cells.ParseIntRoundTrip | scripts/clean_v1_enforce_types.py:35 | the numeric parser reads the decimal spelling of every integer back as that integer |
| Cells.StrippedIntRoundTrip | scripts/eda_explore.py:33 | the spelling of an integer is already stripped, so `float` reads it back as that integer |
| Cells.ToNumeric | scripts/clean_v1_enforce_types.py:35 | `pd.to_numeric(errors="coerce")` on one cell: the result is never text, and numbers and NaN are kept |
| Cells.ToNumericCol | scripts/apply_caps_make_v2.py:73 | coercing a column keeps its length, makes it numeric, and leaves an already numeric column unchanged |
| Cells.StripCell | scripts/clean_v1_enforce_types.py:39 | `astype(str).str.strip()` on one cell: a text keeps its infix cut of whitespace, NaN becomes "nan", and the result is already stripped |
| Cells.CountWhereIsCardinality | scripts/qc_check.py:56 | a mask's `.sum()` is the number of positions where the predicate holds |
| Cells.CountWherePositive | scripts/qc_check.py:57 | a count is positive exactly when some entry satisfies the predicate |
| Frames.SetColumn | scripts/clean_v1_enforce_types.py:35 | `df[c] = col` replaces one column, or appends a new name, and keeps the row count |
| Frames.FilterRows | scripts/clean_v1_enforce_types.py:53 | a boolean-mask selection keeps the names and the column set and never adds rows |
| Frames.FilterRowsRows | scripts/clean_v1_enforce_types.py:53 | the rows of the filtered frame are exactly the kept rows, in their original order |
| Frames.SelectPosition | scripts/clean_v1_enforce_types.py:53 | a kept row lands at the position given by the number of rows kept before it |
| Frames.SelectOnlyKept | scripts/clean_v1_enforce_types.py:53 | every row of the selection is a kept row of the input |
| Frames.CoerceColumns | scripts/apply_caps_make_v2.py:71-73 | coercing the listed columns keeps the names, the row count and the column set |
| Frames.CoerceColumnsEffect | scripts/apply_caps_make_v2.py:71-73 | a listed column becomes numeric: numbers and NaN stay, text becomes its parsed value or NaN; other columns are unchanged |
| Frames.CoerceNumeric | scripts/apply_caps_make_v2.py:71-73 | the loop over the numeric columns computes the coercion of all of them |
| CapPolicy.AbsencesCaps | scripts/apply_caps_make_v2.py:32-35 | a dataset has an `absences` policy exactly when the key and the column are present |
| CapPolicy.CapRegistry.constructor | scripts/apply_caps_make_v2.py:32-35 | the registry starts with `DEFAULT_CAPS` (mat high 20.0, por high 15.0, no low caps) and the key order mat, por |
| CapPolicy.CapRegistry.LoadCaps | scripts/apply_caps_make_v2.py:40-54 | `load_caps` updates the registry in place to the merge of the suggestion file over the old policy, and returns it |
| CapPolicy.DefaultsWithoutFile | scripts/apply_caps_make_v2.py:42-53 | a missing or unparseable suggestion file leaves the policy unchanged |
| CapPolicy.FailureKeepsEarlierUpdates | scripts/apply_caps_make_v2.py:47-53 | when the merge raises at some key, the updates already made for earlier keys are kept and later keys are untouched |
| CapPolicy.MergeWellShaped | scripts/apply_caps_make_v2.py:47-50 | for a well-formed suggestion, only the `absences` entry of each listed dataset changes, to the suggested bounds where given and the old ones otherwise; other keys and columns stay |
| Json.PyIn | scripts/apply_caps_make_v2.py:48 | Python's `k in v`: a TypeError unless `v` is a dict, list or string, and dict membership for a dict |
| Json.PyIndex | scripts/apply_caps_make_v2.py:49 | `v[k]` succeeds exactly on a dict holding `k`, with that entry |
| Json.PyGet | scripts/apply_caps_make_v2.py:49-50 | `v.get(k, d)` succeeds exactly on a dict, giving the entry or the default |
| Capping.CapSeries | scripts/apply_caps_make_v2.py:56-64 | `cap_series` keeps the length and gives a numeric column |
| Capping.CapValuesAt | scripts/apply_caps_make_v2.py:58-61 | the two `np.where` clamps act on each entry independently |
| Capping.CapWithinBounds | scripts/apply_caps_make_v2.py:58-61 | with `low <= high`, every non-NaN output lies within the bounds that are set, and NaN stays NaN |
| Capping.CapMovesOnlyOutliers | scripts/apply_caps_make_v2.py:58-62 | values below `low` become `low`, values above `high` become `high`, and everything else, NaN included, is unchanged |
| Capping.CapCrossedBounds | scripts/apply_caps_make_v2.py:58-61 | with `high < low`, the sequential clamps send every number to `high` |
| Capping.CapNoBounds | scripts/apply_caps_make_v2.py:58-62 | with both bounds `None`, the output is the input |
| Capping.CapIdempotent | scripts/apply_caps_make_v2.py:56-62 | capping the output again with the same bounds changes nothing |
| Capping.CountUnequalCapped | scripts/apply_caps_make_v2.py:63 | the element-wise `!=` count equals the count of entries that the clamp changes |
| Capping.ChangedCount | scripts/apply_caps_make_v2.py:63 | `n_changed` = the NaN entries (NaN != NaN) + the entries strictly outside the set bounds |
| ApplyCaps.Bound | scripts/apply_caps_make_v2.py:58-61 | JSON null means no bound, a number is the bound, a bool counts as 0 or 1, a string makes the comparison raise; lists and dicts raise too, by simplification |
| ApplyCaps.ProcessOne | scripts/apply_caps_make_v2.py:66-94 | the body of `process_one` computes the coerced, capped frame and its `changed_total` |
| ApplyCaps.ProcessOneOnlyCapsAbsences | scripts/apply_caps_make_v2.py:71-84 | `process_one` fails exactly when `absences` is present and a bound is unusable. Otherwise only `absences` is capped, the other target columns are only coerced, the rest is untouched, and names and row count stay |
| ApplyCaps.DefaultExportWithinCaps | scripts/apply_caps_make_v2.py:32-35 | under the default policy, every exported absence is at most 20 for "mat" and 15 for "por" |
| ApplyCaps.ExportedAbsencesWithinCaps | scripts/apply_caps_make_v2.py:81-84 | with ordered caps, each a number or absent, every exported absence lies within the caps that are present |
| ApplyCaps.Results | scripts/apply_caps_make_v2.py:99-103 | there is one `process_one` result per dataset whose input exists |
| ApplyCaps.CrashSticks | scripts/apply_caps_make_v2.py:99-103 | once `process_one` raises, the later datasets change nothing |
| ApplyCaps.ExportRunMeaning | scripts/apply_caps_make_v2.py:99-103 | every export is a successful result of an existing input; the loop completes exactly when all existing inputs succeed, and then all of them are exported |
| ApplyCaps.ExportStep | scripts/apply_caps_make_v2.py:99-103 | one pass of the loop skips a missing input, stops on a failure, or records the export |
| ApplyCaps.ExportV2 | scripts/apply_caps_make_v2.py:96-103 | the loop over `FILES` produces the exports and crash flag that `ExportRun` describes |
| Statistics.ValuesMembers | scripts/outlier_check.py:27-28 | the values a quantile sees are exactly the numbers of the column |
| Statistics.ValuesCount | scripts/outlier_check.py:27-28 | there are as many values as non-NaN cells |
| Statistics.Insert | scripts/outlier_check.py:27-28 | insertion produces a sorted permutation of the input plus `x` |
| Statistics.Sort | scripts/outlier_check.py:27-28 | the sorted values are a sorted permutation of the input |
| Statistics.SortOfSorted | scripts/outlier_check.py:27-28 | sorting a sorted sequence changes nothing |
| Statistics.Position | scripts/outlier_check.py:27-28 | the interpolation position `(n-1)p` lies within the index range |
| Statistics.QuantileNeighbours | scripts/outlier_check.py:27-28 | a quantile lies between the two sorted values around its position |
| Statistics.QuantileWithin | scripts/outlier_check.py:27-28 | a quantile lies between the minimum and the maximum |
| Statistics.QuantileMonotone | scripts/outlier_check.py:27-28 | `p <= q` implies quantile(p) <= quantile(q), so Q1 <= median <= Q3 |
| Statistics.Min | scripts/outlier_check.py:68 | `s.min()` is a value and below every value |
| Statistics.Max | scripts/outlier_check.py:69 | `s.max()` is a value and above every value |
| Statistics.Variance | scripts/outlier_check.py:36 | the population variance (`ddof=0`) is never negative |
| Statistics.ConstantHasNoVariance | scripts/outlier_check.py:35-37 | a constant sample has that constant as its mean and zero variance |
| Statistics.ZeroVarianceIsConstant | scripts/outlier_check.py:36-37 | zero variance means every value equals the mean |
| Statistics.DeviationWithinSum | scripts/outlier_check.py:36 | each squared deviation is at most their sum |
| Outliers.IqrBounds | scripts/outlier_check.py:26-32 | `low <= Q1 <= median <= Q3 <= high` for the fences `Q1 - 1.5 IQR` and `Q3 + 1.5 IQR` |
| Outliers.ColumnBounds | scripts/outlier_check.py:59 | the fences exist exactly when the column has a non-NaN value |
| Outliers.DivideByStd | scripts/outlier_check.py:39-64 | `abs(d / sd) >= 3` exactly when `abs(d) >= 3 sd` |
| Outliers.ZRule | scripts/outlier_check.py:34-64 | for `sd > 0`, `abs(z) >= 3` exactly when `(x - mean)^2 >= 9 var`, the square-root-free form `ZCount` uses |
| Outliers.IqrOutlierOutsideQuartiles | scripts/outlier_check.py:59-61 | an IQR outlier lies strictly outside `[Q1, Q3]` |
| Outliers.IqrCountPositive | scripts/outlier_check.py:60-61 | the IQR count is positive exactly when some number lies strictly beyond a fence; boundary values do not count |
| Outliers.ConstantColumnHasNoOutliers | scripts/outlier_check.py:34-65 | a constant column has both fences at the constant and no IQR or z outliers |
| Outliers.CountsBounded | scripts/outlier_check.py:61-65 | both outlier counts are at most the number of non-NaN values |
| Outliers.Summarize | scripts/outlier_check.py:57-75 | a column summary has fences when it counts IQR outliers, min and max exactly when it has values, with `min <= max`, and counts at most the row count |
| Outliers.ScanDf | scripts/outlier_check.py:40-75 | `scan_df` raises when a present numeric column holds text (its `describe()` has no "min"), and otherwise builds one summary for each of `age`, `absences`, `G1`, `G2`, `G3` present, from a coerced copy of the column |
| Outliers.ScanIsConsistent | scripts/outlier_check.py:67-75 | every scanned summary that counts IQR outliers has fences |
| Outliers.ProposedCaps | scripts/outlier_check.py:102-108 | a cap is proposed for exactly the columns with `n_iqr_outliers > 0`, with that column's fences |
| Outliers.ProposedOrdered | scripts/outlier_check.py:105-108 | every proposed cap has `low_cap <= high_cap` |
| Outliers.SuggestionMapStep | scripts/outlier_check.py:93-109 | one pass over `FILES` adds the proposals of an existing file and skips a missing one |
| Outliers.SuggestCaps | scripts/outlier_check.py:91-109 | `main` fails to write anything when some existing dataset cannot be scanned, and otherwise builds one suggestion entry, possibly empty, per dataset whose file exists |
| Outliers.ObjectColumnStopsScan | scripts/outlier_check.py:44-49 | one text entry in a numeric column of an existing dataset stops the whole run |
| Outliers.SuggestionsWritten | scripts/outlier_check.py:91-109 | with no text in numeric columns, the file written has a key for exactly the existing datasets, each holding its proposal |
| Outliers.SuggestionsWellShaped | scripts/outlier_check.py:105-109 | the file that `outlier_check.py` writes is well-formed for `load_caps` |
| Outliers.MergedProposed | scripts/apply_caps_make_v2.py:47-50 | merging a suggestion over a default gives the proposed absences fences, or keeps the default when none is proposed |
| Outliers.SuggestionsFeedCaps | scripts/apply_caps_make_v2.py:47-50 | feeding the proposals to `load_caps` never fails and sets each dataset's absences caps to its proposed fences, or keeps the default |
| Outliers.WorkedColumn | scripts/outlier_check.py:26-61 | worked example: for 1, 2, 3, 4, 100 the fences are -1 and 7 and there is one IQR outlier |
| Outliers.WorkedQuartiles | scripts/outlier_check.py:27-28 | worked example: Q1 = 2 and Q3 = 4 for 1, 2, 3, 4, 100 |
| StringOrder.LessIrreflexive | scripts/qc_check.py:97 | no string sorts before itself |
| StringOrder.LessTransitive | scripts/qc_check.py:97 | the string order is transitive |
| StringOrder.LessTotal | scripts/qc_check.py:97 | any two different strings are ordered |
| StringOrder.Least | scripts/qc_check.py:97 | picks the member of a non-empty set that sorts before all the others |
| StringOrder.SortedPrefix | scripts/qc_check.py:96-98 | `sorted(vals)[:15]`: strictly ascending, `min(len, 15)` long, drawn from the set, and below every value left out |
| Qc.HitColumns | scripts/qc_check.py:53-59 | at most one hit line per column |
| Qc.HitsExactly | scripts/qc_check.py:54-57 | a token is reported for a column exactly when it is a placeholder some stripped entry equals, with the number of such entries |
| Qc.MissingIsNoPlaceholder | scripts/qc_check.py:51-55 | NaN turns into "nan", which is no placeholder |
| Qc.HitColumnsExactly | scripts/qc_check.py:53-59 | a column has a hit line exactly when it is an object column with some placeholder token |
| Qc.PlaceholderHits | scripts/qc_check.py:52-59 | the loop over the columns builds the hit lines for every column in order |
| Qc.DupCountPlusDistinct | scripts/qc_check.py:67 | duplicates + distinct rows = all rows, so the first occurrences are not counted |
| Qc.NoDuplicates | scripts/qc_check.py:67 | no duplicates exactly when all rows are pairwise different |
| Qc.CountOutOfRange | scripts/qc_check.py:83-85 | the range check raises exactly on an object column |
| Qc.EndpointsInRange | scripts/qc_check.py:83-85 | the endpoints of a range and NaN are never out of range |
| Qc.AbsencesOnlyBelowZero | scripts/qc_check.py:77-84 | for `absences` (0, None) only numbers below 0 count |
| Qc.RangeStep | scripts/qc_check.py:81-88 | one range adds an issue when it counts a bad value, adds nothing for an absent column, and stops the run on a raise |
| Qc.RangesClean | scripts/qc_check.py:81-88 | the range checks add nothing exactly when every present ranged column counts zero |
| Qc.FileClean | scripts/qc_check.py:60-88 | a file adds no issue exactly when it has no placeholder hit, no duplicate and no out-of-range value |
| Qc.ObjectColumns | scripts/qc_check.py:93 | `cat_cols` are object columns of the frame |
| Qc.SamplesStep | scripts/qc_check.py:95-98 | one pass adds a sample for an object column and nothing otherwise |
| Qc.SamplesCount | scripts/qc_check.py:93-98 | one sample per object column is added after the old ones |
| Qc.SampleValuesAreStripped | scripts/qc_check.py:96 | every sampled value is the stripped text of an entry, so stripping it again changes nothing |
| Qc.RunStep | scripts/qc_check.py:108-113 | the run is the first file's outcome followed, unless it raised, by the rest |
| Qc.RunAdvance | scripts/qc_check.py:108-113 | advancing the loop by one file keeps the issues-so-far in step with the run's outcome |
| Qc.ExitStatus | scripts/qc_check.py:121-127 | the exit status is 0 exactly when no issue was found and nothing raised |
| Qc.UnusableFileOneIssue | scripts/qc_check.py:30-111 | a missing or unreadable file adds exactly one issue and runs no check |
| Qc.CleanStep | scripts/qc_check.py:108-113 | a run of files is clean exactly when the first one and the rest are |
| Qc.AllCleanSplit | scripts/qc_check.py:108-113 | "every file is clean" splits into the first file and the rest |
| Qc.RunClean | scripts/qc_check.py:108-127 | the script exits 0 exactly when every file exists, reads, and is clean |
| Qc.QcRun.constructor | scripts/qc_check.py:22 | the issues list starts empty |
| Qc.QcRun.CheckFile | scripts/qc_check.py:28-105 | `check_file` appends the file's placeholder, duplicate and range issues in that order; the categorical samples follow unless the range check raised |
| Qc.QcRun.CheckRanges | scripts/qc_check.py:72-90 | the range loop appends the issues that `RangeIssues` lists, or stops where pandas raises |
| Qc.QcRun.CategoricalSamples | scripts/qc_check.py:92-100 | appends one sorted, stripped sample of at most 15 values per object column and no issue |
| Qc.QcRun.CheckPath | scripts/qc_check.py:108-113 | one file: a missing or unreadable one adds its issue and no sample line; a read one is checked, adding its sample lines unless it raised |
| Qc.CheckedAllUnlessCrash | scripts/qc_check.py:108-116 | the run stops before the last file exactly when some file raises, and the file it stops at is one that raises |
| Qc.QcRun.Run | scripts/qc_check.py:107-127 | the run appends the issues of every file in order, stops at the first that raises, returns the exit status, and appends the sample lines of each file it finished |
| Clean.ObjectHasNoNumbers | scripts/clean_v1_enforce_types.py:38 | an object column of a typed frame holds no number |
| Clean.StripColumn | scripts/clean_v1_enforce_types.py:39 | the column keeps its length and becomes all text; each text entry keeps its infix cut of whitespace, each NaN becomes "nan", and no entry has outer whitespace |
| Clean.StripStep | scripts/clean_v1_enforce_types.py:37-39 | one pass of the strip loop keeps the shape and the typing |
| Clean.StripColumns | scripts/clean_v1_enforce_types.py:37-39 | the strip loop keeps the shape and the typing |
| Clean.StripColumnTwice | scripts/clean_v1_enforce_types.py:39 | stripping a stripped column changes nothing |
| Clean.StripIfObjectTwice | scripts/clean_v1_enforce_types.py:38-39 | the conditional strip is idempotent and keeps columns homogeneous |
| Clean.StripStepColumn | scripts/clean_v1_enforce_types.py:37-39 | one pass of the strip loop changes only the named column |
| Clean.StripColumnsColumn | scripts/clean_v1_enforce_types.py:37-39 | after the strip loop, a listed column is stripped once if it is an object column, and an unlisted one is untouched, even when names repeat |
| Clean.StripColumnsStep | scripts/clean_v1_enforce_types.py:37-39 | the strip loop over one more name is one more strip step |
| Clean.CoerceKeepsTyped | scripts/clean_v1_enforce_types.py:33-35 | numeric coercion keeps the frame typed |
| Clean.CoercedTypes | scripts/clean_v1_enforce_types.py:31-40 | `coerce_types` keeps the names, the row count, the column set and the typing |
| Clean.CoercedColumn | scripts/clean_v1_enforce_types.py:31-40 | one column after `coerce_types` has the same length and is homogeneous |
| Clean.CoercedTypesColumn | scripts/clean_v1_enforce_types.py:31-40 | each column of the result depends on that column alone |
| Clean.CoerceTypes | scripts/clean_v1_enforce_types.py:31-40 | the two loops compute `CoercedTypes` |
| Cells.StripNan | scripts/clean_v1_enforce_types.py:39 | NaN in a text column becomes the string "nan" |
| Clean.CoercedTypesEffect | scripts/clean_v1_enforce_types.py:24-39 | a numeric column is coerced cell by cell; an object column's entries are stripped, NaN becoming "nan"; other columns are unchanged |
| Clean.CoercedColumnTwice | scripts/clean_v1_enforce_types.py:31-40 | `coerce_types` on one column is idempotent |
| Clean.CoercedTwiceColumn | scripts/clean_v1_enforce_types.py:31-40 | each column is unchanged by a second `coerce_types` |
| Clean.CoercedTypesIdempotent | scripts/clean_v1_enforce_types.py:31-40 | running `coerce_types` on its own output changes nothing |
| Clean.KeepMask | scripts/clean_v1_enforce_types.py:53 | the row mask has one entry per row |
| Clean.DropUngraded | scripts/clean_v1_enforce_types.py:52-53 | the filter keeps the names and the column set and never adds rows |
| Clean.Process | scripts/clean_v1_enforce_types.py:47-53 | `process` coerces types and then drops the rows whose three grades are all missing |
| Clean.DroppedRows | scripts/clean_v1_enforce_types.py:53 | the remaining rows are exactly those with some grade present, in their original order |
| Clean.GradedRowKept | scripts/clean_v1_enforce_types.py:53 | every row with some grade survives unchanged |
| Clean.KeptRowGraded | scripts/clean_v1_enforce_types.py:53 | every surviving row is an input row with some grade |
| Clean.NoDropWithoutGrades | scripts/clean_v1_enforce_types.py:52 | when a grade column is absent, no row is dropped |
| Clean.NothingToDrop | scripts/clean_v1_enforce_types.py:52-53 | when every row has a grade, the filter changes nothing |
| Eda.Float | scripts/eda_explore.py:33 | `float(x)` gives a number or NaN, and raises exactly on text that does not parse |
| Eda.UnknownOnlyWhenFloatRaises | scripts/eda_explore.py:31-38 | the tier is "Unknown" exactly when `float` raises, and otherwise one of High, Moderate and Low |
| Eda.TierThresholds | scripts/eda_explore.py:36-38 | `x <= 5` is High, `5 < x <= 15` is Moderate, `x > 15` is Low |
| Eda.TierMonotone | scripts/eda_explore.py:36-38 | more absences never give a better tier |
| Eda.MissingIsLow | scripts/eda_explore.py:33-38 | NaN fails both comparisons and is "Low" |
| Eda.SameFloatSameTier | scripts/eda_explore.py:31-38 | the tier depends only on what `float` returns |
| Eda.IntegerTextTier | scripts/eda_explore.py:33-38 | a number written as text gets the same tier as the number |
| Eda.TierLabels | scripts/eda_explore.py:47 | one label per row from the four tier names; "Unknown" exactly where the row's text does not parse, and never on a numeric column |
| Eda.LoadV2 | scripts/eda_explore.py:40-48 | the body of `load_v2` computes `LoadedV2` |
| Eda.LoadedV2Shape | scripts/eda_explore.py:44-47 | `load_v2` keeps the row count, coerces only the numeric columns, and adds or replaces `att_tier` |
| Eda.LoadedV2Tier | scripts/eda_explore.py:46-47 | each row's label is the tier of its coerced absences, never "Unknown" |
| Eda.LoadedV2Effect | scripts/eda_explore.py:40-48 | `load_v2` raises exactly when `absences` is missing; otherwise it has the shape and labels stated above |
| Eda.Group | scripts/eda_explore.py:91 | a tier's group holds no more values than the rows |
| Eda.GroupMembers | scripts/eda_explore.py:91 | a group holds exactly the non-NaN G3 values of the rows in that tier |
| Eda.GroupOfAbsentTier | scripts/eda_explore.py:91 | a tier that does not occur has an empty group |
| Eda.GroupsPartition | scripts/eda_explore.py:91 | the four groups together hold every non-NaN G3 value |
| Eda.Labels | scripts/eda_explore.py:92 | one label per table row |
| Eda.ByNameSorted | scripts/eda_explore.py:92 | High < Low < Moderate < Unknown as strings |
| Eda.TableOverRows | scripts/eda_explore.py:91 | every table row is the row of a tier that occurs |
| Eda.TableOverSorted | scripts/eda_explore.py:92 | the table is strictly sorted by tier name |
| Eda.TableOverHasTier | scripts/eda_explore.py:91 | a tier has a row exactly when it occurs |
| Eda.TableOverCounts | scripts/eda_explore.py:91 | the counts of the table add up to the group sizes |
| Eda.EveryTierByName | scripts/eda_explore.py:92 | the name order lists every tier |
| Eda.TierTableProperties | scripts/eda_explore.py:90-92 | `tier_table` has one row per occurring tier, sorted by name, each with its group's count and mean, and the counts sum to the non-NaN G3 values |
| Eda.TiersOf | scripts/eda_explore.py:47 | one tier per row |
| Eda.NoUnknownTier | scripts/eda_explore.py:46-47 | a coerced absences column never yields "Unknown" |
| Eda.NoUnknownRow | scripts/eda_explore.py:91-92 | without "Unknown" tiers the table has no "Unknown" row |
| Eda.TablesOfLoaded | scripts/eda_explore.py:40-92 | for a loaded file the table has no "Unknown" row and counts every row with a G3 grade |
| Eda.NumericCount | scripts/eda_explore.py:91 | a numeric column has as many values as non-NaN cells |

## Left out

- File I/O is not modelled. This covers reading and writing CSV and JSON files, existence checks, and directory creation. Tables, policies and suggestion files are parameters; an input file is present or absent (`FileState`, `SuggestionFile`, the key set of a map of frames).
- Report, log and summary text is not modelled: `add`, `summary_lines`, `lines`, `log_lines`, the printed stats of `scan_df`, and the QC schema and missing-value sections. What `outlier_check.py`'s `describe()` raises on a text column is modelled, as the `Err` of `Outliers.ScanDf`.
- `write_preview` in `clean_v1_enforce_types.py` is not modelled, nor the loop of its `__main__`. It selects all five numeric columns, so it raises `KeyError` when one is absent. That happens after the export is written, and it stops the loop before the next dataset.
- Section 7 of `check_file` (the `describe` of the target fields) is not modelled. It only adds report text.
- `corr_block`, `scatter_with_trend` (`np.polyfit`) and `box_by_tier` are not modelled. They are floating-point library numerics and plotting.
- `pd.read_csv` is not modelled. Its NA defaults and dtype inference are not modelled either; frames arrive `Typed()`, with a column's dtype read off its cells.
- Float arithmetic is not modelled: exact `real`s stand in for IEEE doubles without rounding, infinities or signed zero. The z rule avoids `sqrt` by comparing squares.
- Cells.ParseNumber: the parser accepts only `[sign] digits [. digits]`. The exponents, `inf`/`nan` spellings, underscores and surrounding whitespace that `float` and `pd.to_numeric` also accept are not modelled.
- Eda.AttendanceTier: a text value is converted with the same decimal parser after `Strip`, so the `float` spellings above classify as "Unknown" here.
- Python's string `<` is modelled as code-point order on `seq<char>`; no locale rules of any kind are included.
- JSON is not modelled fully. NaN and Infinity literals and key order are left out.
- ApplyCaps.Bound: a list bound gives `Err`, a simplification. In the source, a list of numbers as long as the column is compared element by element, and once a `low_cap` is set the column is a numpy array, over which a one-element `high_cap` list is broadcast. Other lists, lists holding strings or nulls, and dicts raise.
- Frames hold one column per name. `pd.read_csv` renames a repeated header (`x`, `x.1`), so a frame it reads never has two columns with one name. `Frame.Valid` does not forbid a repeated entry in `names`; loops over the columns would visit it again, but no frame read from a file has one.
- Eda.TierTable: the table is computed from the tier list and the coerced G3 column, not from the frame itself. `Eda.TablesOf` joins the two.
- The dict orders of `FILES` and `DEFAULT_CAPS` are the constant `CapPolicy.Datasets`, ["mat", "por"].
- `sys.exit(1)` becomes `Qc.ExitStatus`, a returned status. The script's printing is left out.
- Capping.ChangedCount: NaN entries are counted, as with pandas' `!=`, even though they are not changed.
- ApplyCaps.ExportV2: its contract is stated through `ApplyCaps.ExportRun`, whose meaning is proved by `ApplyCaps.ExportRunMeaning`.
