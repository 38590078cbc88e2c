# Ground-truth / OBA trip merger, modelled in Dafny

This project models the record-linkage core of the OneBusAway travel-behavior
analysis tools. Two logs describe the same physical trips:

- a hand-recorded ground-truth (GT) trip log. Each trip has a collector, a
  date, an origin time of day and a time zone.
- an OBA activity export from the phones. Each activity has a user id, a UTC
  start, a duration and a distance.

The model covers three parts.

- **Preprocessing** (`preprocess.dfy`, module `Preprocess`). These are the two
  filters of the single-pass merger.
  - OBA: the start column is coerced to UTC instants in the caller's frame.
    Incomplete rows and rows below the duration and length thresholds are
    dropped. The dropped rows are logged, and the start is copied into the
    `ClosestTime` key.
  - GT: untitled (`Unnamed`) columns are dropped. The origin time is
    rendered as text, its `?` characters become `0`, and it is parsed.
    Trips without a date or a time are dropped and logged. Date and time are
    combined, localized to the trip's zone and converted to a UTC
    `ClosestTime`.
  - Frames are objects (`Table.Frame`) whose columns are overwritten in place.
    The two preprocessing methods perform the source's steps on frames. They
    are proved to produce exactly what the step functions describe, and the
    lemmas state what those functions guarantee.
- **The grouped nearest-time merge** (`merge.dfy`, module `Merger`). For every
  collector (outer loop) and every user (inner loop), in first-appearance
  order:
  - the collector's trips, sorted by key, are joined to the user's
    activities, sorted by start, with a nearest as-of join within a
    tolerance in milliseconds;
  - the passes are concatenated;
  - `Time_Difference` is derived from each merged row.
  The join is specified declaratively by `IsNearestWithin`: it picks no
  activity when none lies within the tolerance, and otherwise an activity
  at the least distance. The library's rule (the last start at or before
  the key against the first start at or after it, the earlier one on a
  tie) is proved to meet that specification.
- **The single-pass join** of the first merger version (`single_pass.dfy`,
  module `SinglePass`). It joins the two preprocessed tables, ungrouped, on
  `ClosestTime`. With one collector and one user, the grouped merge equals
  the sorted single join. On tables whose keys are already strictly
  ascending, the single join as written equals the sorted single join.

`constants.dfy` (module `Constants`) holds the default thresholds, the
tolerance, the sweep step and the column lists of the merger's constants
file. `table.dfy` holds cells, rows and frames. `common.dfy` holds the
generic selections (boolean masks, `dropna`), orderings (`sort_values`) and
de-duplications (`unique`).

Calls into libraries whose code is not part of this model are parameters of
the model. These are: text-to-time parsing in `to_datetime`, the rendering of
`astype(str)`, and the time-zone database behind `pytz`.

The model follows the code in these details:

- `Time_Difference` is `ClosestTime − Activity Start`
  (`src/gt_merger/matchAndMerge.py:115-116`): GT minus OBA.
- The grouped merge joins on time alone (`src/gt_merger/matchAndMerge.py:160-163`).
  It has no activity-label key.
- The tolerance is in milliseconds. Line 163 builds the tolerance with the
  `ms` unit, although the docstring at line 138 says seconds.
- The OBA drop-na subset (`src/gtMerger/matchAndMerge.py:91-92`) has four
  columns. It leaves out the destination column that `OBA_RELEVANT_COLS_LIST`
  (`src/gt_merger/constants.py:37-39`) lists (`ObaDropNaSubsetIsRelevant`).

## Model

| member | source | states |
|---|---|---|
| Common.Filter | src/gt_merger/matchAndMerge.py:151 | a boolean-mask selection keeps exactly the elements satisfying the test, each one satisfying it, and never grows |
| Common.SortBy | src/gt_merger/matchAndMerge.py:153 | `sort_values`: the result is ascending by the key and a permutation of the input |
| Common.Unique | src/gt_merger/matchAndMerge.py:144-145 | `unique()`: every value once, no duplicates, nothing else, ordered by first appearance |
| Common.SortedPermutationsShareKeys | src/gt_merger/matchAndMerge.py:153 | two ascending orderings of the same elements carry the same key at every position, so any two sorts differ only in the order of equal keys |
| Common.SortedPermutationOfStrict | src/gt_merger/matchAndMerge.py:153 | the only ascending ordering of a sequence with strictly ascending keys is that sequence |
| Common.SortByOfSorted | src/gt_merger/matchAndMerge.py:153 | sorting an ascending sequence keeps the key at every position; only elements with equal keys may trade places |
| Common.SortByOfStrictlySorted | src/gt_merger/matchAndMerge.py:153 | sorting a sequence whose keys are strictly ascending leaves it unchanged |
| Common.FilterPartition | src/gtMerger/matchAndMerge.py:98 | a selection and its complement together hold every element exactly once |
| Table.DropNa | src/gtMerger/matchAndMerge.py:91-92 | `dropna(subset)` keeps exactly the rows with a value in every subset column |
| Table.Frame.SetColumn | src/gtMerger/matchAndMerge.py:105 | assigning a column overwrites it, or appends it to the header when new; the frame stays well formed |
| Constants.ToleranceSweepSteps | src/gt_merger/constants.py:25-43 | the default tolerance is positive and exactly 120 sweep steps of 30000 ms |
| Constants.RelevantColumnsAreLaidOut | src/gt_merger/constants.py:37-77 | every OBA and GT column in which a null is refused has a place in the merged column layout |
| Constants.ColumnNamesDistinct | src/gt_merger/constants.py:46-77 | neither the GT nor the OBA column layout repeats a name, and no GT column shares its name with an OBA column |
| Constants.UnmatchedLayout | src/gt_merger/constants.py:52-112 | the unmatched-OBA layout is the OBA layout without the manual assignment, the four difference columns and the GT origin time, order unchanged |
| Preprocess.ObaDropNaSubsetIsRelevant | src/gtMerger/matchAndMerge.py:91-92 | the OBA drop-na subset is the first four relevant columns |
| Preprocess.CoerceInstant | src/gtMerger/matchAndMerge.py:88 | a coerced start is an instant or missing: a text becomes the instant it parses to, or missing when it does not parse; an instant is kept; a naive stamp is read as UTC; a localized time becomes its UTC instant; a date becomes its midnight UTC; anything else becomes missing |
| Preprocess.CleanObaRows | src/gtMerger/matchAndMerge.py:88-105 | the clean OBA frame never has more rows than the input |
| Preprocess.DroppedObaRows | src/gtMerger/matchAndMerge.py:98 | the logged dropped activities are never more than the input rows |
| Preprocess.PreprocessObaData | src/gtMerger/matchAndMerge.py:72-107 | the caller's frame gets its coerced start column; the clean frame and the dropped frame are new and hold exactly the clean and the dropped rows |
| Preprocess.ObaKeptIsFilter | src/gtMerger/matchAndMerge.py:91-95 | the drop-na followed by the threshold mask is one selection by "complete and meets the thresholds" |
| Preprocess.CoercedStartsAreInstants | src/gtMerger/matchAndMerge.py:88 | after coercion every start cell is an instant or missing |
| Preprocess.CleanActivityFacts | src/gtMerger/matchAndMerge.py:88-105 | every clean activity has a UTC start, an origin time, a duration and a distance at least the thresholds, and a key equal to its start |
| Preprocess.KeptActivityFacts | src/gtMerger/matchAndMerge.py:88-95 | an activity that survives the coercion, the drop of incomplete rows and the thresholds has a UTC start, an origin time, and a duration and a distance at least the thresholds |
| Preprocess.UnparseableStartIsDropped | src/gtMerger/matchAndMerge.py:88-98 | an activity whose start text does not parse is logged as dropped and never kept |
| Preprocess.ObaPartition | src/gtMerger/matchAndMerge.py:98 | kept and dropped activities split the coerced input without loss; the dropped ones are exactly those that fail the drop-na or the thresholds; the counts add up to the input's |
| Preprocess.ObaKeptIsSubsequence | src/gtMerger/matchAndMerge.py:91-95 | the kept activities keep their input order |
| Preprocess.CoercionFixesInstants | src/gtMerger/matchAndMerge.py:88 | coercing a start column that already holds instants changes nothing |
| Preprocess.ClosestTimeFixed | src/gtMerger/matchAndMerge.py:105 | copying the start to the key changes nothing when they are already equal |
| Preprocess.ObaPreprocessIdempotent | src/gtMerger/matchAndMerge.py:88-105 | preprocessing the clean OBA rows again returns them unchanged and drops nothing |
| Preprocess.ThresholdsMonotone | src/gtMerger/matchAndMerge.py:95 | raising the thresholds only removes activities |
| Preprocess.DefaultThresholdsKeepStricterRows | src/gt_merger/constants.py:21-23 | an activity kept under five minutes and fifty meters is kept under the default two minutes and twenty meters |
| Preprocess.WithoutCapitalUIsNamed | src/gtMerger/matchAndMerge.py:111 | a column name without a capital U does not contain "Unnamed" |
| Preprocess.KeyColumnsAreNamed | src/gtMerger/matchAndMerge.py:111-112 | the date, time, zone, combined and key columns survive the drop of untitled columns |
| Preprocess.DropUnnamedWellFormed | src/gtMerger/matchAndMerge.py:111-112 | after dropping the untitled columns every row has exactly the remaining columns |
| Preprocess.ReplaceQuestionMarks | src/gtMerger/matchAndMerge.py:116 | every `?` becomes `0`, every other character is unchanged, the length is unchanged and no `?` remains |
| Preprocess.ParseTimeCell | src/gtMerger/matchAndMerge.py:119 | a text that is not a missing-value marker becomes the time of day the parser finds, or missing when it finds none; a marker or a cell that is not text becomes missing |
| Preprocess.CombineCells | src/gtMerger/matchAndMerge.py:131 | combining a date and a time of day gives a stamp on that day at that time; anything else gives missing |
| Preprocess.GtKept | src/gtMerger/matchAndMerge.py:122 | the kept trips are never more than the input trips |
| Preprocess.DroppedGtRows | src/gtMerger/matchAndMerge.py:125 | the logged dropped trips are never more than the input trips |
| Preprocess.LocalizeCell | src/gtMerger/matchAndMerge.py:134 | a naive stamp with a zone name becomes the same wall-clock time with that zone's offset at that time; anything else becomes missing |
| Preprocess.UtcCell | src/gtMerger/matchAndMerge.py:137 | a localized time becomes an instant, which plus the offset is the wall-clock time; anything else becomes missing |
| Preprocess.ZonesSurviveAssign | src/gtMerger/matchAndMerge.py:131-134 | writing the combined-time column leaves every zone cell as it was, so the zone checks see the same cells before and after |
| Preprocess.CleanGtRows | src/gtMerger/matchAndMerge.py:131-137 | the clean GT frame has one row per kept trip |
| Preprocess.GtOutcome | src/gtMerger/matchAndMerge.py:131-137 | the GT preprocessing succeeds exactly when every kept trip has a date, names a known zone, and all name the same zone; then it has one row per kept trip |
| Preprocess.PreprocessGtData | src/gtMerger/matchAndMerge.py:109-138 | the caller's frame is unchanged; the dropped frame holds exactly the dropped trips; the result fails exactly when `GtOutcome` does and with its error (a kept date that is not a date at line 131, an unknown zone at line 134, kept trips in two zones at line 137), and otherwise holds the clean trips under the clean header |
| Preprocess.CleanGtColumnsFacts | src/gtMerger/matchAndMerge.py:111-137 | the clean header has no untitled column, keeps every titled column in input order, and holds the combined time and the key |
| Preprocess.NormalizedRow | src/gtMerger/matchAndMerge.py:111-119 | normalization keeps a trip's date and zone and rewrites only its origin time |
| Preprocess.TripDroppedIff | src/gtMerger/matchAndMerge.py:115-125 | a trip is dropped exactly when its date is missing or its repaired time does not parse, and kept exactly otherwise |
| Preprocess.GtCompleteIff | src/gtMerger/matchAndMerge.py:122 | a trip is complete for the drop exactly when both its date and its origin time are present |
| Preprocess.GtPartition | src/gtMerger/matchAndMerge.py:122-125 | kept and dropped trips split the normalized input without loss; every dropped trip lacks a date or a time; the counts add up |
| Preprocess.NormalizedCellKinds | src/gtMerger/matchAndMerge.py:119-122 | a normalized trip keeps the date cell of an input trip, and has a time of day or none |
| Preprocess.CombinedTrip | src/gtMerger/matchAndMerge.py:131-137 | one kept trip gets the wall-clock time of its date and time, localized with its zone's offset, and the UTC key of that |
| Preprocess.KeyedTripFacts | src/gtMerger/matchAndMerge.py:131-137 | every trip built from complete trips with known zones carries its day and time of day in the combined time, and its UTC instant as key |
| Preprocess.CleanTripFacts | src/gtMerger/matchAndMerge.py:109-138 | every clean trip has a date, a time of day and a known zone; its combined time is that time on that day in its zone; its key is the UTC instant of it |
| Preprocess.NumericArg | src/gtMerger/matchAndMerge.py:95 | reading a missing attribute fails with an attribute error; a text argument is not a number |
| Preprocess.AsWrittenThresholdsFail | src/gtMerger/matchAndMerge.py:95 | on every namespace the parser produces, reading `minActivitySpan` fails |
| Preprocess.ThresholdsFromParsedArgs | src/gtMerger/args.py:34-38 | on every namespace the parser produces, the corrected read yields the parsed duration (a float when given, the integer default 5 otherwise) and length |
| Preprocess.DefaultArgumentsShowMissingAttribute | src/gtMerger/args.py:34-42 | with default arguments the read as written fails and the corrected read gives 5 and 50 |
| Merger.LastAtOrBefore | src/gt_merger/matchAndMerge.py:160-163 | the backward candidate is the last activity starting at or before the key, if any |
| Merger.FirstAtOrAfter | src/gt_merger/matchAndMerge.py:160-163 | the forward candidate is the first activity starting at or after the key, if any |
| Merger.Nearest | src/gt_merger/matchAndMerge.py:160-163 | the joined activity, if any, is one of the activities and starts within the tolerance of the key |
| Merger.NearestIsNearestWithin | src/gt_merger/matchAndMerge.py:160-163 | on sorted activities the nearest join picks an activity within tolerance at the least distance, or none only when none lies within tolerance; on a tie it picks the earlier start |
| Merger.AsofJoin | src/gt_merger/matchAndMerge.py:160-163 | the join succeeds exactly when the tolerance is not negative and both inputs are sorted by key; a negative tolerance is the error reported first |
| Merger.AsofJoinMeaning | src/gt_merger/matchAndMerge.py:160-163 | a successful join keeps every trip once, in order, each with a nearest activity within tolerance or with none |
| Merger.Pass | src/gt_merger/matchAndMerge.py:151-163 | one pass has one row per trip of the collector |
| Merger.UsersCoverActivities | src/gt_merger/matchAndMerge.py:145 | every activity's user is among the distinct users |
| Merger.MergeSpec | src/gt_merger/matchAndMerge.py:133-169 | no trips or no activities give an empty merge; otherwise the merge succeeds exactly when the tolerance is not negative and every activity has a user, a negative tolerance being the error; no sort error can occur |
| Merger.NoUserNoPass | src/gt_merger/matchAndMerge.py:145-154 | with no user the loops emit nothing |
| Merger.PassJoin | src/gt_merger/matchAndMerge.py:153-163 | the join of a pass fails only on a negative tolerance, because both slices are sorted |
| Merger.MergeCollector | src/gt_merger/matchAndMerge.py:150-167 | the inner loop returns the passes of one collector over all users, or the first error: negative tolerance, then a null user id |
| Merger.JoinUser | src/gt_merger/matchAndMerge.py:156-163 | one user's pass against a sorted collector slice: the user's activities sorted by start, joined nearest within the tolerance, failing only on a negative tolerance |
| Merger.NullUserFails | src/gt_merger/matchAndMerge.py:166 | reaching a missing user id with a valid tolerance makes the collector's loop fail with the missing-user error |
| Merger.NamedUsersSucceed | src/gt_merger/matchAndMerge.py:154-167 | with every user named and a valid tolerance (or no user at all) the collector's loop succeeds with the passes over all users |
| Merger.OnePass | src/gt_merger/matchAndMerge.py:148-164 | one collector and one user make exactly one pass |
| Merger.Merge | src/gt_merger/matchAndMerge.py:133-169 | the nested loops return the concatenated passes, collectors outer and users inner in first-appearance order, or the error of the first failing pass |
| Merger.PassTrips | src/gt_merger/matchAndMerge.py:151-153 | a pass emits each trip of its collector exactly once, ascending by key, and no trip of another collector |
| Merger.PassMatches | src/gt_merger/matchAndMerge.py:156-163 | every row of a pass holds no activity when none of the user's lies within tolerance, or an activity of that user at the least distance |
| Merger.PassToleranceMonotone | src/gt_merger/matchAndMerge.py:162-163 | raising the tolerance keeps every match, with an activity at least as near |
| Merger.PassReport | src/gt_merger/matchAndMerge.py:166-167 | neither count of the progress report exceeds the pass's row count |
| Merger.PassReportCounts | src/gt_merger/matchAndMerge.py:166-167 | the progress report counts every row of the pass for the collector, and the matched rows, which are never more |
| Merger.UserPassesLength | src/gt_merger/matchAndMerge.py:154-164 | one collector's passes have one row per user and trip of the collector |
| Merger.CollectorPassesLength | src/gt_merger/matchAndMerge.py:148-164 | all passes have one row per user and trip of the listed collectors |
| Merger.SliceTotalCounts | src/gt_merger/matchAndMerge.py:144-151 | distinct collectors have disjoint slices, which together hold every trip of any of them |
| Merger.MergeLength | src/gt_merger/matchAndMerge.py:144-164 | the merge has one row per distinct user and trip with a collector |
| Merger.MergeLengthAllCollected | src/gt_merger/matchAndMerge.py:144-164 | when every trip has a collector, the merge has (number of users) × (number of trips) rows |
| Merger.PassRowsWellMatched | src/gt_merger/matchAndMerge.py:151-163 | every row of a pass holds an input trip with a collector, and an input activity of a non-null user, within tolerance and nearest among that user's, or none |
| Merger.UserPassesWellMatched | src/gt_merger/matchAndMerge.py:154-164 | every row of one collector's passes is well matched |
| Merger.CollectorPassesWellMatched | src/gt_merger/matchAndMerge.py:148-164 | every row of all passes is well matched |
| Merger.MergeRowsWellMatched | src/gt_merger/matchAndMerge.py:144-169 | every row of a successful merge is well matched |
| Merger.TimeDifference | src/gt_merger/matchAndMerge.py:115-116 | the difference is missing exactly on rows without an activity, and otherwise is GT key minus OBA start, in seconds |
| Merger.TimeDifferenceBounded | src/gt_merger/matchAndMerge.py:115-116 | on a merged row the difference lies within ± the tolerance in seconds, and is positive exactly when the trip's key is after the activity's start |
| Merger.SharedActivityExample | src/gt_merger/matchAndMerge.py:160-163 | one activity between two trips is joined to both, at −300 and +300 seconds |
| SinglePass.AsTrips | src/gtMerger/matchAndMerge.py:64 | every GT row becomes a merge input with its collector and its key, in row order |
| SinglePass.AsActivities | src/gtMerger/matchAndMerge.py:64 | every OBA row becomes a merge input with its user and its key, in row order |
| SinglePass.PreprocessedFramesAreKeyed | src/gtMerger/matchAndMerge.py:105-137 | both preprocessings leave a UTC key on every row; an activity's key is its start |
| SinglePass.MatchAsWritten | src/gtMerger/matchAndMerge.py:64 | the join as written succeeds exactly when the tolerance is not negative, every row has a key, and both tables are already ascending by key; then it has one row per trip |
| SinglePass.Match | src/gtMerger/matchAndMerge.py:64 | the join on sorted tables fails exactly on a negative tolerance or a missing key, and otherwise has one row per trip |
| SinglePass.UnsortedTripsRejected | src/gtMerger/matchAndMerge.py:64 | two trips logged later-first make the join as written fail, while the sorted join succeeds |
| SinglePass.MatchMeaning | src/gtMerger/matchAndMerge.py:64 | a successful sorted join emits every trip once, ascending by key, each with a nearest activity within tolerance or with none |
| SinglePass.AsWrittenAgreesWhenSorted | src/gtMerger/matchAndMerge.py:64 | on tables whose keys are strictly ascending, the join as written and the sorted join agree |
| SinglePass.NearestStartIsDetermined | src/gtMerger/matchAndMerge.py:64 | two nearest choices among the same activities, ties going to the earlier start, both exist or both do not, and start at the same instant |
| SinglePass.AsWrittenKeysAgreeWhenSorted | src/gtMerger/matchAndMerge.py:64 | on ascending tables with repeated keys both joins succeed with as many rows; at each row the trip keys agree, and either neither has an activity or both have one starting at the same instant |
| SinglePass.OnlyCollector | src/gt_merger/matchAndMerge.py:144-151 | trips of one collector form one slice, the whole of them |
| SinglePass.OnlyUser | src/gt_merger/matchAndMerge.py:145-156 | activities of one user form one slice, the whole of them |
| SinglePass.OneGroupIsGroupedMerge | src/gtMerger/matchAndMerge.py:64 | with one collector and one user, the grouped merge equals the sorted single join |

## Left out

- Reading the spreadsheet and the CSV export, writing the dropped-row logs and the merged data, the prints, and the `Time_Difference` box plot are I/O. They are not modelled. The global `args` that the GT preprocessing reads only to name its log file (src/gtMerger/matchAndMerge.py:127) is part of that I/O.
- The folder and file-name constants (src/gt_merger/constants.py:19, 28-34) name outputs only.
- Argument parsing is not modelled, beyond the attribute lookup that selects the thresholds. The thresholds and the tolerance are parameters.
- Text-to-time parsing, `astype(str)` rendering of non-text cells, and the time-zone database (zone offsets at a wall-clock time) are parameters. The model does not decide which texts parse or which offsets apply.
- Preprocess.CoerceInstant: a numeric start cell becomes missing. `to_datetime` would read it as an epoch count.
- Floats are exact reals. `Time_Difference` is an exact quotient, with no rounding.
- SinglePass.AsTrips, SinglePass.AsActivities: an identifier cell that is not text counts as missing.
- A null collector equals no collector, so its trips belong to no pass (`MergeLength` counts only trips with a collector).
- Merger.Merge: a null user id fails the whole merge (`MissingUserId`). This models the progress report slicing the id, which raises on a missing value.
- Merger.Nearest: on two equally near activities the earlier start is chosen. This is the library's rule, and the declarative contract (`IsNearestWithin`) allows either.
- Common.SortBy keeps elements with equal keys in input order. `sort_values` uses quicksort, which may order them differently. The sorting lemmas promise only what every sort does: sortedness, permutation, the key at each position (`SortByOfSorted`), and no change on strictly ascending keys (`SortByOfStrictlySorted`). So the order of rows with equal keys in `Merge`, `MergeSpec` and `Match` is one order the source may produce, not necessarily the one it produces.
- Preprocess.DroppedObaRows, Preprocess.DroppedGtRows: the dropped rows are the clean rows' complement, in input order. The outer merge that computes them compares rows by value and may reorder them. Only membership and multiplicity are promised, not order.
- The merged rows are modelled as (trip, activity) pairs. Column suffixes, the column reordering before export, and `Distance_Difference` are not modelled.
- The grouped merge starts from trips and activities whose keys are present. The null-key error of the join is modelled only for the single-pass join (`KeysContainNull`).
- Preprocess.PreprocessObaData: a frame that lacks a drop-na column (the `KeyError` at src/gtMerger/matchAndMerge.py:91) or holds text in the duration or distance column (the `TypeError` of the comparison at line 95) is outside the model. `ObaSchema` requires the columns and numeric cells.
- Preprocess.PreprocessGtData: a frame that lacks the origin-time, date or zone column (the errors at src/gtMerger/matchAndMerge.py:115, 122 and 134) is outside the model. `GtSchema` requires the three columns. When no trip is kept, the model returns the empty clean frame; what the row-wise `apply` at lines 131-134 does on an empty frame is not modelled.
- Preprocess.GtOutcome: kept trips are in one zone when their zone cells hold the same text, so two names of the same zone count as two zones.
- The per-tolerance sweep, interval matching, activity-label keys, stationary-row removal and device whitelists do not appear in the modelled code.
- The preprocessing module that the grouped merger imports is not part of this model.

## Findings

| source | as written | input that shows it | evidently intended | confidence | as-written member | corrected member |
|---|---|---|---|---|---|---|
| src/gtMerger/matchAndMerge.py:95 | the duration threshold is read from `args.minActivitySpan`, an attribute the argument parser (src/gtMerger/args.py:34) never defines | any command line, e.g. the defaults: the attribute lookup fails before any activity is filtered | read `args.minActivityDuration`, the parsed minimum duration | not executed | Preprocess.AsWrittenThresholdsFail | Preprocess.ThresholdsFromParsedArgs |
| src/gtMerger/matchAndMerge.py:64 | the as-of join is called on the preprocessed tables in spreadsheet and export order, and the join refuses keys that are not ascending | two GT trips whose keys are 2000 then 1000 ms: the join fails with "left keys must be sorted" | sort both tables by `ClosestTime` first, as the grouped merger does (src/gt_merger/matchAndMerge.py:153,158) | not executed | SinglePass.UnsortedTripsRejected | SinglePass.MatchMeaning |
