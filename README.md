# HealthAnalyzer in Dafny

A Dafny model of `HealthAnalyzer`, a small analyzer of hospital patient
records. The analyzer holds one pandas DataFrame in `self.df`.

- `clean_data` normalizes that frame in place, in eight steps, numbered
  here as the model's comments and the table below refer to them:
  1. strip and lower-case the column names (line 28);
  2. rename the first admission-date alias and the first discharge-date
     alias present to `admission_date` and `discharge_date` (lines 31-38);
  3. parse both date columns (lines 40-43);
  4. lower-case and strip the outcome labels (lines 46-47);
  5. make `age` and `satisfaction` numeric (lines 50-55);
  6. add `length_of_stay` in whole days (lines 58-59);
  7. fill missing `department` and `gender` with "Unknown" (lines 62-65);
  8. drop duplicate visits, or duplicate rows without `patient_id`
     (lines 67-71). pandas returns an empty frame (no rows or no columns)
     from `drop_duplicates` unchanged, so such a frame never raises here.
- The queries read the frame and change nothing. They are:
  - outcome counts and shares, overall or per group (`summarize_outcomes`);
  - group sizes and group means (`aggregate_by`);
  - monthly admission counts (`admissions_over_time`);
  - department averages of satisfaction (`average_satisfaction_by_department`);
  - the age-bin data behind `plot_outcomes_by_age_hist`.

The model is organised in these modules:

- `Frame`: a table is a header of column names plus rows of cells. A cell is
  missing, text, a number, or a calendar date.
- `Text`: ASCII `strip`/`lower`.
- `Calendar`: proleptic Gregorian day and month numbers.
- `Seqs`: the sequence operations pandas performs. These are keeping first
  occurrences, value counts, descending sorts, and the distinct values in
  order.
- `Cleaning`: each step of `clean_data` as a function on tables. These are
  composed into `Prepare` (steps up to the fills) and `Clean` (with the
  duplicate drop). The module also states what a cleaned table looks like
  and proves that cleaning it again changes nothing.
- `Analyzer`: the `HealthAnalyzer` class. It has a `df` field, and its
  `CleanData` method performs the steps in place.
- `Summary`, `Aggregation`, `Admissions`, `AgeBins`: the queries. Each is a
  pure function returning `Ok(value)` or the exception the source raises.

pandas' own parsers (`to_datetime`, `to_numeric`, `str()` of floats and
timestamps) are a parameter, `Cleaning.Coercions`. The model assumes only
what the cleaning code relies on: a parse either gives a value or, with
`errors="coerce"`, a missing cell.

## Model

| member | source | states |
|---|---|---|
| Analyzer.HealthAnalyzer.constructor | health_analyzer.py:22-23 | the analyzer starts with the given frame |
| Analyzer.HealthAnalyzer.CleanData | health_analyzer.py:25-74 | runs the steps in source order on `df`; the result is `Clean(old df)`; on success `df` is that table, it has the cleaned shape, and cleaning it again returns it unchanged; when `drop_duplicates` raises, the error is `KeyError("admission_date")` and `df` keeps the steps already applied; it raises exactly when the frame has rows, `patient_id` and, after the renames, no `admission_date` |
| Text.NormalizeNameIsNormal | health_analyzer.py:28 | a name after `strip().lower()` has no capital letter and no surrounding whitespace |
| Text.NormalizeNameFixesNormal | health_analyzer.py:28 | normalizing an already normal name leaves it unchanged |
| Text.NormalizeLabelIsNormal | health_analyzer.py:47 | a label after `.str.lower().str.strip()` is in the same normal form |
| Text.NormalizeLabelFixesNormal | health_analyzer.py:47 | normalizing an already normal label leaves it unchanged |
| Text.StripKeepsInner | health_analyzer.py:28 | `strip()` returns a contiguous slice of its input |
| Cleaning.NormalizeColumnNames | health_analyzer.py:28 | keeps the rows and the number of columns; name j becomes `strip().lower()` of old name j, which is in normal form |
| Cleaning.RenameFirst | health_analyzer.py:31-38 | renames only the first alias present, to the canonical name; without any alias present the header is unchanged |
| Cleaning.RenameFirstDistinct | health_analyzer.py:31-38 | the renaming keeps column names pairwise different |
| Cleaning.RenameFirstMembers | health_analyzer.py:31-38 | other names are neither added nor lost; the canonical name is present once any alias was |
| Cleaning.RenamedColumns | health_analyzer.py:28-38 | after steps 1-2 names are distinct and normal, and each canonical date column is present unless none of its aliases was |
| Cleaning.ToDatetime | health_analyzer.py:41 | the result is a timestamp or missing; timestamps and missing cells pass unchanged; a text or number cell becomes the parsed date, or missing when it does not parse (`errors="coerce"`) |
| Cleaning.ToNumeric | health_analyzer.py:51 | the result is a number or missing; numbers and missing cells pass unchanged; a text cell becomes the parsed number, or missing when it does not parse (`errors="coerce"`) |
| Cleaning.FixSettles | health_analyzer.py:40-65 | each per-column transform reaches a fixed point in one application |
| Cleaning.MapColumn | health_analyzer.py:40-65 | rewrites every cell of the named column with the transform; other columns and the header are unchanged |
| Cleaning.PutColumn | health_analyzer.py:59 | `df[name] = cells` overwrites the column, or appends it at the end; every other column is unchanged |
| Cleaning.StayLengthSign | health_analyzer.py:59 | a length of stay is negative, zero or positive exactly when discharge is before, on, or after admission |
| Calendar.DayNumberOrder | health_analyzer.py:59 | day numbers order dates chronologically and are equal only for the same date |
| Calendar.DaysBeforeNextYear | health_analyzer.py:59 | consecutive new years are a year's length apart |
| Calendar.DayNumberCounts | health_analyzer.py:59 | 1970-01-01 is day 0 and the next calendar day has the next day number, with no date in between, so a difference of day numbers is a count of days |
| Cleaning.DropDuplicates | health_analyzer.py:67-71 | an empty frame (no rows or no columns) comes back unchanged, as pandas' `drop_duplicates` returns it before looking at the subset; otherwise, with `patient_id`, keeps exactly the first row of every (`patient_id`, `admission_date`) key in order, and fails exactly when `admission_date` is absent; without `patient_id`, keeps the first of every equal row |
| Seqs.KeepFirst | health_analyzer.py:69 | the kept rows are the first occurrences of their keys, in input order, and every key keeps one |
| Seqs.KeptFirstKeys | health_analyzer.py:69 | after the drop no two rows share a key and every key is still represented |
| Seqs.KeepFirstOfDistinct | health_analyzer.py:69 | with pairwise different keys nothing is dropped |
| Cleaning.ConvertColumns | health_analyzer.py:40-59 | steps 3-7 add `length_of_stay` at the end exactly when both dates are present and it was absent; the header is otherwise unchanged |
| Cleaning.ConvertStay | health_analyzer.py:57-59 | with both dates present, each row's `length_of_stay` is the day difference of its converted dates |
| Cleaning.ConvertFix | health_analyzer.py:40-65 | every other cell is its column's transform of the input cell |
| Cleaning.PrepareEstablishes | health_analyzer.py:25-65 | after steps 1-7, names are distinct and normal, every cell is settled for its column, and `length_of_stay` agrees with the dates |
| Cleaning.CleanEstablishes | health_analyzer.py:25-71 | a successful clean returns that shape with no duplicate visit key (or no duplicate row), an empty frame being kept as it is |
| Cleaning.KeepRowsPrepared | health_analyzer.py:67-71 | dropping rows keeps the cleaned shape |
| Cleaning.DropDuplicatesDeduplicates | health_analyzer.py:67-71 | the drop leaves no two rows with the same key |
| Cleaning.PreparedFixpoint | health_analyzer.py:25-65 | steps 1-7 leave a table of the cleaned shape unchanged |
| Cleaning.CleanedFixpoint | health_analyzer.py:25-74 | cleaning a cleaned table returns it unchanged |
| Cleaning.PrepareIdempotent | health_analyzer.py:25-65 | steps 1-7 twice equal steps 1-7 once |
| Cleaning.CleanAgain | health_analyzer.py:25-74 | cleaning after steps 1-7 gives the same result as cleaning the input |
| Cleaning.CleanIdempotent | health_analyzer.py:25-74 | `clean_data` is idempotent |
| Cleaning.CleanFails | health_analyzer.py:68-69 | cleaning raises exactly when the frame has rows, `patient_id` is present and `admission_date` is absent after the renames, with `KeyError("admission_date")` |
| Cleaning.CleanEmpty | health_analyzer.py:67-71 | a frame with no rows or no columns is cleaned without raising, to the table of steps 1 to 7 |
| Cleaning.StayLengthPresent | health_analyzer.py:58-59 | `length_of_stay` exists afterwards exactly when both dates were present or it already existed |
| Cleaning.CleanedOutcomes | health_analyzer.py:46-47 | every returned outcome is text in normal form |
| Cleaning.MissingOutcomeIsNan | health_analyzer.py:47 | a missing (NaN) outcome becomes the label "nan"; it is not dropped |
| Cleaning.FillsUnknown | health_analyzer.py:62-65 | missing `department`/`gender` become "Unknown"; other cells are kept |
| Cleaning.CleanedFills | health_analyzer.py:62-65 | no returned `department`/`gender` cell is missing |
| Cleaning.CleanedTypes | health_analyzer.py:40-55 | returned dates are timestamps or missing; ages and satisfactions are numbers or missing |
| Cleaning.CleanedStayLength | health_analyzer.py:57-59 | each returned stay is the whole days from admission to discharge, negative exactly when discharge comes first, and missing unless both dates are known |
| Cleaning.DuplicateVisitExample | health_analyzer.py:25-71 | for any patient and date, two rows of that visit with outcomes "Discharge " and "death" clean to the first row alone, its date parsed and its outcome "discharge" |
| Summary.Shares | health_analyzer.py:83-86 | `value_counts(dropna=False)` and its shares: each value once, missing included, with its count and count/total, in non-increasing count order |
| Summary.SharesTotal | health_analyzer.py:84-85 | the counts add up to the number of rows and the shares to 1 |
| Summary.Pairs | health_analyzer.py:80 | the (group, outcome) pairs of exactly the rows where both are known |
| Summary.PairsCount | health_analyzer.py:80 | each pair of known values occurs as often as rows carry it, and a pair with a missing side never |
| Summary.OutcomesOfCount | health_analyzer.py:80 | a group's outcomes hold each outcome as often as the pair occurs |
| Summary.Crosstabulate | health_analyzer.py:80-81 | one row per group and one column per outcome, each once; every row is that group's counts and shares |
| Summary.CrosstabCovers | health_analyzer.py:80 | every counted pair has its row and column, and nothing else does |
| Summary.CrosstabCounts | health_analyzer.py:80 | cell (group, outcome) is the number of rows with that pair, with 0 filled in |
| Summary.CrosstabRowTotals | health_analyzer.py:81 | each group has at least one row; its counts sum to its size, and its shares are count/size and sum to 1 |
| Summary.SummarizeOutcomes | health_analyzer.py:76-86 | a falsy `by` gives the overall shares; otherwise the crosstab; a missing `outcome` or group column raises `KeyError` (the group column first) |
| Aggregation.AggregateCount | health_analyzer.py:91-92 | each non-missing key once, with its row count, largest first; `KeyError` without the column |
| Aggregation.AggregateCountTotal | health_analyzer.py:91-92 | the group sizes add up to the rows with a key |
| Aggregation.GroupMeans | health_analyzer.py:93-94 | each non-missing key once, with the mean of its values; groups without a value come last, the others in non-increasing mean order |
| Aggregation.MeanOrder | health_analyzer.py:94 | the groups in that order, each once |
| Aggregation.AggregateMean | health_analyzer.py:93-94 | `KeyError` for a missing group or value column, `TypeError` exactly when a row with a key has a non-numeric value (rows without a key are dropped first), otherwise the group means |
| Aggregation.ValuesOfCount | health_analyzer.py:94 | a group's mean is taken over each of its rows' numbers as often as they occur |
| Aggregation.MissingKeyIgnored | health_analyzer.py:94 | text in the value of a row without a key raises nothing; the other row's group gets its value as mean |
| Aggregation.MeanBounds | health_analyzer.py:94 | a mean lies between the bounds of its values |
| Aggregation.MeanWithin | health_analyzer.py:94 | a group's mean lies within any bounds on its rows' values |
| Aggregation.MeanMissing | health_analyzer.py:94 | a group's mean is NaN exactly when none of its rows has a value |
| Aggregation.AggregateBy | health_analyzer.py:88-96 | "count" gives the sizes; "mean" with a non-empty `value_col` gives the means; anything else is a generic aggregation that raises only for a missing column |
| Aggregation.AverageSatisfactionByDepartment | health_analyzer.py:106-109 | an empty result without either column, otherwise the department means of `satisfaction` |
| Aggregation.PreparedNumeric | health_analyzer.py:50-55 | after cleaning, `age` and `satisfaction` hold numbers or missing cells only |
| Aggregation.CleanedSatisfaction | health_analyzer.py:106-109 | on a cleaned frame the department averages never fail, and every row's department appears |
| Admissions.MonthlyCounts | health_analyzer.py:103 | one count per month from the first to the last month, with no gaps; each count is the number of dates in that month; both end months are non-empty |
| Admissions.MonthlyCountsTotal | health_analyzer.py:103 | the monthly counts add up to the number of dates |
| Admissions.AdmissionsOverTime | health_analyzer.py:98-104 | `ValueError("admission_date column required")` without the column, `TypeError` for a non-date value, otherwise the monthly counts of the known dates |
| Admissions.AdmissionsTotal | health_analyzer.py:98-104 | every admission with a known date is counted once |
| Admissions.CleanedAdmissions | health_analyzer.py:98-104 | on a cleaned frame with the column, the monthly counts never fail |
| Calendar.MonthIndexMonotone | health_analyzer.py:103 | a later date never falls in an earlier month |
| Admissions.EndMonths | health_analyzer.py:103 | the monthly counts start at the earliest admission's month and end at the latest admission's month |
| AgeBins.AgeBin | health_analyzer.py:117 | `(age // w) * w` is a multiple of `w`, with `bin <= age < bin + w` for positive `w` and the mirror image for negative `w` |
| AgeBins.AgeBinUnique | health_analyzer.py:117 | any multiple of a positive width whose bin holds the age is the age's bin |
| AgeBins.KeptRows | health_analyzer.py:113 | the rows `dropna(subset=["age", "outcome"])` keeps, in order |
| AgeBins.KeptRowsEmpty | health_analyzer.py:113-115 | no row is kept exactly when every row lacks its age or its outcome |
| AgeBins.PlotOutcomesByAgeHist | health_analyzer.py:112-117 | `None` without `age` or with no complete row. Otherwise a missing `outcome` column raises `KeyError`, a non-numeric age `TypeError`, and a zero width the integer-cast error. Otherwise one point per kept row, in order, with its age, outcome and bin |
| AgeBins.HistCoversRows | health_analyzer.py:113-117 | every row with a known age and outcome is plotted in its bin |
| AgeBins.CleanedAgeHist | health_analyzer.py:112-117 | on a cleaned frame with a non-zero width the chart data never fails, and it is empty exactly when no age is known |
| Frame.PresentCount | health_analyzer.py:92 | dropping missing keys keeps every other value as often as it occurs |
| Frame.PresentLength | health_analyzer.py:92 | it drops exactly the missing cells |
| Seqs.ValueCounts | health_analyzer.py:84 | each value once, with its count, largest first |
| Seqs.ValueCountsTotal | health_analyzer.py:85 | the counts add up to the number of values |
| Seqs.SortDesc | health_analyzer.py:94 | `sort_values(ascending=False)`: a non-increasing permutation |
| Seqs.Distinct | health_analyzer.py:80 | the distinct values in order of first appearance, each once |
| Seqs.TalliesCoverAll | health_analyzer.py:103 | counting over distinct values that cover the input counts every element once |

## Left out

- The Altair charts (`plot_outcomes_by_age_hist` lines 118-124 and the helpers at lines 126-148) are rendering only. `AgeBins.PlotOutcomesByAgeHist` returns the data the chart encodes; the tooltip's `patient_id` is not modelled.
- `main.py` (loading a CSV, printing results) is I/O and is not part of this model.
- pandas' parsers and `str()` of floats and timestamps are a parameter (`Cleaning.Coercions`): their formats, inference and locale rules are not modelled.
- Cleaning.NormalizeColumnNames: `strip()` and `lower()` are modelled on ASCII; Unicode whitespace and case mapping are not.
- Analyzer.HealthAnalyzer.CleanData requires normalized column names to be distinct; pandas' behaviour with duplicate column names (selections returning several columns) is not modelled.
- Floating point: numbers are exact reals, so NaN and infinities are a missing cell or an error case. Rounding in means and shares is not modelled.
- Timestamps are calendar dates: times of day, time zones and `.dt.days` truncation of sub-day spans are not modelled.
- Cleaning.ToNumeric: `to_numeric` of a timestamp cell gives a missing cell here.
- Cleaning.MissingOutcomeIsNan: one missing cell stands for NaN, None and NaT alike, and `astype(str)` renders it "nan". pandas renders None as "None" and NaT as "NaT", so such outcomes become "none" and "nat" there. The model folds them into NaN.
- Aggregation.AggregateBy: the generic `df.groupby(column).agg(agg)` branch (line 96) returns only a marker of the aggregation asked for. Its result and its own errors are not modelled. Neither are multi-column `column` arguments.
- Aggregation.AggregateMean: a value column of dates (which pandas can average) is modelled as a `TypeError`.
- Admissions.AdmissionsOverTime: only the default monthly frequency `"M"` is modelled. Whether an all-missing column of non-date type raises is not distinguished (it gives no months here).
- Summary.SummarizeOutcomes: `by` is a single column name; lists of columns are not modelled.
- Group and value order: pandas sorts group keys, while the model lists groups by first appearance. Among equal counts or means the order is left open: only the non-increasing order is stated.
- AgeBins.AgeBin: the width is an integer, and the cast to a 64-bit integer is unbounded here (no overflow for huge ages).
