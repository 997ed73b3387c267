# Issue detector

A Dafny model of `analyze_issues`, the data-quality detector of the AI Data
Analyst Agent. It takes a rectangular table and returns a report with one
entry per check, thirteen checks in all:

- missing values
- duplicate rows
- runtime-type inconsistencies
- IQR outliers in numeric columns
- constant columns
- high-cardinality columns
- single-unique columns
- mixed-type object columns
- columns more than half missing
- highly imbalanced categorical columns
- all-zero columns
- all-same-string columns
- columns that fail to parse as dates

The model has five modules, one per file:

- `Table` (table.dfy) defines the data. A cell `Value` is tagged by its runtime representation: `Null`, `Bool`, `Int`, `Float`, `Text` or `Other`.
  - For the five concrete tags in a column that is not a category column, its `Kind` is what `map(type)` reports. Category columns are treated under "Left out".
  - For `Bool`, `Int`, `Float` and `Text`, its `Key` is its class under Python equality and hashing, so that `True == 1 == 1.0`. pandas relies on this when it counts distinct values, finds duplicate rows and compares with `0`.
  - Every `Null` has the one key `NullKey`. NaN is not equal to itself in Python, so this is not Python equality: it models pandas treating all NaNs as one value in `nunique(dropna=False)` and `duplicated`.
  - `Other` is a catch-all, whose limits are listed under "Left out".
  - A `Column` has a name, a declared storage kind (`DType`) and its values.
  - A `Dataset` has a row count and its columns. It is valid when rectangular and the column names are unique.
- `Counting` (counting.dfy) holds the counting passes the checks are built from:
  - null counts;
  - runtime-type tallies (`value_counts` of `map(type)`);
  - distinct values with and without nulls (`nunique`);
  - the frequency of the most common non-null value;
  - repeated rows (`duplicated` with keep='first').
- `Quartiles` (quartiles.dfy) covers the statistics: an insertion sort, the linear-interpolation quantile that pandas uses by default, the IQR fences, and the outlier count.
- `Detector` (detector.dfy) defines the checks:
  - Each check is a function over the columns.
  - The `Report` datatype has one field per check, so a report can never lack a key.
  - `Analyze` builds the report as a value.
  - `AnalyzeIssues` mirrors the source procedure. Its five `for col in ...` loops become five methods, each proved against the function for its check.
- `DetectorProperties` (properties.dfy) states, column by column, what each check reports, together with the worked examples.

Floating-point thresholds become exact rational comparisons. For example, `isnull().mean() > 0.5` is proved equivalent to `2 * nulls > rows`.

## Model

| member | source | states |
|---|---|---|
| Detector.AnalyzeIssues | src/cleaning/detector.py:5-82 | Running the thirteen checks in source order yields exactly the report `Analyze` describes. Every key is present for every valid dataset, including zero rows or zero columns. |
| Detector.CollectTypeInconsistencies | src/cleaning/detector.py:13-18 | The loop over all columns builds exactly the type-inconsistency dictionary. |
| Detector.CollectOutliers | src/cleaning/detector.py:20-30 | The loop over numeric columns builds exactly the outlier dictionary. |
| Detector.CollectMixedTypes | src/cleaning/detector.py:45-50 | The loop over object columns builds exactly the mixed-type dictionary. |
| Detector.CollectImbalanced | src/cleaning/detector.py:56-62 | The loop over object and category columns builds exactly the imbalance dictionary. |
| Detector.CollectDateParseIssues | src/cleaning/detector.py:72-80 | The loop appends, in column order, exactly the object columns the parser rejects. |
| DetectorProperties.MissingValuesExact | src/cleaning/detector.py:8-9 | The keys are exactly the columns holding a null. Each maps to its null count, which is positive and at most the column length. No other key appears. |
| DetectorProperties.HighMissingExact | src/cleaning/detector.py:53 | A column is listed iff 2 * nulls > its length. No other name is listed. |
| DetectorProperties.MeanAboveHalf | src/cleaning/detector.py:53 | A null share above 0.5 is the same comparison as 2 * nulls > length. An empty column's NaN mean never passes. |
| DetectorProperties.DuplicateRowsExact | src/cleaning/detector.py:11 | The duplicate count is the row count minus the number of distinct rows. It is 0 for a frame without columns. |
| Counting.DuplicatesAreRepeats | src/cleaning/detector.py:11 | Marking every entry equal to an earlier one marks exactly length minus distinct entries. |
| Counting.Tally | src/cleaning/detector.py:15 | The tally's keys are exactly the runtime types that occur. Each maps to its positive number of occurrences. |
| Counting.TallySumsToLength | src/cleaning/detector.py:15-17 | The per-type tallies add up to the column length. |
| Counting.MixedTally | src/cleaning/detector.py:16 | The tally has more than one entry iff two values of different runtime types occur. |
| DetectorProperties.TypeInconsistenciesExact | src/cleaning/detector.py:13-18 | A column is a key iff two runtime types occur in it. Its entry is its tally, and the tally sums to the column length. No other key appears. |
| DetectorProperties.GapsInFloatsAndText | src/cleaning/detector.py:15-16 | A float column with missing cells has one runtime type and is not inconsistent. Adding a text value to it makes it inconsistent. |
| DetectorProperties.MixedTypesRestrictTypeInconsistencies | src/cleaning/detector.py:45-50 | The mixed-type dictionary is the type-inconsistency dictionary restricted to object columns, with identical tallies. |
| Quartiles.Sort | src/cleaning/detector.py:22-23 | The result is sorted and a permutation of the input. |
| Quartiles.SortCanonical | src/cleaning/detector.py:22-23 | Sorting depends only on the multiset of values. |
| Quartiles.Quantile | src/cleaning/detector.py:22-23 | The interpolated quantile lies between the least and the greatest value, and not below the order statistic it starts from. |
| Quartiles.InterpolateFormula | src/cleaning/detector.py:22-23 | The case-by-case interpolation equals a + (b - a) * fraction, for every fraction that the positions of Q1 and Q3 can take. |
| Quartiles.QuantileMonotone | src/cleaning/detector.py:22-24 | A lower quantile position never gives a larger value, so Q1 <= Q3 and the IQR is non-negative. |
| Quartiles.Fences | src/cleaning/detector.py:24-26 | The lower fence is at most Q1 and the upper fence at least Q3. |
| Quartiles.InsideQuartilesNotOutside | src/cleaning/detector.py:25-27 | A value between Q1 and Q3 is never an outlier. |
| Quartiles.OutliersBound | src/cleaning/detector.py:27 | There are never more outliers than numeric values, nor more numeric values than non-null values. |
| Quartiles.OutliersIgnoreOrder | src/cleaning/detector.py:22-27 | The outlier count depends only on the multiset of a column's numeric values. |
| Quartiles.NumbersPermutation | src/cleaning/detector.py:22-27 | Reordering a column's values reorders its numeric values. |
| Quartiles.OutliersIgnoreReordering | src/cleaning/detector.py:22-27 | Reordering a column's values leaves its outlier count unchanged. |
| DetectorProperties.OutliersExact | src/cleaning/detector.py:20-30 | Keys are numeric columns only. A numeric column is a key iff its outlier count is positive, and it maps to that count, which is at most its non-null count. |
| DetectorProperties.OutlierExample | src/cleaning/detector.py:20-30 | For 1, 2, 3, 4, 5, 100: Q1 = 2.25, Q3 = 4.75, the fences are -1.5 and 8.5, and there is exactly one outlier. |
| Counting.DistinctWithNull | src/cleaning/detector.py:33 | Counting nulls as a value adds exactly one distinct value when a null is present, and none otherwise. |
| Counting.DistinctEmpty | src/cleaning/detector.py:33 | Dropping nulls leaves no distinct value iff every value is null. Keeping nulls leaves none iff the column is empty. |
| DetectorProperties.ConstantColumnsExact | src/cleaning/detector.py:33 | A column is constant iff (a) it has no null and one distinct value, or (b) it is non-empty and entirely null. No other name is listed. |
| DetectorProperties.SingleUniqueExact | src/cleaning/detector.py:41 | A column is listed iff some value is non-null and every non-null value equals it. No other name is listed. |
| DetectorProperties.AllNullColumn | src/cleaning/detector.py:8-69 | A non-empty all-null column is missing in every row, high-missing and constant. It is not single-unique, all-same-string or all-zero. |
| DetectorProperties.EmptyColumn | src/cleaning/detector.py:8-65 | A zero-row column is not constant, single-unique, missing or high-missing. It is vacuously all-zero. |
| Counting.DistinctBound | src/cleaning/detector.py:33-41 | There are never more distinct values than values kept (all values, or the non-null values). |
| DetectorProperties.CardinalityThreshold | src/cleaning/detector.py:37 | Exceeding max(50, 0.2 * rows) is the same as d > 50 and 5 * d > rows. With 100 rows, 60 distinct values exceed it and 40 do not. |
| DetectorProperties.HighCardinalityExact | src/cleaning/detector.py:37 | A column is listed iff its distinct non-null count d satisfies d > 50 and 5 * d > rows. No other name is listed. |
| DetectorProperties.NoHighCardinalityInSmallData | src/cleaning/detector.py:37 | A dataset with at most 50 rows has no high-cardinality column. |
| Counting.TopCountIsMaximum | src/cleaning/detector.py:59 | The top frequency is at least every non-null value's frequency, and some non-null value attains it. It is at most the non-null count, and 0 iff there is no non-null value. |
| Counting.KeyCountBound | src/cleaning/detector.py:59 | No non-null value occurs more often than there are non-null values. |
| DetectorProperties.ShareAboveThreshold | src/cleaning/detector.py:59-60 | A top share above 0.95 is the same as a non-null value existing and 20 * top > 19 * non-null count. |
| DetectorProperties.ImbalancedExact | src/cleaning/detector.py:56-62 | Keys are object or category columns only. One is a key iff it has a non-null value and 20 * top > 19 * non-null count. It maps to top / non-null. |
| DetectorProperties.RepeatedValueImbalance | src/cleaning/detector.py:59-61 | n copies of one string followed by one other have share n / (n + 1). That is flagged iff n >= 20: 19 copies give exactly 0.95 and are not flagged. |
| DetectorProperties.AllZeroExact | src/cleaning/detector.py:65 | A column is listed iff every value is False, 0 or 0.0. A column with a null is never listed. No other name is listed. |
| DetectorProperties.SameStringIsObjectSingleUnique | src/cleaning/detector.py:69 | The all-same-string list is the single-unique list restricted to object columns. |
| DetectorProperties.DatetimeParseIssuesExact | src/cleaning/detector.py:72-80 | A column is listed iff it is an object column that the parser rejects. No other name is listed. |

## Left out

- Date parsing: `pd.to_datetime` belongs to pandas. It is a parameter `toDatetime` of `Analyze`, true when the whole column parses; its accepted formats are not modelled.
- Floating point: values and quantiles are exact reals, so rounding, infinities and NaN arithmetic are not modelled.
  - A null is never numeric, never an outlier and never equal to 0, matching NaN comparisons.
- Python `None` cells: `Null` is NaN, the missing marker `read_csv` produces, and `map(type)` reports it as `float`. A `None` cell, which `map(type)` reports as `NoneType`, is not modelled.
- Foreign objects: `Other` merges every class outside bool, int, float and str into one runtime type.
  - It compares values by their printed form rather than by the class's own `==`.
  - It never equals 0.
  - So a column holding a `datetime.date` and a `Decimal` is not reported as mixed, and a column of `Decimal('0')` is not reported as all-zero, although the source would report both.
  - `read_csv` never produces such cells.
- Type names: tally keys are `Kind` values rather than the strings `str(type)` yields, such as `<class 'int'>`.
- Order in dictionaries: the dictionary results are Dafny maps, so their insertion order is not modelled. The list results keep column order.
- pandas dtype inference and CSV parsing: column storage kinds are given as input.
  - `select_dtypes(include=[np.number])` is the `NumberDType` kind, and booleans are not numbers.
  - `Numbers` takes the numerically comparable values of such a column.
- Category columns: on a category column, `map(type)` maps the categories rather than the cells, and its `value_counts` also lists the type of each unused category, with count 0. `type_inconsistencies` can therefore report a category column whose cells all have one type, keyed also under an unused category's type with count 0. For example, categories `['x', 1]` with every cell `'x'` give `{"<class 'str'>": n, "<class 'int'>": 0}`. The model tallies only values that occur, so it reports no such column. `mixed_type_object_columns` considers object columns only, so it is unaffected. For `highly_imbalanced_categoricals`, `value_counts` likewise lists unused categories with count 0; that cannot change the maximum share, so the model counts only values that occur.
- Per-check failure isolation: the project's documentation says one failing check does not spoil the report. The code catches failures only around the date parser, and every other check is total in the model, so there is nothing to isolate.
- Determinism: it holds because `Analyze` is a function, so there is no separate lemma.
- Duplicate rows: the model follows the code rather than the documented formula, which is row count minus distinct rows for any dataset. pandas `DataFrame.duplicated` returns an empty marking for an empty frame, so a frame with rows but no columns reports 0. `DetectorProperties.DuplicateRowsExact` states both cases.
- `int(...)` and `float(...)` conversions of the counts and shares change nothing on exact numbers.
- The rest of the repository is not part of this model:
  - src/storytelling/hf_client.py and src/storytelling/ollama_client.py (calls to language models over the network);
  - src/api/main.py (HTTP wiring and the CSV upload);
  - gradio_app.py (user interface).
