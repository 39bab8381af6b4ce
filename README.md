# EmiFindData column profiler and dataset store

EmiFindData is a desktop data-profiling dashboard. It loads CSV and Excel
files into an in-memory store keyed by file name and lists them in a
sidebar. For any stored table it shows a quality card for every column:
the number of missing values, the share of distinct values, the number of
IQR outliers, and whether the column could serve as a row identifier.

This project models two parts of the program and proves properties of them.

- **The column profiler** (`ProfilerLogic.get_stats`) is modelled as pure
  functions over one column in `profiler.dfy`. A column is a numeric/non-numeric
  tag plus a sequence of cells. Each cell is either missing (`None`) or holds a
  number, a text or a flag. `quantiles.dfy` supplies sorting, minimum and maximum,
  and the quantile with linear interpolation that pandas uses by default.
  With h = (n - 1)·p, that quantile is s[⌊h⌋] + (h - ⌊h⌋)·(s[⌊h⌋+1] - s[⌊h⌋]).
  All arithmetic is exact (`real`).
- **The dataset store** (`self.datasets`) is modelled in `registry.dfy`.
  - The class `Datasets` holds the names in insertion order and a map from
    name to table. The tables themselves are opaque (type parameter `T`).
  - Its methods are assignment, the import loop, the confirmed delete,
    lookup, and the sidebar listing.
  - The state-changing methods `Assign`, `LoadFiles` and `RemoveData` are
    proved against a value-level specification: `Snapshot` with `Put`,
    `LoadAll` and `Delete`. The dictionary's order and overwrite properties
    are proved as lemmas about that specification.
  - The read-only methods `Get` and `Sidebar` are specified directly on the
    fields `names` and `tables`.

Behaviour of the code that the model keeps:

- A value is an outlier when it lies strictly below Q1 - 1.5·IQR or strictly
  above Q3 + 1.5·IQR. Missing cells are never outliers.
- A numeric column whose every cell is missing has NaN quartiles, so it has
  0 outliers.
- A non-numeric column reports 0 outliers, not an absent value.
- An empty column reports 0 missing values, 0 outliers and 0 %. Because
  pandas calls an empty series unique, it is also labelled a "Unique ID"
  (`UniquePctFullIffKey`).
- The uniqueness percentage counts distinct non-missing values against all
  cells. The key test counts a missing cell as a value (`is_unique`) but also
  demands that no cell be missing. So the key status is a "Unique ID" exactly
  when no cell is missing and all cells are pairwise distinct.
- Deleting a name the user confirmed is `del datasets[name]`. On a missing key
  this raises `KeyError` rather than doing nothing. The model follows the code:
  `RemoveData` requires the name to be present when the deletion is confirmed.

Two worked columns in `ProfilerExamples` check the formulas end to end:

- `id = [1, 2, 3, 4]` gives Q1 = 1.75 and Q3 = 3.25, no outlier, 100 % and a key.
- `value = [10, 10, 10, 1000]` gives Q1 = 10 and Q3 = 257.5, one outlier,
  50 % and a standard field.

## Model

| member | source | states |
|---|---|---|
| Profiler.NullCount | Emifinddata.py:13 | the null count is at most the column length; it is 0 iff every cell is present and equals the length iff every cell is missing |
| Profiler.UniquePct | Emifinddata.py:14 | the uniqueness percentage lies in [0, 100], is 0 for an empty column and 0 for an all-missing column |
| Profiler.Distinct | Emifinddata.py:14 | the values `nunique()` counts are at most the non-missing cells in number |
| Profiler.DistinctHas | Emifinddata.py:14 | a value is counted by `nunique` iff some cell holds it |
| Profiler.DistinctFull | Emifinddata.py:14 | the distinct non-missing values number as many as the cells iff no cell is missing and all cells are pairwise distinct |
| Profiler.UniquePctFullIffKey | Emifinddata.py:14-23 | on a non-empty column the percentage is 100 iff the key status is "Unique ID"; an empty column has 0 % and is a "Unique ID" |
| Profiler.AllCells | Emifinddata.py:23 | the distinct cells behind `is_unique`, missing included, are at most the cells in number |
| Profiler.IsUnique | Emifinddata.py:23 | pandas' `is_unique`: as many distinct cells, missing included, as cells; `UniqueIffAllDistinct` shows this means pairwise distinct |
| Profiler.UniqueIffAllDistinct | Emifinddata.py:23 | `is_unique` (distinct cells, missing included, as many as cells) holds iff the cells are pairwise distinct |
| Profiler.KeyStatusOf | Emifinddata.py:23 | the key status is "Unique ID" iff the null count is 0 and all cells are pairwise distinct; otherwise "Standard" |
| Profiler.KeyLabel | Emifinddata.py:23 | the label is "Standard" exactly for a standard field, so the two statuses are told apart by their labels |
| Profiler.Numbers | Emifinddata.py:19 | the values the quartiles see (missing cells skipped) are at most the non-missing cells in number |
| Profiler.NumbersHas | Emifinddata.py:18-21 | a number takes part in the quartiles iff some cell holds it |
| Profiler.NumbersOfNumericColumn | Emifinddata.py:18-21 | in a numeric column every non-missing cell is a number, so the quartiles see len - nulls values |
| Profiler.Outside | Emifinddata.py:21 | the per-value outlier test: strictly below the lower bound or strictly above the upper one; `CountBeyond` applies it only to numeric cells, so a missing cell never reaches it |
| Profiler.CountBeyond | Emifinddata.py:21 | the number of values beyond an interval is at most the number of numeric cells |
| Profiler.CountBeyondZeroIff | Emifinddata.py:21 | no value lies outside [lo, hi] iff every number of the column lies in [lo, hi] |
| Profiler.CountBeyondWider | Emifinddata.py:21 | widening the interval never increases the count beyond it |
| Profiler.Q1 | Emifinddata.py:19 | the first quartile lies between the smallest and the largest value |
| Profiler.Q3 | Emifinddata.py:19 | the third quartile lies between the smallest and the largest value |
| Profiler.LowerFence | Emifinddata.py:20-21 | Q1 - 1.5·IQR lies at or below Q1 whenever Q1 <= Q3 |
| Profiler.UpperFence | Emifinddata.py:20-21 | Q3 + 1.5·IQR lies at or above Q3 whenever Q1 <= Q3 |
| Profiler.OutlierCount | Emifinddata.py:16-21 | outliers are at most len - nulls, and 0 for a non-numeric or empty column |
| Profiler.QuartilesOrdered | Emifinddata.py:19-20 | min <= Q1 <= Q3 <= max, so IQR >= 0 |
| Profiler.OutliersOutsideBox | Emifinddata.py:19-21 | the fences enclose [Q1, Q3], so no value v with Q1 <= v <= Q3 is an outlier, and the outliers are at most the values outside [Q1, Q3] |
| Profiler.NoOutliersIff | Emifinddata.py:19-21 | a numeric column with numbers has no outlier iff every one of its numbers lies between the two fences |
| Profiler.ConstantColumnNoOutliers | Emifinddata.py:19-21 | if all numbers of a column equal c then Q1 = Q3 = c and there is no outlier |
| Profiler.GetStats | Emifinddata.py:11-24 | the four results: nulls <= len, outliers <= len - nulls, percentage in [0, 100], the empty and all-missing cases, 0 outliers off numeric columns, and the key iff |
| ProfilerExamples.QuartilesOfFour | Emifinddata.py:19 | among four sorted values Q1 lies 0.75 of the way from the first to the second and Q3 0.25 of the way from the third to the fourth |
| ProfilerExamples.IdColumnProfile | Emifinddata.py:9-24 | `[1, 2, 3, 4]` profiles as 0 nulls, 0 outliers, "Unique ID", 100 % |
| ProfilerExamples.ValueColumnProfile | Emifinddata.py:9-24 | `[10, 10, 10, 1000]` profiles as 0 nulls, 1 outlier, "Standard", 50 % |
| Quantiles.Sort | Emifinddata.py:19 | the sorted values are ascending and a permutation of the input |
| Quantiles.SortSorted | Emifinddata.py:19 | sorting an already ascending sequence leaves it unchanged |
| Quantiles.Interpolate | Emifinddata.py:19 | the interpolated quantile lies between the sorted neighbours at position floor((n - 1)·p) and between the first and last value |
| Quantiles.Quantile | Emifinddata.py:19 | every quantile lies between the minimum and the maximum |
| Quantiles.SortedEnds | Emifinddata.py:19 | the first sorted value is the minimum and the last is the maximum |
| Quantiles.QuantileMonotone | Emifinddata.py:19 | the quantile is monotone in p: p <= p' gives quantile(p) <= quantile(p') |
| Quantiles.ConstantQuantile | Emifinddata.py:19 | every quantile of a constant sequence is that constant |
| Registry.Basename | Emifinddata.py:80 | `os.path.basename`: the key is no longer than the path; `BasenameIsLastComponent` characterises it fully |
| Registry.BasenameIsLastComponent | Emifinddata.py:80 | the key is the longest '/'-free suffix of the path: it has no '/', ends the path, and is the whole path or follows a '/' |
| Registry.FormatOf | Emifinddata.py:81 | the `endswith('.csv')` test that picks the loader; `FormatOfSuffix` states its outcome for every stem |
| Registry.FormatOfSuffix | Emifinddata.py:81 | a path ending in ".csv" is read as CSV and one ending in ".xlsx" as Excel |
| Registry.Label | Emifinddata.py:89 | the button text is the first min(15, len) characters of the name |
| Registry.Put | Emifinddata.py:81 | assignment keeps the names distinct and equal to the keys |
| Registry.Delete | Emifinddata.py:97 | deletion keeps the names distinct and equal to the keys |
| Registry.PutTables | Emifinddata.py:81 | after `datasets[n] = t`, n maps to t and every other name keeps its presence and its table |
| Registry.PutNames | Emifinddata.py:81-86 | after assignment the old name order is a prefix of the new one; the list grows by one exactly for a new name |
| Registry.PutIndex | Emifinddata.py:81-86 | an existing name keeps its index and a new one takes the last index |
| Registry.PutPut | Emifinddata.py:81 | assigning twice under one name equals assigning the second table once |
| Registry.DeleteTables | Emifinddata.py:97 | after `del datasets[n]`, n is gone, one name fewer remains, and every other name keeps its presence and its table |
| Registry.DeleteOrder | Emifinddata.py:97 | after deletion the remaining names keep their relative order |
| Registry.DeleteThenPut | Emifinddata.py:81-97 | deleting a name and loading it again moves it to the end of the order |
| Registry.LoadAll | Emifinddata.py:79-81 | loading paths one after another keeps the store well formed |
| Registry.LoadAllKeepsOrder | Emifinddata.py:79-81 | the names present before loading stay first and in their order |
| Registry.LoadAllAddsBasenames | Emifinddata.py:79-81 | loading adds exactly the base names of the chosen paths to the keys |
| Registry.LoadAllKeepsOthers | Emifinddata.py:79-81 | a stored name that no path's base name hits keeps its table |
| Registry.LoadAllLastWins | Emifinddata.py:79-81 | among paths with the same base name, the table read from the last one is stored, with the loader its suffix selects |
| Registry.Datasets.constructor | Emifinddata.py:33 | the store starts empty |
| Registry.Datasets.Assign | Emifinddata.py:81 | the new store is `Put` of the old one |
| Registry.Datasets.LoadFiles | Emifinddata.py:77-82 | the loop over the chosen paths leaves the store equal to `LoadAll` of the old store |
| Registry.Datasets.RemoveData | Emifinddata.py:95-98 | on confirmation the new store is `Delete` of the old one; otherwise it is unchanged |
| Registry.Datasets.Get | Emifinddata.py:101 | the lookup finds a table iff the name is stored, and the one stored under it |
| Registry.Datasets.Sidebar | Emifinddata.py:84-93 | one row per stored name, in insertion order, each labelled with `Label` of its name |

## Left out

- Widgets, frames, tabs, images and the bare `try`/`except` fallbacks around them (Emifinddata.py:27-75, 102-120) are not modelled. They are layout with no stateable behaviour.
- The file dialog and `pd.read_csv` / `pd.read_excel` are not modelled. The chosen paths are a parameter of `LoadFiles`, and the loader is a function parameter `read(format, path)`. Tables are opaque.
- An exception raised by a loader part-way through the import loop is not modelled. The loader is total here.
- The confirmation dialog `messagebox.askyesno` is not modelled. Its answer is the `confirmed` parameter of `RemoveData`.
- Redrawing the sidebar widgets is not modelled. `Sidebar` returns the rows the redraw creates.
- The action a row's buttons trigger and the profiler tab's loop over columns are not modelled (Emifinddata.py:90, 108-120). They call `GetStats` once per column and render the result.
- Registry.Datasets.RemoveData: the name is an argument and must be present on confirmation, because `del` raises `KeyError` on a missing key. A no-op on an absent name is not the behaviour of this code.
- Registry.Datasets.Get: returns `None` where the program's `datasets[name]` would raise `KeyError`.
- Registry.Basename: only '/' separates path components. The backslash separator of Windows paths is not modelled.
- pandas' dtype inference (`is_numeric_dtype`) is replaced by an explicit `numeric` tag on the column. A well-typed numeric column (`WellTyped`) holds only numbers. Boolean columns, which pandas counts as numeric, appear as non-numeric columns of flags, so the model reports 0 outliers for them where the program runs the quartile test on them.
- Floating-point arithmetic, NaN propagation and the `:.1f` rounding of the percentage are not modelled. The model computes with exact reals, and the all-missing case that yields NaN quartiles is written as an explicit branch.
- Profiler.UniquePct: distinctness uses Dafny's structural equality of values. pandas' equality between mixed kinds (for example `1 == 1.0 == True`) is not modelled.
- The `head(50)` table browser is not modelled. It is presentation only.
- Correlation and heatmap logic is not modelled. The program contains none.
