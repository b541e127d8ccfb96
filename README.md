# VizMate preprocessing, modelled in Dafny

VizMate is a small Streamlit application. It uploads a table and charts it. It can also clean the table with `preprocess_data`. This project models two parts of it:

- `preprocess_data` (`frontend/preprocessing.py`, with a textually identical copy in `app.py`). It runs three stages over a table, in this order, and each stage appends a line to a report:
  1. Imputation: a column with a missing entry is filled with its mode if it is an object column, and with its median otherwise.
  2. One-hot encoding: pandas' `get_dummies` with `drop_first`.
  3. Scaling: min-max scaling of every numeric column.
- The extension dispatch of `load_data`: a file whose extension is exactly `csv` goes to the CSV reader. Every other file goes to the Excel reader.

A table is a sequence of named columns. Each column holds the cells of one dtype:

- `Object`: text, with `None` for a missing entry.
- `Number`: `real`, with `None` for NaN.
- `Bool`: pandas' `bool` dtype, which cannot hold a missing entry.

The model follows the pandas behaviour the code relies on:

- `mode()` returns its modes sorted, so `mode()[0]` is the smallest of the most frequent values.
- On a column with no value at all, the mode is empty and `mode()[0]` raises. The model returns `Raised(column)` for that case.
- `median` skips missing entries and averages the two middle values when the count is even.
  - A column with no value gives NaN, so filling it changes nothing. The report line is still written.
- `get_dummies` puts the untouched columns first, in their order. Each object column is then replaced by one indicator column `col_value` per sorted level except the smallest.
- The indicator dtype depends on the pandas version: uint8 in older pandas, bool in pandas 2. It is a parameter, `numericDummies`.
  - It decides whether the scaling step sees the dummy columns as numeric and names them in its report line.
  - Each dummy column holds both a 0 and a 1, so scaling leaves it unchanged either way (`Preprocessing.PreprocessLayout`).
- Scaling has no guard against a constant column. There it computes 0/0, and every cell becomes NaN (`None`).
- `get_dummies` raises a `ValueError` on a table without columns, because it has no block to concatenate. The model returns `NoColumns` for it.

The imperative code keeps its form:

- `Imputation.FillMissing` is the fill loop. It updates the frame column by column and appends to the report.
- `Scaling.MinMaxScale` overwrites the numeric columns one at a time.
- `Preprocessing.PreprocessData` chains the three stages and builds the report by appends.

Each of these methods is proved equal to a specification function: `Impute`, `ScaleColumn` and `Preprocess`. The properties are proved as lemmas about those functions.

Files:

- `wrappers.dfy`: `Option`.
- `strings.dfy`: Python's string order and `split`.
- `stats.dfy`: counting, sorting, order statistics, median, mode, levels, minimum and maximum.
- `tables.dfy`: the table.
- `imputation.dfy`, `encoding.dfy`, `scaling.dfy`: the three stages.
- `preprocessing.dfy`: the pipeline, with a worked example.
- `loader.dfy`: the extension dispatch.

Four behaviours of the code are worth stating on their own:

- Scaling has no guard for a constant column: it becomes NaN throughout, not a defined value such as 0.
- The mode's tie-break takes the smallest value, not the first one encountered.
- No file format is rejected: anything but `csv` is handed to the Excel reader.
- The encoding line and the scaling line are always appended, even when their column lists are empty.

## Model

| member | source | states |
|---|---|---|
| Strings.LessTotal | frontend/preprocessing.py:12 | Python's string order, used by the mode's tie-break and by the level order of `get_dummies`, relates any two different strings; with LessIrreflexive and LessTransitive it is a strict total order |
| Strings.SplitPieces | app.py:13 | no piece of `split(".")` holds a dot; there is a single piece exactly when the name has no dot, and that piece is the name |
| Strings.JoinSplit | app.py:13 | splitting at the separator loses nothing: joining the pieces back with it gives the original string |
| Strings.SplitLast | app.py:13 | the last piece of `split` is a suffix of the string, and when it is shorter than the string a separator comes right before it |
| Stats.SortSorted | frontend/preprocessing.py:15 | the sort used to take the median returns a sorted permutation of its input |
| Stats.SortCounts | frontend/preprocessing.py:15 | sorting changes neither the number of entries below a value nor the number at or below it |
| Stats.KthIsKth | frontend/preprocessing.py:15 | the k-th entry of the sorted values has at most k values below it and more than k at or below it |
| Stats.KthUnique | frontend/preprocessing.py:15 | only one value has that property, so the k-th smallest value is determined by the counts alone |
| Stats.PresentValues | frontend/preprocessing.py:15 | the values the median is taken over are exactly the present entries of the column, each as many times as it occurs there; there are none exactly when every entry is missing |
| Stats.MiddleIsMedian | frontend/preprocessing.py:15 | at most half of the values lie below the middle, and at most half above it |
| Stats.MiddleEven | frontend/preprocessing.py:15 | for an even count, the mean of the two middle values still has at most half of the values on either side |
| Stats.MedianSplits | frontend/preprocessing.py:14-15 | the median is NaN exactly when the column has no value; otherwise it leaves at most half of the values on either side; for an odd count it is the middle order statistic, for an even count the mean of the two middle ones |
| Stats.ModeFromBest | frontend/preprocessing.py:12 | scanning the column keeps the best candidate so far; at the end no present value beats it |
| Stats.ModeIsMode | frontend/preprocessing.py:11-12 | `mode()[0]` is missing exactly when the column has no value; otherwise it occurs in the column, no value occurs more often, and every value that occurs as often is not smaller |
| Stats.Levels | frontend/preprocessing.py:20 | the levels of an object column are strictly ascending and are exactly its present values |
| Stats.LevelsCount | frontend/preprocessing.py:20 | there are as many levels as distinct present values, and the first level is the smallest of them |
| Stats.Min | frontend/preprocessing.py:25 | the column minimum skips NaN: it is missing exactly when every entry is, otherwise it is a present value no larger than any other |
| Stats.Max | frontend/preprocessing.py:25 | the column maximum skips NaN: it is missing exactly when every entry is, otherwise it is a present value no smaller than any other |
| Imputation.FillColumnFills | frontend/preprocessing.py:11-15 | filling fails exactly for an object column with no value; otherwise name, dtype, length and present entries are kept, no hole remains unless the column had no value (a numeric one is then unchanged), an object hole gets a mode and a numeric hole the median |
| Imputation.FillObject | frontend/preprocessing.py:11-12 | an object column with a hole and some value comes out with no hole, its present entries kept and every former hole holding a mode |
| Imputation.FillNumber | frontend/preprocessing.py:14-15 | a numeric column with a hole never fails; its present entries are kept, its holes hold the median, and it is unchanged when it has no value |
| Imputation.MissingColumnsMembers | frontend/preprocessing.py:8-9 | `missing_cols` holds exactly the columns with at least one missing entry |
| Imputation.MissingColumnsAppend | frontend/preprocessing.py:8-9 | `missing_cols` keeps table order: for a table split in two, it lists the first part's columns, then the second's |
| Imputation.MissingColumnsEmpty | frontend/preprocessing.py:8-9 | `missing_cols` is empty exactly when no column has a missing entry |
| Imputation.FillMissing | frontend/preprocessing.py:10-16 | the fill loop, which updates columns in place and appends to the report, gives exactly the specification `Impute` of the table |
| Imputation.ImputePropagates | frontend/preprocessing.py:12 | once `mode()[0]` has raised, the rest of the loop does not run and the failure is final |
| Imputation.ImputeColumnwise | frontend/preprocessing.py:10-16 | after the loop, a column without a missing entry is as it was and a column with one is replaced by its fill |
| Imputation.ImputeFillsHoles | frontend/preprocessing.py:8-16 | after imputation every column keeps its name, dtype, row count and present entries, and no column that had a value still has a hole |
| Imputation.ImputeReport | frontend/preprocessing.py:13-16 | the fill report is one line per column with a missing entry, in column order, each saying mode for an object column and median otherwise |
| Imputation.NothingMissing | frontend/preprocessing.py:8-10 | a table without missing entries passes through unchanged and gets no fill line |
| Imputation.ImputeFails | frontend/preprocessing.py:12 | imputation raises exactly when some column with a missing entry is an object column with no value, and it names the first such column |
| Encoding.IndicatorMeaning | frontend/preprocessing.py:20 | an indicator column has the rows of its source column; a cell is 1 (True) exactly where the row holds the level and 0 (False) everywhere else, a missing row included |
| Encoding.DummiesCount | frontend/preprocessing.py:20 | an object column with k distinct values becomes k-1 dummy columns, and none when it has no value |
| Encoding.DummiesLevels | frontend/preprocessing.py:20 | the indicator `col_value` is among the dummies exactly when `value` occurs in the column and is not its smallest value |
| Encoding.OneHot | frontend/preprocessing.py:20 | in any row at most one dummy of a source column is 1, and one is 1 exactly when the row holds a value other than the smallest |
| Encoding.DummiesHaveBothValues | frontend/preprocessing.py:20 | with the first level dropped, every dummy column has a row with 1 and a row with 0 |
| Encoding.KeptMembers | frontend/preprocessing.py:20 | the columns `get_dummies` leaves alone are exactly the non-object columns |
| Encoding.KeptOrder | frontend/preprocessing.py:20 | the untouched columns keep their relative order: of two non-object columns `t[i]` and `t[j]` with `i < j`, both appear in the result of `get_dummies` and `t[i]` comes first |
| Encoding.ObjectNamesMembers | frontend/preprocessing.py:19 | `cat_cols` holds exactly the names of the object columns |
| Encoding.ObjectNamesAppend | frontend/preprocessing.py:19 | `cat_cols` keeps table order: for a table split in two, it lists the first part's names, then the second's |
| Encoding.EncodedOnlyIndicators | frontend/preprocessing.py:20 | every dummy column is numeric under uint8 dummies and bool under bool dummies |
| Encoding.GetDummiesShape | frontend/preprocessing.py:19-20 | after encoding no object column is left, and every column still has the table's row count |
| Scaling.NumberNamesMembers | frontend/preprocessing.py:24 | `num_cols` holds exactly the names of the numeric columns |
| Scaling.NumberNamesAppend | frontend/preprocessing.py:24 | `num_cols` keeps table order: for a table split in two, it lists the first part's names, then the second's |
| Scaling.MinMax | frontend/preprocessing.py:25 | scaling keeps the length of a column, and a NaN cell stays NaN |
| Scaling.ScaleValueBounds | frontend/preprocessing.py:25 | a value between a distinct minimum and maximum is mapped into [0, 1], the minimum to 0 and the maximum to 1 |
| Scaling.MinMaxBounds | frontend/preprocessing.py:24-25 | a column with two different values is mapped into [0, 1], its smallest values to 0 and its largest to 1; a constant column becomes NaN throughout (0/0) |
| Scaling.MinMaxMonotone | frontend/preprocessing.py:25 | on a non-constant column scaling keeps and reflects the order of any two present cells |
| Scaling.MinMaxKeepsIndicator | frontend/preprocessing.py:25 | a 0/1 column that holds both values is left unchanged by scaling |
| Scaling.MinMaxScale | frontend/preprocessing.py:24-25 | the block assignment overwrites every numeric column with its scaled cells and leaves every other column as it was |
| Preprocessing.PreprocessData | frontend/preprocessing.py:4-28 | the imperative pipeline computes exactly the specification `Preprocess` |
| Preprocessing.ImputeKeepsKinds | frontend/preprocessing.py:10-16 | imputation keeps every column's name and dtype and leaves bool columns untouched, so `cat_cols` is the same before and after it |
| Preprocessing.PreprocessReport | app.py:137-160 | the report is the fill lines, then the encoding line naming the object columns of the input, then the scaling line naming the numeric columns of the result; it has two lines more than there are columns with missing entries |
| Preprocessing.PreprocessRaises | frontend/preprocessing.py:12 | `preprocess_data` raises exactly when an object column has missing entries and no value |
| Preprocessing.PreprocessNoColumns | frontend/preprocessing.py:20 | `get_dummies` raises on the table exactly when it has no columns; imputation cannot raise first on such a table |
| Preprocessing.ScaleKeepsDummy | app.py:152-157 | whatever the indicator dtype, scaling leaves every dummy column as encoding made it |
| Preprocessing.ScaleKeepsEncoded | app.py:152-157 | scaling leaves the whole block of dummy columns unchanged |
| Preprocessing.PreprocessLayout | app.py:151-157 | the result is the scaled non-object columns of the filled table, in order, followed by the dummy columns exactly as encoding made them |
| Preprocessing.PreprocessTable | frontend/preprocessing.py:19-25 | every column of the result has the input's row count, none is an object column, and every present numeric cell lies in [0, 1] |
| Preprocessing.ScaleAllShape | frontend/preprocessing.py:24-25 | scaling a rectangular table without object columns keeps it rectangular and puts every present numeric cell in [0, 1] |
| Preprocessing.PreprocessKeepsBool | app.py:151-157 | a column that is neither object nor numeric appears unchanged in the result |
| Preprocessing.WorkedExample | frontend/preprocessing.py:4-28 | colour [red, blue, red] with size [1, NaN, 3]: size is filled with 2 and scaled to [0, 0.5, 1]; `blue` is the dropped level, and `color_red` = [1, 0, 1] comes out unchanged |
| Preprocessing.ExampleLines | frontend/preprocessing.py:13-26 | the worked example's report lines, spelt out, including Python's rendering of the column lists |
| Loader.LoadData | app.py:10-19 | there is no table exactly when no file was uploaded |
| Loader.ExtensionIsSuffix | app.py:13 | the extension is a dot-free suffix of the name; it is preceded by a dot unless it is the whole name, and it is the whole name when the name has no dot |
| Loader.ExtensionOfDotted | app.py:13 | for a name `stem.ext` with a dot-free `ext`, the extension is `ext`, whatever dots the stem holds |
| Loader.CsvIff | app.py:14-17 | a name `stem.ext` goes to the CSV reader exactly when `ext` is `csv`, and to the Excel reader otherwise |
| Loader.DispatchDotted | frontend/utils.py:9-13 | the comparison is case-sensitive: `data.CSV` goes to Excel, `report.csv.xlsx` to Excel and `archive.tar.csv` to CSV |
| Loader.DispatchUndotted | app.py:13-17 | a name without a dot is its own extension, so a bare `csv` goes to the CSV reader and any other dot-free name to Excel |

## Left out

- Streamlit: the upload widget, the page layout, the download buttons and the file-type filter `type=["csv", "xlsx"]` of the uploader. They are interface code. The model takes the uploaded file's name as an `Option<string>`.
- The readers and writers for CSV and Excel. They are pandas and openpyxl codecs. `Loader` only says which reader is chosen.
- The charts and `display_dataset_info`. They are presentation code, with no logic to model.
- Floating point. Cells are `real`, so every arithmetic claim is exact. NaN appears only as a missing entry and as the result of 0/0 in the scaling.
- Dtype inference when a file is loaded, and dtypes other than object, number and bool, such as datetime and category. Column dtypes are taken as given.
- Whether `fillna(inplace=True)` on `df[col]` also changes the caller's frame. This depends on the pandas version and its copy-on-write mode. The model returns a new table and leaves the input alone.
- Columns are addressed by position, not by label. A table with two columns of the same name is not modelled as pandas would treat it.
- Preprocessing.PyList: the model quotes every column name with single quotes. It does not model Python's `repr` escaping, or its switch to double quotes, for a name that contains a quote or a backslash.
- Imputation.ImputeFillsHoles: does not show that the loop writes to the caller's frame. Under pandas copy-on-write, `fillna(inplace=True)` on `df[col]` may leave `df` unchanged. The model follows the intended, in-place behaviour.
