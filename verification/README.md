# Descriptive statistics over CSV rows, in Dafny

This project models the two hand-written pieces of a small descriptive-statistics
toolkit for CSV exports of social-media posts and ads:

- **The table summariser** (`pure_python.py`).
  - `summarize` cleans every cell by stripping it and removing its commas, and skips blank cells.
  - Each remaining cell goes either to its column's numeric values (when `is_number` accepts it) or to its column's `Counter`, keyed by the raw cell.
  - It then reports a numeric line (count, mean, min, max, std) for each column with numbers, and a categorical line (number of distinct values, five most common) for each column with counted cells.
  - `group_and_summarize` groups the rows by their raw cells at some key columns, in first-appearance order, and summarises the first `limit` groups.
- **The column-type classifier** (`dataexploration.py`).
  - `identify_column_types` samples the first 100 data rows of a CSV file and pads short rows with `''`.
  - It classifies every header column as Empty, Numeric, Categorical, DateTime or Text by a fixed chain of tests, and counts the column's distinct values.

Modules:

- `seqs.dfy` (`Seqs`): `Option`, first index (`list.index`), duplicate removal in first-appearance order.
- `py_strings.dfy` (`PyStrings`): `str.strip`, `str.replace(c, '')`, ASCII `str.isdigit` and `str.lower`, substring `in`.
- `counters.dfy` (`Counters`): `collections.Counter` over strings and `Counter.most_common(n)`.
- `summarize.dfy` (`TableSummary`): `summarize`.
  - The nested row/cell loop and each of the two reporting loops are methods.
  - Each is proved against the function `SummaryOf`.
- `group_summary.dfy` (`GroupSummary`): `group_and_summarize`.
  - The grouping loop (a `defaultdict(list)`) and the summarising loop with its `break` are methods.
- `column_types.dfy` (`ColumnTypes`): `identify_column_types`.
  - The sampling loop is a method.
  - The classification is a set of functions.
  - The per-column loop is a method.

The Python errors that the code does not guard against are modelled as outcomes:

- `summarize` raises IndexError when a row has a non-blank cell beyond the header. Its result is then `None`.
- `group_and_summarize` raises IndexError when a row is too short for a key column. Its result is then `KeyIndexError`.
- A failing group summary ends the grouping run. Its result is then `Aborted`, holding the groups already reported.
- `identify_column_types` catches the error of a file with no header record. Its result is then `None`.

`is_number` and `float()` are a parameter `NumberSyntax`: a predicate on strings and the value it parses to. Numbers are exact reals.

Classification follows the code. A cell is numeric or categorical on its own, so one column can have both a numeric line and a categorical line. This differs from a column-level reading ("a column is numeric when all its values parse").

## Model

| member | source | states |
|---|---|---|
| Seqs.FirstIndex | pure_python.py:68 | `header.index(col)`: the first position holding the value; no earlier position holds it |
| Seqs.Dedup | pure_python.py:73-76 | the keys of an insertion-ordered dict: distinct, and exactly the values of the input |
| Seqs.DedupOrder | pure_python.py:79 | the keys come out in the order of their first appearance in the input |
| Seqs.DistinctCountBounds | dataexploration.py:106 | `len(set(s))` is at most `len(s)`, and at least 1 for a non-empty `s` |
| Seqs.DistinctCard | pure_python.py:62 | a sequence without repetitions has as many distinct values as elements |
| PyStrings.StripStartSpec | pure_python.py:31 | `lstrip()` removes exactly the leading whitespace: the result is a suffix that starts with a non-space |
| PyStrings.StripEndSpec | pure_python.py:31 | `rstrip()` removes exactly the trailing whitespace: the result is a prefix that ends with a non-space |
| PyStrings.StripSpec | pure_python.py:31 | `strip()` is the stretch of its input that begins after the leading whitespace, cut where only whitespace is left, so everything cut off at either end is whitespace; it neither starts nor ends with whitespace |
| PyStrings.StripEmptyIff | pure_python.py:32 | a stripped cell is empty exactly when the cell is all whitespace |
| PyStrings.StripIdempotent | dataexploration.py:93 | stripping a stripped value changes nothing |
| PyStrings.RemoveAllSpec | pure_python.py:31 | `replace(c, '')` leaves no `c` and keeps every other character with its multiplicity; together with RemoveAllAppend and RemoveAllOne this pins down `RemoveAll` |
| PyStrings.RemoveAllAppend | pure_python.py:31 | `replace(c, '')` keeps the order of what it keeps: on `a + b` it gives its result on `a` followed by its result on `b` |
| PyStrings.RemoveAllOne | pure_python.py:31 | on one character, `replace(c, '')` deletes exactly a `c` |
| PyStrings.Strip | pure_python.py:31 | `str.strip()`; its contract is stated by StripStartSpec, StripEndSpec, StripSpec, StripEmptyIff and StripIdempotent |
| PyStrings.RemoveAll | pure_python.py:31 | `str.replace(c, '')`; its contract is stated by RemoveAllSpec, RemoveAllAppend and RemoveAllOne |
| PyStrings.LowerSpec | dataexploration.py:101 | `lower()` keeps the length and lower-cases each character in place |
| PyStrings.Lower | dataexploration.py:101 | `str.lower()`; its contract is stated by LowerSpec |
| PyStrings.ContainsIff | dataexploration.py:101 | `sub in s` holds exactly when `sub` occurs in `s` at some position |
| Counters.CounterOfSpec | pure_python.py:37 | counting items gives a valid counter whose keys are the distinct items in first-appearance order, each with its multiplicity |
| Counters.CounterOf | pure_python.py:37 | `ctr[cell] += 1` over a column's cells; its contract is stated by CounterOfSpec and CounterSize |
| Counters.AddSpec | pure_python.py:37 | `ctr[x] += 1` keeps the counter valid, counts `x` once more, leaves every other count alone, and appends a new key to the insertion order |
| Counters.Add | pure_python.py:37 | one `ctr[x] += 1`; its contract is stated by AddSpec |
| Counters.CounterSize | pure_python.py:62 | `len(ctr)` is the number of distinct counted items |
| Counters.FirstMax | pure_python.py:63 | a position of the largest count, before every other position of that count |
| Counters.FirstMaxIsLeast | pure_python.py:63 | the first maximum comes before every other entry in a stable descending sort |
| Counters.RemoveAtSpec | pure_python.py:63 | taking out the chosen entry keeps insertion order and loses exactly that entry |
| Counters.TopSpec | pure_python.py:63 | repeated selection gives min(n, len) entries, each before the next, with every entry left out after all of them |
| Counters.MostCommonEntries | pure_python.py:63 | every pair `most_common(n)` returns is the key and count of a counter entry chosen by the selection |
| Counters.MostCommonOmitted | pure_python.py:63 | a key left out of `most_common(n)` ranks behind every pair it returns |
| Counters.MostCommonCounts | pure_python.py:63 | `most_common(n)` returns min(n, len(ctr)) pairs, each a key with its own count |
| Counters.MostCommonRanked | pure_python.py:63 | each returned pair has a larger count than the next, or an equal count and an earlier insertion |
| Counters.MostCommon | pure_python.py:63 | `Counter.most_common(n)`; its contract is stated by MostCommonEntries, MostCommonOmitted, MostCommonCounts and MostCommonRanked |
| Counters.AheadIsRankedAhead | pure_python.py:37 | the counter's insertion order is the order of first occurrence among the counted items |
| Counters.MostCommonOfItemsCounts | pure_python.py:62-63 | for counted items: min(n, distinct items) pairs, each an item with its multiplicity |
| Counters.MostCommonOfItemsRanked | pure_python.py:62-63 | for counted items: pairs ranked by count, then by first occurrence; every item left out ranks behind all of them |
| TableSummary.NumericValuesSpec | pure_python.py:34-35 | a column has numeric values exactly when some cell is numeric; each value is `float()` of a numeric cell's cleaned text, and every numeric cell's value is among them |
| TableSummary.NumericValuesAppend | pure_python.py:34-35 | the numeric values keep the cells' order and multiplicity: those of `a + b` are those of `a` followed by those of `b` |
| TableSummary.NumericValuesOne | pure_python.py:34-35 | one cell adds `float()` of its cleaned text exactly when it is numeric, and nothing otherwise |
| TableSummary.CategoricalCellsSpec | pure_python.py:36-37 | the counted items are exactly the categorical cells, raw (neither stripped nor comma-free), each as many times as it occurs in the column |
| TableSummary.CategoricalCellsAppend | pure_python.py:36-37 | the counted cells keep the column's order: those of `a + b` are those of `a` followed by those of `b` |
| TableSummary.CategoricalCellsOne | pure_python.py:36-37 | one cell is counted, raw, exactly when it is categorical |
| TableSummary.CleanSpec | pure_python.py:31-33 | cleaning leaves no comma and keeps every other character of the stripped cell; a cell is skipped exactly when it strips to commas only |
| TableSummary.Clean | pure_python.py:31 | `cell.strip().replace(",", "")`; its contract is stated by CleanSpec |
| TableSummary.NonBlank | pure_python.py:31-33 | the cells not skipped by `if clean == "": continue` are exactly the column's non-blank cells, no more of them than cells |
| TableSummary.ColumnPartition | pure_python.py:29-37 | every non-blank cell goes to exactly one side: numeric count plus categorical total is the number of non-blank cells |
| TableSummary.ColumnOfSnoc | pure_python.py:31-37 | one more cell is skipped when blank, appended as `float(clean)` when numeric, and counted under its raw text otherwise |
| TableSummary.ColumnCellsSnoc | pure_python.py:30 | a row adds its cell at column i only when it is long enough to have one |
| TableSummary.AccumulateRow | pure_python.py:30-37 | the cell loop fails exactly when the row has a non-blank cell beyond the header, and otherwise feeds each cell to its column |
| TableSummary.Accumulate | pure_python.py:26-37 | the nested loop fails exactly when some row does not fit the header, and otherwise leaves each column's numeric values and counter |
| TableSummary.Min | pure_python.py:46 | `min(vals)` is one of the values and at most each of them |
| TableSummary.Max | pure_python.py:47 | `max(vals)` is one of the values and at least each of them |
| TableSummary.SquaredDeviations | pure_python.py:49 | the sum of squared deviations is never negative |
| TableSummary.SumBounds | pure_python.py:45 | the sum lies between count times min and count times max |
| TableSummary.MeanBounds | pure_python.py:45 | the mean of values that lie between two bounds lies between them too |
| TableSummary.NumericOf | pure_python.py:44-49 | count is at least 1; the mean is the sum divided by the count; min and max are values bounding every value; the mean lies between them; the variance is at least 0, exactly 0 for one value, and uses the n - 1 divisor for more |
| TableSummary.ColumnSections | pure_python.py:40-61 | a numeric line exactly when some cell is numeric, and a categorical line exactly when some cell is categorical, so a column can have both |
| TableSummary.CategoricalLine | pure_python.py:62-63 | `unique` is the number of distinct raw categorical cells; `top5` holds min(5, unique) pairs (cell, occurrences), ranked by count then first appearance, with every cell left out behind them |
| TableSummary.NumericLines | pure_python.py:40-55 | the first reporting loop gives each column the numeric line of its values, and none when it has no values |
| TableSummary.CategoricalLines | pure_python.py:58-64 | the second reporting loop gives each column the categorical line of its counter, and none when the counter is empty |
| TableSummary.Summarize | pure_python.py:22-64 | `summarize` fails exactly when a row does not fit the header, and otherwise reports `SummaryOf` the rows |
| TableSummary.SummaryOf | pure_python.py:22-64 | the summary `summarize` reports; its contract is stated by ColumnSections and CategoricalLine, and Summarize is proved to compute it |
| GroupSummary.PresentIndicesSpec | pure_python.py:68-69 | the index list is as long as the key columns exactly when all are in the header, and then holds each one's first position |
| GroupSummary.PresentIndices | pure_python.py:68 | `[header.index(col) for col in group_cols if col in header]`; its contract is stated by PresentIndicesSpec |
| GroupSummary.GroupKeysSpec | pure_python.py:73-79 | the group keys are distinct, are exactly the rows' keys, and come in order of the first row having each |
| GroupSummary.MembersSpec | pure_python.py:76 | a group holds exactly the rows with its key |
| GroupSummary.GroupKeys | pure_python.py:73-79 | the keys of `groups`, in insertion order; its contract is stated by GroupKeysSpec and KeysSnoc |
| GroupSummary.Members | pure_python.py:76 | the rows appended to one group; its contract is stated by MembersSpec, MembersAppend and MembersSnoc |
| GroupSummary.MembersAppend | pure_python.py:74-76 | grouping keeps row order: the group of `a + b` is the group of `a` followed by the group of `b` |
| GroupSummary.GroupSizesSnoc | pure_python.py:76 | one more row adds one to the total size of any distinct key list holding its key, and nothing otherwise |
| GroupSummary.KeysSnoc | pure_python.py:74-76 | one more row adds its key to the group keys only when the key is new |
| GroupSummary.MembersSnoc | pure_python.py:76 | one more row joins its own group and no other |
| GroupSummary.UnseenKeyHasNoMembers | pure_python.py:76 | a key not yet seen has no rows |
| GroupSummary.GroupsPartition | pure_python.py:73-76 | every row lies in exactly one group: group sizes add up to the number of rows |
| GroupSummary.GroupRows | pure_python.py:73-76 | the grouping loop fails exactly when a row is too short for a key index, and otherwise yields the group keys in order with each key's rows |
| GroupSummary.SummariseGroups | pure_python.py:79-84 | the first min(limit, groups) groups are each summarised over their own rows; truncation exactly when more groups exist; a failing summary stops the loop |
| GroupSummary.GroupAndSummarize | pure_python.py:66-84 | nothing when a key column is missing; `KeyIndexError` exactly when a row is too short; otherwise the first `limit` groups in first-appearance order, each summarised over exactly its rows, truncated exactly when more exist |
| ColumnTypes.SampleRows | dataexploration.py:83-88 | the sample is the first min(100, n) data rows, in file order |
| ColumnTypes.NonEmptySpec | dataexploration.py:93 | the non-empty values are exactly the non-empty stripped values; each is already stripped; there are no more of them than values |
| ColumnTypes.NonEmptyAppend | dataexploration.py:93 | the non-empty values keep the values' order and multiplicity: those of `a + b` are those of `a` followed by those of `b` |
| ColumnTypes.NonEmptyOne | dataexploration.py:93 | one value adds its stripped form exactly when that is not empty |
| ColumnTypes.NonEmpty | dataexploration.py:93 | `[v.strip() for v in values if v.strip()]`; its contract is stated by NonEmptySpec, NonEmptyAppend and NonEmptyOne |
| ColumnTypes.ColumnValuesPresent | dataexploration.py:92-93 | the `''` padding for short rows never shows up: every non-empty value is the stripped cell of a row that has that column |
| ColumnTypes.ColumnValues | dataexploration.py:92 | `[row[i] if i < len(row) else '' for row in sample_rows]`; its contract is stated by ColumnValuesPresent |
| ColumnTypes.DigitLikeIff | dataexploration.py:97 | a value passes the digit test exactly when it has an ASCII digit and nothing but digits, `,`, `.` and `-` |
| ColumnTypes.ClassifyEmptyIff | dataexploration.py:95-106 | Empty exactly when the unique count is 0; the unique count is at most the number of values |
| ColumnTypes.ClassifyNumericIff | dataexploration.py:95-98 | a column with values is Numeric exactly when each value has a digit and nothing but digits and separators |
| ColumnTypes.ClassifyCategoricalIff | dataexploration.py:95-100 | Categorical exactly when some value fails the digit test and fewer than a tenth of the values are distinct |
| ColumnTypes.ClassifyTextIff | dataexploration.py:95-104 | Text exactly when some value fails the digit test, at least a tenth of the values are distinct, and the header holds none of "date", "time", "created" in any letter case |
| ColumnTypes.CategoricalNeedsRepeats | dataexploration.py:99-100 | Categorical only with more than 10 values and some value repeated |
| ColumnTypes.SeparatorsOnlyNotNumeric | dataexploration.py:97 | a value made only of `,` `.` `-` keeps a column from being Numeric |
| ColumnTypes.FewDistinct | dataexploration.py:99 | the 10% test; its contract is stated by ClassifyCategoricalIff, ClassifyTextIff and CategoricalNeedsRepeats |
| ColumnTypes.KeywordInLower | dataexploration.py:101 | `keyword in header.lower()` holds exactly when the keyword occurs in the header at some position with letter case ignored |
| ColumnTypes.HasTimeKeywordIff | dataexploration.py:101 | the header test holds exactly when "date", "time" or "created" occurs in the header in any letter case |
| ColumnTypes.HasTimeKeyword | dataexploration.py:101 | the keyword test on the header; its contract is stated by HasTimeKeywordIff |
| ColumnTypes.HeaderOnlyDecidesDateTime | dataexploration.py:95-104 | two headers give the same type unless both give DateTime or Text, so a numeric `created_at` column stays Numeric; DateTime exactly when the values are neither digit-like nor few-distinct and the header holds "date", "time" or "created" in any letter case |
| ColumnTypes.Classify | dataexploration.py:95-104 | the chain of tests; its contract is stated by ClassifyEmptyIff, ClassifyNumericIff, ClassifyCategoricalIff, HeaderOnlyDecidesDateTime and ClassifyTextIff, one lemma per outcome |
| ColumnTypes.ReportOfSpec | dataexploration.py:92-106 | a report line counts at most one distinct value per sampled row, is Empty exactly when it counts none, and is Categorical only with more than 10 sampled rows |
| ColumnTypes.IdentifyColumnTypes | dataexploration.py:77-107 | no report for a file with no header record; otherwise one line per header column, in order, from the first 100 data rows |
| ColumnTypes.ReportsBounded | dataexploration.py:83-106 | every reported column counts at most 100 distinct values, and at most one per data row |

## Left out

- File I/O and CSV parsing. The model takes the header and rows as values. The main loop over the three files (`pure_python.py:86-102`) is not modelled, nor is the missing-file check (`dataexploration.py:72-73`).
- Printing. Each summary line is a value; the field widths and two-decimal rounding of the printed text are not modelled.
- `is_number` and `float()`: Python's float syntax (signs, exponents, `inf`, `nan`, underscores) is not modelled. Both are the `NumberSyntax` parameter.
- TableSummary.NumericOf: computes mean and variance over exact reals. It does not model floating-point rounding, NaN or infinities. It gives the variance rather than `std = sqrt(variance)`, because Dafny has no square root on reals.
- PyStrings.Lower: over ASCII letters only; Unicode case mapping is not modelled.
- ColumnTypes.DigitLikeIff: `str.isdigit` over ASCII digits only; Unicode digits such as superscripts are not modelled.
- ColumnTypes.FewDistinct: the float test `unique < len * 0.1` is the integer test `10 * unique < len`. The two agree for the at most 100 sampled values.
- The group titles that `group_and_summarize` prints (`dict(zip(group_cols, key))`) are not modelled. The key itself is kept with each group.
- Output already printed before an exception is not modelled. Examples: the header line of a summary, or the title of the group whose summary fails.
- `explore_csv_structure` and `main` in `dataexploration.py` are not part of this model. They are file statistics and printing only.
- The plotting and dataframe scripts are not part of this model: `election_visualizations.py`, `pandas1.py`, `polars1.py`.
