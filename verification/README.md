# Normalisation pipeline of the DATASUS trend app, in Dafny

`app.py` is a small web app. It takes a wide DATASUS table of case counts with one row per place and one column per month. It builds a monthly or annual series of totals and hands that series to a Mann-Kendall trend test. This project models the data-normalisation part of that app as pure functions over strings and sequences, and proves what each step guarantees. The steps are:

- **Cleaning**: `limpar_valores` turns every `-` into `0`, deletes every `.` (the thousands separator) and turns every `,` (the decimal comma) into `.`.
- **Coercion**: `pd.to_numeric(..., errors='coerce').fillna(0)` reads the cleaned text as a number, and reads anything unparsable as 0.
- **Column selection**: the period columns are the ones whose name matches `^\d{6}`.
- **Melt**: the wide table becomes one record per (place row, period column).
- **Period parse**: `pd.to_datetime(..., format='%Y%m')` reads each period name as a month and raises on a name it cannot read.
- **Range filter**: keeps records whose month lies between the chosen start and end, both included.
- **Group-and-sum**: groups by month (`Mensal`) or by calendar year (`Anual`), sums the counts and sorts ascending.
- **Guard**: a series with fewer than four points stops the app before the trend test.

Modules, in pipeline order:

- `Digits` (digits.dfy): digit characters, the value of a digit string, and zero-padded rendering.
- `Cleaning` (cleaning.dfy): the three literal replacements of `limpar_valores`, and a one-character-at-a-time reference reading that they are proved equal to.
- `Numeric` (numeric.dfy): the numeral parser behind the coercion, and the coercion itself. Round trips from Brazilian-formatted counts (`1.234.567`, `1.234,56`, `-`) back to their values.
- `Periods` (periods.dfy): the `^\d{6}` column test, the `%Y%m` reader, its inverse, and the month index used as the monthly key.
- `Reshape` (reshape.dfy): the parsed table and `melt` with the first column as identifier.
- `Series` (series.dfy): group-and-sum of (key, count) points into a series with strictly increasing keys.
- `Pipeline` (pipeline.dfy): the steps composed. The end result is a period error, a series too short for the test, or a series ready for it. Reference definitions read straight off the wide table (`WideSum`, `WideKeys`) say what the series must contain.

The model starts from the CSV already split into a header and rows of cell text. The month range arrives as two `Date` values (year, month).

Behaviour of `app.py` that the model keeps:

- **Dashes**: every `-` is replaced, so `-5` reads as 5.
- **Period columns**: a period column's name starts with six digits and is read as `YYYYMM`.
- **Identifier column**: the first column is the identifier of `melt`. Its name is never read as a period and its cells are never counted, even when its name starts with six digits.
- **Unreadable period names**: a melted period name that is not a valid `YYYYMM` (month `13`, or a seventh character) makes `to_datetime` raise. The model returns it as a `PeriodError` outcome.
- **Missing months**: the series holds only the keys that occur in range.
- **Filter order**: the range filter runs on the records, before grouping.

## Model

| member | source | states |
|---|---|---|
| Cleaning.Clean | app.py:19-26 | No dash and no comma survive the cleaning. The output is shorter than the input by exactly the number of dots. It holds exactly as many points as the input held commas. |
| Cleaning.ReplaceChar | app.py:23 | A literal replacement keeps the length and changes exactly the positions holding the replaced character. |
| Cleaning.DeleteChar | app.py:24 | A literal deletion leaves none of the character behind, and every other character keeps its count. The length drops by the number of occurrences. A one-character string loses that character or stays as it is. A string without the character is unchanged. |
| Cleaning.DeleteCharConcat | app.py:24 | Deleting from `a + b` deletes from `a`, then from `b`, and joins the two. With the one-character case this fixes what is left and in what order. |
| Cleaning.CleanPositions | app.py:21-26 | Against the input with its dots removed, position by position: a dash becomes `0`, a comma becomes `.`, and every other character is kept. |
| Cleaning.DotlessPositions | app.py:23-25 | On a cell without dots the length is kept. Every dash sits where a `0` now sits. A `.` appears exactly where a comma was. Everything else is unchanged. |
| Cleaning.CleanIsCharwise | app.py:21-26 | The three whole-string passes equal an independent one-character-at-a-time reading. |
| Cleaning.CleanConcat | app.py:21-26 | The cleaning works cell text piece by piece: cleaning `a + b` is cleaning `a` followed by cleaning `b`. |
| Cleaning.PlainCellUnchanged | app.py:21-26 | A cell with no dash, dot or comma is left exactly as it is. |
| Cleaning.OrderMatters | app.py:24-25 | On any cell holding a comma, the source's order keeps a decimal point. Swapping the dot and comma passes loses it, so the two orders differ. |
| Cleaning.ThousandsExample | app.py:24-25 | `1.234,56` becomes `1234.56`. |
| Cleaning.DashExamples | app.py:23 | `-` becomes `0` and `-5` becomes `05`: every hyphen is replaced. |
| Numeric.ParseDecimal | app.py:59-62 | A parsed value is never negative. Which texts parse is fixed, in both directions, by `ParseDecimalAccepts`, and the value by `ParseDigits` and `ParsePointed`. |
| Numeric.ParseDigits | app.py:59-62 | A non-empty digit string parses to its natural-number value. |
| Numeric.ParseDecimalAccepts | app.py:59-62 | The parser accepts exactly the numerals, checked against an independent description: only digits and points, at most one point, and at least one digit. |
| Numeric.ParsePointed | app.py:59-62 | `a.b` with digit strings `a` and `b` parses to the value of the decimal `a.b`. |
| Numeric.Coerce | app.py:59-62 | Coercion never fails and is never negative. Anything that is not a numeral reads as 0. A digit string reads as its value. |
| Numeric.ThousandsRoundTrip | app.py:19-26 | Any natural number written with Brazilian thousands points (`1.234.567`) is cleaned and coerced back to itself. |
| Numeric.DecimalCommaRoundTrip | app.py:19-26 | A count with thousands points and a decimal comma reads as the decimal with the points dropped and the comma as decimal point. |
| Numeric.DashReadsAsZero | app.py:23 | The suppression sentinel `-` reads as the count 0. |
| Numeric.CellValue | app.py:57-62 | A cell's count, cleaned and then coerced, is never negative. Its value on Brazilian-formatted cells is fixed by `ThousandsRoundTrip`, `DecimalCommaRoundTrip` and `DashReadsAsZero`. |
| Numeric.FloatCellScaled | app.py:37-41 | A count that the CSV reader has already turned into a float, rendered as `n.0` by `astype(str)`, is read as `10 * n`. |
| Numeric.FloatFractionRead | app.py:37-41 | A float rendered with fraction digits `a.b` loses its point in the cleaning and is read as the digits `ab` run together, so `1.2` reads as 12. |
| Periods.PeriodColumns | app.py:45-48 | The selected columns are exactly the columns whose name starts with six digits, each once, in header order. |
| Periods.ValueColumns | app.py:50-55 | The columns melted as values are exactly the period columns after the first, each once, in header order. They are the selected period columns with the identifier column's own entry removed. |
| Periods.ParsePeriod | app.py:65-68 | A name that is read has six leading digits and denotes a month 01-12 of a four-digit year. |
| Periods.ParsePeriodAccepts | app.py:65-68 | A name is read if and only if it is exactly six digits and its last two digits are 01-12. |
| Periods.ParsePeriodValue | app.py:65-68 | The year is the first four digits in base ten and the month is the last two. |
| Periods.ParseFormat | app.py:65-68 | Every month with a four-digit year is read back from its `YYYYMM` name. |
| Periods.FormatParse | app.py:65-68 | Every name that is read is the `YYYYMM` name of the month read, so no two names denote one month. |
| Periods.MonthIndexRoundTrip | app.py:123-127 | The monthly key identifies the month. |
| Periods.MonthIndexOrder | app.py:123-127 | Comparing monthly keys is comparing months in (year, month) order, in both directions. |
| Reshape.MeltColumn | app.py:50-55 | One value column gives one record per row, in row order, each pairing the row's first cell with the column's name and the row's cell. |
| Reshape.Melt | app.py:50-55 | The melt has exactly (number of period columns) x (number of rows) records. |
| Reshape.MeltCovers | app.py:50-55 | Every (row, period column) cell appears in the melt, at position `c * rows + i`. |
| Reshape.MeltFrom | app.py:50-55 | Every melted record is the cell of some row under some period column, found at that position. |
| Series.GroupSum | app.py:123-127 | The grouped series has strictly increasing keys and the same keys as its input. Every key's sum is the input's sum for that key, and the grand total is kept. |
| Series.GroupSumPoints | app.py:134-138 | The grouped series has one point per distinct input key, and each point's total is the sum of the input entries with its key. |
| Series.GroupSumOrderFree | app.py:123-127 | Grouping does not depend on the input order: inputs that are rearrangements of each other group to the same series. |
| Series.SeriesUnique | app.py:123-127 | Two series with strictly increasing keys, the same keys and the same per-key sums are equal, so the sorted grouped series is determined by its sums. |
| Series.DistinctKeyCount | app.py:123-127 | A series with strictly increasing keys has as many points as distinct keys. |
| Pipeline.Normalise | app.py:57-68 | The period read succeeds exactly when every record's period name can be read, and then gives one observation per record. |
| Pipeline.NormaliseRecords | app.py:57-68 | Each record becomes, in order, the observation of its place, its month and its cleaned and coerced count. |
| Pipeline.NormaliseFails | app.py:65-68 | A failed read names the first record whose period name cannot be read, and every earlier record was readable. |
| Pipeline.FilterRange | app.py:113-116 | Every kept observation lies in the inclusive range, and there are no more of them than input observations. Which observations are kept, and how often, is stated by `FilterRangeKeeps`. |
| Pipeline.FilterRangeKeeps | app.py:113-116 | An observation in the range is kept exactly as often as it occurs. Every other observation is dropped. |
| Pipeline.KeySeparates | app.py:134-138 | Two months share a group exactly when they share the year (annual) or the year and month (monthly). |
| Pipeline.SeriesOf | app.py:123-138 | The series has strictly increasing keys. Its keys are exactly the keys of the in-range observations, so a month whose counts total 0 still has a point. Each key sums the in-range observations with that key. |
| Pipeline.SeriesTotal | app.py:123-138 | The series totals exactly the counts of the in-range observations. |
| Pipeline.Run | app.py:157-159 | A too-short outcome has fewer than four points and a ready one at least four. Either way the keys are strictly increasing. |
| Pipeline.RunFails | app.py:65-68 | The run fails on a period name exactly when there is a row and the name of some column after the first starts with six digits but is not a valid `YYYYMM`. |
| Pipeline.RunFailsOn | app.py:65-68 | With rows and some unreadable period name after the first, the run fails, and the name it reports is that of a period column, other than the first, that cannot be read. |
| Pipeline.FirstNameIgnored | app.py:50-55 | Renaming the identifier column leaves every run's outcome unchanged, even when the new name starts with six digits. |
| Pipeline.RunTotals | app.py:123-138 | When there are no rows or every period name after the first is a valid `YYYYMM`, the run does not fail. Its series then holds for every key the wide table's sum over the in-range period columns after the first with that key, and each point is that sum for its own key. |
| Pipeline.RunGuard | app.py:157-159 | With rows and every period name after the first a valid `YYYYMM`, the run does not fail, and the series has one point per distinct in-range key of the period columns after the first, and it reaches the trend test exactly when there are at least four such keys. |
| Pipeline.NoRowsNoSeries | app.py:50-68 | A table without rows reads no period name, never fails, and yields an empty, too-short series. |

## Left out

- The Streamlit interface (page setup, title, uploader, sidebar widgets, result table, chart, download button and `st.stop`, app.py:1-14, 31-35, 70-105, 181-237): presentation and control. The guard is modelled only as the `TooShort` outcome.
- CSV reading with `;` separator and ISO-8859-1 decoding (app.py:37-41): I/O. The model starts from the header and rows of cell text, apart from the float re-rendering shown under Findings.
- The STL mode (app.py:143-155): a `statsmodels` decomposition on floats, which is a foreign call.
- The Mann-Kendall and Hamed-Rao tests and the `tau` fallback (app.py:164-179): foreign `pymannkendall` calls.
- The fitted reference line (app.py:216-227): floating-point means and slopes, used only for plotting.
- Parsing of the range bounds (app.py:110-111): `pd.to_datetime` on free text is a library call. The bounds are taken as already-read (year, month) pairs, so a bound with a day other than the first is not modelled.
- Periods.ParsePeriod: accepts every four-digit year, including years outside the span pandas timestamps can hold (before 1677 or after 2262), which pandas refuses. That span is a property of the library's 64-bit nanosecond clock.
- Listing the identifier column among the value columns: when the first column's name starts with six digits, app.py:45-52 passes it to `melt` both as identifier and as value column. The model melts it only as the identifier. Library versions that raise on that overlap are not modelled.
- Numeric.Coerce: reads as 0 what `to_numeric` would accept beyond plain decimals, such as signs, exponents, surrounding blanks, and `inf`. After the cleaning such cells are rare, and a leading `-` is already a `0`.
- Counts are exact rationals (`real`), not 64-bit floats: rounding of large sums is not modelled.
- Duplicate column names and column labels that are not strings: pandas disambiguates or converts them, and the model takes header names as given text.
- `\d` in the column test also matches non-ASCII digits in Python. The model takes `0`-`9` only.

## Findings

| source | as written | input that shows it | evidently intended | confidence | as-written member | corrected member |
|---|---|---|---|---|---|---|
| app.py:37-41 | `read_csv` infers a float column when a column's cells all look numeric but some carry a thousands point (`1.234`) or are empty. `astype(str)` then renders the count 56 as `56.0`, and the cleaning deletes that point as a thousands separator. The cell `1.200` itself is read as the float 1.2, rendered `1.2`, and read as 12. `melt` joins the value columns into one, so an all-integer period column is turned into floats too (`5` becomes `5.0`, read as 50) when another melted column is float and none holds text. | The cell `56` in a column that also holds `1.234` reads as 560; the cell `1.200` reads as 12 | every count is read as the number written in the cell, as when the column is read as text | medium; not executed | Numeric.FloatCellScaled, Numeric.FloatFractionRead | Numeric.ThousandsRoundTrip |
