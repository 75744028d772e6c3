# Trend chart control: series store and table loaders

A model of the logic inside `CustomTrendControl`, a chart control that keeps a
collection of named (x, y) series and can rebuild that collection from a
spreadsheet sheet or from a delimited text file.

- **Series store** (`store.dfy`, `control.dfy`). The control's series are a
  `seq<Series>` field of the class `TrendControl.TrendChart`. Every series has
  a name and a list of points in the order they were added. The class
  invariant `Valid()` says that names are non-empty and distinct. `AddSeries`,
  `AddPoint` and `Clear` change the field in place. Their effects are stated
  through the value-level functions of module `SeriesStore` (`AppendPoint`,
  `PointsOf`, `Find`), and lemmas prove what the control promises about them.
- **Cell parsing** (`cells.dfy`). Every cell goes through `double.TryParse`.
  Here that parser is a parameter of type `string -> Option<real>`, so no
  property depends on number syntax or rounding. `ParsedPrefix` lists the
  positions whose cell parses. It is the shared shape of the numeric-column
  probe and of "the rows that feed a series".
- **Sheet loader** (`excel.dfy`, `TrendChart.LoadExcel`). The loader takes
  the decoded workbook: a list of tables, each made of column names and rows
  of cell texts, or `None` when the file is missing or cannot be decoded.
  Modelled behaviour:
  - the sheet index is clamped to sheet 0 when out of range;
  - an empty table is rejected before the clear;
  - columns are classified as numeric by probing the first data row;
  - then one of two paths runs: the numeric-column path or the row-index
    fallback.
- **Text loader** (`fields.dfy`, `csv.dfy`, `TrendChart.LoadCsv`). The loader
  takes the file's lines, or `None` when the file is missing. Modelled
  behaviour:
  - lines are split on the separator;
  - one series is created per header field after the first;
  - for each data line, field 0 becomes X (r − 1 when it does not parse);
  - fields are fed by position into the series.

Both loaders are imperative methods of the class. The result of each is tied
to a value-level description, `ExcelOutcome` or `CsvOutcome`. An `Outcome`
takes one of three forms:
- `Untouched`: rejected before the clear, so the store is kept;
- `Failed(left)`: failed after the clear, leaving `left` behind;
- `Built(result)`: the load succeeded and built `result`.

Each method returns `true` exactly for `Built`.

Two behaviours of the code are worth spelling out:
- **Header names in the text loader.** Every header field after the first is
  handed to the chart library's `Series.Add` as a series name
  (CustomTrendControl.cs:170-171). The library gives a series with an empty
  name the first free default name, "Series1", "Series2" and so on. It
  refuses a non-empty name that a series already carries, by throwing. The
  catch-all handler then returns false, so the load fails after the clear and
  keeps the series created before the refused name (`CsvBuilder.HeaderSeries`).
- **Zero-column sheet.** A sheet with data rows but no columns fails on its
  first cell read, after the clear. The model gives `Failed([])` for it.

## Model

| member | source | states |
|---|---|---|
| TrendControl.TrendChart.AddSeries | CustomTrendControl.cs:42-51 | A blank name (empty or white space only) or a name already present leaves the store unchanged. Otherwise exactly one empty series with that name is appended, and names stay non-empty and distinct. |
| TrendControl.TrendChart.AddPoint | CustomTrendControl.cs:55-64 | For a non-empty name the new store is `AppendPoint(old, name, (x, y))`: when the name is absent, an empty series is first appended under it, then (x, y) goes to the end of that series. For the empty name the library appends an empty series under `DefaultName(old)`, the lookup by the empty name then fails, and the method reports that failure. Names stay non-empty and distinct. |
| SeriesStore.AppendPointEffect | CustomTrendControl.cs:55-64 | After `AddPoint`, the named series' points are the old points followed by (x, y). The series sits at the old position, or at the end when it is new. Every other position and every other name's points are unchanged. Non-empty, distinct names are preserved. |
| TrendControl.TrendChart.Clear | CustomTrendControl.cs:67-70 | Afterwards the store holds no series. |
| TrendControl.TrendChart.Insert | CustomTrendControl.cs:170-171 | The chart library's `Series.Add` accepts a series exactly when its name is empty or not yet taken, and appends it with no points under `AddedName`: the name itself, or the first free default name when it is empty. A refused name leaves the store unchanged and is reported (the library throws). Names stay non-empty and distinct. |
| SeriesStore.FindFrom | CustomTrendControl.cs:57 | The name lookup returns the first position holding the name, or the end when no series has it. |
| SeriesStore.HasIsMember | CustomTrendControl.cs:45 | `IsUniqueName` is false exactly when the name is among the series names. |
| TrendControl.TrendChart.LoadExcel | CustomTrendControl.cs:90-143 | Returns true exactly when `ExcelOutcome` is `Built`. The new store is that outcome applied to the old store. |
| ExcelBuilder.RejectedBeforeClear | CustomTrendControl.cs:90-95 | The store is kept exactly when the workbook is missing, has no sheets, or the chosen table has no data rows. These are the checks that come before the clear. |
| ExcelBuilder.SheetIndexClamped | CustomTrendControl.cs:90 | A sheet index below 0 or at least the sheet count loads sheet 0. |
| ExcelBuilder.ClassifyColumns | CustomTrendControl.cs:98-105 | The probe loop returns exactly `NumericColumns`, the columns whose first-row cell parses. |
| ExcelBuilder.NumericColumnsExact | CustomTrendControl.cs:98-105 | The numeric columns are in strictly ascending order. A column is listed if and only if its first-data-row cell parses. |
| Cells.ParsedPrefix | CustomTrendControl.cs:99-105 | The listed indices are below the bound, strictly ascending and parse. Every index below the bound that parses is listed. |
| Cells.NoneParsed | CustomTrendControl.cs:99-105 | When no cell parses, the probe lists nothing. |
| ExcelBuilder.NumericPathShape | CustomTrendControl.cs:124-142 | With m ≥ 1 numeric columns there are m − 1 series, one per numeric column after the first, in column order. With m = 1 there are none. Each series is named after its column, holds `ColumnPoints` against the first numeric column, and has at most one point per row. Names are distinct. |
| TrendControl.TrendChart.PlotColumns | CustomTrendControl.cs:125-142 | The numeric-path loop builds exactly `ColumnSeries` for all numeric columns after the first. |
| TrendControl.TrendChart.PlotColumn | CustomTrendControl.cs:129-141 | One iteration of the column loop appends the next column's series, complete with its points. |
| TrendControl.TrendChart.FillColumn | CustomTrendControl.cs:133-141 | The row loop replaces the just-created series' empty point list with `ColumnPoints` over all rows and leaves the other series alone. |
| ExcelBuilder.ColumnSeriesNext | CustomTrendControl.cs:129-132 | The next column's name is accepted by the store, because it differs from every earlier series name. Its series extends the list by one at the end. |
| ExcelBuilder.ColumnSeriesWellNamed | CustomTrendControl.cs:130-132 | The series of the numeric path have non-empty, distinct names. |
| ExcelBuilder.ColumnPointsByRow | CustomTrendControl.cs:133-141 | A series holds one point per row whose Y cell parses, in row order. The point's X is the parsed X cell, or the row index when that cell does not parse. |
| ExcelBuilder.ColumnPointsBound | CustomTrendControl.cs:133-141 | A series has at most as many points as the table has rows. |
| ExcelBuilder.ColumnPointsLocal | CustomTrendControl.cs:136-139 | A series depends only on its own Y column and the X column. An unparseable cell in another column cannot remove its points. |
| TrendControl.TrendChart.PlotAgainstRowIndex | CustomTrendControl.cs:108-121 | On the fallback path, a table with columns gives exactly `FallbackSeries` over all rows and returns true. A table with no columns returns false and leaves the store empty. |
| TrendControl.TrendChart.PlotRowIndexPoint | CustomTrendControl.cs:112-119 | One row of the fallback loop adds the row's point through `AddPoint` when its column-0 cell parses, and changes nothing otherwise. |
| ExcelBuilder.FallbackSeriesNext | CustomTrendControl.cs:113-118 | One more row, seen as `AddPoint` on the fallback name, or no change when column 0 does not parse. |
| ExcelBuilder.FallbackPathShape | CustomTrendControl.cs:108-121 | The fallback path gives at most one series, named after the second column or "Series1". It holds the rows whose column-0 cell parses, against the row index. It is missing exactly when no such row exists. Its X values lie in [1, rows), and its name is non-empty. |
| ExcelBuilder.IndexPointsByRow | CustomTrendControl.cs:110-119 | The fallback series holds (r, y) for each row r whose column-0 cell parses, in row order. |
| ExcelBuilder.FallbackSkipsFirstRow | CustomTrendControl.cs:103-113 | Row 0 never contributes to the fallback series, because its column-0 cell failed the numeric probe. |
| ExcelBuilder.FallbackAbsent | CustomTrendControl.cs:110-119 | When no row's column-0 cell parses, there are no points. |
| ExcelBuilder.FallbackPresent | CustomTrendControl.cs:113-118 | Each row whose column-0 cell parses contributes its (r, y) point. |
| TrendControl.TrendChart.LoadCsv | CustomTrendControl.cs:162-184 | Returns true exactly when `CsvOutcome` is `Built`. The new store is that outcome applied to the old store. |
| CsvBuilder.EmptyFileUntouched | CustomTrendControl.cs:160-162 | A missing file or a file with no lines leaves the store unchanged. |
| CsvBuilder.HeaderSeries | CustomTrendControl.cs:164-172 | When the load succeeds there is one series per header field after the first, in order, and each non-empty field names its series. When it fails, the store keeps the empty series created before some non-empty field that an earlier series already carries. In every case the names are non-empty and distinct. |
| CsvBuilder.FirstRefused | CustomTrendControl.cs:168-172 | Gives the position of the first header name the chart refuses, that is a non-empty name already carried by a series created before it, or the name count when all are accepted. Every name before that position is accepted. |
| CsvBuilder.HeaderPrefix | CustomTrendControl.cs:168-172 | The series the header loop has created from the first k names: k empty series, each carrying its non-empty header name. |
| CsvBuilder.HeaderStep | CustomTrendControl.cs:170-171 | Creating the next header series succeeds exactly when the first refused name lies further on. The store then grows by that one empty series. |
| TrendControl.TrendChart.PlotLines | CustomTrendControl.cs:173-183 | The data-line loop turns the empty header series into exactly `CsvStore` over all data lines. |
| TrendControl.TrendChart.PlotLine | CustomTrendControl.cs:175-182 | One data line extends each series by that line's points and nothing else. |
| CsvBuilder.CsvPointsNext | CustomTrendControl.cs:176-181 | For a field the line has, data line r appends (X, y) to the series fed by that field when the field parses, and nothing otherwise. X is the parsed field 0, or r − 1. |
| CsvBuilder.PartialStoreNext | CustomTrendControl.cs:178-181 | Field c of a data line feeds series c − 1, and only that series. |
| CsvBuilder.PartialStoreDone | CustomTrendControl.cs:178 | Once the line's fields or the series run out, the remaining series are unchanged by the line. |
| CsvBuilder.ShortLineFeedsPrefix | CustomTrendControl.cs:178 | A series whose field is beyond the line's length gets nothing from that line. |
| CsvBuilder.TrailingFieldsIgnored | CustomTrendControl.cs:178 | Fields beyond the header's width are ignored. Two files with the same header whose lines agree on those fields load identically. |
| CsvBuilder.CsvPointsLocal | CustomTrendControl.cs:176-181 | A series depends only on field 0 and its own field of each data line. |
| CsvBuilder.CsvPointsBound | CustomTrendControl.cs:173-183 | A series has at most one point per data line. |
| Fields.Split | CustomTrendControl.cs:166 | `String.Split` on one character: at least one field, and no field contains the separator. |
| Fields.JoinSplit | CustomTrendControl.cs:175 | Joining the fields of a line back with the separator gives the line. |
| Fields.SplitJoin | CustomTrendControl.cs:175 | Splitting the join of separator-free fields gives back those fields. |
| TrendControl.BlankNames | CustomTrendControl.cs:44 | `IsNullOrWhiteSpace` as modelled, on these examples: the empty name and names of ASCII or Unicode white space only are blank; a name with a letter, or the zero-width space U+200B, is not. |
| TrendControl.TrendChart.AppendAt | CustomTrendControl.cs:181 | `Points.AddXY` on an existing series appends the point to that series alone and keeps names non-empty and distinct. |
| SeriesStore.FreeLabelFrom | CustomTrendControl.cs:170-171 | The default name the library picks for an unnamed series is the first "Series<n>", n ≥ 1, that no series carries; such an n always exists. |
| SeriesStore.AddedName | CustomTrendControl.cs:170-171 | The name an accepted series ends up with is non-empty: the given name when there is one, otherwise a default name no series carries yet. |
| SeriesStore.AddKeepsWellNamed | CustomTrendControl.cs:170-171 | Adding an accepted series keeps names non-empty and distinct, and the new name is then present. |
| SeriesStore.DefaultNameAfterLabels | CustomTrendControl.cs:170-171 | When the series so far are "Series1" … "Series<k>" in order, the next default name is "Series<k+1>". |
| SeriesStore.DecimalStringsDiffer | CustomTrendControl.cs:170-171 | Distinct numbers have distinct decimal texts, so distinct default names. |
| CsvBuilder.HeaderPrefixWellNamed | CustomTrendControl.cs:168-172 | While every header name so far was accepted, the created series have non-empty, distinct names. |
| CsvBuilder.HeaderPrefixStep | CustomTrendControl.cs:170-171 | One more accepted header name keeps the created series well named. |
| CsvBuilder.NamedPrefix | CustomTrendControl.cs:168-172 | Non-empty header names each keep their own name in the created series, in order. |
| CsvBuilder.DistinctNamesAccepted | CustomTrendControl.cs:168-172 | Non-empty, pairwise distinct header names are all accepted, and the series carry exactly those names. |
| CsvBuilder.HeaderSeriesDistinct | CustomTrendControl.cs:164-172 | A header whose fields after the first are non-empty and pairwise distinct loads, with one series per field named by it, in order. |
| CsvBuilder.HeaderDuplicateFails | CustomTrendControl.cs:164-172 | A non-empty header field repeating an earlier one makes the load fail. |
| CsvBuilder.RefusedIsTaken | CustomTrendControl.cs:170-171 | The first refused header name is non-empty and already carried by an earlier series. |
| CsvBuilder.HeaderSeriesBuilt | CustomTrendControl.cs:164-184 | A load that succeeds gives one series per header name, each non-empty name kept, with non-empty, distinct names. |
| CsvBuilder.AcceptedStore | CustomTrendControl.cs:168-184 | The store built under the names of a fully accepted header has one series per name, keeps every non-empty name, and is well named. |
| CsvBuilder.HeaderSeriesFailed | CustomTrendControl.cs:164-172 | A load that fails leaves the series created before a non-empty name an earlier series already carries, and they are well named. |
| CsvBuilder.UnnamedAccepted | CustomTrendControl.cs:168-172 | Header fields that are all empty are all accepted. |
| CsvBuilder.UnnamedHeaders | CustomTrendControl.cs:168-172 | Header fields that are all empty load as "Series1", "Series2", … in order. |
| CsvBuilder.FedLines | CustomTrendControl.cs:176-181 | Lists exactly the data lines whose field exists and parses, in ascending order. |
| CsvBuilder.CsvPointsByLine | CustomTrendControl.cs:173-183 | A series holds one point per data line whose field exists and parses, in line order: that line's X and the parsed field. |

## Left out

- Chart, axis, legend and docking setup, and the COM attributes. These are user-interface plumbing with no effect on the series.
- Registration of the code-page encoding provider. It is a process-wide side effect of a library.
- File access and decoding. `File.Exists`, `File.Open`, `ReadAllLines` and the spreadsheet reader become inputs: an `Option` holding the decoded tables or the lines, where `None` means the file is missing or cannot be decoded. Reader behaviour such as naming unnamed or duplicate columns appears only as the `Table.WellFormed` assumption: names are non-empty and distinct, and rows are as wide as the header.
- `double.TryParse` and floating point. Parsing is an arbitrary function from text to an optional real, so culture, rounding, NaN and infinities are not modelled. `Convert.ToString` of a cell is folded into the table's cell texts.
- The chart type passed to `AddSeries` and set on new series. It is styling only. `Enum.Parse` throwing on an unknown type name is not modelled.
- TrendControl.TrendChart.AddSeries, TrendControl.TrendChart.AddPoint: there is no null string in the model. The null case of `IsNullOrWhiteSpace` in `AddSeries` appears only as the empty string. `AddPoint(null)` passes the uniqueness check and then the library rejects the null name when the series is built; that uncaught exception is not modelled.
- The `?? "Series{colIdx}"` fallback of the numeric path. A data column name is never null, so the branch cannot be taken; the column name is used directly.
- Exceptions from the chart library other than a refused series name and a failed lookup by name. A taken non-empty name is refused, which the loaders' catch-all handler turns into a failed load; the lookup by the empty name in `AddPoint` fails, which `AddPoint` reports as `failed`.
- Line splitting of the text file on line terminators. The loader takes the lines already split.
