/** The chart control: its series collection, the three operations the host
    calls on it (`AddSeries`, `AddPoint`, `Clear`) and the two loaders that
    clear it and rebuild it from a spreadsheet or a delimited text file.
    Rendering, styling and the file readers are not modelled: the loaders
    take the already decoded workbook or the file's lines. */
module TrendControl {
  import opened Cells
  import opened Fields
  import opened SeriesStore
  import opened ExcelBuilder
  import opened CsvBuilder

  /** `Char.IsWhiteSpace`: the Unicode space separators, line and paragraph
      separators, the control characters U+0009 to U+000D, and U+0085. */
  predicate IsWhiteSpace(ch: char)
  {
    || ch == ' ' || '\t' <= ch <= '\r' || ch == '\U{85}' || ch == '\U{A0}' || ch == '\U{1680}'
    || '\U{2000}' <= ch <= '\U{200A}' || ch == '\U{2028}' || ch == '\U{2029}'
    || ch == '\U{202F}' || ch == '\U{205F}' || ch == '\U{3000}'
  }

  /** `string.IsNullOrWhiteSpace` for a name that is present: empty, or white space only. */
  predicate IsBlank(s: string)
  {
    forall i :: 0 <= i < |s| ==> IsWhiteSpace(s[i])
  }

  /** Which names `AddSeries` treats as blank: the empty name and names made
      only of white space (ASCII or Unicode), but not a name with any other
      character, and not the zero-width space U+200B, which is a format
      character rather than white space. */
  lemma BlankNames()
    ensures IsBlank("") && IsBlank(" ") && IsBlank("\t\r\n") && IsBlank("\U{A0}\U{2003}\U{3000}")
    ensures !IsBlank("a") && !IsBlank(" a ") && !IsBlank("\U{200B}")
  {
    assert !IsWhiteSpace("a"[0]);
    assert !IsWhiteSpace(" a "[1]);
    assert !IsWhiteSpace("\U{200B}"[0]);
  }

  class TrendChart {
    /** The chart's series, in the order they were created. */
    var series: seq<Series>

    ghost predicate Valid()
      reads this
    {
      WellNamed(series)
    }

    constructor ()
      ensures Valid() && series == []
    {
      series := [];
    }

    /** `Series.Add` of the chart library: a series without a name is given
        the first free default name, one whose name is already taken is
        refused (the library throws), and an accepted series is appended
        with no points. */
    method Insert(name: string) returns (ok: bool)
      requires Valid()
      modifies this
      ensures Valid()
      ensures ok == Accepts(old(series), name)
      ensures series == if ok then old(series) + [Series(AddedName(old(series), name), [])] else old(series)
    {
      ok := name == "" || !Has(series, name);
      if ok {
        AddKeepsWellNamed(series, name);
        series := series + [Series(AddedName(series, name), [])];
      }
    }

    /** `Series[k].Points.AddXY`: a point appended to the k-th series. */
    method AppendAt(k: nat, p: Point)
      requires Valid() && k < |series|
      modifies this
      ensures Valid()
      ensures series == AppendedAt(old(series), k, p)
    {
      series := series[k := Series(series[k].name, series[k].points + [p])];
    }

    /** Adds an empty series unless the name is blank or already taken;
        exactly one series is added otherwise, at the end. */
    method AddSeries(name: string)
      requires Valid()
      modifies this
      ensures Valid()
      ensures IsBlank(name) || Has(old(series), name) ==> series == old(series)
      ensures !IsBlank(name) && !Has(old(series), name) ==> series == old(series) + [Series(name, [])]
    {
      if IsBlank(name) {
        return;
      }
      if Has(series, name) {
        return;
      }
      var added := Insert(name);
    }

    /** Appends (x, y) to the named series, creating it first when it is
        missing; see `AppendPointEffect` for what that means for each series.
        An empty name is never carried by a series, so the chart library
        creates a series under the first free default name, and the lookup
        by the empty name then finds nothing and throws: `failed` reports
        that exception, which `AddPoint` does not catch. */
    method AddPoint(name: string, x: real, y: real) returns (failed: bool)
      requires Valid()
      modifies this
      ensures Valid()
      ensures failed <==> name == ""
      ensures name == "" ==> series == old(series) + [Series(DefaultName(old(series)), [])]
      ensures name != "" ==> series == AppendPoint(old(series), name, Point(x, y))
    {
      if !Has(series, name) {
        ghost var before := series;
        var added := Insert(name);
        if name != "" {
          FindAt(series, name, |before|);
          assert series == before + [Series(name, [])];
          assert series[|before|].points + [Point(x, y)] == [Point(x, y)];
          assert AppendedAt(series, |before|, Point(x, y)) == before + [Series(name, [Point(x, y)])];
        }
      }
      var k := Find(series, name);
      if k == |series| {
        return true;
      }
      AppendAt(k, Point(x, y));
      failed := false;
    }

    method Clear()
      modifies this
      ensures Valid() && series == []
    {
      series := [];
    }

    /** Loads one sheet of a workbook (`None`: the file is missing or cannot
        be decoded) and reports whether the load succeeded. */
    method LoadExcel(workbook: Option<seq<Table>>, sheetIndex: int, parse: Parser) returns (ok: bool)
      requires Valid()
      requires workbook.Some? ==> AllWellFormed(workbook.value)
      modifies this
      ensures Valid()
      ensures ok == ExcelOutcome(workbook, sheetIndex, parse).Built?
      ensures series == ExcelOutcome(workbook, sheetIndex, parse).After(old(series))
    {
      if workbook.None? {
        return false;
      }
      var tables := workbook.value;
      var index := sheetIndex;
      if index < 0 || index >= |tables| {
        index := 0;
      }
      if |tables| == 0 {
        // looking up sheet 0 of a workbook without sheets throws
        return false;
      }
      var table := tables[index];
      if |table.rows| == 0 {
        return false;
      }
      Clear();
      var numericCols := ClassifyColumns(table, parse);
      if |numericCols| == 0 {
        ok := PlotAgainstRowIndex(table, parse);
      } else {
        NumericColumnsExact(table, parse);
        PlotColumns(table, numericCols, parse);
        ok := true;
      }
    }

    /** The fallback path of `LoadExcel`: column 0 as Y against the row
        index, into one series created with its first point. A table without
        columns throws on its first cell read. */
    method PlotAgainstRowIndex(t: Table, parse: Parser) returns (ok: bool)
      requires Valid() && series == []
      requires t.WellFormed() && |t.rows| > 0
      modifies this
      ensures Valid()
      ensures ok == (|t.columns| > 0)
      ensures series == if ok then FallbackSeries(t, |t.rows|, parse) else []
    {
      if |t.columns| == 0 {
        // the read of the first row's cell 0 throws
        return false;
      }
      var r := 0;
      while r < |t.rows|
        invariant 0 <= r <= |t.rows|
        invariant Valid()
        invariant series == FallbackSeries(t, r, parse)
      {
        PlotRowIndexPoint(t, r, parse);
        r := r + 1;
      }
      return true;
    }

    /** One row of the fallback path: its column-0 cell, when it parses, is
        added through `AddPoint` at X = the row index. */
    method PlotRowIndexPoint(t: Table, r: nat, parse: Parser)
      requires t.WellFormed() && r < |t.rows| && |t.columns| > 0
      requires Valid() && series == FallbackSeries(t, r, parse)
      modifies this
      ensures Valid()
      ensures series == FallbackSeries(t, r + 1, parse)
    {
      FallbackSeriesNext(t, r, parse);
      var y := parse(t.rows[r][0]);
      if y.Some? {
        var sname := if |t.columns| > 1 then t.columns[1] else "Series1";
        assert sname == FallbackName(t);
        var failed := AddPoint(sname, r as real, y.value);
      }
    }

    /** The numeric path of `LoadExcel`: the first numeric column is X, and
        every other numeric column becomes a series of the rows whose Y cell
        parses. */
    method PlotColumns(t: Table, numericCols: seq<nat>, parse: Parser)
      requires Valid() && series == []
      requires t.WellFormed() && |t.rows| > 0
      requires |numericCols| > 0
      requires forall i :: 0 <= i < |numericCols| ==> numericCols[i] < |t.columns|
      requires forall i, j :: 0 <= i < j < |numericCols| ==> numericCols[i] < numericCols[j]
      modifies this
      ensures Valid()
      ensures series == ColumnSeries(t, numericCols, |numericCols| - 1, parse)
    {
      var i := 1;
      while i < |numericCols|
        invariant 1 <= i <= |numericCols|
        invariant Valid()
        invariant series == ColumnSeries(t, numericCols, i - 1, parse)
      {
        PlotColumn(t, numericCols, i, parse);
        i := i + 1;
      }
    }

    /** One numeric column after the first: a series named after it, then
        its rows plotted against column `numericCols[0]`. */
    method PlotColumn(t: Table, numericCols: seq<nat>, i: nat, parse: Parser)
      requires t.WellFormed() && 1 <= i < |numericCols|
      requires forall i :: 0 <= i < |numericCols| ==> numericCols[i] < |t.columns|
      requires forall i, j :: 0 <= i < j < |numericCols| ==> numericCols[i] < numericCols[j]
      requires Valid() && series == ColumnSeries(t, numericCols, i - 1, parse)
      modifies this
      ensures Valid()
      ensures series == ColumnSeries(t, numericCols, i, parse)
    {
      var colIdx := numericCols[i];
      var sname := t.columns[colIdx];
      ColumnSeriesNext(t, numericCols, i - 1, parse);
      ghost var prev := series;
      var added := Insert(sname);
      assert series == prev + [Series(sname, [])];
      FillColumn(t, numericCols[0], colIdx, parse);
      assert series == prev + [Series(sname, ColumnPoints(t, |t.rows|, numericCols[0], colIdx, parse))];
    }

    /** The row loop of the numeric path: fills the series just created
        (the last one) with the rows whose `yCol` cell parses, against the
        `xCol` cell or the row index. */
    method FillColumn(t: Table, xCol: nat, yCol: nat, parse: Parser)
      requires Valid() && |series| > 0 && series[|series| - 1].points == []
      requires t.WellFormed() && xCol < |t.columns| && yCol < |t.columns|
      modifies this
      ensures Valid()
      ensures series == old(series)[|old(series)| - 1 :=
        Series(old(series)[|old(series)| - 1].name, ColumnPoints(t, |t.rows|, xCol, yCol, parse))]
    {
      ghost var before := series;
      ghost var last := |series| - 1;
      var r := 0;
      while r < |t.rows|
        invariant 0 <= r <= |t.rows|
        invariant Valid()
        invariant series == before[last := Series(before[last].name, ColumnPoints(t, r, xCol, yCol, parse))]
      {
        var xVal: real;
        var xp := parse(t.rows[r][xCol]);
        if xp.Some? {
          xVal := xp.value;
        } else {
          xVal := r as real;
        }
        assert xVal == XValue(t, r, xCol, parse);
        ghost var ps := ColumnPoints(t, r, xCol, yCol, parse);
        var yp := parse(t.rows[r][yCol]);
        if yp.Some? {
          assert ColumnPoints(t, r + 1, xCol, yCol, parse) == ps + [Point(xVal, yp.value)];
          AppendAt(|series| - 1, Point(xVal, yp.value));
        } else {
          assert ColumnPoints(t, r + 1, xCol, yCol, parse) == ps + [];
          assert ps + [] == ps;
        }
        r := r + 1;
      }
    }

    /** Loads a delimited text file (`None`: the file is missing or
        unreadable) and reports whether the load succeeded. */
    method LoadCsv(file: Option<seq<string>>, sep: char, parse: Parser) returns (ok: bool)
      requires Valid()
      modifies this
      ensures Valid()
      ensures ok == CsvOutcome(file, sep, parse).Built?
      ensures series == CsvOutcome(file, sep, parse).After(old(series))
    {
      if file.None? {
        return false;
      }
      var lines := file.value;
      if |lines| == 0 {
        return false;
      }
      Clear();
      var headers := Split(lines[0], sep);
      var names := headers[1..];
      var c := 1;
      while c < |headers|
        invariant 1 <= c <= |headers|
        invariant Valid()
        invariant FirstRefused(names, c - 1) == FirstRefused(names, 0)
        invariant series == HeaderPrefix(names, c - 1)
      {
        HeaderStep(names, c - 1);
        var added := Insert(headers[c]);
        if !added {
          return false;
        }
        c := c + 1;
      }
      assert series == EmptySeries(Names(series));
      PlotLines(lines, Names(series), sep, parse);
      return true;
    }

    /** The data-line loop of `LoadCsv`: field 0 of line r is X (r - 1 when it
        does not parse), and field c feeds series c - 1 for every c below
        both the line's field count and the series count + 1. */
    method PlotLines(lines: seq<string>, ghost labels: seq<string>, sep: char, parse: Parser)
      requires Valid() && |lines| > 0 && series == EmptySeries(labels)
      modifies this
      ensures Valid()
      ensures series == CsvStore(lines, labels, |lines|, sep, parse)
    {
      var r := 1;
      assert series == CsvStore(lines, labels, 1, sep, parse);
      while r < |lines|
        invariant 1 <= r <= |lines|
        invariant Valid()
        invariant series == CsvStore(lines, labels, r, sep, parse)
      {
        PlotLine(lines, labels, r, sep, parse);
        r := r + 1;
      }
    }

    /** One data line of `LoadCsv`: field 0 is X (r - 1 when it does not
        parse), and field c feeds series c - 1 for every c below both the
        line's field count and the series count + 1. */
    method PlotLine(lines: seq<string>, ghost labels: seq<string>, r: nat, sep: char, parse: Parser)
      requires Valid() && 1 <= r < |lines| && series == CsvStore(lines, labels, r, sep, parse)
      modifies this
      ensures Valid()
      ensures series == CsvStore(lines, labels, r + 1, sep, parse)
    {
      var parts := Split(lines[r], sep);
      var x := (r - 1) as real;
      if |parts| > 0 && parse(parts[0]).Some? {
        x := parse(parts[0]).value;
      }
      assert x == LineX(lines, r, sep, parse);
      var c := 1;
      PartialStoreStart(lines, labels, r, sep, parse);
      while c < |parts| && c <= |series|
        invariant 1 <= c <= |labels| + 1
        invariant Valid()
        invariant series == PartialStore(lines, labels, r, c, sep, parse)
      {
        var y := parse(parts[c]);
        PartialStoreNext(lines, labels, r, c, sep, parse);
        if y.Some? {
          AppendAt(c - 1, Point(x, y.value));
        }
        c := c + 1;
      }
      PartialStoreDone(lines, labels, r, c, sep, parse);
    }
  }
}
