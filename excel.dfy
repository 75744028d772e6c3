/** What `LoadExcel` builds from a decoded worksheet once the file has been
    read: which columns count as numeric, which column is X, and which
    series and points come out. The loading method itself lives in the
    control class (module TrendControl); its result is stated through
    `ExcelOutcome` below. */
module ExcelBuilder {
  import opened Cells
  import opened SeriesStore

  /** One decoded worksheet, as the data table the reader builds with its
      first row used as the header: the column names, then the data rows,
      each cell given as the text `Convert.ToString` makes of it. */
  datatype Table = Table(columns: seq<string>, rows: seq<seq<string>>)
  {
    /** What every data table guarantees: each row has one cell per column,
        and column names are non-empty and distinct (the table names an
        unnamed column itself and refuses a duplicate). */
    ghost predicate WellFormed()
    {
      && (forall r :: 0 <= r < |rows| ==> |rows[r]| == |columns|)
      && (forall c :: 0 <= c < |columns| ==> columns[c] != "")
      && (forall c, d :: 0 <= c < d < |columns| ==> columns[c] != columns[d])
    }
  }

  ghost predicate AllWellFormed(tables: seq<Table>)
  {
    forall i :: 0 <= i < |tables| ==> tables[i].WellFormed()
  }

  /** The sheet that is read: the requested one when it exists, sheet 0 otherwise. */
  function SheetIndex(requested: int, count: nat): nat
  {
    if requested < 0 || requested >= count then 0 else requested
  }

  /** The cells of column `c`, top to bottom. */
  function Column(t: Table, c: nat): (cells: seq<string>)
    requires t.WellFormed() && c < |t.columns|
  {
    seq(|t.rows|, r requires 0 <= r < |t.rows| => t.rows[r][c])
  }

  /** The numeric columns: those whose cell in the first data row parses. */
  function NumericColumns(t: Table, parse: Parser): seq<nat>
    requires |t.rows| > 0
  {
    ParsedIndices(t.rows[0], parse)
  }

  /** The probe loop: one pass over the columns of the first data row,
      collecting the ones whose cell parses. */
  method ClassifyColumns(t: Table, parse: Parser) returns (numericCols: seq<nat>)
    requires t.WellFormed() && |t.rows| > 0
    ensures numericCols == NumericColumns(t, parse)
  {
    numericCols := [];
    var c := 0;
    while c < |t.columns|
      invariant c <= |t.columns|
      invariant numericCols == ParsedPrefix(t.rows[0], c, parse)
    {
      if |t.rows| > 0 && parse(t.rows[0][c]).Some? {
        numericCols := numericCols + [c];
      }
      c := c + 1;
    }
  }

  /** The X of row `r` on the numeric path: its X cell when that parses, the
      row index otherwise. */
  function XValue(t: Table, r: nat, xCol: nat, parse: Parser): real
    requires t.WellFormed() && r < |t.rows| && xCol < |t.columns|
  {
    match parse(t.rows[r][xCol])
    case Some(v) => v
    case None => r as real
  }

  /** The points of the series for column `yCol` over the first `n` rows:
      a row whose Y cell does not parse is skipped. */
  function ColumnPoints(t: Table, n: nat, xCol: nat, yCol: nat, parse: Parser): seq<Point>
    requires t.WellFormed() && n <= |t.rows| && xCol < |t.columns| && yCol < |t.columns|
  {
    if n == 0 then []
    else
      ColumnPoints(t, n - 1, xCol, yCol, parse) +
        match parse(t.rows[n - 1][yCol])
        case Some(y) => [Point(XValue(t, n - 1, xCol, parse), y)]
        case None => []
  }

  /** The first `k` series of the numeric path: X is column `num[0]`, and
      series j plots column `num[j + 1]` under that column's name. */
  function ColumnSeries(t: Table, num: seq<nat>, k: nat, parse: Parser): seq<Series>
    requires t.WellFormed() && k < |num|
    requires forall i :: 0 <= i < |num| ==> num[i] < |t.columns|
  {
    seq(k, j requires 0 <= j < k =>
      Series(t.columns[num[j + 1]], ColumnPoints(t, |t.rows|, num[0], num[j + 1], parse)))
  }

  /** The points of the fallback path over the first `n` rows: column 0 read
      as Y against the row index. */
  function IndexPoints(t: Table, n: nat, parse: Parser): seq<Point>
    requires t.WellFormed() && n <= |t.rows| && |t.columns| > 0
  {
    if n == 0 then []
    else
      IndexPoints(t, n - 1, parse) +
        match parse(t.rows[n - 1][0])
        case Some(y) => [Point((n - 1) as real, y)]
        case None => []
  }

  /** The name of the fallback series: the second column's name, or "Series1". */
  function FallbackName(t: Table): string
  {
    if |t.columns| > 1 then t.columns[1] else "Series1"
  }

  /** The store after the fallback path has seen `n` rows: the fallback
      series is created with its first point, so it exists only once some
      row has contributed. */
  function FallbackSeries(t: Table, n: nat, parse: Parser): seq<Series>
    requires t.WellFormed() && n <= |t.rows| && |t.columns| > 0
  {
    var ps := IndexPoints(t, n, parse);
    if ps == [] then [] else [Series(FallbackName(t), ps)]
  }

  /** One more row on the fallback path: a row whose column-0 cell parses
      adds its point as `AddPoint` does under the fallback name; any other
      row changes nothing. */
  lemma FallbackSeriesNext(t: Table, r: nat, parse: Parser)
    requires t.WellFormed() && r < |t.rows| && |t.columns| > 0
    ensures FallbackSeries(t, r + 1, parse) ==
      match parse(t.rows[r][0])
      case Some(y) => AppendPoint(FallbackSeries(t, r, parse), FallbackName(t), Point(r as real, y))
      case None => FallbackSeries(t, r, parse)
  {
    var ps := IndexPoints(t, r, parse);
    match parse(t.rows[r][0]) {
      case Some(y) =>
        var p := Point(r as real, y);
        assert IndexPoints(t, r + 1, parse) == ps + [p];
        if ps == [] {
          assert ps + [p] == [p];
        }
      case None =>
        assert IndexPoints(t, r + 1, parse) == ps + [];
        assert ps + [] == ps;
    }
  }

  /** The series built from a non-empty table with at least one column. */
  function ExcelSeries(t: Table, parse: Parser): seq<Series>
    requires t.WellFormed() && |t.rows| > 0 && |t.columns| > 0
  {
    var num := NumericColumns(t, parse);
    if |num| == 0 then FallbackSeries(t, |t.rows|, parse)
    else ColumnSeries(t, num, |num| - 1, parse)
  }

  /** What `LoadExcel` does with a workbook: `None` stands for a file that is
      missing or cannot be decoded. A workbook without sheets fails on its
      sheet lookup and an empty table is rejected, both before the store is
      cleared; a table with rows but no columns fails on reading column 0,
      after the clear. */
  function ExcelOutcome(workbook: Option<seq<Table>>, sheetIndex: int, parse: Parser): Outcome
    requires workbook.Some? ==> AllWellFormed(workbook.value)
  {
    if workbook.None? || |workbook.value| == 0 then Untouched
    else
      var t := workbook.value[SheetIndex(sheetIndex, |workbook.value|)];
      if |t.rows| == 0 then Untouched
      else if |t.columns| == 0 then Failed([])
      else Built(ExcelSeries(t, parse))
  }

  // ---------------------------------------------------------------------
  // Properties

  /** The store is left alone exactly when the file is missing or undecodable,
      the workbook has no sheets, or the chosen table has no data rows. */
  lemma RejectedBeforeClear(workbook: Option<seq<Table>>, sheetIndex: int, parse: Parser)
    requires workbook.Some? ==> AllWellFormed(workbook.value)
    ensures ExcelOutcome(workbook, sheetIndex, parse).Untouched? <==>
      (|| workbook.None?
       || |workbook.value| == 0
       || |workbook.value[SheetIndex(sheetIndex, |workbook.value|)].rows| == 0)
  {
  }

  /** A sheet index outside the workbook reads sheet 0. */
  lemma SheetIndexClamped(tables: seq<Table>, sheetIndex: int, parse: Parser)
    requires AllWellFormed(tables) && |tables| > 0
    requires sheetIndex < 0 || sheetIndex >= |tables|
    ensures ExcelOutcome(Some(tables), sheetIndex, parse) == ExcelOutcome(Some(tables), 0, parse)
  {
  }

  /** The numeric columns are exactly the columns whose first-row cell
      parses, in ascending order. */
  lemma NumericColumnsExact(t: Table, parse: Parser)
    requires t.WellFormed() && |t.rows| > 0
    ensures var num := NumericColumns(t, parse);
      && (forall i, j :: 0 <= i < j < |num| ==> num[i] < num[j])
      && (forall c :: 0 <= c < |t.columns| ==> (c in num <==> parse(t.rows[0][c]).Some?))
  {
    var num := NumericColumns(t, parse);
    forall c | 0 <= c < |t.columns| && c in num
      ensures parse(t.rows[0][c]).Some?
    {
      var i :| 0 <= i < |num| && num[i] == c;
    }
  }

  lemma {:induction false} ColumnPointsBound(t: Table, n: nat, xCol: nat, yCol: nat, parse: Parser)
    requires t.WellFormed() && n <= |t.rows| && xCol < |t.columns| && yCol < |t.columns|
    ensures |ColumnPoints(t, n, xCol, yCol, parse)| <= n
  {
    if n > 0 {
      ColumnPointsBound(t, n - 1, xCol, yCol, parse);
    }
  }

  /** A series of the numeric path holds one point per row whose Y cell
      parses, in row order: the point of row r is (X of row r, Y of row r). */
  lemma {:induction false} ColumnPointsByRow(t: Table, n: nat, xCol: nat, yCol: nat, parse: Parser)
    requires t.WellFormed() && n <= |t.rows| && xCol < |t.columns| && yCol < |t.columns|
    ensures var ps := ColumnPoints(t, n, xCol, yCol, parse);
      var rows := ParsedPrefix(Column(t, yCol), n, parse);
      && |ps| == |rows|
      && forall i :: 0 <= i < |ps| ==>
           ps[i] == Point(XValue(t, rows[i], xCol, parse), parse(Column(t, yCol)[rows[i]]).value)
  {
    if n > 0 {
      ColumnPointsByRow(t, n - 1, xCol, yCol, parse);
      assert Column(t, yCol)[n - 1] == t.rows[n - 1][yCol];
    }
  }

  /** Skips are per (row, series): the points of one series depend on its
      own Y column and the X column only, so a cell that fails to parse in
      some other column cannot remove any of them. */
  lemma {:induction false} ColumnPointsLocal(t: Table, u: Table, n: nat, xCol: nat, yCol: nat, parse: Parser)
    requires t.WellFormed() && u.WellFormed()
    requires n <= |t.rows| && n <= |u.rows|
    requires xCol < |t.columns| && yCol < |t.columns| && xCol < |u.columns| && yCol < |u.columns|
    requires forall r :: 0 <= r < n ==> t.rows[r][xCol] == u.rows[r][xCol] && t.rows[r][yCol] == u.rows[r][yCol]
    ensures ColumnPoints(t, n, xCol, yCol, parse) == ColumnPoints(u, n, xCol, yCol, parse)
  {
    if n > 0 {
      ColumnPointsLocal(t, u, n - 1, xCol, yCol, parse);
    }
  }

  /** Adding the next numeric column's series to the numeric path. */
  lemma ColumnSeriesNext(t: Table, num: seq<nat>, k: nat, parse: Parser)
    requires t.WellFormed() && k + 1 < |num|
    requires forall i :: 0 <= i < |num| ==> num[i] < |t.columns|
    requires forall i, j :: 0 <= i < j < |num| ==> num[i] < num[j]
    ensures Accepts(ColumnSeries(t, num, k, parse), t.columns[num[k + 1]])
    ensures ColumnSeries(t, num, k + 1, parse) ==
      ColumnSeries(t, num, k, parse) + [Series(t.columns[num[k + 1]], ColumnPoints(t, |t.rows|, num[0], num[k + 1], parse))]
  {
    var s := ColumnSeries(t, num, k, parse);
    var name := t.columns[num[k + 1]];
    HasIsMember(s, name);
    forall j | 0 <= j < |s|
      ensures Names(s)[j] != name
    {
      assert num[j + 1] < num[k + 1];
    }
  }

  /** The series of the numeric path have non-empty, distinct names. */
  lemma ColumnSeriesWellNamed(t: Table, num: seq<nat>, k: nat, parse: Parser)
    requires t.WellFormed() && k < |num|
    requires forall i :: 0 <= i < |num| ==> num[i] < |t.columns|
    requires forall i, j :: 0 <= i < j < |num| ==> num[i] < num[j]
    ensures WellNamed(ColumnSeries(t, num, k, parse))
  {
    var s := ColumnSeries(t, num, k, parse);
    forall i, j | 0 <= i < j < |s|
      ensures s[i].name != s[j].name
    {
      assert num[i + 1] < num[j + 1];
    }
  }

  /** The numeric path: with m >= 1 numeric columns there are m - 1 series,
      one per numeric column after the first, in column order, each named
      after its column and plotted against the first numeric column; with a
      single numeric column there are none. Each series has at most one
      point per row. */
  lemma NumericPathShape(t: Table, parse: Parser)
    requires t.WellFormed() && |t.rows| > 0 && |t.columns| > 0
    requires |NumericColumns(t, parse)| > 0
    ensures var num := NumericColumns(t, parse);
      var s := ExcelSeries(t, parse);
      && |s| == |num| - 1
      && (|num| == 1 ==> s == [])
      && (forall i :: 0 <= i < |s| ==>
            && s[i].name == t.columns[num[i + 1]]
            && s[i].points == ColumnPoints(t, |t.rows|, num[0], num[i + 1], parse)
            && |s[i].points| <= |t.rows|)
      && WellNamed(s)
  {
    var num := NumericColumns(t, parse);
    ColumnSeriesWellNamed(t, num, |num| - 1, parse);
    forall c | c in num
      ensures c < |t.columns| && |ColumnPoints(t, |t.rows|, num[0], c, parse)| <= |t.rows|
    {
      ColumnPointsBound(t, |t.rows|, num[0], c, parse);
    }
  }

  /** The fallback path holds one point per row whose column-0 cell parses,
      in row order, with the row index as X. */
  lemma {:induction false} IndexPointsByRow(t: Table, n: nat, parse: Parser)
    requires t.WellFormed() && n <= |t.rows| && |t.columns| > 0
    ensures var ps := IndexPoints(t, n, parse);
      var rows := ParsedPrefix(Column(t, 0), n, parse);
      && |ps| == |rows|
      && forall i :: 0 <= i < |ps| ==> ps[i] == Point(rows[i] as real, parse(Column(t, 0)[rows[i]]).value)
  {
    if n > 0 {
      IndexPointsByRow(t, n - 1, parse);
      assert Column(t, 0)[n - 1] == t.rows[n - 1][0];
    }
  }

  /** Row 0 never feeds the fallback series: the fallback path is taken only
      when the first data row's column-0 cell did not parse. */
  lemma FallbackSkipsFirstRow(t: Table, parse: Parser)
    requires t.WellFormed() && |t.rows| > 0 && |t.columns| > 0
    requires NumericColumns(t, parse) == []
    ensures var ps := IndexPoints(t, |t.rows|, parse);
      forall i :: 0 <= i < |ps| ==> 1 as real <= ps[i].x < |t.rows| as real
  {
    var col := Column(t, 0);
    var rows := ParsedPrefix(col, |t.rows|, parse);
    var ps := IndexPoints(t, |t.rows|, parse);
    assert parse(col[0]).None? by {
      NumericColumnsExact(t, parse);
      assert col[0] == t.rows[0][0];
    }
    IndexPointsByRow(t, |t.rows|, parse);
    forall i | 0 <= i < |ps|
      ensures 1 as real <= ps[i].x < |t.rows| as real
    {
      assert ps[i].x == rows[i] as real;
      assert rows[i] != 0;
    }
  }

  /** No fallback series when no row's column-0 cell parses. */
  lemma FallbackAbsent(t: Table, parse: Parser)
    requires t.WellFormed() && |t.rows| > 0 && |t.columns| > 0
    requires forall r :: 0 <= r < |t.rows| ==> parse(t.rows[r][0]).None?
    ensures IndexPoints(t, |t.rows|, parse) == []
  {
    var col := Column(t, 0);
    var rows := ParsedPrefix(col, |t.rows|, parse);
    IndexPointsByRow(t, |t.rows|, parse);
    forall c | 0 <= c < |t.rows|
      ensures parse(col[c]).None?
    {
      assert col[c] == t.rows[c][0];
    }
    NoneParsed(col, |t.rows|, parse);
  }

  /** A row whose column-0 cell parses gives the fallback series a point. */
  lemma FallbackPresent(t: Table, parse: Parser, r: nat)
    requires t.WellFormed() && r < |t.rows| && |t.columns| > 0
    requires parse(t.rows[r][0]).Some?
    ensures Point(r as real, parse(t.rows[r][0]).value) in IndexPoints(t, |t.rows|, parse)
  {
    var col := Column(t, 0);
    var rows := ParsedPrefix(col, |t.rows|, parse);
    var ps := IndexPoints(t, |t.rows|, parse);
    IndexPointsByRow(t, |t.rows|, parse);
    assert col[r] == t.rows[r][0];
    var i :| 0 <= i < |rows| && rows[i] == r;
    assert ps[i] == Point(r as real, parse(t.rows[r][0]).value);
  }

  /** The fallback path: without numeric columns there is at most one
      series, named after the second column (or "Series1"), holding the
      rows whose column-0 cell parses against their row index; it is missing
      exactly when no such row exists, and row 0 never contributes. */
  lemma FallbackPathShape(t: Table, parse: Parser)
    requires t.WellFormed() && |t.rows| > 0 && |t.columns| > 0
    requires NumericColumns(t, parse) == []
    ensures var s := ExcelSeries(t, parse);
      && |s| <= 1
      && (|s| == 0 <==> forall r :: 0 <= r < |t.rows| ==> parse(t.rows[r][0]).None?)
      && (|s| == 1 ==>
            && s[0].name == FallbackName(t)
            && s[0].points == IndexPoints(t, |t.rows|, parse)
            && forall i :: 0 <= i < |s[0].points| ==> 1 as real <= s[0].points[i].x < |t.rows| as real)
      && WellNamed(s)
  {
    FallbackSkipsFirstRow(t, parse);
    if r :| 0 <= r < |t.rows| && parse(t.rows[r][0]).Some? {
      FallbackPresent(t, parse, r);
    } else {
      FallbackAbsent(t, parse);
    }
    if |t.columns| > 1 {
      assert t.columns[1] != "";
    }
  }
}
