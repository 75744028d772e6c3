/** What `LoadCSV` builds from the lines of a delimited text file: one series
    per header field after the first, and for every data line a point for
    each of those series whose field is present and parses. The loading
    method itself lives in the control class (module TrendControl); its
    result is stated through `CsvOutcome` below. */
module CsvBuilder {
  import opened Cells
  import opened Fields
  import opened SeriesStore

  /** The series the header loop has created from names[..k] when the chart
      accepted each of them: an empty series per name, under the name itself
      or, for an empty name, under the default name the chart picks. */
  function HeaderPrefix(names: seq<string>, k: nat): (s: seq<Series>)
    requires k <= |names|
    ensures |s| == k
    ensures forall i :: 0 <= i < k ==> s[i].points == []
    ensures forall i :: 0 <= i < k && names[i] != "" ==> s[i].name == names[i]
  {
    if k == 0 then []
    else
      var prev := HeaderPrefix(names, k - 1);
      prev + [Series(AddedName(prev, names[k - 1]), [])]
  }

  /** Creating the header series one by one from position `k` on: the
      position of the first name the chart refuses (a non-empty name that an
      earlier series already carries), or |names| when every name is accepted. */
  function FirstRefused(names: seq<string>, k: nat): (m: nat)
    requires k <= |names|
    ensures k <= m <= |names|
    ensures forall i :: k <= i < m ==> Accepts(HeaderPrefix(names, i), names[i])
    ensures m < |names| ==> !Accepts(HeaderPrefix(names, m), names[m])
    decreases |names| - k
  {
    if k == |names| || !Accepts(HeaderPrefix(names, k), names[k]) then k
    else FirstRefused(names, k + 1)
  }

  /** Field `c` of line `r`, or `None` when the line is too short. */
  function FieldAt(lines: seq<string>, r: nat, c: nat, sep: char): Option<string>
    requires r < |lines|
  {
    var parts := Split(lines[r], sep);
    if c < |parts| then Some(parts[c]) else None
  }

  /** The X of data line `r`: its first field when that parses, `r - 1` otherwise. */
  function LineX(lines: seq<string>, r: nat, sep: char, parse: Parser): real
    requires r < |lines|
  {
    match parse(Split(lines[r], sep)[0])
    case Some(v) => v
    case None => (r - 1) as real
  }

  /** What data line `r` adds to the series fed by field `c`. */
  function LinePoint(lines: seq<string>, r: nat, c: nat, sep: char, parse: Parser): seq<Point>
    requires r < |lines|
  {
    match FieldAt(lines, r, c, sep)
    case None => []
    case Some(f) =>
      match parse(f)
      case Some(y) => [Point(LineX(lines, r, sep, parse), y)]
      case None => []
  }

  /** The points of the series fed by field `c` after data lines 1 .. m - 1. */
  function CsvPoints(lines: seq<string>, m: nat, c: nat, sep: char, parse: Parser): seq<Point>
    requires 1 <= m <= |lines|
  {
    if m == 1 then []
    else CsvPoints(lines, m - 1, c, sep, parse) + LinePoint(lines, m - 1, c, sep, parse)
  }

  /** The store after data lines 1 .. m - 1: series j carries `labels[j]`
      and is fed by field j + 1. */
  function CsvStore(lines: seq<string>, labels: seq<string>, m: nat, sep: char, parse: Parser): seq<Series>
    requires 1 <= m <= |lines|
  {
    seq(|labels|, j requires 0 <= j < |labels| => Series(labels[j], CsvPoints(lines, m, j + 1, sep, parse)))
  }

  /** The series names a header line asks for: its fields after the first. */
  function HeaderNames(lines: seq<string>, sep: char): seq<string>
    requires |lines| > 0
  {
    Split(lines[0], sep)[1..]
  }

  /** What `LoadCSV` does with a file: `None` stands for a file that is
      missing or unreadable. A file with no lines is rejected before the
      clear. A header name the chart refuses stops the load after the clear,
      leaving the series created before it; otherwise the series carry the
      names the header loop gave them. */
  function CsvOutcome(file: Option<seq<string>>, sep: char, parse: Parser): Outcome
  {
    if file.None? || |file.value| == 0 then Untouched
    else
      var lines := file.value;
      var names := HeaderNames(lines, sep);
      var k := FirstRefused(names, 0);
      if k < |names| then Failed(HeaderPrefix(names, k))
      else Built(CsvStore(lines, Names(HeaderPrefix(names, |names|)), |lines|, sep, parse))
  }

  // ---------------------------------------------------------------------
  // Properties

  /** A missing file or a file with no lines leaves the store as it was. */
  lemma EmptyFileUntouched(file: Option<seq<string>>, sep: char, parse: Parser)
    requires file.None? || file.value == []
    ensures CsvOutcome(file, sep, parse) == Untouched
  {
  }

  /** While every name so far was accepted, the created series have
      non-empty, distinct names. */
  lemma {:induction false} HeaderPrefixWellNamed(names: seq<string>, k: nat)
    requires k <= |names|
    requires forall i :: 0 <= i < k ==> Accepts(HeaderPrefix(names, i), names[i])
    ensures WellNamed(HeaderPrefix(names, k))
  {
    if k > 0 {
      assert Accepts(HeaderPrefix(names, k - 1), names[k - 1]);
      HeaderPrefixWellNamed(names, k - 1);
      HeaderPrefixStep(names, k);
    }
  }

  /** One accepted name keeps the created series well named. */
  lemma HeaderPrefixStep(names: seq<string>, k: nat)
    requires 0 < k <= |names|
    requires WellNamed(HeaderPrefix(names, k - 1))
    requires Accepts(HeaderPrefix(names, k - 1), names[k - 1])
    ensures WellNamed(HeaderPrefix(names, k))
  {
    var prev := HeaderPrefix(names, k - 1);
    AddKeepsWellNamed(prev, names[k - 1]);
    assert HeaderPrefix(names, k) == prev + [Series(AddedName(prev, names[k - 1]), [])];
  }

  /** Non-empty names each keep their own name in the created series. */
  lemma {:induction false} NamedPrefix(names: seq<string>, k: nat)
    requires k <= |names|
    requires forall i :: 0 <= i < k ==> names[i] != ""
    ensures Names(HeaderPrefix(names, k)) == names[..k]
  {
    var p := HeaderPrefix(names, k);
    assert forall i :: 0 <= i < k ==> Names(p)[i] == names[..k][i];
  }

  /** Non-empty, distinct names are all accepted, each under its own name. */
  lemma DistinctNamesAccepted(names: seq<string>)
    requires forall i :: 0 <= i < |names| ==> names[i] != ""
    requires forall i, j :: 0 <= i < j < |names| ==> names[i] != names[j]
    ensures FirstRefused(names, 0) == |names|
    ensures Names(HeaderPrefix(names, |names|)) == names
  {
    forall k | 0 <= k < |names|
      ensures Accepts(HeaderPrefix(names, k), names[k])
    {
      NamedPrefix(names, k);
      HasIsMember(HeaderPrefix(names, k), names[k]);
      forall i | 0 <= i < k
        ensures names[..k][i] != names[k]
      {
      }
    }
    NamedPrefix(names, |names|);
    assert names[..|names|] == names;
  }

  /** Header names that are non-empty and distinct all load: one series per
      name after the first field, named by it, in header order. */
  lemma HeaderSeriesDistinct(lines: seq<string>, sep: char, parse: Parser)
    requires |lines| > 0
    requires forall i :: 0 <= i < |HeaderNames(lines, sep)| ==> HeaderNames(lines, sep)[i] != ""
    requires forall i, j :: 0 <= i < j < |HeaderNames(lines, sep)| ==> HeaderNames(lines, sep)[i] != HeaderNames(lines, sep)[j]
    ensures var o := CsvOutcome(Some(lines), sep, parse);
      && o.Built?
      && |o.result| == |Split(lines[0], sep)| - 1
      && Names(o.result) == HeaderNames(lines, sep)
  {
    DistinctNamesAccepted(HeaderNames(lines, sep));
  }

  /** A non-empty header name repeating an earlier one makes the load fail. */
  lemma HeaderDuplicateFails(lines: seq<string>, sep: char, parse: Parser, i: nat, j: nat)
    requires |lines| > 0
    requires i < j < |HeaderNames(lines, sep)|
    requires HeaderNames(lines, sep)[i] != "" && HeaderNames(lines, sep)[i] == HeaderNames(lines, sep)[j]
    ensures CsvOutcome(Some(lines), sep, parse).Failed?
  {
    var names := HeaderNames(lines, sep);
    var p := HeaderPrefix(names, j);
    assert p[i].name == names[j];
    assert Has(p, names[j]);
  }

  /** The first refused header name is a non-empty name that an earlier
      series already carries. */
  lemma RefusedIsTaken(names: seq<string>)
    ensures var k := FirstRefused(names, 0);
      k < |names| ==> names[k] != "" && Has(HeaderPrefix(names, k), names[k])
  {
  }

  /** A header line that loads gives one series per name after the first
      field, carrying that name when it is non-empty, with names non-empty
      and distinct. */
  lemma HeaderSeriesBuilt(lines: seq<string>, sep: char, parse: Parser)
    requires |lines| > 0 && CsvOutcome(Some(lines), sep, parse).Built?
    ensures var names := HeaderNames(lines, sep);
      var r := CsvOutcome(Some(lines), sep, parse).result;
      && |r| == |names|
      && (forall j :: 0 <= j < |names| && names[j] != "" ==> r[j].name == names[j])
      && WellNamed(r)
  {
    AcceptedStore(HeaderNames(lines, sep), lines, sep, parse);
  }

  /** The store built under the names of a fully accepted header. */
  lemma AcceptedStore(names: seq<string>, lines: seq<string>, sep: char, parse: Parser)
    requires |lines| > 0
    requires FirstRefused(names, 0) == |names|
    ensures var r := CsvStore(lines, Names(HeaderPrefix(names, |names|)), |lines|, sep, parse);
      && |r| == |names|
      && (forall j :: 0 <= j < |names| && names[j] != "" ==> r[j].name == names[j])
      && WellNamed(r)
  {
    var p := HeaderPrefix(names, |names|);
    HeaderPrefixWellNamed(names, |names|);
    var r := CsvStore(lines, Names(p), |lines|, sep, parse);
    assert Names(r) == Names(p);
    SameNamesWellNamed(p, r);
  }

  /** A header line that fails leaves the empty series created before a
      non-empty name that an earlier series already carries; their names
      are non-empty and distinct. */
  lemma HeaderSeriesFailed(lines: seq<string>, sep: char, parse: Parser)
    requires |lines| > 0 && CsvOutcome(Some(lines), sep, parse).Failed?
    ensures var names := HeaderNames(lines, sep);
      var left := CsvOutcome(Some(lines), sep, parse).left;
      && (exists k :: 0 <= k < |names| && names[k] != "" && left == HeaderPrefix(names, k) && Has(left, names[k]))
      && WellNamed(left)
  {
    var names := HeaderNames(lines, sep);
    var k := FirstRefused(names, 0);
    RefusedIsTaken(names);
    HeaderPrefixWellNamed(names, k);
  }

  /** What a header line loads in every case: on success one series per name
      after the first field, in header order, carrying that name when it is
      non-empty; on failure the empty series created before a non-empty name
      that an earlier series already carries. The names stay non-empty and
      distinct either way. */
  lemma HeaderSeries(lines: seq<string>, sep: char, parse: Parser)
    requires |lines| > 0
    ensures var names := HeaderNames(lines, sep);
      var o := CsvOutcome(Some(lines), sep, parse);
      && (o.Built? ==>
            && |o.result| == |names|
            && forall j :: 0 <= j < |names| && names[j] != "" ==> o.result[j].name == names[j])
      && (o.Failed? ==>
            exists k :: 0 <= k < |names| && names[k] != "" && o.left == HeaderPrefix(names, k) && Has(o.left, names[k]))
      && WellNamed(o.After([]))
  {
    var o := CsvOutcome(Some(lines), sep, parse);
    if o.Built? {
      HeaderSeriesBuilt(lines, sep, parse);
    } else {
      HeaderSeriesFailed(lines, sep, parse);
    }
  }

  /** Header fields that are all empty are all accepted. */
  lemma UnnamedAccepted(names: seq<string>)
    requires forall i :: 0 <= i < |names| ==> names[i] == ""
    ensures FirstRefused(names, 0) == |names|
  {
  }

  /** Header fields that are all empty load as "Series1", "Series2", ...:
      the default names in order. */
  lemma {:induction false} UnnamedHeaders(names: seq<string>, k: nat)
    requires k <= |names|
    requires forall i :: 0 <= i < |names| ==> names[i] == ""
    ensures forall i :: 0 <= i < k ==> HeaderPrefix(names, k)[i].name == DefaultLabel(i + 1)
  {
    if k > 0 {
      UnnamedHeaders(names, k - 1);
      var p := HeaderPrefix(names, k - 1);
      DefaultNameAfterLabels(p);
      assert HeaderPrefix(names, k) == p + [Series(DefaultLabel(k), [])];
    }
  }

  /** The data lines 1 .. m - 1 whose field c exists and parses, in order. */
  function FedLines(lines: seq<string>, m: nat, c: nat, sep: char, parse: Parser): (rs: seq<nat>)
    requires 1 <= m <= |lines|
    ensures forall i :: 0 <= i < |rs| ==>
      1 <= rs[i] < m && FieldAt(lines, rs[i], c, sep).Some? && parse(FieldAt(lines, rs[i], c, sep).value).Some?
    ensures forall i, j :: 0 <= i < j < |rs| ==> rs[i] < rs[j]
    ensures forall r :: 1 <= r < m && FieldAt(lines, r, c, sep).Some? && parse(FieldAt(lines, r, c, sep).value).Some? ==> r in rs
  {
    if m == 1 then []
    else
      var f := FieldAt(lines, m - 1, c, sep);
      FedLines(lines, m - 1, c, sep, parse) + (if f.Some? && parse(f.value).Some? then [m - 1] else [])
  }

  /** The series fed by field c holds one point per data line whose field c
      exists and parses, in line order: the line's X and the parsed field. */
  lemma {:induction false} CsvPointsByLine(lines: seq<string>, m: nat, c: nat, sep: char, parse: Parser)
    requires 1 <= m <= |lines|
    ensures var ps := CsvPoints(lines, m, c, sep, parse);
      var rs := FedLines(lines, m, c, sep, parse);
      && |ps| == |rs|
      && forall i :: 0 <= i < |ps| ==>
           ps[i] == Point(LineX(lines, rs[i], sep, parse), parse(FieldAt(lines, rs[i], c, sep).value).value)
  {
    if m > 1 {
      CsvPointsByLine(lines, m - 1, c, sep, parse);
    }
  }

  lemma {:induction false} CsvPointsBound(lines: seq<string>, m: nat, c: nat, sep: char, parse: Parser)
    requires 1 <= m <= |lines|
    ensures |CsvPoints(lines, m, c, sep, parse)| <= m - 1
  {
    if m > 1 {
      CsvPointsBound(lines, m - 1, c, sep, parse);
    }
  }

  /** A series is fed only by its own field and the X field: two files whose
      data lines agree on fields 0 and `c` (a short line agreeing on having
      no field `c`) give that series the same points. */
  lemma {:induction false} CsvPointsLocal(lines: seq<string>, other: seq<string>, m: nat, c: nat, sep: char, parse: Parser)
    requires 1 <= m <= |lines| && m <= |other|
    requires forall r :: 1 <= r < m ==>
      FieldAt(lines, r, 0, sep) == FieldAt(other, r, 0, sep) && FieldAt(lines, r, c, sep) == FieldAt(other, r, c, sep)
    ensures CsvPoints(lines, m, c, sep, parse) == CsvPoints(other, m, c, sep, parse)
  {
    if m > 1 {
      CsvPointsLocal(lines, other, m - 1, c, sep, parse);
      var r := m - 1;
      assert FieldAt(lines, r, 0, sep) == FieldAt(other, r, 0, sep);
      assert LineX(lines, r, sep, parse) == LineX(other, r, sep, parse);
    }
  }

  /** Fields beyond the header's width are ignored: two files with the same
      header whose data lines agree on the first |header| fields load the
      same way. */
  lemma TrailingFieldsIgnored(lines: seq<string>, other: seq<string>, sep: char, parse: Parser)
    requires |lines| == |other| > 0 && lines[0] == other[0]
    requires forall r, c :: 1 <= r < |lines| && 0 <= c < |Split(lines[0], sep)| ==>
      FieldAt(lines, r, c, sep) == FieldAt(other, r, c, sep)
    ensures CsvOutcome(Some(lines), sep, parse) == CsvOutcome(Some(other), sep, parse)
  {
    var names := HeaderNames(lines, sep);
    assert HeaderNames(other, sep) == names;
    forall c | 1 <= c <= |names|
      ensures CsvPoints(lines, |lines|, c, sep, parse) == CsvPoints(other, |lines|, c, sep, parse)
    {
      CsvPointsLocal(lines, other, |lines|, c, sep, parse);
    }
    var labels := Names(HeaderPrefix(names, |names|));
    assert CsvStore(lines, labels, |lines|, sep, parse) == CsvStore(other, labels, |lines|, sep, parse);
  }

  /** Creating the series for header name k, all earlier ones created: the
      chart accepts the name exactly when the first refused name lies beyond
      k, and the store then grows to the next header prefix. */
  lemma HeaderStep(names: seq<string>, k: nat)
    requires k < |names| && FirstRefused(names, k) == FirstRefused(names, 0)
    ensures Accepts(HeaderPrefix(names, k), names[k]) <==> FirstRefused(names, 0) > k
    ensures FirstRefused(names, 0) > k ==> FirstRefused(names, k + 1) == FirstRefused(names, 0)
  {
  }

  /** Data line `r` extends the series fed by a field it has with one point
      when that field parses, and with none otherwise. */
  lemma CsvPointsNext(lines: seq<string>, r: nat, c: nat, sep: char, parse: Parser)
    requires 1 <= r < |lines| && c < |Split(lines[r], sep)|
    ensures var f := Split(lines[r], sep)[c];
      CsvPoints(lines, r + 1, c, sep, parse) ==
        match parse(f)
        case Some(y) => CsvPoints(lines, r, c, sep, parse) + [Point(LineX(lines, r, sep, parse), y)]
        case None => CsvPoints(lines, r, c, sep, parse)
  {
    var ps := CsvPoints(lines, r, c, sep, parse);
    assert FieldAt(lines, r, c, sep) == Some(Split(lines[r], sep)[c]);
    assert ps + [] == ps;
  }

  /** The store part-way through data line `r`: the series fed by fields
      1 .. c - 1 have taken this line's points, the others not yet. */
  function PartialStore(lines: seq<string>, labels: seq<string>, r: nat, c: nat, sep: char, parse: Parser): seq<Series>
    requires 1 <= r < |lines|
  {
    seq(|labels|, j requires 0 <= j < |labels| =>
      Series(labels[j], CsvPoints(lines, if j + 1 < c then r + 1 else r, j + 1, sep, parse)))
  }

  lemma PartialStoreStart(lines: seq<string>, labels: seq<string>, r: nat, sep: char, parse: Parser)
    requires 1 <= r < |lines|
    ensures PartialStore(lines, labels, r, 1, sep, parse) == CsvStore(lines, labels, r, sep, parse)
  {
  }

  /** Field c of data line r goes to series c - 1, as one more point when it
      parses. */
  lemma PartialStoreNext(lines: seq<string>, labels: seq<string>, r: nat, c: nat, sep: char, parse: Parser)
    requires 1 <= r < |lines| && 1 <= c <= |labels| && c < |Split(lines[r], sep)|
    ensures var s := PartialStore(lines, labels, r, c, sep, parse);
      PartialStore(lines, labels, r, c + 1, sep, parse) ==
        match parse(Split(lines[r], sep)[c])
        case Some(y) => AppendedAt(s, c - 1, Point(LineX(lines, r, sep, parse), y))
        case None => s
  {
    match parse(Split(lines[r], sep)[c]) {
      case Some(y) => PartialStoreParsed(lines, labels, r, c, sep, parse, y);
      case None => PartialStoreUnparsed(lines, labels, r, c, sep, parse);
    }
  }

  /** A field that parses adds its point to series c - 1. */
  lemma PartialStoreParsed(lines: seq<string>, labels: seq<string>, r: nat, c: nat, sep: char, parse: Parser, y: real)
    requires 1 <= r < |lines| && 1 <= c <= |labels| && c < |Split(lines[r], sep)|
    requires parse(Split(lines[r], sep)[c]) == Some(y)
    ensures PartialStore(lines, labels, r, c + 1, sep, parse) ==
      AppendedAt(PartialStore(lines, labels, r, c, sep, parse), c - 1, Point(LineX(lines, r, sep, parse), y))
  {
    var s := PartialStore(lines, labels, r, c, sep, parse);
    var s' := PartialStore(lines, labels, r, c + 1, sep, parse);
    PartialStoreOthers(lines, labels, r, c, sep, parse);
    CsvPointsNext(lines, r, c, sep, parse);
    var before := CsvPoints(lines, r, c, sep, parse);
    assert CsvPoints(lines, r + 1, c, sep, parse) == before + [Point(LineX(lines, r, sep, parse), y)];
    assert s[c - 1] == Series(labels[c - 1], before);
    assert s' == s[c - 1 := s'[c - 1]];
  }

  /** A field that does not parse leaves every series as it was. */
  lemma PartialStoreUnparsed(lines: seq<string>, labels: seq<string>, r: nat, c: nat, sep: char, parse: Parser)
    requires 1 <= r < |lines| && 1 <= c <= |labels| && c < |Split(lines[r], sep)|
    requires parse(Split(lines[r], sep)[c]).None?
    ensures PartialStore(lines, labels, r, c + 1, sep, parse) == PartialStore(lines, labels, r, c, sep, parse)
  {
    var s := PartialStore(lines, labels, r, c, sep, parse);
    var s' := PartialStore(lines, labels, r, c + 1, sep, parse);
    PartialStoreOthers(lines, labels, r, c, sep, parse);
    CsvPointsNext(lines, r, c, sep, parse);
    assert s[c - 1] == s'[c - 1];
    assert forall j :: 0 <= j < |labels| ==> s[j] == s'[j];
  }

  /** Moving past field c changes no series other than series c - 1. */
  lemma PartialStoreOthers(lines: seq<string>, labels: seq<string>, r: nat, c: nat, sep: char, parse: Parser)
    requires 1 <= r < |lines|
    ensures var s := PartialStore(lines, labels, r, c, sep, parse);
      var s' := PartialStore(lines, labels, r, c + 1, sep, parse);
      forall j :: 0 <= j < |labels| && j != c - 1 ==> s'[j] == s[j]
  {
  }

  /** Once the fields of line r or the series run out, the line is done. */
  lemma PartialStoreDone(lines: seq<string>, labels: seq<string>, r: nat, c: nat, sep: char, parse: Parser)
    requires 1 <= r < |lines| && 1 <= c
    requires c >= |Split(lines[r], sep)| || c > |labels|
    ensures PartialStore(lines, labels, r, c, sep, parse) == CsvStore(lines, labels, r + 1, sep, parse)
  {
    forall f | c <= f <= |labels|
      ensures CsvPoints(lines, r + 1, f, sep, parse) == CsvPoints(lines, r, f, sep, parse)
    {
      ShortLineFeedsPrefix(lines, r, f - 1, sep, parse);
    }
  }

  /** A data line feeds only the series whose field it has: a line with k
      fields adds points to at most the first k - 1 series. */
  lemma ShortLineFeedsPrefix(lines: seq<string>, r: nat, j: nat, sep: char, parse: Parser)
    requires 1 <= r < |lines|
    requires j + 1 >= |Split(lines[r], sep)|
    ensures CsvPoints(lines, r + 1, j + 1, sep, parse) == CsvPoints(lines, r, j + 1, sep, parse)
  {
  }
}
