/** The chart's series collection, as values. A series is a name and its points
    in the order they were added; the collection keeps its series in the order
    they were created. The class in module TrendControl holds one of these and
    changes it through the operations specified here. */
module SeriesStore {

  datatype Point = Point(x: real, y: real)

  datatype Series = Series(name: string, points: seq<Point>)

  /** The result of one load: the store left as it was (the source was
      rejected before the clear), a failure after the clear that leaves
      `left` behind, or a successful rebuild into `result`. */
  datatype Outcome = Untouched | Failed(left: seq<Series>) | Built(result: seq<Series>)
  {
    function After(before: seq<Series>): seq<Series>
    {
      match this
      case Untouched => before
      case Failed(left) => left
      case Built(result) => result
    }
  }

  function Names(s: seq<Series>): seq<string>
  {
    seq(|s|, i requires 0 <= i < |s| => s[i].name)
  }

  /** Every series has a non-empty name and no two share one. */
  ghost predicate WellNamed(s: seq<Series>)
  {
    && (forall i :: 0 <= i < |s| ==> s[i].name != "")
    && (forall i, j :: 0 <= i < j < |s| ==> s[i].name != s[j].name)
  }

  /** The position of the first series called `name` at or after `from`, or
      |s| when there is none: the lookup behind `IsUniqueName` and the
      `Series[name]` indexer. */
  function FindFrom(s: seq<Series>, name: string, from: nat): (k: nat)
    requires from <= |s|
    ensures from <= k <= |s|
    ensures k < |s| ==> s[k].name == name
    ensures forall j :: from <= j < k ==> s[j].name != name
    decreases |s| - from
  {
    if from == |s| || s[from].name == name then from else FindFrom(s, name, from + 1)
  }

  function Find(s: seq<Series>, name: string): nat
  {
    FindFrom(s, name, 0)
  }

  /** Some series is called `name` (`IsUniqueName(name)` is false). */
  predicate Has(s: seq<Series>, name: string)
  {
    Find(s, name) < |s|
  }

  /** The lookup finds a name exactly when the name is in the collection. */
  lemma HasIsMember(s: seq<Series>, name: string)
    ensures Has(s, name) <==> name in Names(s)
  {
    if name in Names(s) {
      var j :| 0 <= j < |s| && Names(s)[j] == name;
      assert s[j].name == name;
    }
    if Has(s, name) {
      assert Names(s)[Find(s, name)] == name;
    }
  }

  /** The conditions that pin down `Find`: a position where the name sits (or
      the end) with no earlier series of that name. */
  lemma FindAt(s: seq<Series>, name: string, k: nat)
    requires k <= |s|
    requires k < |s| ==> s[k].name == name
    requires forall j :: 0 <= j < k ==> s[j].name != name
    ensures Find(s, name) == k
  {
  }

  /** The points of the series called `name`; none when there is no such series. */
  function PointsOf(s: seq<Series>, name: string): seq<Point>
  {
    var k := Find(s, name);
    if k < |s| then s[k].points else []
  }

  /** The character of decimal digit d. */
  function Digit(d: nat): char
    requires d < 10
  {
    ('0' as int + d) as char
  }

  /** A non-negative number written in decimal, without leading zeros, as
      `ToString` with the invariant culture writes it. */
  function DecimalString(n: nat): (s: string)
    ensures |s| >= 1
  {
    if n < 10 then [Digit(n)] else DecimalString(n / 10) + [Digit(n % 10)]
  }

  /** Different numbers are written differently. */
  lemma {:induction false} DecimalStringsDiffer(a: nat, b: nat)
    requires a != b
    ensures DecimalString(a) != DecimalString(b)
    decreases a
  {
    var sa := DecimalString(a);
    var sb := DecimalString(b);
    if a >= 10 && b >= 10 {
      assert sa[..|sa| - 1] == DecimalString(a / 10) && sa[|sa| - 1] == Digit(a % 10);
      assert sb[..|sb| - 1] == DecimalString(b / 10) && sb[|sb| - 1] == Digit(b % 10);
      if a / 10 != b / 10 {
        DecimalStringsDiffer(a / 10, b / 10);
      } else {
        assert a % 10 != b % 10;
      }
    } else if a >= 10 {
      assert |sa| == |DecimalString(a / 10)| + 1 > |sb|;
    } else if b >= 10 {
      assert |sb| == |DecimalString(b / 10)| + 1 > |sa|;
    }
  }

  /** The name the chart gives the i-th unnamed series: "Series" and i. */
  function DefaultLabel(i: nat): string
  {
    "Series" + DecimalString(i)
  }

  lemma DefaultLabelsDiffer(i: nat, j: nat)
    requires i != j
    ensures DefaultLabel(i) != DefaultLabel(j)
  {
    DecimalStringsDiffer(i, j);
    assert DefaultLabel(i)[6..] == DecimalString(i);
    assert DefaultLabel(j)[6..] == DecimalString(j);
  }

  /** The default labels 1 .. n are n different names. */
  lemma {:induction false} LabelSetSize(n: nat)
    ensures |set j | 1 <= j <= n :: DefaultLabel(j)| == n
  {
    if n > 0 {
      LabelSetSize(n - 1);
      var prev := set j | 1 <= j <= n - 1 :: DefaultLabel(j);
      forall j | 1 <= j <= n - 1
        ensures DefaultLabel(j) != DefaultLabel(n)
      {
        DefaultLabelsDiffer(j, n);
      }
      assert DefaultLabel(n) !in prev;
      assert (set j | 1 <= j <= n :: DefaultLabel(j)) == prev + {DefaultLabel(n)};
    }
  }

  /** A collection of |s| series carries at most |s| different names. */
  lemma {:induction false} NameSetSize(s: seq<Series>)
    ensures |set i | 0 <= i < |s| :: s[i].name| <= |s|
  {
    if |s| > 0 {
      var t := s[..|s| - 1];
      NameSetSize(t);
      assert (set i | 0 <= i < |s| :: s[i].name) == (set i | 0 <= i < |t| :: t[i].name) + {s[|s| - 1].name};
    }
  }

  /** At most |s| of the default labels can be taken. */
  lemma TakenLabelsBound(s: seq<Series>, n: nat)
    requires forall j :: 1 <= j <= n ==> Has(s, DefaultLabel(j))
    ensures n <= |s|
  {
    var labels := set j | 1 <= j <= n :: DefaultLabel(j);
    var taken := set i | 0 <= i < |s| :: s[i].name;
    forall l | l in labels
      ensures l in taken
    {
      var j :| 1 <= j <= n && l == DefaultLabel(j);
      assert s[Find(s, l)].name == l;
    }
    LabelSetSize(n);
    NameSetSize(s);
    SubsetNoLarger(labels, taken);
  }

  lemma {:induction false} SubsetNoLarger(a: set<string>, b: set<string>)
    requires a <= b
    ensures |a| <= |b|
    decreases |b|
  {
    if a != {} {
      var x :| x in a;
      SubsetNoLarger(a - {x}, b - {x});
    }
  }

  /** The first default label from `i` on that no series carries. */
  function FreeLabelFrom(s: seq<Series>, i: nat): (k: nat)
    requires 1 <= i
    requires forall j :: 1 <= j < i ==> Has(s, DefaultLabel(j))
    ensures i <= k && !Has(s, DefaultLabel(k))
    ensures forall j :: 1 <= j < k ==> Has(s, DefaultLabel(j))
    decreases |s| + 1 - i
  {
    if !Has(s, DefaultLabel(i)) then i
    else
      TakenLabelsBound(s, i);
      FreeLabelFrom(s, i + 1)
  }

  /** The name the chart library gives a series added without a name: the
      first of "Series1", "Series2", ... that no series carries yet. */
  function DefaultName(s: seq<Series>): string
  {
    DefaultLabel(FreeLabelFrom(s, 1))
  }

  /** When the series carry exactly "Series1" .. "Series<n>", in order, the
      next default name is "Series<n+1>". */
  lemma DefaultNameAfterLabels(s: seq<Series>)
    requires forall i :: 0 <= i < |s| ==> s[i].name == DefaultLabel(i + 1)
    ensures DefaultName(s) == DefaultLabel(|s| + 1)
  {
    var n := |s| + 1;
    forall j | 1 <= j < n
      ensures Has(s, DefaultLabel(j))
    {
      HasIsMember(s, DefaultLabel(j));
      assert Names(s)[j - 1] == DefaultLabel(j);
    }
    forall i | 0 <= i < |s|
      ensures s[i].name != DefaultLabel(n)
    {
      DefaultLabelsDiffer(i + 1, n);
    }
    FindAt(s, DefaultLabel(n), |s|);
    var f := FreeLabelFrom(s, 1);
    assert !Has(s, DefaultLabel(f));
    assert f == n;
  }

  /** What the chart library's `Series.Add` accepts: a series without a name
      (it is then given `DefaultName`), or one whose name no series carries
      yet. */
  predicate Accepts(s: seq<Series>, name: string)
  {
    name == "" || !Has(s, name)
  }

  /** The name an accepted series ends up with. */
  function AddedName(s: seq<Series>, name: string): (n: string)
    ensures n != ""
    ensures name != "" ==> n == name
    ensures name == "" ==> !Has(s, n)
  {
    if name == "" then DefaultName(s) else name
  }

  /** Adding an accepted series keeps names non-empty and distinct. */
  lemma AddKeepsWellNamed(s: seq<Series>, name: string)
    requires WellNamed(s) && Accepts(s, name)
    ensures WellNamed(s + [Series(AddedName(s, name), [])])
    ensures Has(s + [Series(AddedName(s, name), [])], AddedName(s, name))
  {
    FindAt(s + [Series(AddedName(s, name), [])], AddedName(s, name), |s|);
  }

  /** `Series[k].Points.AddXY(p)`: the point appended to the k-th series. */
  function AppendedAt(s: seq<Series>, k: nat, p: Point): seq<Series>
    requires k < |s|
  {
    s[k := Series(s[k].name, s[k].points + [p])]
  }

  /** The effect of `AddPoint(name, p)`: an empty series called `name` is
      created first when there is none, then `p` goes to its end. */
  function AppendPoint(s: seq<Series>, name: string, p: Point): seq<Series>
  {
    var k := Find(s, name);
    if k < |s| then AppendedAt(s, k, p) else s + [Series(name, [p])]
  }

  /** `AddPoint` appends to the named series (created at the end when it was
      missing), leaves every other series where and as it was, and keeps the
      names non-empty and distinct. */
  lemma AppendPointEffect(s: seq<Series>, name: string, p: Point)
    ensures var r := AppendPoint(s, name, p);
      var k := Find(s, name);
      && |r| == (if Has(s, name) then |s| else |s| + 1)
      && k < |r| && r[k] == Series(name, PointsOf(s, name) + [p])
      && (forall j :: 0 <= j < |s| && j != k ==> r[j] == s[j])
      && PointsOf(r, name) == PointsOf(s, name) + [p]
      && (forall other :: other != name ==> PointsOf(r, other) == PointsOf(s, other))
      && (WellNamed(s) && name != "" ==> WellNamed(r))
  {
    var r := AppendPoint(s, name, p);
    var k := Find(s, name);
    FindAt(r, name, k);
    forall other | other != name
      ensures PointsOf(r, other) == PointsOf(s, other)
    {
      var m := Find(s, other);
      if m < |s| {
        FindAt(r, other, m);
      } else {
        FindAt(r, other, |r|);
      }
    }
  }

  /** Series with the given names, in that order, and no points yet. */
  function EmptySeries(names: seq<string>): seq<Series>
  {
    seq(|names|, i requires 0 <= i < |names| => Series(names[i], []))
  }

  /** Being well named depends on the names alone. */
  lemma SameNamesWellNamed(a: seq<Series>, b: seq<Series>)
    requires Names(a) == Names(b) && WellNamed(a)
    ensures WellNamed(b)
  {
    assert forall i :: 0 <= i < |b| ==> b[i].name == Names(a)[i];
  }
}
