/**
 * The data path of the trend chart: each selected project's coverage table
 * is copied, its dates parsed and its rows sorted chronologically. Drawing
 * the chart is not part of this module.
 */
module Charts {
  import opened Wrappers
  import opened Tables
  import opened Dates

  /** A row of the plotting copy, whose date column now holds parsed dates. */
  datatype ChartRow = ChartRow(when: Date, coverage: int, growth: Growth)

  /** One line series of the chart, labelled with its project. */
  datatype Series = Series(project: string, points: seq<ChartRow>)

  /** `df["date"] = pd.to_datetime(df["date"], format="%d-%m-%Y")` on the copy; the first bad date raises. */
  function ParseRows(rows: seq<CoverageRow>): (r: Result<seq<ChartRow>, Error>)
    ensures r.Success? <==> forall i | 0 <= i < |rows| :: ParseDate(rows[i].date).Some?
    ensures r.Success? ==> |r.value| == |rows| && forall i | 0 <= i < |rows| ::
      r.value[i] == ChartRow(ParseDate(rows[i].date).value, rows[i].coverage, rows[i].growth)
    ensures r.Failure? ==> exists k | 0 <= k < |rows| ::
      && ParseDate(rows[k].date).None?
      && (forall j | 0 <= j < k :: ParseDate(rows[j].date).Some?)
      && r.error == BadDate(rows[k].date)
  {
    if rows == [] then Success([])
    else
      match ParseDate(rows[0].date)
      case None => Failure(BadDate(rows[0].date))
      case Some(d) =>
        var rest := ParseRows(rows[1..]);
        if rest.Failure? then
          assert exists k | 0 <= k < |rows| - 1 ::
            && ParseDate(rows[1..][k].date).None?
            && (forall j | 0 <= j < k :: ParseDate(rows[1..][j].date).Some?)
            && rest.error == BadDate(rows[1..][k].date);
          var k :| 0 <= k < |rows| - 1
            && ParseDate(rows[1..][k].date).None?
            && (forall j | 0 <= j < k :: ParseDate(rows[1..][j].date).Some?)
            && rest.error == BadDate(rows[1..][k].date);
          assert forall j | 0 <= j < k + 1 :: ParseDate(rows[j].date).Some? by {
            forall j | 0 <= j < k + 1 ensures ParseDate(rows[j].date).Some? {
              if j > 0 { assert rows[j] == rows[1..][j - 1]; }
            }
          }
          assert rows[k + 1] == rows[1..][k];
          Failure(rest.error)
        else
          Success([ChartRow(d, rows[0].coverage, rows[0].growth)] + rest.value)
  }

  predicate SortedByDate(s: seq<ChartRow>)
  {
    forall i, j | 0 <= i < j < |s| :: NotAfter(s[i].when, s[j].when)
  }

  function Insert(x: ChartRow, s: seq<ChartRow>): seq<ChartRow>
  {
    if s == [] then [x]
    else if NotAfter(x.when, s[0].when) then [x] + s
    else [s[0]] + Insert(x, s[1..])
  }

  /** `df.sort_values("date")`, here an insertion sort; only the order of the dates is promised. */
  function SortByDate(s: seq<ChartRow>): seq<ChartRow>
  {
    if s == [] then [] else Insert(s[0], SortByDate(s[1..]))
  }

  lemma {:induction false} InsertPermutation(x: ChartRow, s: seq<ChartRow>)
    ensures multiset(Insert(x, s)) == multiset(s) + multiset{x}
  {
    if s != [] && !NotAfter(x.when, s[0].when) {
      InsertPermutation(x, s[1..]);
      assert s == [s[0]] + s[1..];
    }
  }

  lemma {:induction false} InsertSorted(x: ChartRow, s: seq<ChartRow>)
    requires SortedByDate(s)
    ensures SortedByDate(Insert(x, s))
  {
    if s != [] && !NotAfter(x.when, s[0].when) {
      var tail := s[1..];
      InsertSorted(x, tail);
      InsertPermutation(x, tail);
      var t := Insert(x, tail);
      forall j | 0 <= j < |t| ensures NotAfter(s[0].when, t[j].when) {
        assert t[j] in multiset(t);
        if t[j] != x {
          assert t[j] in multiset(tail);
          var k :| 0 <= k < |tail| && tail[k] == t[j];
          assert s[k + 1] == t[j];
        }
      }
      assert Insert(x, s) == [s[0]] + t;
    }
  }

  /** The sorted copy holds the same rows, ascending by date. */
  lemma {:induction false} SortByDateSpec(s: seq<ChartRow>)
    ensures SortedByDate(SortByDate(s))
    ensures multiset(SortByDate(s)) == multiset(s)
  {
    if s != [] {
      SortByDateSpec(s[1..]);
      InsertSorted(s[0], SortByDate(s[1..]));
      InsertPermutation(s[0], SortByDate(s[1..]));
      assert s == [s[0]] + s[1..];
    }
  }

  /** The rows one project's line is drawn from: parsed, then sorted. */
  function PrepareSeries(rows: seq<CoverageRow>): Result<seq<ChartRow>, Error>
  {
    match ParseRows(rows)
    case Failure(e) => Failure(e)
    case Success(parsed) => Success(SortByDate(parsed))
  }

  /** Chart preparation fails only on a bad date, and otherwise yields the parsed rows in date order. */
  lemma PrepareSeriesSpec(rows: seq<CoverageRow>)
    ensures PrepareSeries(rows).Success? <==> forall i | 0 <= i < |rows| :: ParseDate(rows[i].date).Some?
    ensures PrepareSeries(rows).Success? ==>
      && SortedByDate(PrepareSeries(rows).value)
      && multiset(PrepareSeries(rows).value) == multiset(ParseRows(rows).value)
    ensures PrepareSeries(rows).Failure? ==> PrepareSeries(rows) == ParseRows(rows)
  {
    if ParseRows(rows).Success? {
      SortByDateSpec(ParseRows(rows).value);
    }
  }

  /** `project_data[project]["coverage"]` for one name of the plot list, prepared for plotting. */
  function SeriesFor(tables: map<string, ProjectTables>, project: string): Result<seq<ChartRow>, Error>
  {
    if project in tables then PrepareSeries(tables[project].coverage) else Failure(MissingProject(project))
  }

  /**
   * The data part of plot_coverage_trends: one series per name, in the order
   * given. The method has no modifies clause, so the store, and with it the
   * caller's tables, is left as it was.
   */
  method PrepareCoverageTrends(store: ProjectStore, names: seq<string>) returns (r: Result<seq<Series>, Error>)
    ensures r.Success? <==> forall i | 0 <= i < |names| :: SeriesFor(store.tables, names[i]).Success?
    ensures r.Success? ==> |r.value| == |names| && forall i | 0 <= i < |names| ::
      r.value[i] == Series(names[i], SeriesFor(store.tables, names[i]).value)
    ensures r.Failure? ==> exists k | 0 <= k < |names| ::
      && (forall j | 0 <= j < k :: SeriesFor(store.tables, names[j]).Success?)
      && SeriesFor(store.tables, names[k]) == Failure(r.error)
  {
    var series: seq<Series> := [];
    for i := 0 to |names|
      invariant |series| == i
      invariant forall j | 0 <= j < i :: SeriesFor(store.tables, names[j]).Success?
      invariant forall j | 0 <= j < i :: series[j] == Series(names[j], SeriesFor(store.tables, names[j]).value)
    {
      var points := SeriesFor(store.tables, names[i]);
      if points.Failure? {
        return Failure(points.error);
      }
      series := series + [Series(names[i], points.value)];
    }
    return Success(series);
  }
}
