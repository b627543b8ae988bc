/**
 * The orchestrator: metadata, simulated data, analysis, chart preparation
 * and the report `{metadata, analysis, raw_data}`, in that order; and the
 * facts the fixed dataset makes true.
 */
module Pipeline {
  import opened Wrappers
  import opened Tables
  import opened DataProvider
  import opened Metadata
  import opened Analyzer
  import opened Dates
  import opened Charts

  /** The JSON report; `rawData` holds each project's tables as rows, in their order. */
  datatype Report = Report(
    metadata: map<string, Record>,
    analysis: map<string, ProjectAnalysis>,
    rawData: map<string, ProjectTables>)

  /** Eight distinct hashes: abc123 is the one that repeats. */
  lemma FixedCrashesUnique()
    ensures UniqueCrashes(FixedCrashes()) == 8
    ensures !DistinctHashes(FixedCrashes())
  {
    assert FixedCrashes()[7].crashHash == FixedCrashes()[8].crashHash;
    FixedCrashHashes();
    HashInitials();
    DistinctInitials();
    DistinctFirstChars(CrashHashColumn, 8, Initials);
  }

  /** The first letters of the eight distinct hashes, in column order. */
  const Initials: string := "mpjsvgda"

  lemma HashInitials()
    ensures forall i | 0 <= i < 8 :: CrashHashColumn[i] != [] && CrashHashColumn[i][0] == Initials[i]
  {
    assert CrashHashColumn[0][0] == 'm';
    assert CrashHashColumn[1][0] == 'p';
    assert CrashHashColumn[2][0] == 'j';
    assert CrashHashColumn[3][0] == 's';
    assert CrashHashColumn[4][0] == 'v';
    assert CrashHashColumn[5][0] == 'g';
    assert CrashHashColumn[6][0] == 'd';
    assert CrashHashColumn[7][0] == 'a';
  }

  lemma DistinctInitials()
    ensures forall i, j | 0 <= i < j < 8 :: Initials[i] != Initials[j]
  {
  }

  lemma FixedCrashHashes()
    ensures CrashHashes(FixedCrashes()) == set i | 0 <= i < 8 :: CrashHashColumn[i]
  {
    CrashHashesMembers(FixedCrashes());
    var fromRows := set i | 0 <= i < |FixedCrashes()| :: FixedCrashes()[i].crashHash;
    var fromColumn := set i | 0 <= i < 8 :: CrashHashColumn[i];
    forall x | x in fromRows ensures x in fromColumn {
      var i :| 0 <= i < 9 && FixedCrashes()[i].crashHash == x;
      if i == 8 {
        assert CrashHashColumn[7] == x;
      }
    }
    forall x | x in fromColumn ensures x in fromRows {
      var i :| 0 <= i < 8 && CrashHashColumn[i] == x;
      assert FixedCrashes()[i].crashHash == x;
    }
  }

  /** Strings whose first characters differ are as many distinct values as there are strings. */
  lemma {:induction false} DistinctFirstChars(h: seq<string>, n: nat, firsts: string)
    requires n <= |h| && |firsts| == n
    requires forall i | 0 <= i < n :: h[i] != [] && h[i][0] == firsts[i]
    requires forall i, j | 0 <= i < j < n :: firsts[i] != firsts[j]
    ensures |set i | 0 <= i < n :: h[i]| == n
  {
    if n > 0 {
      DistinctFirstChars(h, n - 1, firsts[..n - 1]);
      var before := set i | 0 <= i < n - 1 :: h[i];
      assert (set i | 0 <= i < n :: h[i]) == before + {h[n - 1]};
      assert h[n - 1] !in before;
    }
  }

  /** The simulated coverage averages to the baseline plus 89/9. */
  lemma SimulatedAverage(base: int)
    ensures AvgCoverage(SimulatedCoverage(base)) == Some(base as real + 89.0 / 9.0)
  {
    var c := Coverages(SimulatedCoverage(base));
    SumShift(c, Offsets, base);
    assert Sum(Offsets) == 89;
    assert (9 * base + 89) as real == 9.0 * base as real + 89.0;
  }

  /** A column that is its offsets shifted by `base` sums to the offsets' sum plus one `base` per row. */
  lemma {:induction false} SumShift(xs: seq<int>, offsets: seq<int>, base: int)
    requires |xs| == |offsets|
    requires forall i | 0 <= i < |xs| :: xs[i] == base + offsets[i]
    ensures Sum(xs) == |xs| * base + Sum(offsets)
  {
    if xs != [] {
      SumShift(xs[1..], offsets[1..], base);
    }
  }

  /** The single-row test table averages to exactly its one value. */
  lemma SingleRowAverage()
    ensures AvgCoverage([CoverageRow("15-01-2025", 75, Absent)]) == Some(75.0)
  {
    assert Coverages([CoverageRow("15-01-2025", 75, Absent)]) == [75];
  }

  /** The calendar days of the nine sample dates. */
  const SampleDays: seq<Date> :=
    [Date(2025, 1, 15), Date(2025, 1, 28), Date(2025, 1, 31), Date(2025, 2, 10), Date(2025, 2, 20),
     Date(2025, 2, 25), Date(2025, 3, 6), Date(2025, 3, 6), Date(2025, 3, 15)]

  /** Every sample date parses to its calendar day, and the days are in chronological order. */
  lemma SampleDatesParse()
    ensures forall i | 0 <= i < 9 :: ParseDate(SampleDates[i]) == Some(SampleDays[i])
    ensures forall i, j | 0 <= i < j < 9 :: NotAfter(SampleDays[i], SampleDays[j])
  {
    JanuaryDatesParse();
    FebruaryDatesParse();
    MarchDatesParse();
    forall i | 0 <= i < 9 ensures ParseDate(SampleDates[i]) == Some(SampleDays[i]) {
      if i < 3 {
      } else if i < 6 {
      } else {
      }
    }
  }

  lemma JanuaryDatesParse()
    ensures forall i | 0 <= i < 3 :: ParseDate(SampleDates[i]) == Some(SampleDays[i])
  {
    assert ParseDate(SampleDates[0]) == Some(Date(2025, 1, 15));
    assert ParseDate(SampleDates[1]) == Some(Date(2025, 1, 28));
    assert ParseDate(SampleDates[2]) == Some(Date(2025, 1, 31));
  }

  lemma FebruaryDatesParse()
    ensures forall i | 3 <= i < 6 :: ParseDate(SampleDates[i]) == Some(SampleDays[i])
  {
    assert ParseDate(SampleDates[3]) == Some(Date(2025, 2, 10));
    assert ParseDate(SampleDates[4]) == Some(Date(2025, 2, 20));
    assert ParseDate(SampleDates[5]) == Some(Date(2025, 2, 25));
  }

  lemma MarchDatesParse()
    ensures forall i | 6 <= i < 9 :: ParseDate(SampleDates[i]) == Some(SampleDays[i])
  {
    assert ParseDate(SampleDates[6]) == Some(Date(2025, 3, 6));
    assert ParseDate(SampleDates[7]) == Some(Date(2025, 3, 6));
    assert ParseDate(SampleDates[8]) == Some(Date(2025, 3, 15));
  }

  /** The analyzed simulated table can always be plotted: no date of it fails to parse. */
  lemma SimulatedSeriesParse(base: int)
    ensures PrepareSeries(AddGrowthRate(SimulatedCoverage(base))).Success?
  {
    var rows := AddGrowthRate(SimulatedCoverage(base));
    SampleDatesParse();
    forall i | 0 <= i < |rows| ensures ParseDate(rows[i].date).Some? {
      assert DateColumn(rows)[i] == DateColumn(SimulatedCoverage(base))[i];
    }
    PrepareSeriesSpec(rows);
  }

  /** The raw_data loop of main: each project's current tables, copied row by row. */
  method BuildRawData(store: ProjectStore) returns (raw: map<string, ProjectTables>)
    requires store.Contents().Valid()
    ensures forall p :: p in raw <==> p in store.tables
    ensures forall p | p in raw :: raw[p] == store.tables[p]
  {
    raw := map[];
    for i := 0 to |store.projects|
      invariant forall p :: p in raw <==> p in store.projects[..i]
      invariant forall p | p in raw :: raw[p] == store.tables[p]
    {
      var p := store.projects[i];
      raw := raw[p := store.tables[p]];
    }
    assert store.projects[..|store.projects|] == store.projects;
  }

  /**
   * main, up to the report it writes. Because the analyzer writes
   * growth_rate into the very tables that raw_data is copied from
   * afterwards, the raw coverage rows carry growth_rate too.
   */
  method RunPipeline(names: seq<string>, lookup: string -> Response) returns (r: Result<Report, Error>)
    ensures r.Success? <==> forall i | 0 <= i < |names| :: names[i] in Baselines
    ensures r.Failure? ==> exists k | 0 <= k < |names| ::
      && names[k] !in Baselines
      && (forall j | 0 <= j < k :: names[j] in Baselines)
      && r.error == UnknownProject(names[k])
    ensures r.Success? ==> forall p ::
      (p in r.value.metadata <==> p in names)
      && (p in r.value.analysis <==> p in names)
      && (p in r.value.rawData <==> p in names)
    ensures r.Success? ==> forall p | p in r.value.metadata :: r.value.metadata[p] == RecordFor(lookup(p))
    ensures r.Success? ==> forall p | p in r.value.analysis ::
      p in Baselines && r.value.analysis[p] == Analyze(SimulatedTables(Baselines[p]))
    ensures r.Success? ==> forall p | p in r.value.rawData ::
      && p in Baselines
      && r.value.rawData[p] == WithGrowth(SimulatedTables(Baselines[p]))
      && HasGrowthColumn(r.value.rawData[p].coverage)
  {
    var metadata := FetchProjectMetadata(names, lookup);
    var fetched := FetchProjectData(names);
    FetchSucceeds(Baselines, names);
    if fetched.Failure? {
      FetchFirstUnknown(Baselines, names);
      return Failure(fetched.error);
    }
    var store := fetched.value;
    FetchEntries(Baselines, names);
    var analysis := AnalyzeProjectData(store);
    forall i | 0 <= i < |names| ensures SeriesFor(store.tables, names[i]).Success? {
      assert names[i] in store.tables;
      SimulatedSeriesParse(Baselines[names[i]]);
    }
    // The plot cannot fail on simulated data: every date of it parses.
    var chart := PrepareCoverageTrends(store, names);
    assert chart.Success?;
    var raw := BuildRawData(store);
    r := Success(Report(metadata, analysis, raw));
  }
}
