/**
 * The simulated data provider: a fixed crash table and a coverage table
 * derived from a per-project baseline.
 */
module DataProvider {
  import opened Wrappers
  import opened Tables

  /** The baseline coverage of each project the provider knows. */
  const Baselines: map<string, int> := map["zlib" := 70, "libpng" := 75, "openssl" := 65]

  /** The offsets added to the baseline, one per coverage sample. */
  const Offsets: seq<int> := [0, 3, 5, 7, 10, 12, 15, 17, 20]

  /** The nine sample dates, shared by the crash and the coverage table. */
  const SampleDates: seq<string> :=
    ["15-01-2025", "28-01-2025", "31-01-2025", "10-02-2025", "20-02-2025",
     "25-02-2025", "06-03-2025", "06-03-2025", "15-03-2025"]

  /** The crash_hash and type columns of the crash table every project gets. */
  const CrashHashColumn: seq<string> :=
    ["mno345", "pqr678", "jkl012", "stu901", "vwx234", "ghi789", "def456", "abc123", "abc123"]
  const CrashTypeColumn: seq<string> :=
    ["null-pointer", "division-by-zero", "integer-overflow", "buffer-overflow", "race-condition",
     "stack-overflow", "use-after-free", "heap-overflow", "heap-overflow"]

  /** The crash table every project gets, row i dated SampleDates[i]. */
  function FixedCrashes(): seq<CrashRow>
  {
    seq(9, i requires 0 <= i < 9 => CrashRow(SampleDates[i], CrashHashColumn[i], CrashTypeColumn[i]))
  }

  /** The coverage table of a project whose baseline is `base`; it has no growth_rate column. */
  function SimulatedCoverage(base: int): (rows: seq<CoverageRow>)
  {
    seq(9, i requires 0 <= i < 9 => CoverageRow(SampleDates[i], base + Offsets[i], Absent))
  }

  function SimulatedTables(base: int): ProjectTables
  {
    ProjectTables(FixedCrashes(), SimulatedCoverage(base))
  }

  /** Both tables have nine rows, row i of each carries the same date, and coverage is base plus offset. */
  lemma SimulatedTablesShape(base: int)
    ensures |SimulatedTables(base).crashes| == 9 && |SimulatedTables(base).coverage| == 9
    ensures forall i | 0 <= i < 9 ::
      && SimulatedTables(base).crashes[i].date == SimulatedTables(base).coverage[i].date
      && SimulatedTables(base).coverage[i].coverage == base + Offsets[i]
      && SimulatedTables(base).coverage[i].growth == Absent
  {
  }

  /** The coverage column of zlib. */
  lemma ZlibCoverage()
    ensures Coverages(SimulatedCoverage(Baselines["zlib"])) == [70, 73, 75, 77, 80, 82, 85, 87, 90]
  {
  }

  /** The requested names without repetitions, each at its first occurrence. */
  function Dedup(names: seq<string>): seq<string>
  {
    if names == [] then []
    else
      var rest := Dedup(names[..|names| - 1]);
      if names[|names| - 1] in rest then rest else rest + [names[|names| - 1]]
  }

  /** Dedup keeps exactly the requested names, each once. */
  lemma {:induction false} DedupSpec(names: seq<string>)
    ensures Distinct(Dedup(names))
    ensures forall p :: p in Dedup(names) <==> p in names
  {
    if names != [] {
      var init := names[..|names| - 1];
      DedupSpec(init);
      assert names == init + [names[|names| - 1]];
    }
  }

  /** Requesting one more name appends it unless it was already requested. */
  lemma DedupSnoc(names: seq<string>, p: string)
    ensures Dedup(names + [p]) == if p in Dedup(names) then Dedup(names) else Dedup(names) + [p]
  {
    assert (names + [p])[..|names|] == names;
  }

  /**
   * What fetch_project_data returns for `names` when the baseline table is
   * `baselines`, or the KeyError it raises.
   */
  function Fetch(baselines: map<string, int>, names: seq<string>): Result<ProjectDict, Error>
  {
    if names == [] then Success(ProjectDict([], map[]))
    else
      var last := names[|names| - 1];
      var init := Fetch(baselines, names[..|names| - 1]);
      if init.Failure? then init
      else if last !in baselines then Failure(UnknownProject(last))
      else Success(init.value.Put(last, SimulatedTables(baselines[last])))
  }

  /** The fetch succeeds exactly when every requested project has a baseline. */
  lemma {:induction false} FetchSucceeds(baselines: map<string, int>, names: seq<string>)
    ensures Fetch(baselines, names).Success? <==> forall i | 0 <= i < |names| :: names[i] in baselines
  {
    if names != [] {
      var init := names[..|names| - 1];
      FetchSucceeds(baselines, init);
      assert forall i | 0 <= i < |init| :: init[i] == names[i];
    }
  }

  /** A failed fetch names the first requested project that has no baseline. */
  lemma {:induction false} FetchFirstUnknown(baselines: map<string, int>, names: seq<string>)
    requires Fetch(baselines, names).Failure?
    ensures exists k | 0 <= k < |names| ::
      && names[k] !in baselines
      && (forall j | 0 <= j < k :: names[j] in baselines)
      && Fetch(baselines, names).error == UnknownProject(names[k])
  {
    var init := names[..|names| - 1];
    assert forall i | 0 <= i < |init| :: init[i] == names[i];
    if Fetch(baselines, init).Failure? {
      FetchFirstUnknown(baselines, init);
      var k :| 0 <= k < |init| && init[k] !in baselines
        && (forall j | 0 <= j < k :: init[j] in baselines)
        && Fetch(baselines, init).error == UnknownProject(init[k]);
      assert names[k] !in baselines;
    } else {
      FetchSucceeds(baselines, init);
      assert names[|names| - 1] !in baselines;
    }
  }

  /**
   * A successful fetch holds one entry per distinct requested project, in
   * request order, each the simulated tables of its baseline.
   */
  lemma {:induction false} FetchEntries(baselines: map<string, int>, names: seq<string>)
    requires Fetch(baselines, names).Success?
    ensures Fetch(baselines, names).value.Valid()
    ensures Fetch(baselines, names).value.keys == Dedup(names)
    ensures forall p :: p in Fetch(baselines, names).value.entries <==> p in names
    ensures forall p | p in Fetch(baselines, names).value.entries ::
      p in baselines && Fetch(baselines, names).value.entries[p] == SimulatedTables(baselines[p])
  {
    if names != [] {
      var init := names[..|names| - 1];
      var last := names[|names| - 1];
      FetchEntries(baselines, init);
      assert names == init + [last];
      DedupSnoc(init, last);
    }
  }

  /** Once a prefix of the request fails, the whole request fails the same way. */
  lemma {:induction false} FetchPrefixFailure(baselines: map<string, int>, names: seq<string>, i: nat)
    requires i <= |names| && Fetch(baselines, names[..i]).Failure?
    ensures Fetch(baselines, names) == Fetch(baselines, names[..i])
  {
    if i < |names| {
      var init := names[..|names| - 1];
      assert init[..i] == names[..i];
      FetchPrefixFailure(baselines, init, i);
    } else {
      assert names[..i] == names;
    }
  }

  /**
   * fetch_project_data: builds the dictionary project by project from its
   * own fixed baseline table; the first project without a baseline raises,
   * and no dictionary is returned.
   */
  method FetchProjectData(names: seq<string>) returns (r: Result<ProjectStore, Error>)
    ensures r.Success? <==> Fetch(Baselines, names).Success?
    ensures r.Failure? ==> r.error == Fetch(Baselines, names).error
    ensures r.Success? ==> fresh(r.value) && r.value.Contents() == Fetch(Baselines, names).value
  {
    var coverageBase := Baselines;
    var store := new ProjectStore();
    for i := 0 to |names|
      invariant fresh(store)
      invariant Fetch(coverageBase, names[..i]) == Success(store.Contents())
    {
      var project := names[i];
      assert names[..i + 1][..i] == names[..i];
      if project !in coverageBase {
        FetchPrefixFailure(coverageBase, names, i + 1);
        return Failure(UnknownProject(project));
      }
      store.Put(project, SimulatedTables(coverageBase[project]));
    }
    assert names[..|names|] == names;
    return Success(store);
  }
}
