/**
 * The analyzer: distinct crash count, mean coverage and the growth_rate
 * column, which it writes into the caller's coverage tables.
 */
module Analyzer {
  import opened Wrappers
  import opened Tables

  /** The set of crash_hash values of a crash table. */
  function CrashHashes(rows: seq<CrashRow>): set<string>
  {
    if rows == [] then {} else {rows[0].crashHash} + CrashHashes(rows[1..])
  }

  /** `crashes["crash_hash"].nunique()`. */
  function UniqueCrashes(rows: seq<CrashRow>): nat
  {
    |CrashHashes(rows)|
  }

  /** A hash is counted exactly when some row carries it. */
  lemma {:induction false} CrashHashesMembers(rows: seq<CrashRow>)
    ensures CrashHashes(rows) == set i | 0 <= i < |rows| :: rows[i].crashHash
  {
    if rows != [] {
      CrashHashesMembers(rows[1..]);
      var rest := set i | 0 <= i < |rows| - 1 :: rows[1..][i].crashHash;
      var all := set i | 0 <= i < |rows| :: rows[i].crashHash;
      forall h | h in all ensures h in {rows[0].crashHash} + rest {
        var i :| 0 <= i < |rows| && rows[i].crashHash == h;
        if i > 0 { assert rows[1..][i - 1].crashHash == h; }
      }
      forall h | h in rest ensures h in all {
        var i :| 0 <= i < |rows| - 1 && rows[1..][i].crashHash == h;
        assert rows[i + 1].crashHash == h;
      }
    }
  }

  /** There are at most as many distinct hashes as rows, and at least one if there is a row. */
  lemma {:induction false} UniqueCrashesBounds(rows: seq<CrashRow>)
    ensures UniqueCrashes(rows) <= |rows|
    ensures rows != [] ==> 1 <= UniqueCrashes(rows)
  {
    if rows != [] {
      UniqueCrashesBounds(rows[1..]);
    }
  }

  predicate DistinctHashes(rows: seq<CrashRow>)
  {
    forall i, j | 0 <= i < j < |rows| :: rows[i].crashHash != rows[j].crashHash
  }

  /** Every row counts once exactly when no crash_hash repeats: repeated hashes collapse. */
  lemma {:induction false} UniqueCrashesAllDistinct(rows: seq<CrashRow>)
    ensures UniqueCrashes(rows) == |rows| <==> DistinctHashes(rows)
  {
    if rows != [] {
      var rest := rows[1..];
      UniqueCrashesAllDistinct(rest);
      UniqueCrashesBounds(rest);
      CrashHashesMembers(rest);
      var h := rows[0].crashHash;
      if h in CrashHashes(rest) {
        var i :| 0 <= i < |rest| && rest[i].crashHash == h;
        assert rows[0].crashHash == rows[i + 1].crashHash;
        assert !DistinctHashes(rows);
      } else {
        assert UniqueCrashes(rows) == UniqueCrashes(rest) + 1;
        if DistinctHashes(rows) {
          assert DistinctHashes(rest) by {
            forall i, j | 0 <= i < j < |rest| ensures rest[i].crashHash != rest[j].crashHash {
              assert rest[i] == rows[i + 1] && rest[j] == rows[j + 1];
            }
          }
        }
        if DistinctHashes(rest) {
          forall i, j | 0 <= i < j < |rows| ensures rows[i].crashHash != rows[j].crashHash {
            if i == 0 {
              assert rows[j].crashHash == rest[j - 1].crashHash;
            } else {
              assert rows[i] == rest[i - 1] && rows[j] == rest[j - 1];
            }
          }
        }
      }
    }
  }

  function Sum(xs: seq<int>): int
  {
    if xs == [] then 0 else xs[0] + Sum(xs[1..])
  }

  /** The smallest value of a non-empty column. */
  function MinOf(xs: seq<int>): (m: int)
    requires xs != []
    ensures m in xs
    ensures forall i | 0 <= i < |xs| :: m <= xs[i]
  {
    if |xs| == 1 then xs[0]
    else
      var m := MinOf(xs[1..]);
      if xs[0] <= m then xs[0] else m
  }

  /** The largest value of a non-empty column. */
  function MaxOf(xs: seq<int>): (m: int)
    requires xs != []
    ensures m in xs
    ensures forall i | 0 <= i < |xs| :: xs[i] <= m
  {
    if |xs| == 1 then xs[0]
    else
      var m := MaxOf(xs[1..]);
      if m <= xs[0] then xs[0] else m
  }

  /** `coverage["coverage"].mean()`; the mean of an empty column is NaN, here None. */
  function AvgCoverage(rows: seq<CoverageRow>): Option<real>
  {
    if rows == [] then None else Some(Sum(Coverages(rows)) as real / |rows| as real)
  }

  lemma {:induction false} SumBounds(xs: seq<int>, lo: int, hi: int)
    requires forall i | 0 <= i < |xs| :: lo <= xs[i] <= hi
    ensures |xs| * lo <= Sum(xs) <= |xs| * hi
  {
    if xs != [] {
      SumBounds(xs[1..], lo, hi);
      assert |xs| * lo == (|xs| - 1) * lo + lo;
      assert |xs| * hi == (|xs| - 1) * hi + hi;
    }
  }

  /** The mean of a non-empty coverage column lies between its minimum and its maximum. */
  lemma AvgCoverageBounds(rows: seq<CoverageRow>)
    requires rows != []
    ensures AvgCoverage(rows).Some?
    ensures MinOf(Coverages(rows)) as real <= AvgCoverage(rows).value <= MaxOf(Coverages(rows)) as real
  {
    var c := Coverages(rows);
    SumBounds(c, MinOf(c), MaxOf(c));
    MeanBetween(Sum(c), |rows|, MinOf(c), MaxOf(c));
  }

  lemma MeanBetween(sum: int, n: int, lo: int, hi: int)
    requires n > 0 && n * lo <= sum <= n * hi
    ensures lo as real <= sum as real / n as real <= hi as real
  {
    RealOfProduct(n, lo);
    RealOfProduct(n, hi);
    DivideBounds(sum as real, n as real, lo as real, hi as real);
  }

  lemma RealOfProduct(a: int, b: int)
    ensures (a * b) as real == a as real * b as real
  {
  }

  lemma DivideBounds(s: real, n: real, lo: real, hi: real)
    requires n > 0.0 && n * lo <= s <= n * hi
    ensures lo <= s / n <= hi
  {
    var q := s / n;
    assert s == q * n;
    assert (q - lo) * n >= 0.0;
    assert (hi - q) * n >= 0.0;
  }

  /**
   * One cell of `pct_change() * 100`: cur / prev - 1, times 100. A zero
   * previous value gives NaN when the current one is zero too, else an
   * infinity with the sign of the current one.
   */
  function PctChange(prev: int, cur: int): (g: Growth)
    ensures g.Percent? <==> prev != 0
    ensures g.Undefined? <==> prev == 0 && cur == 0
  {
    if prev == 0 then
      if cur == 0 then Undefined else Infinite(cur > 0)
    else
      Percent((cur as real / prev as real - 1.0) * 100.0)
  }

  /** Applying a growth rate to the previous value yields the current one. */
  lemma PctChangeInverse(prev: int, cur: int)
    requires prev != 0
    ensures PctChange(prev, cur).Percent?
    ensures prev as real * (1.0 + PctChange(prev, cur).value / 100.0) == cur as real
  {
    var p, c := prev as real, cur as real;
    var q := c / p;
    assert q * p == c;
    assert PctChange(prev, cur).value / 100.0 == q - 1.0;
  }

  /** From a positive previous value, the rate is positive, zero or negative as coverage rises, stays or falls. */
  lemma PctChangeSign(prev: int, cur: int)
    requires prev > 0
    ensures PctChange(prev, cur).value > 0.0 <==> cur > prev
    ensures PctChange(prev, cur).value == 0.0 <==> cur == prev
  {
    var p, c := prev as real, cur as real;
    var q := c / p;
    assert q * p == c;
    assert PctChange(prev, cur).value == (q - 1.0) * 100.0;
  }

  /** The growth_rate of row i: undefined for the first row, the percent change from row i - 1 after it. */
  function GrowthAt(rows: seq<CoverageRow>, i: int): (g: Growth)
    requires 0 <= i < |rows|
    ensures !g.Absent?
  {
    if i == 0 then Undefined else PctChange(rows[i - 1].coverage, rows[i].coverage)
  }

  /**
   * `coverage_df["growth_rate"] = coverage_df["coverage"].pct_change() * 100`:
   * the same rows with the growth_rate cell added or overwritten.
   */
  function AddGrowthRate(rows: seq<CoverageRow>): (r: seq<CoverageRow>)
    ensures |r| == |rows|
    ensures DateColumn(r) == DateColumn(rows) && Coverages(r) == Coverages(rows)
    ensures HasGrowthColumn(r)
    ensures forall i | 0 <= i < |r| :: r[i].growth == GrowthAt(rows, i)
  {
    seq(|rows|, i requires 0 <= i < |rows| => rows[i].(growth := GrowthAt(rows, i)))
  }

  /** The trend's growth_rate: undefined first, then (c[i] - c[i-1]) / c[i-1] * 100 after a positive value. */
  lemma TrendGrowthRates(rows: seq<CoverageRow>)
    ensures rows != [] ==> AddGrowthRate(rows)[0].growth == Undefined
    ensures forall i | 0 < i < |rows| && rows[i - 1].coverage != 0 ::
      AddGrowthRate(rows)[i].growth ==
        Percent((rows[i].coverage - rows[i - 1].coverage) as real / rows[i - 1].coverage as real * 100.0)
  {
    forall i | 0 < i < |rows| && rows[i - 1].coverage != 0
      ensures AddGrowthRate(rows)[i].growth ==
        Percent((rows[i].coverage - rows[i - 1].coverage) as real / rows[i - 1].coverage as real * 100.0)
    {
      RatioMinusOne(rows[i - 1].coverage as real, rows[i].coverage as real);
    }
  }

  /** cur / prev - 1 is the relative difference (cur - prev) / prev. */
  lemma RatioMinusOne(prev: real, cur: real)
    requires prev != 0.0
    ensures cur / prev - 1.0 == (cur - prev) / prev
  {
    var q, r := cur / prev, (cur - prev) / prev;
    assert q * prev == cur;
    assert r * prev == cur - prev;
    assert (r - (q - 1.0)) * prev == 0.0;
    ZeroFactor(r - (q - 1.0), prev);
  }

  lemma ZeroFactor(x: real, y: real)
    requires y != 0.0 && x * y == 0.0
    ensures x == 0.0
  {
  }

  /** In the trend, each coverage value is the previous one grown by its growth_rate. */
  lemma TrendStepsCoverage(rows: seq<CoverageRow>, i: int)
    requires 0 < i < |rows| && rows[i - 1].coverage != 0
    ensures AddGrowthRate(rows)[i].growth.Percent?
    ensures var t := AddGrowthRate(rows);
      t[i - 1].coverage as real * (1.0 + t[i].growth.value / 100.0) == t[i].coverage as real
  {
    var t := AddGrowthRate(rows);
    assert t[i - 1].coverage == rows[i - 1].coverage && t[i].coverage == rows[i].coverage;
    PctChangeInverse(rows[i - 1].coverage, rows[i].coverage);
  }

  /** Adding the column to a table that already has it changes nothing. */
  lemma AddGrowthRateIdempotent(rows: seq<CoverageRow>)
    ensures AddGrowthRate(AddGrowthRate(rows)) == AddGrowthRate(rows)
  {
    var once := AddGrowthRate(rows);
    var twice := AddGrowthRate(once);
    forall i | 0 <= i < |rows| ensures twice[i] == once[i] {
      assert Coverages(once)[i] == Coverages(rows)[i];
      if i > 0 {
        assert Coverages(once)[i - 1] == Coverages(rows)[i - 1];
      }
    }
  }

  /** The tables after the analyzer's write: crashes untouched, growth_rate added to coverage. */
  function WithGrowth(t: ProjectTables): (u: ProjectTables)
  {
    t.(coverage := AddGrowthRate(t.coverage))
  }

  /** The record `analysis[project]`; the trend is read after growth_rate was written. */
  datatype ProjectAnalysis = ProjectAnalysis(uniqueCrashes: nat, avgCoverage: Option<real>, coverageTrend: seq<CoverageRow>)

  function Analyze(t: ProjectTables): ProjectAnalysis
  {
    ProjectAnalysis(UniqueCrashes(t.crashes), AvgCoverage(t.coverage), AddGrowthRate(t.coverage))
  }

  /** The analysis record restated in terms of the input tables. */
  lemma AnalyzeSpec(t: ProjectTables)
    ensures Analyze(t).uniqueCrashes == |set i | 0 <= i < |t.crashes| :: t.crashes[i].crashHash|
    ensures t.coverage != [] ==>
      && Analyze(t).avgCoverage.Some?
      && MinOf(Coverages(t.coverage)) as real <= Analyze(t).avgCoverage.value <= MaxOf(Coverages(t.coverage)) as real
    ensures Analyze(t).coverageTrend == WithGrowth(t).coverage
  {
    CrashHashesMembers(t.crashes);
    if t.coverage != [] {
      AvgCoverageBounds(t.coverage);
    }
  }

  /** Analysing the tables the analyzer has already written to gives the same record and the same tables. */
  lemma AnalyzeIdempotent(t: ProjectTables)
    ensures Analyze(WithGrowth(t)) == Analyze(t)
    ensures WithGrowth(WithGrowth(t)) == WithGrowth(t)
  {
    AddGrowthRateIdempotent(t.coverage);
  }

  /**
   * analyze_project_data: one record per project of the store, and, as a
   * side effect, growth_rate written into every coverage table of the store.
   */
  method AnalyzeProjectData(store: ProjectStore) returns (analysis: map<string, ProjectAnalysis>)
    requires store.Contents().Valid()
    modifies store
    ensures store.projects == old(store.projects)
    ensures forall p :: p in store.tables <==> p in old(store.tables)
    ensures forall p | p in old(store.tables) :: store.tables[p] == WithGrowth(old(store.tables)[p])
    ensures forall p :: p in analysis <==> p in old(store.tables)
    ensures forall p | p in analysis :: analysis[p] == Analyze(old(store.tables)[p])
  {
    analysis := map[];
    var projects := store.projects;
    for i := 0 to |projects|
      invariant store.projects == projects && Distinct(projects)
      invariant forall p :: p in store.tables <==> p in projects
      invariant forall p | p in store.tables ::
        store.tables[p] == if p in projects[..i] then WithGrowth(old(store.tables)[p]) else old(store.tables)[p]
      invariant forall p :: p in analysis <==> p in projects[..i]
      invariant forall p | p in analysis :: analysis[p] == Analyze(old(store.tables)[p])
    {
      var project := projects[i];
      assert project !in projects[..i];
      assert projects[..i + 1] == projects[..i] + [project];
      var data := store.tables[project];
      analysis := analysis[project := Analyze(data)];
      store.Put(project, WithGrowth(data));
    }
    assert projects[..|projects|] == projects;
  }
}
