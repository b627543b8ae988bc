/**
 * The in-memory tables of the analyzer: crash rows, coverage rows with an
 * optional growth_rate column, and the per-project store that holds them.
 */
module Tables {

  /** One row of a crash table: columns date, crash_hash and type. */
  datatype CrashRow = CrashRow(date: string, crashHash: string, kind: string)

  /**
   * The growth_rate cell of a coverage row. `Absent` means the table has no
   * growth_rate column yet; `Undefined` is pandas' NaN; `Infinite` is
   * pandas' +inf or -inf, the percent change from a zero coverage value.
   */
  datatype Growth = Absent | Undefined | Infinite(positive: bool) | Percent(value: real)

  /** One row of a coverage table: columns date and coverage, and growth_rate once added. */
  datatype CoverageRow = CoverageRow(date: string, coverage: int, growth: Growth)

  /** The two tables the data provider produces for one project. */
  datatype ProjectTables = ProjectTables(crashes: seq<CrashRow>, coverage: seq<CoverageRow>)

  /** The ways a run of the pipeline can fail. */
  datatype Error =
    | UnknownProject(name: string)   // KeyError: no baseline for the project
    | MissingProject(name: string)   // KeyError: no tables for a project to plot
    | BadDate(text: string)          // ValueError: a date that does not parse

  /** The coverage column of a coverage table. */
  function Coverages(rows: seq<CoverageRow>): seq<int>
  {
    seq(|rows|, i requires 0 <= i < |rows| => rows[i].coverage)
  }

  /** The date column of a coverage table. */
  function DateColumn(rows: seq<CoverageRow>): seq<string>
  {
    seq(|rows|, i requires 0 <= i < |rows| => rows[i].date)
  }

  /** True if every row of the table has a growth_rate cell. */
  predicate HasGrowthColumn(rows: seq<CoverageRow>)
  {
    forall i | 0 <= i < |rows| :: !rows[i].growth.Absent?
  }

  predicate Distinct(s: seq<string>)
  {
    forall i, j | 0 <= i < j < |s| :: s[i] != s[j]
  }

  /**
   * A dictionary from project names to tables, as a value: `keys` is its
   * insertion order, which is the order Python iterates it in.
   */
  datatype ProjectDict = ProjectDict(keys: seq<string>, entries: map<string, ProjectTables>)
  {
    ghost predicate Valid()
    {
      Distinct(keys) && forall p :: p in entries <==> p in keys
    }

    /** `d[p] = t`: a new key goes last, an existing key keeps its place. */
    function Put(p: string, t: ProjectTables): (d: ProjectDict)
      ensures Valid() ==> d.Valid()
      ensures d.entries == entries[p := t]
      ensures p in entries ==> d.keys == keys
      ensures p !in entries ==> d.keys == keys + [p]
    {
      ProjectDict(if p in entries then keys else keys + [p], entries[p := t])
    }
  }

  /**
   * The dictionary `project_data` that maps each project to its tables.
   * The tables are the caller's own objects, so a write into one of them
   * through this store is seen by every later reader of the store.
   */
  class ProjectStore {
    var projects: seq<string>
    var tables: map<string, ProjectTables>

    function Contents(): ProjectDict
      reads this
    {
      ProjectDict(projects, tables)
    }

    constructor ()
      ensures Contents() == ProjectDict([], map[])
    {
      projects := [];
      tables := map[];
    }

    method Put(p: string, t: ProjectTables)
      modifies this
      ensures Contents() == old(Contents()).Put(p, t)
    {
      if p !in tables {
        projects := projects + [p];
      }
      tables := tables[p := t];
    }
  }
}
