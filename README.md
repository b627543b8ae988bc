# OSS-Fuzz analysis pipeline, modelled in Dafny

This project models the in-memory data path of the OSS-Fuzz proof-of-concept
analyzer (`src/oss_fuzz_analysis/analyzer.py`):

- **Metadata fetch.** `fetch_project_metadata` keeps the API's body for a
  status of 200 and stores the sentinel `{"error": "Project not found"}` for
  every other status. The HTTP exchange is a parameter of the model.
- **Simulated data provider.** `fetch_project_data` hands every requested
  project the same nine-row crash table. It also builds a nine-row coverage
  table from the project's baseline (zlib 70, libpng 75, openssl 65). A name
  without a baseline raises, the KeyError of the source.
- **Analyzer.** `analyze_project_data` counts distinct `crash_hash` values
  and averages the coverage column. It also writes the `growth_rate` column
  (`pct_change() * 100`) into the caller's own coverage tables.
- **Chart preparation.** `plot_coverage_trends` copies each coverage table,
  parses its `DD-MM-YYYY` dates and sorts the rows by date.
- **Report.** `main` assembles `{metadata, analysis, raw_data}`. Because
  raw_data is copied after the analyzer's write, its coverage rows carry
  `growth_rate`.

Modules:

| file | module | contents |
|---|---|---|
| `wrappers.dfy` | `Wrappers` | `Option` and `Result` |
| `tables.dfy` | `Tables` | rows, growth cells, the project dictionary as a value (`ProjectDict`), the mutable store (`ProjectStore`) |
| `provider.dfy` | `DataProvider` | the fixed dataset, the pure function `Fetch`, the method `FetchProjectData` |
| `metadata.dfy` | `Metadata` | response-to-record mapping, `FetchProjectMetadata` |
| `analyzer.dfy` | `Analyzer` | distinct crash count, mean, percent change, `AnalyzeProjectData` |
| `dates.dfy` | `Dates` | calendar, `DD-MM-YYYY` parsing and its inverse, chronological order |
| `charts.dfy` | `Charts` | date parsing of a table, sorting by date, `PrepareCoverageTrends` |
| `pipeline.dfy` | `Pipeline` | `main` up to the report, and facts about the fixed dataset |

The dictionary `project_data` holds the coverage tables that the analyzer
writes `growth_rate` into. Those tables are the caller's own objects, so a
write through the dictionary is seen by every later reader of it. The
dictionary is modelled as the class `ProjectStore`, and each table write is
a store update. Its fields are the
insertion-ordered key list and the key-to-tables map. Each method that
changes it is proved against a pure function: `FetchProjectData` against
`Fetch`, and `AnalyzeProjectData` against `WithGrowth` and `Analyze`.

pandas values map to Dafny values as follows:

- A NaN growth cell is `Undefined`.
- The ±inf produced by a change from a zero coverage value is `Infinite`.
- A table that has no `growth_rate` column yet has `Absent` cells.
- Means and percentages are exact reals.

## Model

| member | source | states |
|---|---|---|
| Tables.ProjectDict.Put | src/oss_fuzz_analysis/analyzer.py:93-96 | storing under a key maps that key to the new tables and leaves every other entry alone; a new key goes last and an existing key keeps its place, so key order stays duplicate-free and in step with the map |
| Tables.ProjectStore.Put | src/oss_fuzz_analysis/analyzer.py:93-96 | the store's new contents are its old contents with the one entry stored |
| Tables.ProjectStore.constructor | src/oss_fuzz_analysis/analyzer.py:59 | a new store is the empty dictionary |
| DataProvider.SimulatedTablesShape | src/oss_fuzz_analysis/analyzer.py:67-91 | both simulated tables have nine rows; row i of each carries the same date; coverage is baseline plus the i-th offset; there is no growth_rate column yet |
| DataProvider.ZlibCoverage | src/oss_fuzz_analysis/analyzer.py:60-64 | zlib's coverage column is 70, 73, 75, 77, 80, 82, 85, 87, 90 |
| DataProvider.DedupSpec | src/oss_fuzz_analysis/analyzer.py:66-96 | the dictionary's key order has no repeats and holds exactly the requested names |
| DataProvider.FetchSucceeds | src/oss_fuzz_analysis/analyzer.py:80 | the fetch succeeds if and only if every requested name has a baseline |
| DataProvider.FetchFirstUnknown | src/oss_fuzz_analysis/analyzer.py:80 | a failed fetch reports the first requested name that has no baseline, and all names before it have one |
| DataProvider.FetchEntries | src/oss_fuzz_analysis/analyzer.py:66-96 | a successful fetch is a well-formed dictionary; its keys are the distinct requested names in first-request order; each entry is the simulated tables of that name's baseline |
| DataProvider.FetchProjectData | src/oss_fuzz_analysis/analyzer.py:59-97 | the loop raises exactly when `Fetch` fails, and with the same error; otherwise it returns a fresh store whose contents are the dictionary `Fetch` computes |
| Metadata.RecordFor | src/oss_fuzz_analysis/analyzer.py:31-34 | the record is the body if and only if the status is 200; every other status gives the error "Project not found" |
| Metadata.FetchProjectMetadata | src/oss_fuzz_analysis/analyzer.py:27-35 | one record per requested name and no other keys; each is the record for the response to that name |
| Analyzer.CrashHashesMembers | src/oss_fuzz_analysis/analyzer.py:126 | the counted hashes are exactly the crash_hash values found in some row |
| Analyzer.UniqueCrashesBounds | src/oss_fuzz_analysis/analyzer.py:126 | the distinct count is at most the number of rows, and at least one for a non-empty table |
| Analyzer.UniqueCrashesAllDistinct | src/oss_fuzz_analysis/analyzer.py:126 | every row is counted if and only if no two rows share a crash_hash |
| Analyzer.AvgCoverageBounds | src/oss_fuzz_analysis/analyzer.py:128 | the mean of a non-empty coverage column is defined and lies between the column's minimum and maximum |
| Analyzer.PctChange | src/oss_fuzz_analysis/analyzer.py:129 | the change is a finite percentage if and only if the previous value is non-zero; it is NaN if and only if both values are zero |
| Analyzer.PctChangeInverse | src/oss_fuzz_analysis/analyzer.py:129 | growing the previous value by the computed percentage gives back the current value |
| Analyzer.PctChangeSign | src/oss_fuzz_analysis/analyzer.py:129 | from a positive previous value, the rate is positive if and only if coverage rose, and zero if and only if it stayed the same |
| Analyzer.GrowthAt | src/oss_fuzz_analysis/analyzer.py:129 | every row gets a growth_rate cell, never an absent one |
| Analyzer.AddGrowthRate | src/oss_fuzz_analysis/analyzer.py:129 | adding the column keeps the row count and the date and coverage columns; every row gets a growth_rate cell, which is the change from the previous row |
| Analyzer.TrendGrowthRates | src/oss_fuzz_analysis/analyzer.py:129 | the first growth_rate is NaN; after any non-zero value the cell, computed as pandas does (c[i] / c[i-1] - 1) * 100, equals the relative difference (c[i] - c[i-1]) / c[i-1] * 100 |
| Analyzer.TrendStepsCoverage | src/oss_fuzz_analysis/analyzer.py:129 | after a non-zero value, each coverage value is the previous one grown by its growth_rate |
| Analyzer.AddGrowthRateIdempotent | src/oss_fuzz_analysis/analyzer.py:129 | recomputing growth_rate on a table that already has it changes nothing |
| Analyzer.AnalyzeSpec | src/oss_fuzz_analysis/analyzer.py:126-134 | unique_crashes is the number of distinct hashes among the rows; avg_coverage of a non-empty table lies between its minimum and maximum; coverage_trend is the coverage table after growth_rate was written |
| Analyzer.AnalyzeIdempotent | src/oss_fuzz_analysis/analyzer.py:125-135 | analysing tables that were already analysed gives the same record and leaves the tables as they are |
| Analyzer.AnalyzeProjectData | src/oss_fuzz_analysis/analyzer.py:124-136 | key order and key set of the store are unchanged; every project's tables now carry growth_rate, crashes untouched; one analysis record per project, computed from its tables before the write |
| Dates.NotAfterTotalOrder | src/oss_fuzz_analysis/analyzer.py:160 | the chronological order used for sorting is total, antisymmetric and transitive |
| Dates.ParseFormat | src/oss_fuzz_analysis/analyzer.py:158 | every date in the Timestamp range is read back from its own `DD-MM-YYYY` text |
| Dates.FormatParse | src/oss_fuzz_analysis/analyzer.py:158 | a text that parses is exactly the `DD-MM-YYYY` text of the date it parses to |
| Charts.ParseRows | src/oss_fuzz_analysis/analyzer.py:157-158 | parsing succeeds if and only if every date parses; it then keeps each row's coverage and growth_rate; otherwise it raises on the first bad date |
| Charts.InsertPermutation | src/oss_fuzz_analysis/analyzer.py:160 | inserting a row adds exactly that row |
| Charts.InsertSorted | src/oss_fuzz_analysis/analyzer.py:160 | inserting into a date-sorted list keeps it sorted |
| Charts.SortByDateSpec | src/oss_fuzz_analysis/analyzer.py:160 | the sorted copy is in chronological order and is a permutation of its input |
| Charts.PrepareSeriesSpec | src/oss_fuzz_analysis/analyzer.py:157-160 | a project's series fails only on a bad date, with the parse error; otherwise it is the parsed rows, sorted and permuted |
| Charts.PrepareCoverageTrends | src/oss_fuzz_analysis/analyzer.py:155-162 | one series per requested name, in request order; it fails if and only if some name is missing or has a bad date, and then reports the first such failure; the store is not modified |
| Pipeline.FixedCrashesUnique | src/oss_fuzz_analysis/analyzer.py:67-77 | the fixed crash table has eight distinct hashes in nine rows, so not all rows are distinct |
| Pipeline.FixedCrashHashes | src/oss_fuzz_analysis/analyzer.py:67-77 | the hashes of the fixed crash table are those of its first eight rows |
| Pipeline.SimulatedAverage | src/oss_fuzz_analysis/analyzer.py:81-91 | the simulated coverage of baseline b averages to b + 89/9 |
| Pipeline.SingleRowAverage | tests/test_coverage_analysis.py:32-34 | the one-row test table averages to exactly its value, 75 |
| Pipeline.SampleDatesParse | src/oss_fuzz_analysis/analyzer.py:67-91 | all nine sample dates parse to their calendar days, which are in chronological order |
| Pipeline.SimulatedSeriesParse | src/oss_fuzz_analysis/analyzer.py:157-160 | an analysed simulated coverage table can always be prepared for the chart |
| Pipeline.BuildRawData | src/oss_fuzz_analysis/analyzer.py:198-207 | raw_data has one entry per project of the store, equal to that project's current tables |
| Pipeline.RunPipeline | src/oss_fuzz_analysis/analyzer.py:192-213 | the report exists if and only if every requested name is known, else it fails on the first unknown name; metadata, analysis and raw_data are each keyed by exactly the requested names; each analysis is computed from the simulated tables; each raw_data entry is those tables with growth_rate added |

## Left out

- HTTP transport, the `requests` exceptions and the JSON decoding of the body: the response to each name is the parameter `lookup`, and its body is kept as text.
- Drawing the chart (figure, colours, labels, legend) and `savefig`: only the data each line is drawn from is modelled.
- Writing the report with `json.dump` and the output paths: the report is returned as a value, and the key order of its JSON objects is not modelled.
- Floating point: means and percentages are exact reals, and the `int(...)` and `float(...)` conversions at analyzer.py:132-133 are the identity.
- Coverage values are integers. The simulated data is integral, and so is the test fixture's 75.0.
- The `astype(str)` at analyzer.py:130 is the identity, because the dates are strings already.
- Dates.ParseDate: reads only the zero-padded `DD-MM-YYYY` form with ASCII digits. strptime also accepts single-digit day and month fields, a space-padded day such as `" 5-01-2025"`, and non-ASCII decimal digits; on all of these the model fails, so `Charts.ParseRows` and `Charts.PrepareCoverageTrends` are stricter than pandas on such text.
- Charts.SortByDateSpec: the sort is an insertion sort, and the contract claims order and permutation but not stability. `sort_values` uses an unstable quicksort by default, so rows with equal dates may come in any order.
- Metadata.FetchProjectMetadata: `lookup` is a function, so a name requested twice gets the same answer both times. In the source the two requests may get different answers, and the later one is kept.
- An exception from the metadata fetch, and any other failure before the data fetch, is not modelled. `RunPipeline` fails only on the KeyErrors of the data fetch and the plot.
- `main.py` (argument parsing) and the package `__init__.py` (re-exports) only hand the project list to `main`: they are not part of this model.
- A raw_data without growth_rate, copied before the analyzer's write, is not modelled. The code copies it afterwards, and the model follows the code (see `Pipeline.RunPipeline`).
