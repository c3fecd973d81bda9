# Disaster-law dataset analyzer, modelled in Dafny

This project models the data logic of `DisasterLawAnalyzer` in
`dashboard.py`. The analyzer reads a fixed list of Excel workbooks. It tags
every sheet with its file name, sheet name, region and theme. It keeps one
metadata record per sheet and concatenates the sheets into one combined
table. It then derives these aggregations:

- an overview: datasets and records by region and by theme, and a
  region-by-theme coverage matrix;
- a local-authority cross-tabulation;
- a vulnerable-population protection count by region;
- a per-State summary;
- a printed summary report, including the ten best-covered columns.

The model turns each of these into a pure function over immutable data and
proves what the results mean.

Modules:

- `Wrappers`: `Option` and `Result`.
- `Ordering`: strict total orders and sorted, distinct key lists.
- `Text`: Python's `in` on strings, ASCII `lower()` and `strip()`, and
  Python string ordering.
- `Frames`: the part of a pandas DataFrame the analyzer observes. A frame
  is an ordered column list plus rows. A row maps column names to cells,
  and an absent key is a missing value. The module also models column
  assignment, `dropna(how='all')`, `notna().sum()` and `pd.concat`.
- `Grouping`: pandas `groupby` as sorted group keys plus per-key sums of a
  row weight. It also models two-key tables, as made by `pivot_table` and
  `unstack(fill_value=0)`.
- `Classify`: `_extract_region` and `_extract_theme`.
- `Seqs`: a generic fold that concatenates per-element results.
- `Ingest`: `__init__` and `load_all_datasets`, and the invariant the
  analyzer keeps.
- `Overview`: `create_overview_dashboard` without the plotting.
- `Analyses`: `analyze_local_authority`, `analyze_vulnerable_populations`
  and `create_state_summary`.
- `Report`: `generate_summary_report`, with the printed figures returned
  as a value.

I/O is a parameter. A source file is `Missing`, `Unopenable`, or a
`Workbook` whose sheet reads each give a parsed frame or a failure. Reading
a single sheet can fail. The `try` covers the whole file, so the sheets
read before the failure are kept, and the failing sheet and every later
sheet of that file are dropped.

Four facts about the code shape the model:

- `dropna(how='all')` runs after the four tag columns are set, so every
  row holds a value and the call never removes a row
  (`Ingest.DropnaRemovesNothing`). A loaded sheet has the raw sheet's rows.
- One `try` covers a whole file. A sheet read that fails abandons that
  sheet and every later sheet of the file; the sheets read before it stay
  loaded (`Ingest.FailureEndsFile`).
- Column headers are used as read; they are not stripped of whitespace.
- File-name classification is case-sensitive (`token in filename`).

## Model

| member | source | states |
|---|---|---|
| Classify.ExtractRegion | dashboard.py:105-110 | the region is one of the seven mapped labels or `Other` |
| Classify.RegionIsFirstMatch | dashboard.py:28-37 | the region is `Other` exactly when no mapping key occurs in the name; otherwise it is the label of the first key, in insertion order, that occurs |
| Classify.ExtractTheme | dashboard.py:112-125 | the theme is one of the five labels or `General` |
| Classify.ThemeIsFirstMatch | dashboard.py:114-125 | the if/elif chain gives the same theme as first-match over the ordered table of token pairs with fallback `General` |
| Classify.NoRegionCapitals | dashboard.py:105-110 | a name without the letters A, M, N and S contains no region key, so its region is `Other` |
| Classify.NoThemeCapitals | dashboard.py:112-125 | a name without any of K, L, E, D, V, P and R contains no theme token, so its theme is `General` |
| Classify.ComparisonFocusIsUnclassified | dashboard.py:49 | `ComparisonFocus.xlsx` is classified `Other` and `General` |
| Classify.ProtectionBeatsFema | dashboard.py:56 | `ProtectionAreaRiskWithoutFEMASupport.xlsx` is `Vulnerable Populations`: the protection test comes before the FEMA/risk test |
| Classify.StatutesBeatVulnerable | dashboard.py:114-119 | any name containing `KeyStatutes` is `Legal Framework`, whatever follows, `VulnerablePopulationsProtections` included |
| Frames.CellLessIsStrictTotalOrder | dashboard.py:140 | the order of group keys (numbers before strings, strings by code point) is a strict total order |
| Frames.SetColumn | dashboard.py:72-75 | a scalar column assignment sets that column in every row, appends it only when new, and changes no other cell |
| Frames.AssignColumn | dashboard.py:199 | a per-row column assignment puts value `i` in row `i`, leaves missing values missing, and changes no other column |
| Frames.AssignColumnUnchanged | dashboard.py:199 | assigning a column the values it already holds gives back the same frame |
| Frames.DropAllMissing | dashboard.py:78 | `dropna(how='all')` keeps the columns, keeps every row that holds a value, and drops exactly the rows with none |
| Frames.NonEmptyRows | dashboard.py:78 | every kept row is a non-empty input row, every non-empty input row is kept, and the number kept is the input's minus the empty rows |
| Frames.NonEmptyRowsAppend | dashboard.py:78 | filtering a concatenation filters each part in turn, so the kept rows stay in input order |
| Frames.CountPresent | dashboard.py:328 | the count is the number of row positions holding the column; it is at most the row count, and equal to it exactly when every row has the column |
| Frames.Concat | dashboard.py:98 | the concatenation has the sum of the frames' rows, and its columns are exactly those of some frame |
| Frames.ConcatRowOrigin | dashboard.py:98 | row `j` of frame `i` appears unchanged after all rows of the earlier frames |
| Frames.ConcatRowFrom | dashboard.py:98 | every row of the concatenation is a row of one of the frames |
| Frames.ConcatWellFormed | dashboard.py:98 | concatenating well-formed frames gives a well-formed frame |
| Grouping.GroupKeys | dashboard.py:140 | the group keys are strictly ascending and are exactly the keys some row has; rows without a key are dropped |
| Grouping.GroupNonEmpty | dashboard.py:140 | every group that exists has at least one row |
| Grouping.TableTotal | dashboard.py:170-173 | a two-key table with zero fill accounts for every keyed row exactly once |
| Ingest.TagSheet | dashboard.py:72-75 | every row carries the file, sheet, region and theme; no other cell changes; the column count grows by the tags the sheet lacked |
| Ingest.DropnaRemovesNothing | dashboard.py:72-78 | after tagging, `dropna(how='all')` removes no row |
| Ingest.SheetMetaCounts | dashboard.py:83-90 | a sheet's record describes it: its row count is the raw sheet's, its column count is the raw one plus the new tag columns (four more for an untagged sheet), and its region and theme are those of the file name |
| Ingest.FirstFailure | dashboard.py:64-95 | the sheets before the returned index all parse, and the sheet at that index, if any, failed |
| Ingest.LoadSheets | dashboard.py:68-92 | a workbook yields one frame and one record for each sheet before the first failing read |
| Ingest.LoadSheetsDescribed | dashboard.py:68-90 | record `i` names the file and sheet `i`, counts that sheet's raw rows, and describes frame `i`; frame `i` is well formed when the sheet is |
| Ingest.LoadSheetsRows | dashboard.py:68-92 | the frames of a workbook have as many rows as the raw sheets before the first failure |
| Ingest.FailureEndsFile | dashboard.py:64-95 | a failing sheet ends the file: what follows it is never loaded |
| Ingest.LoadFiles | dashboard.py:61-95 | the loop yields as many frames as metadata records |
| Ingest.LoadFilesDescribed | dashboard.py:61-95 | each collected frame is described by the record at the same position, classified by its file name |
| Ingest.LoadFilesRows | dashboard.py:61-95 | the collected frames have as many rows as every file's sheets up to its first failure |
| Ingest.LoadFilesAppend | dashboard.py:61 | loading a list of files is loading its two halves one after the other |
| Ingest.SkippedFileContributesNothing | dashboard.py:63-66 | a missing or unopenable file adds no frame and no record |
| Ingest.Load | dashboard.py:97-103 | the new metadata is the old followed by exactly the loaded records; with nothing loaded, the combined table is unchanged; otherwise it is the concatenation of the loaded tables, whose rows number the new records' rows and the files' expected rows |
| Ingest.LoadedIsTaggedRaw | dashboard.py:61-90 | loaded table `i` is raw sheet `i` with the tags of record `i` set |
| Ingest.CombinedColumns | dashboard.py:72-98 | after a load that read a sheet, the combined columns are the four tag columns and the columns of the raw sheets |
| Ingest.CombinedRowFromRaw | dashboard.py:72-98 | row `j` of raw sheet `i` sits in the combined table after the earlier sheets' rows; it carries its record's tags, keeps every other raw cell, and lacks the columns its sheet lacked |
| Ingest.NewAnalyzerConsistent | dashboard.py:14-16 | the fresh analyzer is empty and satisfies the invariant |
| Ingest.LoadPreservesConsistent | dashboard.py:39-103 | loading keeps the invariant: the table is well formed, every row is tagged with labels the classifiers produce, every record is classified by its name, and the row count is bounded by the records' rows |
| Ingest.ReloadDuplicatesMetadata | dashboard.py:83-98 | loading the same files twice appends their records a second time, while the combined table stays the same |
| Overview.Breakdown | dashboard.py:140-141 | with no metadata the grouping fails on the missing column; otherwise groups are strictly ascending, exist exactly for present keys, and count each group's records (at least one) and sum their rows |
| Overview.ByRegionTotals | dashboard.py:306-309 | the regional breakdown accounts for every sheet and every row once |
| Overview.ByThemeTotals | dashboard.py:315-318 | the thematic breakdown accounts for every sheet and every row once |
| Overview.GroupsForValues | dashboard.py:160-161 | each group's record count and row sum are those of the records with its key |
| Overview.CoverageMatrix | dashboard.py:170-173 | regions and themes ascend and are those present; each cell sums the rows of its region and theme, and is 0 where the pair never occurs |
| Overview.PivotRowTotal | dashboard.py:161-173 | a region's row of the heatmap sums to that region's records bar |
| Overview.PivotTotal | dashboard.py:170-173 | the heatmap's cells sum to all the rows of the metadata |
| Text.LowerSpec | dashboard.py:199 | lower-casing leaves no capital, is idempotent, and keeps a string without capitals as it is |
| Text.StripSpec | dashboard.py:199 | stripping leaves a trimmed block of the input with only whitespace around it |
| Text.CleanSpec | dashboard.py:199 | `.lower().strip()` gives a trimmed string without capitals |
| Text.CleanIdempotent | dashboard.py:199 | cleaning a cleaned string changes nothing |
| Text.LowerIsYesIff | dashboard.py:266 | a value lower-cases to `yes` exactly when it is one of the eight case spellings of `yes` |
| Analyses.CleanValue | dashboard.py:199 | a string value becomes the lower-cased value with only whitespace removed from its ends, trimmed and capital-free; a missing or non-string value becomes missing |
| Analyses.CleanValueIdempotent | dashboard.py:199 | cleaning twice is cleaning once |
| Analyses.Crosstabulate | dashboard.py:201 | regions and cleaned values ascend and are those occurring together; each count is the number of rows with that pair, 0 if none |
| Analyses.CrosstabTotal | dashboard.py:201 | the crosstab counts every row with both a region and a cleaned value exactly once |
| Analyses.PlottedColumns | dashboard.py:206 | `yes` and `no` are plotted exactly when both occur; otherwise exactly the table's own columns |
| Analyses.AnalyzeLocalAuthority | dashboard.py:192-209 | without the column nothing changes and there is no chart; otherwise the cleaned column is written for every row, no other cell changes, and the chart shows the crosstab of the new table with the series line 206 chooses (`yes` and `no` when both occur, else every column) |
| Analyses.CleanedValuesNormal | dashboard.py:199 | after the analysis a cleaned value is present exactly where the raw one is a string, and it is trimmed and capital-free |
| Analyses.LocalAuthorityPreservesConsistent | dashboard.py:199 | the analysis keeps the analyzer's invariant |
| Analyses.LocalAuthorityIdempotent | dashboard.py:192-201 | running the analysis twice gives the same state and chart as once |
| Analyses.VulnerableByRegion | dashboard.py:221-231 | as written: no result without the column; otherwise one ascending entry per present region, in which the total and the protected count are both the number of rows with a value |
| Analyses.NoProtectionAlwaysZero | dashboard.py:243-245 | as written, every region's `No Protection` bar is 0 |
| Analyses.UnprotectedRowIsLost | dashboard.py:226-245 | one `Midwest` row without a protections value: as written the bars are 0/0, as intended 1 total, 0 protected |
| Analyses.VulnerableByRegionIntended | dashboard.py:226-231 | corrected: the total is the region's row count and the protected count its rows with a value |
| Analyses.IntendedBarsSplitRegion | dashboard.py:245 | corrected: protected ≤ total, and `No Protection` counts exactly the region's rows without a value |
| Analyses.FirstPresent | dashboard.py:268 | `first` is missing exactly when no row of the group has the column, and otherwise it is the value of the first group row that has it |
| Analyses.FirstPresentOfFirstRow | dashboard.py:268 | when the group's first row has the column, `first` is that row's value |
| Analyses.StateSummary | dashboard.py:259-276 | no result without a `State` column, whatever other columns exist; otherwise one ascending entry per present State, each count bounded by the State's (non-empty) group |
| Analyses.StateSummaryOfTagged | dashboard.py:265-274 | on a consistent analyzer, `Total Records` is the State's row count, both other counts are at most that, and the region is that of the State's first row |
| Analyses.PaddedYesNotCounted | dashboard.py:199 | `" Yes "` cleans to `yes` in the crosstab, but `create_state_summary`, which does not strip, does not count it as yes |
| Report.FileNames | dashboard.py:300 | the distinct file names are those of the records, at most as many and at least one when there are records |
| Report.Candidates | dashboard.py:325-328 | every non-tag column appears once, with its non-missing count, and nothing else does |
| Report.InsertKeepsDescending | dashboard.py:330 | inserting into a descending list keeps it descending |
| Report.SortDescending | dashboard.py:330 | the sort is a permutation of its input with counts descending |
| Report.TopColumns | dashboard.py:330 | ten entries, or all when fewer, descending, a sub-multiset of the input, and none left out counts more than one kept |
| Report.CoverageRanking | dashboard.py:324-330 | at most ten distinct non-tag columns of the table, descending, each with its non-missing count |
| Report.NothingLargerLeftOut | dashboard.py:324-330 | no non-tag column left out of the ranking has more values than a column in it |
| Report.SummaryReport | dashboard.py:289-330 | no report for an empty table; a failure naming `region` when there is data but no metadata; otherwise files is the number of distinct file names, 0 < files ≤ sheets, records = rows > 0, and the regional and thematic breakdowns and the ranking |
| Report.ConsistentReportSucceeds | dashboard.py:291-309 | on a consistent analyzer the report never fails |
| Report.ReportBreakdownTotals | dashboard.py:305-321 | the report's breakdowns each account for every sheet and every row |

## Findings

| source | as written | input that shows it | evidently intended | confidence | as-written member | corrected member |
|---|---|---|---|---|---|---|
| dashboard.py:226-245 | `Total Records` is the `'count'` aggregation of the protections column. That counts only non-missing values, so it always equals `Has Protection`, and the `No Protection` bar is always 0 | a combined table with one `Midwest` row and no protections value: as written 0 total, 0 protected | `Total Records` is the region's row count (`size()`), so `No Protection` counts the rows without a value (1 here) | not executed | Analyses.UnprotectedRowIsLost | Analyses.IntendedBarsSplitRegion |

`Analyses.VulnerableByRegion` models the code as written and
`Analyses.NoProtectionAlwaysZero` shows that its `No Protection` bar is
always 0. `Analyses.VulnerableByRegionIntended` is the corrected version.

A related inconsistency is shown but not corrected, because either reading
may be meant. The crosstab strips the `Local Authority` values, but the
State summary compares them unstripped, so `" Yes "` counts as yes in one
and not in the other (`Analyses.PaddedYesNotCounted`).

## Left out

- Plotting (`make_subplots`, `go.*`, `px.bar`, layout and colours), all `print` output and `__main__`: presentation only. The report returns its figures instead of printing them.
- `export_combined_data` and `to_csv`: file output.
- The file system and the Excel reader: a file's existence, whether it opens, and each sheet's parse are inputs (`Ingest.Source`, `Ingest.SheetRead`). The hard-coded file list of lines 41-57 is a parameter; only two of its names are classified concretely, because long literals are costly to evaluate.
- Floating-point figures: the protection rate and `round` (lines 228-231) and the coverage percentage (line 331). The rate is also undefined (0/0) for a region with no protections value.
- Cell types: a cell is a string or another value represented by an integer. pandas dtype inference and NaN-valued floats are not modelled; a missing value is an absent key.
- Unicode: `lower()` and `strip()` are modelled on ASCII letters and ASCII whitespace.
- Analyses.StateSummary: when a `State` column exists, requires the `Local Authority`, `Vulnerable Populations Protections`, `region` and `theme` columns. Only in that case does the `agg` of lines 265-270 read them, and without one of them pandas raises `KeyError`; that error path is not modelled. Without `State` the result is `None` whatever else is missing.
- Analyses.CleanValue: a column with no string values at all makes pandas' `.str` accessor raise; the model instead gives a missing value for each non-string cell, as pandas does in a mixed column.
- Report.SortDescending: stability of `sorted` is implemented (later entries go after equal ones), but only the permutation and the descending order are stated.
- Report.TopColumns: when several entries share the tenth-largest count, which of them are kept is not stated. `sorted` is stable, so the source keeps those that come first in dict order, and the model's insertion sort does the same, but the contract only says that no entry left out counts more than one kept.
- Report.CoverageRanking: the order of columns with equal counts is not stated, and neither is which of the columns tied at the tenth-largest count make the ten (the source keeps those first in column order).
- Column names are strings; pandas allows other hashable labels.
