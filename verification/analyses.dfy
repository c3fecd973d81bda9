/** The analyses over the combined table: the Local Authority breakdown
    (`analyze_local_authority`), the protection counts per region
    (`analyze_vulnerable_populations`) and the per-State summary
    (`create_state_summary`). Each keeps the counts it plots or returns;
    the figures themselves are not modelled. */
module Analyses {
  import opened Wrappers
  import Ordering
  import Text
  import Grouping
  import opened Frames
  import opened Ingest

  const LocalAuthorityColumn := "Local Authority"
  const CleanColumn := "Local Authority Clean"
  const ProtectionsColumn := "Vulnerable Populations Protections"
  const StateColumn := "State"

  // ---- Local Authority ----------------------------------------------------------

  /** `.str.lower().str.strip()` on one value: a string is lower-cased and
      stripped; a missing value or a value that is not a string gives a
      missing value. */
  function CleanValue(c: Option<Cell>): (r: Option<Cell>)
    ensures r.Some? <==> c.Some? && c.value.Str?
    ensures r.Some? ==> r.value.Str? && Text.IsTrimmed(r.value.s) && Text.NoUpper(r.value.s)
    ensures r.Some? ==> exists i :: Text.SpaceAround(Text.Lower(c.value.s), r.value.s, i)
  {
    match c
    case Some(Str(s)) =>
      Text.CleanSpec(s);
      Text.StripSpec(Text.Lower(s));
      Some(Str(Text.Strip(Text.Lower(s))))
    case _ => None
  }

  /** Cleaning a cleaned value changes nothing. */
  lemma CleanValueIdempotent(c: Option<Cell>)
    ensures CleanValue(CleanValue(c)) == CleanValue(c)
  {
    if c.Some? && c.value.Str? {
      Text.CleanIdempotent(c.value.s);
    }
  }

  /** The group keys of line 201: a row is counted when both its region and
      its cleaned value are present. */
  function RegionAndClean(row: Row): Option<(Cell, Cell)> {
    if RegionColumn in row && CleanColumn in row then Some((row[RegionColumn], row[CleanColumn])) else None
  }

  function RegionWithClean(row: Row): Option<Cell> {
    if RegionColumn in row && CleanColumn in row then Some(row[RegionColumn]) else None
  }

  function CleanWithRegion(row: Row): Option<Cell> {
    if RegionColumn in row && CleanColumn in row then Some(row[CleanColumn]) else None
  }

  /** `groupby(['region', clean]).size().unstack(fill_value=0)`: regions
      down, cleaned values across, each in ascending order. */
  datatype Crosstab = Crosstab(index: seq<Cell>, columns: seq<Cell>, counts: seq<seq<nat>>)

  /** The region-by-value counts of line 201. */
  function Crosstabulate(rows: seq<Row>): (t: Crosstab)
    ensures Ordering.StrictlySorted(t.index, CellLess)
    ensures Ordering.StrictlySorted(t.columns, CellLess)
    ensures forall g :: g in t.index <==> Grouping.HasKey(rows, RegionWithClean, g)
    ensures forall v :: v in t.columns <==> Grouping.HasKey(rows, CleanWithRegion, v)
    ensures |t.counts| == |t.index|
    ensures forall i :: 0 <= i < |t.counts| ==> |t.counts[i]| == |t.columns|
    ensures forall i, j :: 0 <= i < |t.index| && 0 <= j < |t.columns| ==>
      t.counts[i][j] == Grouping.SumForKey(rows, RegionAndClean, (t.index[i], t.columns[j]), Grouping.One)
  {
    CellLessIsStrictTotalOrder();
    var index := Grouping.GroupKeys(rows, RegionWithClean, CellLess);
    var columns := Grouping.GroupKeys(rows, CleanWithRegion, CellLess);
    var counts := Grouping.Table(rows, RegionAndClean, index, columns, Grouping.One);
    forall i | 0 <= i < |index| {
      Grouping.TableRowCells(rows, RegionAndClean, index[i], columns, Grouping.One);
    }
    Crosstab(index, columns, counts)
  }

  /** The crosstab counts every row that has a region and a cleaned value
      exactly once. */
  lemma CrosstabTotal(rows: seq<Row>)
    ensures Grouping.TableSum(Crosstabulate(rows).counts) == Grouping.SumKeyed(rows, RegionWithClean, Grouping.One)
  {
    var t := Crosstabulate(rows);
    CellLessIsStrictTotalOrder();
    Ordering.SortedIsDistinct(t.index, CellLess);
    Ordering.SortedIsDistinct(t.columns, CellLess);
    forall k | 0 <= k < |rows| && RegionWithClean(rows[k]).Some? ensures RegionWithClean(rows[k]).value in t.index {
      assert Grouping.HasKey(rows, RegionWithClean, RegionWithClean(rows[k]).value);
    }
    forall k | 0 <= k < |rows| && RegionAndClean(rows[k]).Some? ensures RegionAndClean(rows[k]).value.1 in t.columns {
      assert Grouping.HasKey(rows, CleanWithRegion, CleanWithRegion(rows[k]).value);
    }
    Grouping.TableTotal(rows, RegionAndClean, RegionWithClean, t.index, t.columns, Grouping.One);
  }

  /** The bar chart of lines 203-209 plots the table and the series named
      by `y`. */
  datatype AuthorityChart = AuthorityChart(table: Crosstab, plotted: seq<Cell>)

  /** Line 206: `yes` and `no` when both occur, else every column. */
  function PlottedColumns(columns: seq<Cell>): (p: seq<Cell>)
    ensures forall v :: v in p ==> v in columns
    ensures (Str("yes") in columns && Str("no") in columns) <==> p == [Str("yes"), Str("no")]
    ensures !(Str("yes") in columns && Str("no") in columns) ==> p == columns
  {
    if Str("yes") in columns && Str("no") in columns then [Str("yes"), Str("no")] else columns
  }

  /** The cleaned column for the rows of `f`. */
  function CleanedColumn(f: Frame): (vs: seq<Option<Cell>>)
    ensures |vs| == |f.rows|
    ensures forall i :: 0 <= i < |vs| ==> vs[i] == CleanValue(Get(f.rows[i], LocalAuthorityColumn))
  {
    seq(|f.rows|, i requires 0 <= i < |f.rows| => CleanValue(Get(f.rows[i], LocalAuthorityColumn)))
  }

  /** `analyze_local_authority`: without a `Local Authority` column nothing
      changes and no chart is made; otherwise the cleaned column is written
      into the combined table (a change that outlives the call) and the
      chart counts regions against cleaned values. */
  function AnalyzeLocalAuthority(a: Analyzer): (r: (Analyzer, Option<AuthorityChart>))
    ensures LocalAuthorityColumn !in a.combined.columns <==> r.1.None?
    ensures r.1.None? ==> r.0 == a
    ensures r.0.metadata == a.metadata
    ensures |r.0.combined.rows| == |a.combined.rows|
    ensures r.1.Some? ==>
      && (forall c :: c in r.0.combined.columns <==> c in a.combined.columns || c == CleanColumn)
      && (forall i :: 0 <= i < |a.combined.rows| ==>
            && Get(r.0.combined.rows[i], CleanColumn) == CleanValue(Get(a.combined.rows[i], LocalAuthorityColumn))
            && forall c :: c != CleanColumn ==> Get(r.0.combined.rows[i], c) == Get(a.combined.rows[i], c))
      && r.1.value.table == Crosstabulate(r.0.combined.rows)
      && (forall v :: v in r.1.value.plotted ==> v in r.1.value.table.columns)
      && r.1.value.plotted == PlottedColumns(r.1.value.table.columns)
    ensures WellFormed(a.combined) ==> WellFormed(r.0.combined)
  {
    if LocalAuthorityColumn !in a.combined.columns then (a, None)
    else
      var combined := AssignColumn(a.combined, CleanColumn, CleanedColumn(a.combined));
      var table := Crosstabulate(combined.rows);
      (Analyzer(combined, a.metadata), Some(AuthorityChart(table, PlottedColumns(table.columns))))
  }

  /** Every cleaned value in the table after the analysis is a trimmed,
      lower-case string, present exactly where the raw value is a string. */
  lemma CleanedValuesNormal(a: Analyzer, i: nat)
    requires LocalAuthorityColumn in a.combined.columns && i < |a.combined.rows|
    ensures var row := AnalyzeLocalAuthority(a).0.combined.rows[i];
      && (CleanColumn in row <==> LocalAuthorityColumn in a.combined.rows[i] && a.combined.rows[i][LocalAuthorityColumn].Str?)
      && (CleanColumn in row ==> row[CleanColumn].Str? && Text.IsTrimmed(row[CleanColumn].s) && Text.NoUpper(row[CleanColumn].s))
  {
    var row := AnalyzeLocalAuthority(a).0.combined.rows[i];
    assert Get(row, CleanColumn) == CleanValue(Get(a.combined.rows[i], LocalAuthorityColumn));
  }

  /** The analysis leaves the tags alone, so the analyzer stays consistent. */
  lemma LocalAuthorityPreservesConsistent(a: Analyzer)
    requires Consistent(a)
    ensures Consistent(AnalyzeLocalAuthority(a).0)
  {
    var b := AnalyzeLocalAuthority(a).0;
    if LocalAuthorityColumn in a.combined.columns {
      forall k | 0 <= k < |b.combined.rows| ensures TaggedRow(b.combined.rows[k]) {
        var before, after := a.combined.rows[k], b.combined.rows[k];
        assert TaggedRow(before);
        assert Get(after, SourceFileColumn) == Get(before, SourceFileColumn);
        assert Get(after, SheetNameColumn) == Get(before, SheetNameColumn);
        assert Get(after, RegionColumn) == Get(before, RegionColumn);
        assert Get(after, ThemeColumn) == Get(before, ThemeColumn);
      }
    }
  }

  /** Running the analysis twice leaves the table as running it once, since
      the cleaned column is recomputed from the raw one. */
  lemma LocalAuthorityIdempotent(a: Analyzer)
    ensures AnalyzeLocalAuthority(AnalyzeLocalAuthority(a).0) == AnalyzeLocalAuthority(a)
  {
    var b := AnalyzeLocalAuthority(a).0;
    if LocalAuthorityColumn in a.combined.columns {
      var vs := CleanedColumn(b.combined);
      forall i | 0 <= i < |b.combined.rows| ensures Get(b.combined.rows[i], CleanColumn) == vs[i] {
        assert Get(b.combined.rows[i], LocalAuthorityColumn) == Get(a.combined.rows[i], LocalAuthorityColumn);
      }
      AssignColumnUnchanged(b.combined, CleanColumn, vs);
    }
  }

  // ---- protections by region ---------------------------------------------------

  function RegionKey(row: Row): Option<Cell> {
    Get(row, RegionColumn)
  }

  /** `notna()` on the protections value, as a 0/1 weight. */
  function HasProtection(row: Row): nat {
    if ProtectionsColumn in row then 1 else 0
  }

  /** One region of lines 226-231: `Total Records` and `Has Protection`; the
      `No Protection` bar of line 245 is their difference. */
  datatype ProtectionBars = ProtectionBars(region: Cell, total: nat, has: nat)

  function NoProtection(b: ProtectionBars): int {
    b.total - b.has
  }

  /** The regions of the rows, in ascending order, each with the weights
      `total` and `HasProtection` summed over its rows. */
  function BarsFor(rows: seq<Row>, regions: seq<Cell>, total: Row -> nat): (bs: seq<ProtectionBars>)
    ensures |bs| == |regions|
    ensures forall i :: 0 <= i < |bs| ==>
      && bs[i].region == regions[i]
      && bs[i].total == Grouping.SumForKey(rows, RegionKey, regions[i], total)
      && bs[i].has == Grouping.SumForKey(rows, RegionKey, regions[i], HasProtection)
  {
    seq(|regions|, i requires 0 <= i < |regions| =>
          ProtectionBars(regions[i], Grouping.SumForKey(rows, RegionKey, regions[i], total),
                         Grouping.SumForKey(rows, RegionKey, regions[i], HasProtection)))
  }

  /** `analyze_vulnerable_populations` as written: `None` without the
      column; otherwise one entry per region, in which `'count'` and
      `notna().sum()` both count the rows whose protections value is
      present. */
  function VulnerableByRegion(f: Frame): (r: Option<seq<ProtectionBars>>)
    ensures r.None? <==> ProtectionsColumn !in f.columns
    ensures r.Some? ==>
      && (forall i, j :: 0 <= i < j < |r.value| ==> CellLess(r.value[i].region, r.value[j].region))
      && (forall g :: (exists i :: 0 <= i < |r.value| && r.value[i].region == g) <==> Grouping.HasKey(f.rows, RegionKey, g))
      && (forall i :: 0 <= i < |r.value| ==>
            && r.value[i].total == Grouping.SumForKey(f.rows, RegionKey, r.value[i].region, HasProtection)
            && r.value[i].total == r.value[i].has)
  {
    if ProtectionsColumn !in f.columns then None
    else
      CellLessIsStrictTotalOrder();
      var regions := Grouping.GroupKeys(f.rows, RegionKey, CellLess);
      var bs := BarsFor(f.rows, regions, HasProtection);
      assert forall g :: (exists i :: 0 <= i < |bs| && bs[i].region == g) <==> g in regions;
      Some(bs)
  }

  /** As written, the `No Protection` bar is 0 for every region. */
  lemma NoProtectionAlwaysZero(f: Frame, i: nat)
    requires VulnerableByRegion(f).Some? && i < |VulnerableByRegion(f).value|
    ensures NoProtection(VulnerableByRegion(f).value[i]) == 0
  {
  }

  /** `analyze_vulnerable_populations` as evidently intended: `Total
      Records` is the number of rows of the region (`size()`), so `No
      Protection` counts the rows without a protections value. */
  function VulnerableByRegionIntended(f: Frame): (r: Option<seq<ProtectionBars>>)
    ensures r.None? <==> ProtectionsColumn !in f.columns
    ensures r.Some? ==>
      && (forall i, j :: 0 <= i < j < |r.value| ==> CellLess(r.value[i].region, r.value[j].region))
      && (forall g :: (exists i :: 0 <= i < |r.value| && r.value[i].region == g) <==> Grouping.HasKey(f.rows, RegionKey, g))
      && (forall i :: 0 <= i < |r.value| ==>
            && r.value[i].total == Grouping.SumForKey(f.rows, RegionKey, r.value[i].region, Grouping.One)
            && r.value[i].has == Grouping.SumForKey(f.rows, RegionKey, r.value[i].region, HasProtection))
  {
    if ProtectionsColumn !in f.columns then None
    else
      CellLessIsStrictTotalOrder();
      var regions := Grouping.GroupKeys(f.rows, RegionKey, CellLess);
      var bs := BarsFor(f.rows, regions, Grouping.One);
      assert forall g :: (exists i :: 0 <= i < |bs| && bs[i].region == g) <==> g in regions;
      Some(bs)
  }

  /** 0/1 weight of a row without a protections value. */
  function LacksProtection(row: Row): nat {
    1 - HasProtection(row)
  }

  /** In the intended version the two bars split each region's rows into
      those with and those without a protections value. */
  lemma IntendedBarsSplitRegion(f: Frame, i: nat)
    requires VulnerableByRegionIntended(f).Some? && i < |VulnerableByRegionIntended(f).value|
    ensures var b := VulnerableByRegionIntended(f).value[i];
      && b.has <= b.total
      && NoProtection(b) == Grouping.SumForKey(f.rows, RegionKey, b.region, LacksProtection)
  {
    var b := VulnerableByRegionIntended(f).value[i];
    SumForKeySplit(f.rows, RegionKey, b.region);
  }

  lemma {:induction false} SumForKeySplit(rows: seq<Row>, key: Row -> Option<Cell>, k: Cell)
    ensures Grouping.SumForKey(rows, key, k, HasProtection) + Grouping.SumForKey(rows, key, k, LacksProtection)
         == Grouping.SumForKey(rows, key, k, Grouping.One)
  {
    if |rows| > 0 {
      SumForKeySplit(rows[..|rows| - 1], key, k);
    }
  }

  /** A region whose one row has no protections value: as written its `No
      Protection` bar is 0, as intended it is 1. */
  lemma UnprotectedRowIsLost()
    ensures var f := Frame([RegionColumn, ProtectionsColumn], [map[RegionColumn := Str("Midwest")]]);
      && VulnerableByRegion(f) == Some([ProtectionBars(Str("Midwest"), 0, 0)])
      && VulnerableByRegionIntended(f) == Some([ProtectionBars(Str("Midwest"), 1, 0)])
  {
    var f := Frame([RegionColumn, ProtectionsColumn], [map[RegionColumn := Str("Midwest")]]);
    var row := f.rows[0];
    assert RegionKey(row) == Some(Str("Midwest"));
    assert f.rows[..0] == [];
    assert Grouping.HasKey(f.rows, RegionKey, Str("Midwest"));
    assert Grouping.SumForKey(f.rows, RegionKey, Str("Midwest"), HasProtection) == 0;
    assert Grouping.SumForKey(f.rows, RegionKey, Str("Midwest"), Grouping.One) == 1;
    CellLessIsStrictTotalOrder();
    assert Grouping.GroupKeys(f.rows[..0], RegionKey, CellLess) == [];
    assert Grouping.GroupKeys(f.rows, RegionKey, CellLess) == [Str("Midwest")];
    assert ProtectionsColumn in f.columns;
    assert BarsFor(f.rows, [Str("Midwest")], HasProtection)[0] == ProtectionBars(Str("Midwest"), 0, 0);
    assert BarsFor(f.rows, [Str("Midwest")], Grouping.One)[0] == ProtectionBars(Str("Midwest"), 1, 0);
    assert BarsFor(f.rows, [Str("Midwest")], HasProtection) == [ProtectionBars(Str("Midwest"), 0, 0)];
    assert VulnerableByRegion(f) == Some(BarsFor(f.rows, Grouping.GroupKeys(f.rows, RegionKey, CellLess), HasProtection));
    assert BarsFor(f.rows, [Str("Midwest")], Grouping.One) == [ProtectionBars(Str("Midwest"), 1, 0)];
    assert VulnerableByRegionIntended(f) == Some(BarsFor(f.rows, Grouping.GroupKeys(f.rows, RegionKey, CellLess), Grouping.One));
  }

  // ---- the per-State summary ------------------------------------------------------

  function StateKey(row: Row): Option<Cell> {
    Get(row, StateColumn)
  }

  /** Line 266: the value lower-cases to exactly `yes`; a missing value or
      one that is not a string never does. No whitespace is stripped. */
  function SaysYes(row: Row): nat {
    if LocalAuthorityColumn in row && row[LocalAuthorityColumn].Str?
       && Text.Lower(row[LocalAuthorityColumn].s) == "yes" then 1 else 0
  }

  /** `'count'` of the theme column, as a 0/1 weight. */
  function HasTheme(row: Row): nat {
    if ThemeColumn in row then 1 else 0
  }

  /** Row `i` is the first row of group `k`. */
  ghost predicate FirstOfGroup(rows: seq<Row>, key: Row -> Option<Cell>, k: Cell, i: int) {
    && 0 <= i < |rows|
    && key(rows[i]) == Some(k)
    && forall j :: 0 <= j < i ==> key(rows[j]) != Some(k)
  }

  /** Row `i` is the first row of group `k` in which `col` is present. */
  ghost predicate FirstWithColumn(rows: seq<Row>, key: Row -> Option<Cell>, k: Cell, col: string, i: int) {
    && 0 <= i < |rows|
    && key(rows[i]) == Some(k)
    && col in rows[i]
    && forall j :: 0 <= j < i && key(rows[j]) == Some(k) ==> col !in rows[j]
  }

  /** `GroupBy.first` on column `col`: the value of the first row of group
      `k` where `col` is present. */
  function FirstPresent(rows: seq<Row>, key: Row -> Option<Cell>, k: Cell, col: string): (r: Option<Cell>)
    ensures r.None? <==> forall i :: 0 <= i < |rows| && key(rows[i]) == Some(k) ==> col !in rows[i]
    ensures r.Some? ==> exists i :: FirstWithColumn(rows, key, k, col, i) && r == Some(rows[i][col])
  {
    if |rows| == 0 then None
    else
      var rest := FirstPresent(rows[1..], key, k, col);
      assert forall i :: 1 <= i < |rows| ==> rows[1..][i - 1] == rows[i];
      if key(rows[0]) == Some(k) && col in rows[0] then
        assert FirstWithColumn(rows, key, k, col, 0);
        Some(rows[0][col])
      else
        assert rest.Some? ==> exists i :: FirstWithColumn(rows, key, k, col, i) && rest == Some(rows[i][col]) by {
          if rest.Some? {
            var i :| FirstWithColumn(rows[1..], key, k, col, i) && rest == Some(rows[1..][i][col]);
            assert rows[i + 1] == rows[1..][i];
            forall j | 0 <= j < i + 1 && key(rows[j]) == Some(k) ensures col !in rows[j] {
              if j > 0 {
                assert rows[j] == rows[1..][j - 1];
              }
            }
            assert FirstWithColumn(rows, key, k, col, i + 1);
          }
        }
        rest
  }

  /** When the first row of the group has the column, `first` gives its
      value. */
  lemma {:induction false} FirstPresentOfFirstRow(rows: seq<Row>, key: Row -> Option<Cell>, k: Cell, col: string, i: nat)
    requires FirstOfGroup(rows, key, k, i) && col in rows[i]
    ensures FirstPresent(rows, key, k, col) == Some(rows[i][col])
  {
    if i > 0 {
      assert FirstOfGroup(rows[1..], key, k, i - 1) by {
        forall j | 0 <= j < i - 1 ensures key(rows[1..][j]) != Some(k) {
          assert rows[1..][j] == rows[j + 1];
        }
      }
      FirstPresentOfFirstRow(rows[1..], key, k, col, i - 1);
    }
  }

  /** The columns the aggregation of lines 265-270 reads. */
  predicate SummaryColumnsPresent(f: Frame) {
    && LocalAuthorityColumn in f.columns && ProtectionsColumn in f.columns
    && RegionColumn in f.columns && ThemeColumn in f.columns
  }

  /** One row of the summary of lines 265-274. */
  datatype StateRow = StateRow(state: Cell, localAuthority: nat, protections: nat, region: Option<Cell>, total: nat)

  function StateRowFor(rows: seq<Row>, state: Cell): StateRow {
    StateRow(state,
             Grouping.SumForKey(rows, StateKey, state, SaysYes),
             Grouping.SumForKey(rows, StateKey, state, HasProtection),
             FirstPresent(rows, StateKey, state, RegionColumn),
             Grouping.SumForKey(rows, StateKey, state, HasTheme))
  }

  /** Each count of a State's entry is at most the size of its group, which
      is not empty. */
  lemma StateRowBounds(rows: seq<Row>, state: Cell)
    requires Grouping.HasKey(rows, StateKey, state)
    ensures var e := StateRowFor(rows, state);
      var size := Grouping.SumForKey(rows, StateKey, state, Grouping.One);
      && 0 < size
      && e.localAuthority <= size && e.protections <= size && e.total <= size
  {
    Grouping.GroupNonEmpty(rows, StateKey, state);
    Grouping.SumForKeyMonotone(rows, StateKey, state, SaysYes, Grouping.One);
    Grouping.SumForKeyMonotone(rows, StateKey, state, HasProtection, Grouping.One);
    Grouping.SumForKeyMonotone(rows, StateKey, state, HasTheme, Grouping.One);
  }

  /** `create_state_summary`: `None` without a `State` column; otherwise one
      entry per distinct State, in ascending order, with the count of `yes`
      answers, the count of present protections, the first region and the
      count of present themes, none of the counts exceeding the group's
      size. Once `State` is present the four aggregated columns are read
      unchecked, so their presence is then required. */
  function StateSummary(f: Frame): (r: Option<seq<StateRow>>)
    requires StateColumn in f.columns ==> SummaryColumnsPresent(f)
    ensures r.None? <==> StateColumn !in f.columns
    ensures r.Some? ==>
      && (forall i, j :: 0 <= i < j < |r.value| ==> CellLess(r.value[i].state, r.value[j].state))
      && (forall s :: (exists i :: 0 <= i < |r.value| && r.value[i].state == s) <==> Grouping.HasKey(f.rows, StateKey, s))
      && (forall i :: 0 <= i < |r.value| ==>
            var e := r.value[i];
            var size := Grouping.SumForKey(f.rows, StateKey, e.state, Grouping.One);
            && e == StateRowFor(f.rows, e.state)
            && 0 < size
            && e.localAuthority <= size && e.protections <= size && e.total <= size)
  {
    if StateColumn !in f.columns then None
    else
      CellLessIsStrictTotalOrder();
      var states := Grouping.GroupKeys(f.rows, StateKey, CellLess);
      var summary := seq(|states|, i requires 0 <= i < |states| => StateRowFor(f.rows, states[i]));
      assert forall s :: (exists i :: 0 <= i < |summary| && summary[i].state == s) <==> s in states by {
        forall s ensures (exists i :: 0 <= i < |summary| && summary[i].state == s) <==> s in states {
          if s in states {
            var i :| 0 <= i < |states| && states[i] == s;
            assert summary[i].state == s;
          }
        }
      }
      forall i | 0 <= i < |states| {
        StateRowBounds(f.rows, states[i]);
      }
      Some(summary)
  }

  /** On a consistent analyzer every row has a theme and a region, so
      `Total Records` is the number of rows of the State, both counts are at
      most that, and the region is that of the State's first row. */
  lemma StateSummaryOfTagged(a: Analyzer, i: nat, first: nat)
    requires Consistent(a)
    requires StateColumn in a.combined.columns ==> SummaryColumnsPresent(a.combined)
    requires StateSummary(a.combined).Some? && i < |StateSummary(a.combined).value|
    requires FirstOfGroup(a.combined.rows, StateKey, StateSummary(a.combined).value[i].state, first)
    ensures var e := StateSummary(a.combined).value[i];
      && e.total == Grouping.SumForKey(a.combined.rows, StateKey, e.state, Grouping.One)
      && e.localAuthority <= e.total
      && e.protections <= e.total
      && e.region == Some(a.combined.rows[first][RegionColumn])
  {
    var rows := a.combined.rows;
    var e := StateSummary(a.combined).value[i];
    forall k | 0 <= k < |rows| ensures HasTheme(rows[k]) == Grouping.One(rows[k]) {
      assert TaggedRow(rows[k]);
    }
    Grouping.SumForKeyCongruent(rows, StateKey, e.state, HasTheme, Grouping.One);
    assert TaggedRow(rows[first]);
    FirstPresentOfFirstRow(rows, StateKey, e.state, RegionColumn, first);
  }

  /** The summary's `yes` test does not strip, unlike the cleaning of line
      199: a padded answer counts as `yes` in the Local Authority chart but
      not in the State summary. */
  lemma PaddedYesNotCounted()
    ensures CleanValue(Some(Str(" Yes "))) == Some(Str("yes"))
    ensures SaysYes(map[LocalAuthorityColumn := Str(" Yes ")]) == 0
  {
    PaddedYesCleaned(" Yes ");
    Text.LowerIsYesIff(" Yes ");
  }

  lemma PaddedYesCleaned(s: string)
    requires s == " Yes "
    ensures Text.Strip(Text.Lower(s)) == "yes"
  {
    PaddedYesLowered(s);
    PaddedYesStripped(" yes ");
  }

  lemma PaddedYesLowered(s: string)
    requires s == " Yes "
    ensures Text.Lower(s) == " yes "
  {
    var l := Text.Lower(s);
    assert l[0] == ' ' && l[1] == 'y' && l[2] == 'e' && l[3] == 's' && l[4] == ' ';
  }

  lemma PaddedYesStripped(l: string)
    requires l == " yes "
    ensures Text.Strip(l) == "yes"
  {
    assert l[1..] == "yes ";
    assert Text.StripLeft(l) == "yes ";
    assert ("yes ")[..3] == "yes";
  }
}
