/** The metadata aggregations of `create_overview_dashboard` and
    `generate_summary_report`: datasets and records per region and per
    theme, and the region-by-theme coverage matrix. Each works on
    `pd.DataFrame(file_metadata)`; with no records that frame has no
    `region` (or `theme`) column and the `groupby` raises `KeyError`,
    which is modelled as a `Failure` naming the column. */
module Overview {
  import opened Wrappers
  import Ordering
  import Text
  import Grouping
  import opened Ingest

  /** One group of a breakdown: its key, the number of metadata records
      (sheets) in it, and the sum of their `rows`. */
  datatype Group = Group(key: string, datasets: nat, records: nat)

  function RegionOf(m: Meta): Option<string> {
    Some(m.region)
  }

  function ThemeOf(m: Meta): Option<string> {
    Some(m.theme)
  }

  /** The groups for the key list `ks`, in order. */
  function GroupsFor(ms: seq<Meta>, key: Meta -> Option<string>, ks: seq<string>): (gs: seq<Group>)
    ensures |gs| == |ks|
    ensures forall i :: 0 <= i < |gs| ==> gs[i].key == ks[i]
  {
    if |ks| == 0 then []
    else [Group(ks[0], Grouping.SumForKey(ms, key, ks[0], Grouping.One), Grouping.SumForKey(ms, key, ks[0], MetaRows))]
         + GroupsFor(ms, key, ks[1..])
  }

  function SumDatasets(gs: seq<Group>): nat {
    if |gs| == 0 then 0 else gs[0].datasets + SumDatasets(gs[1..])
  }

  function SumRecords(gs: seq<Group>): nat {
    if |gs| == 0 then 0 else gs[0].records + SumRecords(gs[1..])
  }

  /** `groupby(column).agg(count, sum of rows)` over the metadata records:
      one group per distinct key in ascending order, each counting the
      records with that key and summing their rows. */
  function Breakdown(ms: seq<Meta>, key: Meta -> Option<string>, column: string): (r: Result<seq<Group>, string>)
    ensures r.Failure? <==> |ms| == 0
    ensures r.Failure? ==> r.error == column
    ensures r.Success? ==>
      && Ordering.StrictlySorted(Keys(r.value), Text.StrLess)
      && (forall k :: k in Keys(r.value) <==> Grouping.HasKey(ms, key, k))
      && (forall i :: 0 <= i < |r.value| ==>
            && r.value[i].datasets == Grouping.SumForKey(ms, key, r.value[i].key, Grouping.One)
            && r.value[i].datasets > 0
            && r.value[i].records == Grouping.SumForKey(ms, key, r.value[i].key, MetaRows))
  {
    if |ms| == 0 then Failure(column)
    else
      Text.StrLessIsStrictTotalOrder();
      var ks := Grouping.GroupKeys(ms, key, Text.StrLess);
      var gs := GroupsFor(ms, key, ks);
      assert Keys(gs) == ks;
      GroupsForValues(ms, key, ks);
      forall i | 0 <= i < |gs| ensures gs[i].datasets > 0 {
        Grouping.GroupNonEmpty(ms, key, ks[i]);
      }
      Success(gs)
  }

  function Keys(gs: seq<Group>): (ks: seq<string>)
    ensures |ks| == |gs|
    ensures forall i :: 0 <= i < |gs| ==> ks[i] == gs[i].key
  {
    seq(|gs|, i requires 0 <= i < |gs| => gs[i].key)
  }

  lemma {:induction false} GroupsForValues(ms: seq<Meta>, key: Meta -> Option<string>, ks: seq<string>)
    ensures var gs := GroupsFor(ms, key, ks);
      forall i :: 0 <= i < |gs| ==>
        && gs[i].datasets == Grouping.SumForKey(ms, key, ks[i], Grouping.One)
        && gs[i].records == Grouping.SumForKey(ms, key, ks[i], MetaRows)
  {
    if |ks| > 0 {
      GroupsForValues(ms, key, ks[1..]);
      var gs := GroupsFor(ms, key, ks);
      forall i | 1 <= i < |gs| ensures gs[i] == GroupsFor(ms, key, ks[1..])[i - 1] && ks[i] == ks[1..][i - 1] {
      }
    }
  }

  /** Lines 139-140 and 306-309: datasets and records by region. */
  function ByRegion(ms: seq<Meta>): Result<seq<Group>, string> {
    Breakdown(ms, RegionOf, RegionColumn)
  }

  /** Lines 149-150 and 315-318: datasets and records by theme. */
  function ByTheme(ms: seq<Meta>): Result<seq<Group>, string> {
    Breakdown(ms, ThemeOf, ThemeColumn)
  }

  lemma {:induction false} GroupsForSums(ms: seq<Meta>, key: Meta -> Option<string>, ks: seq<string>)
    ensures SumDatasets(GroupsFor(ms, key, ks)) == Grouping.SumKeys(ms, key, ks, Grouping.One)
    ensures SumRecords(GroupsFor(ms, key, ks)) == Grouping.SumKeys(ms, key, ks, MetaRows)
  {
    if |ks| > 0 {
      GroupsForSums(ms, key, ks[1..]);
      assert GroupsFor(ms, key, ks)[1..] == GroupsFor(ms, key, ks[1..]);
    }
  }

  /** A breakdown by a key every record has partitions the records: the
      dataset counts add up to the number of records and the record counts
      to the total of their `rows`. */
  lemma BreakdownTotals(ms: seq<Meta>, key: Meta -> Option<string>, column: string)
    requires forall i :: 0 <= i < |ms| ==> key(ms[i]).Some?
    requires Breakdown(ms, key, column).Success?
    ensures SumDatasets(Breakdown(ms, key, column).value) == |ms|
    ensures SumRecords(Breakdown(ms, key, column).value) == SumRows(ms)
  {
    Text.StrLessIsStrictTotalOrder();
    var ks := Grouping.GroupKeys(ms, key, Text.StrLess);
    Ordering.SortedIsDistinct(ks, Text.StrLess);
    forall i | 0 <= i < |ms| && key(ms[i]).Some? ensures key(ms[i]).value in ks {
      assert Grouping.HasKey(ms, key, key(ms[i]).value);
    }
    GroupsForSums(ms, key, ks);
    Grouping.SumOverKeys(ms, key, ks, Grouping.One);
    Grouping.SumOverKeys(ms, key, ks, MetaRows);
    Grouping.SumKeyedAll(ms, key, Grouping.One);
    Grouping.SumKeyedAll(ms, key, MetaRows);
    Grouping.TotalOne(ms);
  }

  /** The per-region dataset counts add up to the number of metadata
      records, and the per-region record counts to their total rows. */
  lemma ByRegionTotals(ms: seq<Meta>)
    requires |ms| > 0
    ensures SumDatasets(ByRegion(ms).value) == |ms|
    ensures SumRecords(ByRegion(ms).value) == SumRows(ms)
  {
    BreakdownTotals(ms, RegionOf, RegionColumn);
  }

  /** The same for themes. */
  lemma ByThemeTotals(ms: seq<Meta>)
    requires |ms| > 0
    ensures SumDatasets(ByTheme(ms).value) == |ms|
    ensures SumRecords(ByTheme(ms).value) == SumRows(ms)
  {
    BreakdownTotals(ms, ThemeOf, ThemeColumn);
  }

  // ---- the coverage matrix ---------------------------------------------------------

  /** `pivot_table(values='rows', index='region', columns='theme',
      aggfunc='sum', fill_value=0)`. */
  datatype Pivot = Pivot(regions: seq<string>, themes: seq<string>, cells: seq<seq<nat>>)

  function RegionTheme(m: Meta): Option<(string, string)> {
    Some((m.region, m.theme))
  }

  /** The coverage heatmap of lines 169-173: regions down, themes across,
      each in ascending order; a cell is the sum of `rows` over the records
      of that region and theme, and 0 where there are none. */
  function CoverageMatrix(ms: seq<Meta>): (r: Result<Pivot, string>)
    ensures r.Failure? <==> |ms| == 0
    ensures r.Success? ==>
      var p := r.value;
      && Ordering.StrictlySorted(p.regions, Text.StrLess)
      && Ordering.StrictlySorted(p.themes, Text.StrLess)
      && (forall g :: g in p.regions <==> Grouping.HasKey(ms, RegionOf, g))
      && (forall t :: t in p.themes <==> Grouping.HasKey(ms, ThemeOf, t))
      && |p.cells| == |p.regions|
      && (forall i :: 0 <= i < |p.cells| ==> |p.cells[i]| == |p.themes|)
      && (forall i, j :: 0 <= i < |p.regions| && 0 <= j < |p.themes| ==>
            p.cells[i][j] == Grouping.SumForKey(ms, RegionTheme, (p.regions[i], p.themes[j]), MetaRows))
      && (forall i, j :: 0 <= i < |p.regions| && 0 <= j < |p.themes| ==>
            (!Grouping.HasKey(ms, RegionTheme, (p.regions[i], p.themes[j])) ==> p.cells[i][j] == 0))
  {
    if |ms| == 0 then Failure(RegionColumn)
    else
      Text.StrLessIsStrictTotalOrder();
      var regions := Grouping.GroupKeys(ms, RegionOf, Text.StrLess);
      var themes := Grouping.GroupKeys(ms, ThemeOf, Text.StrLess);
      var cells := Grouping.Table(ms, RegionTheme, regions, themes, MetaRows);
      PivotCells(ms, regions, themes);
      Success(Pivot(regions, themes, cells))
  }

  /** Each cell of the table is its pair's total, 0 for a pair no record has. */
  lemma PivotCells(ms: seq<Meta>, regions: seq<string>, themes: seq<string>)
    ensures var cells := Grouping.Table(ms, RegionTheme, regions, themes, MetaRows);
      && (forall i, j :: 0 <= i < |regions| && 0 <= j < |themes| ==>
            cells[i][j] == Grouping.SumForKey(ms, RegionTheme, (regions[i], themes[j]), MetaRows))
      && (forall i, j :: 0 <= i < |regions| && 0 <= j < |themes| ==>
            (!Grouping.HasKey(ms, RegionTheme, (regions[i], themes[j])) ==> cells[i][j] == 0))
  {
    var cells := Grouping.Table(ms, RegionTheme, regions, themes, MetaRows);
    forall i | 0 <= i < |regions| {
      Grouping.TableRowCells(ms, RegionTheme, regions[i], themes, MetaRows);
    }
    forall i, j | 0 <= i < |regions| && 0 <= j < |themes|
      && !Grouping.HasKey(ms, RegionTheme, (regions[i], themes[j])) {
      Grouping.SumForKeyAbsent(ms, RegionTheme, (regions[i], themes[j]), MetaRows);
    }
  }

  lemma ThemesCover(ms: seq<Meta>)
    requires |ms| > 0
    ensures Grouping.Refines(ms, RegionTheme, RegionOf)
    ensures Ordering.Distinct(CoverageMatrix(ms).value.themes)
    ensures Grouping.ColumnsCover(ms, RegionTheme, CoverageMatrix(ms).value.themes)
  {
    var p := CoverageMatrix(ms).value;
    Text.StrLessIsStrictTotalOrder();
    Ordering.SortedIsDistinct(p.themes, Text.StrLess);
    forall k | 0 <= k < |ms| ensures ms[k].theme in p.themes {
      assert Grouping.HasKey(ms, ThemeOf, ms[k].theme);
    }
  }

  /** Every row of the coverage matrix sums to that region's records, the
      bar of lines 160-161: themes split a region's rows without loss. */
  lemma PivotRowTotal(ms: seq<Meta>, i: nat)
    requires CoverageMatrix(ms).Success?
    requires i < |CoverageMatrix(ms).value.regions|
    ensures Grouping.Sum(CoverageMatrix(ms).value.cells[i])
         == Grouping.SumForKey(ms, RegionOf, CoverageMatrix(ms).value.regions[i], MetaRows)
  {
    var p := CoverageMatrix(ms).value;
    ThemesCover(ms);
    Grouping.TableRowTotal(ms, RegionTheme, RegionOf, p.regions[i], p.themes, MetaRows);
  }

  /** All cells of the coverage matrix add up to the total of `rows` over
      the metadata records. */
  lemma PivotTotal(ms: seq<Meta>)
    requires |ms| > 0
    ensures Grouping.TableSum(CoverageMatrix(ms).value.cells) == SumRows(ms)
  {
    var p := CoverageMatrix(ms).value;
    ThemesCover(ms);
    Text.StrLessIsStrictTotalOrder();
    Ordering.SortedIsDistinct(p.regions, Text.StrLess);
    forall k | 0 <= k < |ms| ensures ms[k].region in p.regions {
      assert Grouping.HasKey(ms, RegionOf, ms[k].region);
    }
    Grouping.TableTotal(ms, RegionTheme, RegionOf, p.regions, p.themes, MetaRows);
    Grouping.SumKeyedAll(ms, RegionOf, MetaRows);
  }
}
