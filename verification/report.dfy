/** `generate_summary_report`: the figures it prints, as a value. With an
    empty combined table it stops before computing anything; otherwise it
    reports file, sheet, record and column totals, the regional and
    thematic breakdowns of the metadata, and the ten non-tag columns with
    the most non-missing values. */
module Report {
  import opened Wrappers
  import opened Frames
  import opened Ingest
  import Ordering
  import Overview

  /** Line 330: how many columns the coverage list keeps. */
  const TopCount := 10

  /** A column and its number of non-missing values (line 328). */
  datatype Coverage = Coverage(column: string, count: nat)

  datatype Summary = Summary(files: nat, sheets: nat, records: nat, columns: nat,
                             byRegion: seq<Overview.Group>, byTheme: seq<Overview.Group>,
                             top: seq<Coverage>)

  // ---- files processed ----------------------------------------------------------

  /** The distinct file names of the metadata records (line 300). */
  function FileNames(ms: seq<Meta>): (names: set<string>)
    ensures forall n :: n in names <==> exists i :: 0 <= i < |ms| && ms[i].filename == n
    ensures |names| <= |ms|
    ensures |ms| > 0 ==> |names| > 0
  {
    if |ms| == 0 then {}
    else
      var rest := FileNames(ms[..|ms| - 1]);
      assert forall i :: 0 <= i < |ms| - 1 ==> ms[..|ms| - 1][i] == ms[i];
      rest + {ms[|ms| - 1].filename}
  }

  // ---- column coverage ---------------------------------------------------------

  /** Lines 325-328: the `column_counts` dict. Each non-tag column of
      `columns` is a key, placed where it first occurs, with its
      non-missing count over `rows`; a repeated column is one key. */
  function Candidates(columns: seq<string>, rows: seq<Row>): (cs: seq<Coverage>)
    ensures |cs| <= |columns|
    ensures forall i :: 0 <= i < |cs| ==>
      && cs[i].column in columns && cs[i].column !in TagColumns
      && cs[i].count == CountPresent(rows, cs[i].column)
    ensures forall c :: c in columns && c !in TagColumns ==> c in ColumnsOf(cs)
    ensures Ordering.Distinct(ColumnsOf(cs))
  {
    if |columns| == 0 then []
    else
      var init := columns[..|columns| - 1];
      var c := columns[|columns| - 1];
      var rest := Candidates(init, rows);
      assert columns == init + [c];
      if c in TagColumns || c in init then rest
      else
        var x := Coverage(c, CountPresent(rows, c));
        AppendNewColumn(rest, x);
        rest + [x]
  }

  /** Appending an entry for a column not yet listed keeps the columns
      distinct, and every column listed before or added is listed. */
  lemma AppendNewColumn(cs: seq<Coverage>, x: Coverage)
    requires Ordering.Distinct(ColumnsOf(cs))
    requires forall i :: 0 <= i < |cs| ==> cs[i].column != x.column
    ensures Ordering.Distinct(ColumnsOf(cs + [x]))
    ensures forall c :: c in ColumnsOf(cs) || c == x.column ==> c in ColumnsOf(cs + [x])
  {
    var r := cs + [x];
    assert ColumnsOf(r) == ColumnsOf(cs) + [x.column];
    forall i, j | 0 <= i < j < |r| ensures r[i].column != r[j].column {
      assert r[i] == cs[i];
      if j < |cs| {
        assert r[j] == cs[j];
        assert ColumnsOf(cs)[i] != ColumnsOf(cs)[j];
      }
    }
  }

  /** Counts never increase along the list. */
  ghost predicate Descending(cs: seq<Coverage>) {
    forall i, j :: 0 <= i < j < |cs| ==> cs[i].count >= cs[j].count
  }

  /** No entry counts more than `b`. */
  ghost predicate Bounded(cs: seq<Coverage>, b: nat) {
    forall i :: 0 <= i < |cs| ==> cs[i].count <= b
  }

  /** Inserts `x` after every entry whose count is at least its own, so an
      entry arriving later stays behind earlier ones with the same count. */
  function InsertDescending(cs: seq<Coverage>, x: Coverage): (r: seq<Coverage>)
    ensures |r| == |cs| + 1
    ensures multiset(r) == multiset(cs) + multiset{x}
  {
    if |cs| == 0 then [x]
    else if cs[0].count >= x.count then
      assert cs == [cs[0]] + cs[1..];
      [cs[0]] + InsertDescending(cs[1..], x)
    else
      [x] + cs
  }

  lemma {:induction false} InsertBounded(cs: seq<Coverage>, x: Coverage, b: nat)
    requires Bounded(cs, b) && x.count <= b
    ensures Bounded(InsertDescending(cs, x), b)
  {
    if |cs| > 0 && cs[0].count >= x.count {
      InsertBounded(cs[1..], x, b);
    }
  }

  /** A descending list headed by an entry at least as large as the rest
      stays descending. */
  lemma ConsDescending(h: Coverage, t: seq<Coverage>)
    requires Descending(t) && Bounded(t, h.count)
    ensures Descending([h] + t)
  {
    var r := [h] + t;
    forall i, j | 0 <= i < j < |r| ensures r[i].count >= r[j].count {
      if i > 0 {
        assert r[i] == t[i - 1] && r[j] == t[j - 1];
      } else {
        assert r[j] == t[j - 1];
      }
    }
  }

  lemma {:induction false} InsertKeepsDescending(cs: seq<Coverage>, x: Coverage)
    requires Descending(cs)
    ensures Descending(InsertDescending(cs, x))
  {
    if |cs| == 0 {
    } else if cs[0].count >= x.count {
      var t := cs[1..];
      assert Descending(t) by {
        forall i, j | 0 <= i < j < |t| ensures t[i].count >= t[j].count {
          assert t[i] == cs[i + 1] && t[j] == cs[j + 1];
        }
      }
      assert Bounded(t, cs[0].count) by {
        forall i | 0 <= i < |t| ensures t[i].count <= cs[0].count {
          assert t[i] == cs[i + 1];
        }
      }
      InsertKeepsDescending(t, x);
      InsertBounded(t, x, cs[0].count);
      ConsDescending(cs[0], InsertDescending(t, x));
    } else {
      assert Bounded(cs, x.count);
      ConsDescending(x, cs);
    }
  }

  /** Line 330: `sorted(..., reverse=True)` by count, built by inserting the
      entries one after another. */
  function SortDescending(cs: seq<Coverage>): (r: seq<Coverage>)
    ensures |r| == |cs|
    ensures multiset(r) == multiset(cs)
    ensures Descending(r)
  {
    if |cs| == 0 then []
    else
      var init := cs[..|cs| - 1];
      assert cs == init + [cs[|cs| - 1]];
      var sorted := SortDescending(init);
      InsertKeepsDescending(sorted, cs[|cs| - 1]);
      InsertDescending(sorted, cs[|cs| - 1])
  }

  /** Line 330: the first ten of the sorted list. */
  function TopColumns(cs: seq<Coverage>): (top: seq<Coverage>)
    ensures |top| == if |cs| < TopCount then |cs| else TopCount
    ensures Descending(top)
    ensures forall i :: 0 <= i < |top| ==> top[i] in cs
    ensures forall i, c :: 0 <= i < |top| && c in cs && c !in top ==> c.count <= top[i].count
    ensures multiset(top) <= multiset(cs)
  {
    var sorted := SortDescending(cs);
    var n := if |cs| < TopCount then |cs| else TopCount;
    PrefixOfDescending(sorted, n);
    forall i | 0 <= i < n ensures sorted[..n][i] in cs {
      assert sorted[i] in multiset(cs);
    }
    forall c | c in cs ensures c in sorted {
      assert c in multiset(sorted);
    }
    sorted[..n]
  }

  /** The first `n` entries of a descending list are descending, and every
      entry after them counts no more than any of them. */
  lemma PrefixOfDescending(sorted: seq<Coverage>, n: nat)
    requires Descending(sorted) && n <= |sorted|
    ensures Descending(sorted[..n])
    ensures forall i, c :: 0 <= i < n && c in sorted && c !in sorted[..n] ==> c.count <= sorted[..n][i].count
    ensures multiset(sorted[..n]) <= multiset(sorted)
  {
    var top := sorted[..n];
    assert sorted == top + sorted[n..];
    forall j | 0 <= j < n ensures sorted[j] in top {
      assert top[j] == sorted[j];
    }
    forall i, c | 0 <= i < n && c in sorted && c !in top ensures c.count <= top[i].count {
      var j :| 0 <= j < |sorted| && sorted[j] == c;
      assert n <= j;
    }
  }

  /** Lines 324-330 on the combined table: at most ten non-tag columns,
      by descending non-missing count, none of them with a count exceeding
      the number of rows. */
  function CoverageRanking(f: Frame): (top: seq<Coverage>)
    ensures |top| <= TopCount
    ensures |top| == TopCount || |top| == |Candidates(f.columns, f.rows)|
    ensures Descending(top)
    ensures forall i :: 0 <= i < |top| ==>
      && top[i].column in f.columns
      && top[i].column !in TagColumns
      && top[i].count == CountPresent(f.rows, top[i].column)
    ensures Ordering.Distinct(ColumnsOf(top))
  {
    var cs := Candidates(f.columns, f.rows);
    var top := TopColumns(cs);
    SubMultisetDistinctColumns(top, cs);
    forall i | 0 <= i < |top|
      ensures top[i].column in f.columns && top[i].column !in TagColumns
      ensures top[i].count == CountPresent(f.rows, top[i].column)
    {
      var k :| 0 <= k < |cs| && cs[k] == top[i];
    }
    top
  }

  /** Entries drawn from a list whose columns are distinct, each no more
      often than it occurs there, have distinct columns too. */
  lemma SubMultisetDistinctColumns(a: seq<Coverage>, b: seq<Coverage>)
    requires multiset(a) <= multiset(b)
    requires Ordering.Distinct(ColumnsOf(b))
    ensures Ordering.Distinct(ColumnsOf(a))
  {
    AtMostOnce(b);
    forall i, j | 0 <= i < j < |a| ensures a[i].column != a[j].column {
      RepeatCountsTwice(a, i, j);
      assert a[i] != a[j];
      assert a[i] in multiset(b) && a[j] in multiset(b);
      var k :| 0 <= k < |b| && b[k] == a[i];
      var l :| 0 <= l < |b| && b[l] == a[j];
      if k < l {
        assert ColumnsOf(b)[k] != ColumnsOf(b)[l];
      } else {
        assert ColumnsOf(b)[l] != ColumnsOf(b)[k];
      }
    }
  }

  /** An entry at two positions occurs at least twice. */
  lemma RepeatCountsTwice(a: seq<Coverage>, i: nat, j: nat)
    requires i < j < |a|
    ensures a[i] == a[j] ==> multiset(a)[a[i]] >= 2
  {
    assert a == a[..j] + a[j..];
    assert a[i] in a[..j];
    assert a[j] == a[j..][0];
  }

  /** In a list with distinct columns no entry occurs twice. */
  lemma {:induction false} AtMostOnce(b: seq<Coverage>)
    requires Ordering.Distinct(ColumnsOf(b))
    ensures forall x :: multiset(b)[x] <= 1
  {
    if |b| > 0 {
      var init := b[..|b| - 1];
      var last := b[|b| - 1];
      assert b == init + [last];
      assert Ordering.Distinct(ColumnsOf(init)) by {
        forall i, j | 0 <= i < j < |init| ensures init[i].column != init[j].column {
          assert ColumnsOf(b)[i] != ColumnsOf(b)[j];
        }
      }
      AtMostOnce(init);
      forall k | 0 <= k < |init| ensures init[k] != last {
        assert ColumnsOf(b)[k] != ColumnsOf(b)[|b| - 1];
      }
      assert last !in multiset(init);
    }
  }

  /** No non-tag column left out of the ranking has more values than any
      column in it. */
  lemma NothingLargerLeftOut(f: Frame, c: string, i: nat)
    requires c in f.columns && c !in TagColumns
    requires c !in ColumnsOf(CoverageRanking(f))
    requires i < |CoverageRanking(f)|
    ensures CountPresent(f.rows, c) <= CoverageRanking(f)[i].count
  {
    var cs := Candidates(f.columns, f.rows);
    var top := CoverageRanking(f);
    assert top == TopColumns(cs);
    var k :| 0 <= k < |cs| && ColumnsOf(cs)[k] == c;
    var e := cs[k];
    assert e.column == c && e.count == CountPresent(f.rows, c);
    assert e !in top by {
      forall j | 0 <= j < |top| ensures top[j] != e {
        assert ColumnsOf(top)[j] == top[j].column;
      }
    }
    assert e in cs;
  }

  // ---- the report -------------------------------------------------------------

  /** `generate_summary_report`: `Success(None)` for an empty combined
      table (line 291); a `Failure` naming the missing column when the
      metadata is empty, which `groupby('region')` of line 306 raises on;
      otherwise the report. */
  function SummaryReport(a: Analyzer): (r: Result<Option<Summary>, string>)
    ensures r == Success(None) <==> IsEmpty(a.combined)
    ensures r.Failure? <==> !IsEmpty(a.combined) && |a.metadata| == 0
    ensures r.Failure? ==> r.error == RegionColumn
    ensures r.Success? && r.value.Some? ==>
      var s := r.value.value;
      && s.sheets == |a.metadata|
      && s.files == |FileNames(a.metadata)|
      && 0 < s.files <= s.sheets
      && 0 < s.records == |a.combined.rows|
      && s.columns == |a.combined.columns|
      && Overview.ByRegion(a.metadata) == Success(s.byRegion)
      && Overview.ByTheme(a.metadata) == Success(s.byTheme)
      && s.top == CoverageRanking(a.combined)
  {
    if IsEmpty(a.combined) then Success(None)
    else if |a.metadata| == 0 then Failure(RegionColumn)
    else
      Success(Some(Summary(|FileNames(a.metadata)|, |a.metadata|, |a.combined.rows|, |a.combined.columns|,
                           Overview.ByRegion(a.metadata).value, Overview.ByTheme(a.metadata).value,
                           CoverageRanking(a.combined))))
  }

  function ColumnsOf(cs: seq<Coverage>): (names: seq<string>)
    ensures |names| == |cs|
    ensures forall i :: 0 <= i < |cs| ==> names[i] == cs[i].column
  {
    seq(|cs|, i requires 0 <= i < |cs| => cs[i].column)
  }

  /** On a consistent analyzer with data the report never fails: the
      combined rows are counted by metadata records, so there are some. */
  lemma ConsistentReportSucceeds(a: Analyzer)
    requires Consistent(a)
    ensures SummaryReport(a).Success?
  {
    assert |a.metadata| == 0 ==> SumRows(a.metadata) == 0;
  }

  /** The report's breakdowns account for every sheet and every record the
      metadata counts. */
  lemma ReportBreakdownTotals(a: Analyzer)
    requires !IsEmpty(a.combined) && |a.metadata| > 0
    ensures var s := SummaryReport(a).value.value;
      && Overview.SumDatasets(s.byRegion) == s.sheets
      && Overview.SumDatasets(s.byTheme) == s.sheets
      && Overview.SumRecords(s.byRegion) == SumRows(a.metadata)
      && Overview.SumRecords(s.byTheme) == SumRows(a.metadata)
  {
    Overview.ByRegionTotals(a.metadata);
    Overview.ByThemeTotals(a.metadata);
  }
}
