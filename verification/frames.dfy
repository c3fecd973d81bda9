/** The part of a pandas DataFrame the analyzer observes: an ordered list of
    column names and a list of rows, each row mapping column names to cells.
    A key absent from a row is a missing value (NaN). */
module Frames {
  import opened Wrappers
  import Ordering
  import Text

  /** A cell is a string or a value of another type; the other types are
      represented by an integer, which is all that ordering and equality of
      such values need here. */
  datatype Cell = Num(n: int) | Str(s: string)

  /** The order pandas sorts group keys in: when strings and numbers are mixed
      it places the numbers first. */
  predicate CellLess(a: Cell, b: Cell) {
    match (a, b)
    case (Num(x), Num(y)) => x < y
    case (Num(_), Str(_)) => true
    case (Str(_), Num(_)) => false
    case (Str(s), Str(t)) => Text.StrLess(s, t)
  }

  lemma CellLessIsStrictTotalOrder()
    ensures Ordering.StrictTotalOrder(CellLess)
  {
    Text.StrLessIsStrictTotalOrder();
    forall a | true ensures !CellLess(a, a) {
      if a.Str? {
        Text.StrLessIrreflexive(a.s);
      }
    }
    forall a, b, c | CellLess(a, b) && CellLess(b, c) ensures CellLess(a, c) {
      if a.Str? && b.Str? && c.Str? {
        Text.StrLessTransitive(a.s, b.s, c.s);
      }
    }
    forall a, b | a != b ensures CellLess(a, b) || CellLess(b, a) {
      if a.Str? && b.Str? {
        Text.StrLessTotal(a.s, b.s);
      }
    }
  }

  type Row = map<string, Cell>

  datatype Frame = Frame(columns: seq<string>, rows: seq<Row>)

  /** The value of `col` in `row`, `None` when it is missing. */
  function Get(row: Row, col: string): Option<Cell> {
    if col in row then Some(row[col]) else None
  }

  /** Column names are distinct and every row only holds listed columns. */
  ghost predicate WellFormed(f: Frame) {
    && Ordering.Distinct(f.columns)
    && forall i :: 0 <= i < |f.rows| ==> forall c :: c in f.rows[i] ==> c in f.columns
  }

  /** `DataFrame.empty`: no rows or no columns. */
  predicate IsEmpty(f: Frame) {
    |f.rows| == 0 || |f.columns| == 0
  }

  /** `df[name] = v` for a scalar `v`: the column is appended unless it
      exists, and every row gets `v` there. */
  function SetColumn(f: Frame, name: string, v: Cell): (g: Frame)
    ensures |g.rows| == |f.rows|
    ensures forall c :: c in g.columns <==> c in f.columns || c == name
    ensures |g.columns| == |f.columns| + (if name in f.columns then 0 else 1)
    ensures forall i :: 0 <= i < |g.rows| ==>
      Get(g.rows[i], name) == Some(v)
      && forall c :: c != name ==> Get(g.rows[i], c) == Get(f.rows[i], c)
    ensures WellFormed(f) ==> WellFormed(g)
  {
    Frame(if name in f.columns then f.columns else f.columns + [name],
          seq(|f.rows|, i requires 0 <= i < |f.rows| => f.rows[i][name := v]))
  }

  /** `df[name] = series` for a column of per-row values: the column is
      appended unless it exists, and row `i` gets `values[i]` there, a
      `None` leaving the cell missing. */
  function AssignColumn(f: Frame, name: string, values: seq<Option<Cell>>): (g: Frame)
    requires |values| == |f.rows|
    ensures |g.rows| == |f.rows|
    ensures forall c :: c in g.columns <==> c in f.columns || c == name
    ensures forall i :: 0 <= i < |g.rows| ==>
      Get(g.rows[i], name) == values[i]
      && forall c :: c != name ==> Get(g.rows[i], c) == Get(f.rows[i], c)
    ensures WellFormed(f) ==> WellFormed(g)
  {
    Frame(if name in f.columns then f.columns else f.columns + [name],
          seq(|f.rows|, i requires 0 <= i < |f.rows| =>
                if values[i].Some? then f.rows[i][name := values[i].value] else f.rows[i] - {name}))
  }

  /** Assigning a column the values it already holds changes nothing. */
  lemma AssignColumnUnchanged(f: Frame, name: string, values: seq<Option<Cell>>)
    requires name in f.columns && |values| == |f.rows|
    requires forall i :: 0 <= i < |f.rows| ==> Get(f.rows[i], name) == values[i]
    ensures AssignColumn(f, name, values) == f
  {
    var g := AssignColumn(f, name, values);
    forall i | 0 <= i < |f.rows| ensures g.rows[i] == f.rows[i] {
      assert Get(f.rows[i], name) == values[i];
    }
  }

  /** Every cell of `row` is missing. */
  predicate Blank(row: Row) {
    row == map[]
  }

  /** Positions of the rows in which every cell is missing. */
  ghost function EmptyRowIndices(rows: seq<Row>): set<int> {
    set i | 0 <= i < |rows| && Blank(rows[i])
  }

  /** Positions of the rows in which `col` is not missing. */
  ghost function PresentIndices(rows: seq<Row>, col: string): set<int> {
    set i | 0 <= i < |rows| && col in rows[i]
  }

  lemma EmptyRowIndicesStep(rows: seq<Row>)
    requires |rows| > 0
    ensures |EmptyRowIndices(rows)| ==
      |EmptyRowIndices(rows[..|rows| - 1])| + (if Blank(rows[|rows| - 1]) then 1 else 0)
  {
    var n := |rows| - 1;
    var init := rows[..n];
    var before := EmptyRowIndices(init);
    var extra: set<int> := if Blank(rows[n]) then {n} else {};
    assert before !! extra;
    assert EmptyRowIndices(rows) == before + extra by {
      forall i | 0 <= i < n ensures init[i] == rows[i] { }
    }
  }

  lemma PresentIndicesStep(rows: seq<Row>, col: string)
    requires |rows| > 0
    ensures |PresentIndices(rows, col)| ==
      |PresentIndices(rows[..|rows| - 1], col)| + (if col in rows[|rows| - 1] then 1 else 0)
  {
    var n := |rows| - 1;
    var init := rows[..n];
    var before := PresentIndices(init, col);
    var extra: set<int> := if col in rows[n] then {n} else {};
    assert before !! extra;
    assert PresentIndices(rows, col) == before + extra by {
      forall i | 0 <= i < n ensures init[i] == rows[i] { }
    }
  }

  /** The rows of `rows` that hold at least one non-missing cell: every
      such row is kept, and only the all-missing rows are dropped. */
  function NonEmptyRows(rows: seq<Row>): (r: seq<Row>)
    ensures |r| == |rows| - |EmptyRowIndices(rows)|
    ensures forall i :: 0 <= i < |r| ==> !Blank(r[i]) && r[i] in rows
    ensures forall i :: 0 <= i < |rows| && !Blank(rows[i]) ==> rows[i] in r
    ensures (forall i :: 0 <= i < |rows| ==> !Blank(rows[i])) ==> r == rows
    ensures (exists i :: 0 <= i < |rows| && Blank(rows[i])) ==> |r| < |rows|
  {
    if |rows| == 0 then []
    else
      var init := rows[..|rows| - 1];
      var last := rows[|rows| - 1];
      var rest := NonEmptyRows(init);
      EmptyRowIndicesStep(rows);
      assert rows == init + [last];
      assert forall i :: 0 <= i < |init| ==> init[i] == rows[i];
      assert (exists i :: 0 <= i < |rows| && Blank(rows[i])) ==> |EmptyRowIndices(rows)| > 0 by {
        if exists i :: 0 <= i < |rows| && Blank(rows[i]) {
          var i :| 0 <= i < |rows| && Blank(rows[i]);
          assert i in EmptyRowIndices(rows);
        }
      }
      if Blank(last) then rest else rest + [last]
  }

  /** Filtering a concatenation filters each part in turn, so the kept
      rows stay in their order. */
  lemma {:induction false} NonEmptyRowsAppend(xs: seq<Row>, ys: seq<Row>)
    ensures NonEmptyRows(xs + ys) == NonEmptyRows(xs) + NonEmptyRows(ys)
  {
    if |ys| == 0 {
      assert xs + ys == xs;
    } else {
      var n := |ys| - 1;
      assert (xs + ys)[..|xs + ys| - 1] == xs + ys[..n];
      NonEmptyRowsAppend(xs, ys[..n]);
    }
  }

  /** `df.dropna(how='all')`: drops the rows in which every column is
      missing; the columns stay. */
  function DropAllMissing(f: Frame): (g: Frame)
    ensures g.columns == f.columns
    ensures |g.rows| == |f.rows| - |EmptyRowIndices(f.rows)|
    ensures forall i :: 0 <= i < |g.rows| ==> !Blank(g.rows[i]) && g.rows[i] in f.rows
    ensures forall i :: 0 <= i < |f.rows| && !Blank(f.rows[i]) ==> f.rows[i] in g.rows
    ensures WellFormed(f) ==> WellFormed(g)
  {
    Frame(f.columns, NonEmptyRows(f.rows))
  }

  /** Number of rows in which `col` is not missing: `df[col].notna().sum()`,
      also `df[col].count()`. */
  function CountPresent(rows: seq<Row>, col: string): (n: nat)
    ensures n == |PresentIndices(rows, col)|
    ensures n <= |rows|
    ensures n == |rows| <==> forall i :: 0 <= i < |rows| ==> col in rows[i]
  {
    if |rows| == 0 then 0
    else
      var rest := CountPresent(rows[..|rows| - 1], col);
      PresentIndicesStep(rows, col);
      assert forall i :: 0 <= i < |rows| - 1 ==> rows[..|rows| - 1][i] == rows[i];
      rest + (if col in rows[|rows| - 1] then 1 else 0)
  }

  // ---- concatenation --------------------------------------------------------

  /** `acc` extended with the columns of `cs` it lacks, in their order: the
      column index of `pd.concat(..., sort=False)`. */
  function UnionColumns(acc: seq<string>, cs: seq<string>): (r: seq<string>)
    ensures acc <= r
    ensures forall c :: c in r <==> c in acc || c in cs
    ensures Ordering.Distinct(acc) ==> Ordering.Distinct(r)
    decreases |cs|
  {
    if |cs| == 0 then acc
    else
      var acc' := if cs[0] in acc then acc else acc + [cs[0]];
      assert forall c :: c in cs <==> c == cs[0] || c in cs[1..];
      UnionColumns(acc', cs[1..])
  }

  /** Number of rows of all frames together. */
  function TotalRows(fs: seq<Frame>): nat {
    if |fs| == 0 then 0 else TotalRows(fs[..|fs| - 1]) + |fs[|fs| - 1].rows|
  }

  /** `pd.concat(fs, ignore_index=True, sort=False)`: the rows of all frames
      one after another, under the union of their columns. A row keeps
      exactly the cells it had, so a column its frame lacked is missing in
      it. */
  function Concat(fs: seq<Frame>): (r: Frame)
    ensures |r.rows| == TotalRows(fs)
    ensures forall c :: c in r.columns <==> ColumnOfSome(fs, c)
  {
    Frame(ConcatColumns(fs), ConcatRows(fs))
  }

  /** The union of the frames' columns, in order of first appearance. */
  function ConcatColumns(fs: seq<Frame>): (cols: seq<string>)
    ensures forall c :: c in cols <==> ColumnOfSome(fs, c)
    ensures Ordering.Distinct(cols)
  {
    if |fs| == 0 then []
    else
      var p := ConcatColumns(fs[..|fs| - 1]);
      ConcatColumnsStep(fs, p);
      UnionColumns(p, fs[|fs| - 1].columns)
  }

  /** The frames' rows one after another. */
  function ConcatRows(fs: seq<Frame>): (rows: seq<Row>)
    ensures |rows| == TotalRows(fs)
  {
    if |fs| == 0 then [] else ConcatRows(fs[..|fs| - 1]) + fs[|fs| - 1].rows
  }

  /** `c` is a column of one of the frames. */
  ghost predicate ColumnOfSome(fs: seq<Frame>, c: string) {
    exists i :: 0 <= i < |fs| && c in fs[i].columns
  }

  /** A column of some frame is a column of the frames before the last or
      of the last one. */
  lemma ConcatColumnsStep(fs: seq<Frame>, cols: seq<string>)
    requires |fs| > 0
    requires forall c :: c in cols <==> ColumnOfSome(fs[..|fs| - 1], c)
    ensures forall c :: c in UnionColumns(cols, fs[|fs| - 1].columns) <==> ColumnOfSome(fs, c)
  {
    var prefix := fs[..|fs| - 1];
    forall c ensures ColumnOfSome(prefix, c) || c in fs[|fs| - 1].columns <==> ColumnOfSome(fs, c) {
      if ColumnOfSome(prefix, c) {
        var i :| 0 <= i < |prefix| && c in prefix[i].columns;
        assert prefix[i] == fs[i];
      }
      if ColumnOfSome(fs, c) {
        var i :| 0 <= i < |fs| && c in fs[i].columns;
        if i < |prefix| {
          assert prefix[i] == fs[i];
        }
      }
    }
  }

  /** Concatenating well-formed frames gives a well-formed frame. */
  lemma ConcatWellFormed(fs: seq<Frame>)
    requires forall i :: 0 <= i < |fs| ==> WellFormed(fs[i])
    ensures WellFormed(Concat(fs))
  {
    var r := Concat(fs);
    forall k, c | 0 <= k < |r.rows| && c in r.rows[k] ensures c in r.columns {
      ConcatRowFrom(fs, k);
      var i, j :| 0 <= i < |fs| && 0 <= j < |fs[i].rows| && r.rows[k] == fs[i].rows[j];
      assert c in fs[i].columns;
    }
  }

  lemma {:induction false} TotalRowsAppend(fs: seq<Frame>, gs: seq<Frame>)
    ensures TotalRows(fs + gs) == TotalRows(fs) + TotalRows(gs)
  {
    if |gs| == 0 {
      assert fs + gs == fs;
    } else {
      assert (fs + gs)[..|fs + gs| - 1] == fs + gs[..|gs| - 1];
      TotalRowsAppend(fs, gs[..|gs| - 1]);
    }
  }

  /** Row `j` of frame `i` lands, unchanged, at position `j` after all rows
      of the frames before `i`. */
  lemma {:induction false} ConcatRowOrigin(fs: seq<Frame>, i: nat, j: nat)
    requires i < |fs| && j < |fs[i].rows|
    ensures TotalRows(fs[..i]) + j < |Concat(fs).rows|
    ensures Concat(fs).rows[TotalRows(fs[..i]) + j] == fs[i].rows[j]
  {
    var prefix := fs[..|fs| - 1];
    if i == |fs| - 1 {
      assert fs[..i] == prefix;
    } else {
      assert prefix[..i] == fs[..i];
      assert prefix[i] == fs[i];
      ConcatRowOrigin(prefix, i, j);
    }
  }

  /** Every row of a concatenation is a row of one of the inputs. */
  lemma {:induction false} ConcatRowFrom(fs: seq<Frame>, k: nat)
    requires k < |Concat(fs).rows|
    ensures exists i, j :: 0 <= i < |fs| && 0 <= j < |fs[i].rows| && Concat(fs).rows[k] == fs[i].rows[j]
  {
    var prefix := fs[..|fs| - 1];
    var last := fs[|fs| - 1];
    var p := Concat(prefix);
    if k < |p.rows| {
      ConcatRowFrom(prefix, k);
      var i, j :| 0 <= i < |prefix| && 0 <= j < |prefix[i].rows| && p.rows[k] == prefix[i].rows[j];
      assert prefix[i] == fs[i];
    } else {
      assert Concat(fs).rows[k] == last.rows[k - |p.rows|];
    }
  }
}
