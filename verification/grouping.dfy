/** The aggregation pattern behind every `groupby` the analyzer performs:
    elements are grouped by an optional key (elements without a key are
    dropped, as pandas drops missing group keys), groups are listed in
    ascending key order, and each group reports a weighted count (`size()`
    and `count()` weigh an element 0 or 1, `sum()` weighs it by a column). */
module Grouping {
  import opened Wrappers
  import Ordering

  /** Weight 1 for every element: `size()`. */
  function One<T>(x: T): nat {
    1
  }

  /** Total weight of the elements of `xs` whose key is `k`. */
  function SumForKey<T, K(==)>(xs: seq<T>, key: T -> Option<K>, k: K, w: T -> nat): nat {
    if |xs| == 0 then 0
    else
      var last := xs[|xs| - 1];
      SumForKey(xs[..|xs| - 1], key, k, w) + (if key(last) == Some(k) then w(last) else 0)
  }

  /** Total weight of the elements of `xs` that have a key at all. */
  function SumKeyed<T, K>(xs: seq<T>, key: T -> Option<K>, w: T -> nat): nat {
    if |xs| == 0 then 0
    else
      var last := xs[|xs| - 1];
      SumKeyed(xs[..|xs| - 1], key, w) + (if key(last).Some? then w(last) else 0)
  }

  /** Total weight of all elements. */
  function Total<T>(xs: seq<T>, w: T -> nat): nat {
    if |xs| == 0 then 0 else Total(xs[..|xs| - 1], w) + w(xs[|xs| - 1])
  }

  /** The sum of the per-key totals over the key list `ks`. */
  function SumKeys<T, K(==)>(xs: seq<T>, key: T -> Option<K>, ks: seq<K>, w: T -> nat): nat {
    if |ks| == 0 then 0 else SumForKey(xs, key, ks[0], w) + SumKeys(xs, key, ks[1..], w)
  }

  /** Some element of `xs` has key `k`. */
  ghost predicate HasKey<T, K>(xs: seq<T>, key: T -> Option<K>, k: K) {
    exists i :: 0 <= i < |xs| && key(xs[i]) == Some(k)
  }

  /** The distinct keys of `xs`, in ascending order: the index of a
      `groupby(key)` result. */
  function GroupKeys<T, K(!new, ==)>(xs: seq<T>, key: T -> Option<K>, lt: (K, K) -> bool): (ks: seq<K>)
    requires Ordering.StrictTotalOrder(lt)
    ensures Ordering.StrictlySorted(ks, lt)
    ensures forall k :: k in ks <==> HasKey(xs, key, k)
  {
    if |xs| == 0 then []
    else
      var prefix := xs[..|xs| - 1];
      var ks := GroupKeys(prefix, key, lt);
      assert forall k :: HasKey(prefix, key, k) ==> HasKey(xs, key, k) by {
        forall k | HasKey(prefix, key, k) ensures HasKey(xs, key, k) {
          var i :| 0 <= i < |prefix| && key(prefix[i]) == Some(k);
          assert xs[i] == prefix[i];
        }
      }
      assert forall k :: HasKey(xs, key, k) ==> HasKey(prefix, key, k) || key(xs[|xs| - 1]) == Some(k) by {
        forall k | HasKey(xs, key, k) ensures HasKey(prefix, key, k) || key(xs[|xs| - 1]) == Some(k) {
          var i :| 0 <= i < |xs| && key(xs[i]) == Some(k);
          if i < |prefix| {
            assert prefix[i] == xs[i];
          }
        }
      }
      match key(xs[|xs| - 1])
      case None => ks
      case Some(k) => Ordering.InsertSorted(ks, k, lt)
  }

  // ---- sums over groups ------------------------------------------------------

  /** Appending one element adds its weight to the key-list total exactly
      when its key is listed (once, since the list has no repeats). */
  lemma {:induction false} SumKeysSnoc<T, K>(xs: seq<T>, x: T, key: T -> Option<K>, ks: seq<K>, w: T -> nat)
    requires Ordering.Distinct(ks)
    ensures SumKeys(xs + [x], key, ks, w)
         == SumKeys(xs, key, ks, w) + (if key(x).Some? && key(x).value in ks then w(x) else 0)
  {
    assert (xs + [x])[..|xs + [x]| - 1] == xs;
    if |ks| > 0 {
      SumKeysSnoc(xs, x, key, ks[1..], w);
      if key(x) == Some(ks[0]) {
        assert key(x).value !in ks[1..] by {
          forall j | 0 <= j < |ks[1..]| ensures ks[1..][j] != ks[0] {
            assert ks[1..][j] == ks[j + 1];
          }
        }
      }
    }
  }

  /** Summing the per-group totals over a key list that holds every key of
      `xs` once gives the total weight of the keyed elements: the groups
      partition the keyed elements. */
  lemma {:induction false} SumOverKeys<T, K>(xs: seq<T>, key: T -> Option<K>, ks: seq<K>, w: T -> nat)
    requires Ordering.Distinct(ks)
    requires forall i :: 0 <= i < |xs| && key(xs[i]).Some? ==> key(xs[i]).value in ks
    ensures SumKeys(xs, key, ks, w) == SumKeyed(xs, key, w)
  {
    if |xs| == 0 {
      EmptySumKeys(key, ks, w);
    } else {
      var prefix := xs[..|xs| - 1];
      var last := xs[|xs| - 1];
      assert xs == prefix + [last];
      forall i | 0 <= i < |prefix| && key(prefix[i]).Some? ensures key(prefix[i]).value in ks {
        assert prefix[i] == xs[i];
      }
      SumOverKeys(prefix, key, ks, w);
      SumKeysSnoc(prefix, last, key, ks, w);
    }
  }

  lemma {:induction false} EmptySumKeys<T, K>(key: T -> Option<K>, ks: seq<K>, w: T -> nat)
    ensures SumKeys([], key, ks, w) == 0
  {
    if |ks| > 0 {
      EmptySumKeys(key, ks[1..], w);
    }
  }

  /** When every element has a key, the keyed total is the whole total. */
  lemma {:induction false} SumKeyedAll<T, K>(xs: seq<T>, key: T -> Option<K>, w: T -> nat)
    requires forall i :: 0 <= i < |xs| ==> key(xs[i]).Some?
    ensures SumKeyed(xs, key, w) == Total(xs, w)
  {
    if |xs| > 0 {
      var prefix := xs[..|xs| - 1];
      assert forall i :: 0 <= i < |prefix| ==> prefix[i] == xs[i];
      SumKeyedAll(prefix, key, w);
    }
  }

  /** Counting every element gives the length. */
  lemma {:induction false} TotalOne<T>(xs: seq<T>)
    ensures Total(xs, One) == |xs|
  {
    if |xs| > 0 {
      TotalOne(xs[..|xs| - 1]);
    }
  }

  /** Totals add up over concatenation. */
  lemma {:induction false} TotalAppend<T>(xs: seq<T>, ys: seq<T>, w: T -> nat)
    ensures Total(xs + ys, w) == Total(xs, w) + Total(ys, w)
  {
    if |ys| > 0 {
      assert (xs + ys)[..|xs + ys| - 1] == xs + ys[..|ys| - 1];
      TotalAppend(xs, ys[..|ys| - 1], w);
    } else {
      assert xs + ys == xs;
    }
  }

  /** A weight that is pointwise no larger on `xs` gives a group total that
      is no larger. */
  lemma {:induction false} SumForKeyMonotone<T, K>(xs: seq<T>, key: T -> Option<K>, k: K, v: T -> nat, w: T -> nat)
    requires forall i :: 0 <= i < |xs| ==> v(xs[i]) <= w(xs[i])
    ensures SumForKey(xs, key, k, v) <= SumForKey(xs, key, k, w)
  {
    if |xs| > 0 {
      var prefix := xs[..|xs| - 1];
      assert forall i :: 0 <= i < |prefix| ==> prefix[i] == xs[i];
      SumForKeyMonotone(prefix, key, k, v, w);
    }
  }

  /** Weights that agree on `xs` give equal group totals. */
  lemma {:induction false} SumForKeyCongruent<T, K>(xs: seq<T>, key: T -> Option<K>, k: K, v: T -> nat, w: T -> nat)
    requires forall i :: 0 <= i < |xs| ==> v(xs[i]) == w(xs[i])
    ensures SumForKey(xs, key, k, v) == SumForKey(xs, key, k, w)
  {
    SumForKeyMonotone(xs, key, k, v, w);
    SumForKeyMonotone(xs, key, k, w, v);
  }

  /** A listed key has at least one element carrying it. */
  lemma {:induction false} GroupNonEmpty<T, K>(xs: seq<T>, key: T -> Option<K>, k: K)
    requires HasKey(xs, key, k)
    ensures SumForKey(xs, key, k, One) > 0
  {
    var i :| 0 <= i < |xs| && key(xs[i]) == Some(k);
    if i < |xs| - 1 {
      assert xs[..|xs| - 1][i] == xs[i];
      GroupNonEmpty(xs[..|xs| - 1], key, k);
    }
  }

  /** A key that no element carries has an empty group: pivot tables fill
      such cells with 0. */
  lemma {:induction false} SumForKeyAbsent<T, K>(xs: seq<T>, key: T -> Option<K>, k: K, w: T -> nat)
    requires !HasKey(xs, key, k)
    ensures SumForKey(xs, key, k, w) == 0
  {
    if |xs| > 0 {
      var prefix := xs[..|xs| - 1];
      assert !HasKey(prefix, key, k) by {
        forall i | 0 <= i < |prefix| ensures key(prefix[i]) != Some(k) {
          assert prefix[i] == xs[i];
        }
      }
      SumForKeyAbsent(prefix, key, k, w);
    }
  }

  /** Two keyings that single out the same elements give the same group
      total. */
  lemma {:induction false} SumForKeySameGroup<T, K, L>(xs: seq<T>, key1: T -> Option<K>, k1: K,
                                                       key2: T -> Option<L>, k2: L, w: T -> nat)
    requires forall i :: 0 <= i < |xs| ==> (key1(xs[i]) == Some(k1) <==> key2(xs[i]) == Some(k2))
    ensures SumForKey(xs, key1, k1, w) == SumForKey(xs, key2, k2, w)
  {
    if |xs| > 0 {
      var prefix := xs[..|xs| - 1];
      assert forall i :: 0 <= i < |prefix| ==> prefix[i] == xs[i];
      SumForKeySameGroup(prefix, key1, k1, key2, k2, w);
    }
  }

  /** The elements keyed by `key1` at all are the group `k2` of `key2`. */
  lemma {:induction false} SumKeyedIsGroup<T, K, L>(xs: seq<T>, key1: T -> Option<K>,
                                                    key2: T -> Option<L>, k2: L, w: T -> nat)
    requires forall i :: 0 <= i < |xs| ==> (key1(xs[i]).Some? <==> key2(xs[i]) == Some(k2))
    ensures SumKeyed(xs, key1, w) == SumForKey(xs, key2, k2, w)
  {
    if |xs| > 0 {
      var prefix := xs[..|xs| - 1];
      assert forall i :: 0 <= i < |prefix| ==> prefix[i] == xs[i];
      SumKeyedIsGroup(prefix, key1, key2, k2, w);
    }
  }

  // ---- two-key tables ---------------------------------------------------------

  function Sum(ns: seq<nat>): nat {
    if |ns| == 0 then 0 else ns[0] + Sum(ns[1..])
  }

  /** One row of a two-key table: for the row key `r`, the total of each
      column key's group under the pair key. */
  function TableRow<T, K(==), L(==)>(xs: seq<T>, pair: T -> Option<(K, L)>, r: K, cols: seq<L>, w: T -> nat): (row: seq<nat>)
    ensures |row| == |cols|
  {
    if |cols| == 0 then []
    else [SumForKey(xs, pair, (r, cols[0]), w)] + TableRow(xs, pair, r, cols[1..], w)
  }

  /** The table with one row per row key: `pivot_table` / `unstack` with
      `fill_value=0`. */
  function Table<T, K(==), L(==)>(xs: seq<T>, pair: T -> Option<(K, L)>, rows: seq<K>, cols: seq<L>, w: T -> nat): (t: seq<seq<nat>>)
    ensures |t| == |rows|
    ensures forall i :: 0 <= i < |t| ==> t[i] == TableRow(xs, pair, rows[i], cols, w)
  {
    if |rows| == 0 then [] else [TableRow(xs, pair, rows[0], cols, w)] + Table(xs, pair, rows[1..], cols, w)
  }

  function TableSum(t: seq<seq<nat>>): nat {
    if |t| == 0 then 0 else Sum(t[0]) + TableSum(t[1..])
  }

  /** Cell `j` of a row is the total of the elements with that pair of keys. */
  lemma {:induction false} TableRowCells<T, K, L>(xs: seq<T>, pair: T -> Option<(K, L)>, r: K, cols: seq<L>, w: T -> nat)
    ensures forall j :: 0 <= j < |cols| ==> TableRow(xs, pair, r, cols, w)[j] == SumForKey(xs, pair, (r, cols[j]), w)
  {
    if |cols| > 0 {
      TableRowCells(xs, pair, r, cols[1..], w);
      forall j | 1 <= j < |cols| ensures cols[j] == cols[1..][j - 1] {
      }
    }
  }

  /** The pair key refines the row key: an element has a pair exactly when
      it has a row key, and the pair starts with it. */
  ghost predicate Refines<T, K, L>(xs: seq<T>, pair: T -> Option<(K, L)>, rowKey: T -> Option<K>) {
    forall i :: 0 <= i < |xs| ==>
      rowKey(xs[i]) == (if pair(xs[i]).Some? then Some(pair(xs[i]).value.0) else None)
  }

  /** Every column key of a paired element is listed. */
  ghost predicate ColumnsCover<T, K, L>(xs: seq<T>, pair: T -> Option<(K, L)>, cols: seq<L>) {
    forall i :: 0 <= i < |xs| && pair(xs[i]).Some? ==> pair(xs[i]).value.1 in cols
  }

  /** A row of the table adds up to the row key's group total: the column
      keys split the group without loss or overlap. */
  lemma TableRowTotal<T, K, L>(xs: seq<T>, pair: T -> Option<(K, L)>, rowKey: T -> Option<K>,
                                       r: K, cols: seq<L>, w: T -> nat)
    requires Refines(xs, pair, rowKey)
    requires Ordering.Distinct(cols) && ColumnsCover(xs, pair, cols)
    ensures Sum(TableRow(xs, pair, r, cols, w)) == SumForKey(xs, rowKey, r, w)
  {
    var inRow := (x: T) => if pair(x).Some? && pair(x).value.0 == r then Some(pair(x).value.1) else None;
    forall i | 0 <= i < |xs| && inRow(xs[i]).Some? ensures inRow(xs[i]).value in cols {
    }
    SumOverKeys(xs, inRow, cols, w);
    SumKeyedIsGroup(xs, inRow, rowKey, r, w);
    TableRowIsSumKeys(xs, pair, r, cols, inRow, w);
  }

  lemma {:induction false} TableRowIsSumKeys<T, K, L>(xs: seq<T>, pair: T -> Option<(K, L)>, r: K, cols: seq<L>,
                                                             inRow: T -> Option<L>, w: T -> nat)
    requires forall x :: inRow(x) == (if pair(x).Some? && pair(x).value.0 == r then Some(pair(x).value.1) else None)
    ensures Sum(TableRow(xs, pair, r, cols, w)) == SumKeys(xs, inRow, cols, w)
  {
    if |cols| > 0 {
      TableRowIsSumKeys(xs, pair, r, cols[1..], inRow, w);
      SumForKeySameGroup(xs, inRow, cols[0], pair, (r, cols[0]), w);
      assert TableRow(xs, pair, r, cols, w)[1..] == TableRow(xs, pair, r, cols[1..], w);
    }
  }

  /** The whole table adds up to the total of the elements that have a row
      key, when the row and column key lists each hold every key once. */
  lemma TableTotal<T, K, L>(xs: seq<T>, pair: T -> Option<(K, L)>, rowKey: T -> Option<K>,
                                    rows: seq<K>, cols: seq<L>, w: T -> nat)
    requires Refines(xs, pair, rowKey)
    requires Ordering.Distinct(rows) && forall i :: 0 <= i < |xs| && rowKey(xs[i]).Some? ==> rowKey(xs[i]).value in rows
    requires Ordering.Distinct(cols) && ColumnsCover(xs, pair, cols)
    ensures TableSum(Table(xs, pair, rows, cols, w)) == SumKeyed(xs, rowKey, w)
  {
    TableSumIsSumKeys(xs, pair, rowKey, rows, cols, w);
    SumOverKeys(xs, rowKey, rows, w);
  }

  lemma {:induction false} TableSumIsSumKeys<T, K, L>(xs: seq<T>, pair: T -> Option<(K, L)>, rowKey: T -> Option<K>,
                                                             rows: seq<K>, cols: seq<L>, w: T -> nat)
    requires Refines(xs, pair, rowKey)
    requires Ordering.Distinct(cols) && ColumnsCover(xs, pair, cols)
    ensures TableSum(Table(xs, pair, rows, cols, w)) == SumKeys(xs, rowKey, rows, w)
  {
    if |rows| > 0 {
      TableRowTotal(xs, pair, rowKey, rows[0], cols, w);
      TableSumIsSumKeys(xs, pair, rowKey, rows[1..], cols, w);
      assert Table(xs, pair, rows, cols, w)[1..] == Table(xs, pair, rows[1..], cols, w);
    }
  }
}
