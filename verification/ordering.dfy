/** Strict total orders and the sorted, duplicate-free key lists that
    pandas' `groupby(..., sort=True)` produces. */
module Ordering {

  /** `lt` is irreflexive, transitive and total on distinct values. */
  ghost predicate StrictTotalOrder<K(!new)>(lt: (K, K) -> bool) {
    && (forall a :: !lt(a, a))
    && (forall a, b, c :: lt(a, b) && lt(b, c) ==> lt(a, c))
    && (forall a, b :: a != b ==> lt(a, b) || lt(b, a))
  }

  /** Every element is `lt`-below every later one (so no value repeats). */
  ghost predicate StrictlySorted<K>(ks: seq<K>, lt: (K, K) -> bool) {
    forall i, j :: 0 <= i < j < |ks| ==> lt(ks[i], ks[j])
  }

  /** No value occurs twice. */
  ghost predicate Distinct<K>(ks: seq<K>) {
    forall i, j :: 0 <= i < j < |ks| ==> ks[i] != ks[j]
  }

  lemma SortedIsDistinct<K(!new)>(ks: seq<K>, lt: (K, K) -> bool)
    requires StrictTotalOrder(lt) && StrictlySorted(ks, lt)
    ensures Distinct(ks)
  {
    forall i, j | 0 <= i < j < |ks| ensures ks[i] != ks[j] {
      assert lt(ks[i], ks[j]);
    }
  }

  /** Adds `k` to a strictly sorted list, keeping it strictly sorted. */
  function InsertSorted<K(!new, ==)>(ks: seq<K>, k: K, lt: (K, K) -> bool): (r: seq<K>)
    requires StrictTotalOrder(lt) && StrictlySorted(ks, lt)
    ensures StrictlySorted(r, lt)
    ensures forall x :: x in r <==> x in ks || x == k
  {
    if |ks| == 0 then [k]
    else if ks[0] == k then ks
    else if lt(k, ks[0]) then
      assert forall j :: 0 <= j < |ks| ==> lt(k, ks[j]);
      [k] + ks
    else
      var rest := InsertSorted(ks[1..], k, lt);
      assert forall x :: x in rest ==> lt(ks[0], x) by {
        forall x | x in rest ensures lt(ks[0], x) {
          if x != k {
            var j :| 0 <= j < |ks[1..]| && ks[1..][j] == x;
            assert ks[j + 1] == x;
          }
        }
      }
      [ks[0]] + rest
  }
}
