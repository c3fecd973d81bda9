/** Gathering the outputs of a per-item step that yields two lists, as a
    loop appending to two accumulators does. */
module Seqs {

  /** The two lists the steps yield for `xs`, in order. */
  function Gather<T, A, B>(xs: seq<T>, step: T -> (seq<A>, seq<B>)): (seq<A>, seq<B>) {
    if |xs| == 0 then ([], [])
    else
      var first := step(xs[0]);
      var rest := Gather(xs[1..], step);
      (first.0 + rest.0, first.1 + rest.1)
  }

  /** Steps that yield lists of equal length keep the two gathered lists
      in lockstep. */
  lemma {:induction false} GatherLockstep<T, A, B>(xs: seq<T>, step: T -> (seq<A>, seq<B>))
    requires forall i :: 0 <= i < |xs| ==> |step(xs[i]).0| == |step(xs[i]).1|
    ensures |Gather(xs, step).0| == |Gather(xs, step).1|
  {
    if |xs| > 0 {
      GatherLockstep(xs[1..], step);
    }
  }

  /** Gathering over a concatenation gathers over each part in turn. */
  lemma {:induction false} GatherAppend<T, A, B>(xs: seq<T>, ys: seq<T>, step: T -> (seq<A>, seq<B>))
    ensures Gather(xs + ys, step).0 == Gather(xs, step).0 + Gather(ys, step).0
    ensures Gather(xs + ys, step).1 == Gather(xs, step).1 + Gather(ys, step).1
  {
    if |xs| == 0 {
      assert xs + ys == ys;
    } else {
      assert (xs + ys)[1..] == xs[1..] + ys;
      GatherAppend(xs[1..], ys, step);
    }
  }

  /** An item whose step yields nothing can be dropped. */
  lemma GatherSkip<T, A, B>(xs: seq<T>, i: nat, step: T -> (seq<A>, seq<B>))
    requires i < |xs| && step(xs[i]) == ([], [])
    ensures Gather(xs, step) == Gather(xs[..i] + xs[i + 1..], step)
  {
    var pre, post := xs[..i], xs[i + 1..];
    assert xs == pre + ([xs[i]] + post);
    assert [xs[i]][1..] == [];
    assert Gather([xs[i]], step) == ([], []);
    GatherAppend([xs[i]], post, step);
    assert [] + Gather(post, step).0 == Gather(post, step).0;
    assert [] + Gather(post, step).1 == Gather(post, step).1;
    GatherAppend(pre, [xs[i]] + post, step);
    GatherAppend(pre, post, step);
  }
}
