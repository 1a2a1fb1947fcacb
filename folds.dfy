/** A left fold that carries a state from element to element and collects
    the outputs of the steps that produce one: the shape of the row loop of
    `parse_html`, stated once for any state, element and output type. */
module Folds {
  import opened Wrappers
  import opened Seqs

  /** The last state and the outputs, in the order they were produced. */
  function Fold<S, X, R>(s0: S, step: (S, X) -> (S, Option<R>), xs: seq<X>): (r: (S, seq<R>))
    ensures |r.1| <= |xs|
  {
    if xs == [] then (s0, [])
    else
      var before := Fold(s0, step, xs[..|xs| - 1]);
      var after := step(before.0, xs[|xs| - 1]);
      (after.0, before.1 + if after.1.Some? then [after.1.value] else [])
  }

  /** Folding one more element is one more step. */
  lemma FoldSnoc<S, X, R>(s0: S, step: (S, X) -> (S, Option<R>), xs: seq<X>, x: X)
    ensures var before := Fold(s0, step, xs);
            var after := step(before.0, x);
            Fold(s0, step, xs + [x]) == (after.0, before.1 + if after.1.Some? then [after.1.value] else [])
  {
    assert (xs + [x])[..|xs|] == xs;
  }

  /** Whether `step` produces an output depends on the element alone. */
  ghost predicate EmitsBy<S(!new), X(!new), R>(step: (S, X) -> (S, Option<R>), emits: X -> bool) {
    forall s, x :: step(s, x).1.Some? <==> emits(x)
  }

  /** One output per element that emits. */
  lemma {:induction false} FoldCount<S(!new), X(!new), R>(s0: S, step: (S, X) -> (S, Option<R>), emits: X -> bool, xs: seq<X>)
    requires EmitsBy(step, emits)
    ensures |Fold(s0, step, xs).1| == |IndicesWhere(xs, emits)|
  {
    if xs != [] {
      var n := |xs| - 1;
      assert xs[..n] + [xs[n]] == xs;
      FoldCount(s0, step, emits, xs[..n]);
      FoldSnoc(s0, step, xs[..n], xs[n]);
    }
  }

  /** The `k`-th output is the one the step on the `k`-th emitting element
      produced, from the state the elements before it left. */
  lemma {:induction false} FoldAt<S(!new), X(!new), R>(s0: S, step: (S, X) -> (S, Option<R>), emits: X -> bool, xs: seq<X>, k: nat)
    requires EmitsBy(step, emits) && k < |Fold(s0, step, xs).1|
    ensures k < |IndicesWhere(xs, emits)|
    ensures var j := IndicesWhere(xs, emits)[k];
            j < |xs| && emits(xs[j])
            && step(Fold(s0, step, xs[..j]).0, xs[j]).1 == Some(Fold(s0, step, xs).1[k])
    decreases |xs|, 1
  {
    var n := |xs| - 1;
    if k < |Fold(s0, step, xs[..n]).1| {
      FoldAtEarlier(s0, step, emits, xs, k);
    } else {
      FoldAtLast(s0, step, emits, xs, k);
    }
  }

  /** An output of the elements before the last one keeps its place. */
  lemma {:induction false} FoldAtEarlier<S(!new), X(!new), R>(s0: S, step: (S, X) -> (S, Option<R>), emits: X -> bool, xs: seq<X>, k: nat)
    requires EmitsBy(step, emits) && xs != [] && k < |Fold(s0, step, xs[..|xs| - 1]).1|
    ensures k < |IndicesWhere(xs, emits)|
    ensures var j := IndicesWhere(xs, emits)[k];
            j < |xs| && emits(xs[j])
            && step(Fold(s0, step, xs[..j]).0, xs[j]).1 == Some(Fold(s0, step, xs).1[k])
    decreases |xs|, 0
  {
    var n := |xs| - 1;
    var init := xs[..n];
    FoldAt(s0, step, emits, init, k);
    var j := IndicesWhere(init, emits)[k];
    assert IndicesWhere(xs, emits)[k] == j;
    assert Fold(s0, step, xs).1[k] == Fold(s0, step, init).1[k] by {
      assert init + [xs[n]] == xs;
      FoldSnoc(s0, step, init, xs[n]);
    }
    TakeTake(xs, n, j);
  }

  /** An output beyond those of the elements before the last one is the
      last element's. */
  lemma FoldAtLast<S(!new), X(!new), R>(s0: S, step: (S, X) -> (S, Option<R>), emits: X -> bool, xs: seq<X>, k: nat)
    requires EmitsBy(step, emits) && xs != []
    requires |Fold(s0, step, xs[..|xs| - 1]).1| <= k < |Fold(s0, step, xs).1|
    ensures k < |IndicesWhere(xs, emits)|
    ensures var j := IndicesWhere(xs, emits)[k];
            j < |xs| && emits(xs[j])
            && step(Fold(s0, step, xs[..j]).0, xs[j]).1 == Some(Fold(s0, step, xs).1[k])
  {
    var n := |xs| - 1;
    var init := xs[..n];
    assert init + [xs[n]] == xs;
    FoldSnoc(s0, step, init, xs[n]);
    FoldCount(s0, step, emits, init);
    assert IndicesWhere(xs, emits) == IndicesWhere(init, emits) + [n];
  }

  /** A property of the state that the first state has and every step keeps,
      and a property of the outputs that every step's output has, hold of
      the last state and of every output. */
  lemma {:induction false} FoldInvariant<S(!new), X(!new), R(!new)>(s0: S, step: (S, X) -> (S, Option<R>), inv: S -> bool, good: R -> bool, xs: seq<X>)
    requires inv(s0)
    requires forall s, x :: inv(s) ==> inv(step(s, x).0) && (step(s, x).1.Some? ==> good(step(s, x).1.value))
    ensures inv(Fold(s0, step, xs).0)
    ensures forall k :: 0 <= k < |Fold(s0, step, xs).1| ==> good(Fold(s0, step, xs).1[k])
  {
    if xs != [] {
      FoldInvariant(s0, step, inv, good, xs[..|xs| - 1]);
    }
  }
}
