/** Positions of the elements of a sequence that satisfy a predicate: the
    common shape of the program's filtering comprehensions and of its
    "skip this row" loops. */
module Seqs {

  /** The indices `i` of `xs` with `p(xs[i])`, in ascending order. */
  function IndicesWhere<T>(xs: seq<T>, p: T -> bool): seq<nat> {
    if xs == [] then []
    else IndicesWhere(xs[..|xs| - 1], p) + (if p(xs[|xs| - 1]) then [|xs| - 1] else [])
  }

  lemma {:induction false} IndicesWhereBounded<T>(xs: seq<T>, p: T -> bool)
    ensures forall k :: 0 <= k < |IndicesWhere(xs, p)| ==> IndicesWhere(xs, p)[k] < |xs|
  {
    if xs != [] {
      IndicesWhereBounded(xs[..|xs| - 1], p);
    }
  }

  /** The indices come out strictly ascending. */
  lemma {:induction false} IndicesWhereAscending<T>(xs: seq<T>, p: T -> bool)
    ensures forall a, b :: 0 <= a < b < |IndicesWhere(xs, p)| ==> IndicesWhere(xs, p)[a] < IndicesWhere(xs, p)[b]
  {
    if xs != [] {
      IndicesWhereBounded(xs[..|xs| - 1], p);
      IndicesWhereAscending(xs[..|xs| - 1], p);
    }
  }

  /** An index is listed exactly when its element satisfies `p`. */
  lemma {:induction false} IndicesWhereExact<T>(xs: seq<T>, p: T -> bool)
    ensures forall i :: 0 <= i < |xs| ==> (i in IndicesWhere(xs, p) <==> p(xs[i]))
  {
    if xs != [] {
      var n := |xs| - 1;
      var init := xs[..n];
      IndicesWhereBounded(init, p);
      IndicesWhereExact(init, p);
      var ks := IndicesWhere(init, p);
      var tail: seq<nat> := if p(xs[n]) then [n] else [];
      assert IndicesWhere(xs, p) == ks + tail;
      forall i | 0 <= i < n ensures i in ks + tail <==> p(xs[i]) {
        assert xs[i] == init[i];
      }
    }
  }

  /** A prefix of a prefix is a prefix. */
  lemma TakeTake<T>(xs: seq<T>, n: nat, m: nat)
    requires m <= n <= |xs|
    ensures xs[..n][..m] == xs[..m]
  {
  }

  /** Extending a prefix by the next element. */
  lemma TakeSnoc<T>(xs: seq<T>, n: nat)
    requires n < |xs|
    ensures xs[..n] + [xs[n]] == xs[..n + 1]
  {
  }

  /** A prefix of a suffix is a slice. */
  lemma DropTake<T>(xs: seq<T>, i: nat, n: nat)
    requires i + n <= |xs|
    ensures xs[i..][..n] == xs[i..i + n]
  {
  }
}
