/** Order-preserving subsequences, stated by an explicit embedding of positions. */
module Seqs {

  /** `idx` sends each position of `a` to a position of `b` holding the same
      element, in strictly increasing order. */
  predicate Embeds<T(==)>(idx: seq<nat>, a: seq<T>, b: seq<T>) {
    |idx| == |a| &&
    (forall k :: 0 <= k < |idx| ==> idx[k] < |b| && b[idx[k]] == a[k]) &&
    (forall k, l :: 0 <= k < l < |idx| ==> idx[k] < idx[l])
  }

  /** `a` is `b` with some elements left out and the rest kept in order. */
  ghost predicate IsSubsequence<T>(a: seq<T>, b: seq<T>) {
    exists idx :: Embeds(idx, a, b)
  }

  lemma EmptySubsequence<T>(b: seq<T>)
    ensures IsSubsequence([], b)
  {
    assert Embeds([], [], b);
  }

  /** Appending to `b` keeps an embedding; appending to both extends it. */
  lemma SubsequenceSnoc<T>(a: seq<T>, b: seq<T>, x: T, keep: bool)
    requires IsSubsequence(a, b)
    ensures IsSubsequence(if keep then a + [x] else a, b + [x])
  {
    var idx: seq<nat> :| Embeds(idx, a, b);
    if keep {
      var idx' := idx + [|b|];
      assert forall k :: 0 <= k < |idx| ==> idx'[k] == idx[k];
      assert Embeds(idx', a + [x], b + [x]);
    } else {
      assert Embeds(idx, a, b + [x]);
    }
  }

  function Shift(idx: seq<nat>): (r: seq<nat>)
    ensures |r| == |idx| && forall k :: 0 <= k < |idx| ==> r[k] == idx[k] + 1
  {
    seq(|idx|, k requires 0 <= k < |idx| => idx[k] + 1)
  }

  /** Prepending to `b` keeps an embedding; prepending to both extends it. */
  lemma SubsequenceCons<T>(a: seq<T>, b: seq<T>, x: T, keep: bool)
    requires IsSubsequence(a, b)
    ensures IsSubsequence(if keep then [x] + a else a, [x] + b)
  {
    var idx: seq<nat> :| Embeds(idx, a, b);
    if keep {
      assert Embeds([0] + Shift(idx), [x] + a, [x] + b);
    } else {
      assert Embeds(Shift(idx), a, [x] + b);
    }
  }

  /** `xs` with every element after its first occurrence left out: the keys of
      a dictionary filled from `xs` in order, where re-inserting a key keeps
      its position. */
  function Dedup<T(==)>(xs: seq<T>): (d: seq<T>)
    decreases |xs|
  {
    if xs == [] then []
    else
      var prev := Dedup(xs[..|xs| - 1]);
      if xs[|xs| - 1] in prev then prev else prev + [xs[|xs| - 1]]
  }

  /** Every element of `Dedup(xs)` is in `xs`, and every element of `xs` in `Dedup(xs)`. */
  lemma {:induction false} DedupMembers<T>(xs: seq<T>)
    ensures forall i :: 0 <= i < |Dedup(xs)| ==> Dedup(xs)[i] in xs
    ensures forall j :: 0 <= j < |xs| ==> xs[j] in Dedup(xs)
    decreases |xs|
  {
    if xs != [] {
      var init := xs[..|xs| - 1];
      DedupMembers(init);
      assert forall j :: 0 <= j < |init| ==> xs[j] == init[j];
    }
  }

  /** No element occurs twice in `Dedup(xs)`. */
  lemma {:induction false} DedupDistinct<T>(xs: seq<T>)
    ensures forall p, q :: 0 <= p < q < |Dedup(xs)| ==> Dedup(xs)[p] != Dedup(xs)[q]
    decreases |xs|
  {
    if xs != [] {
      var prev := Dedup(xs[..|xs| - 1]);
      DedupDistinct(xs[..|xs| - 1]);
      var d := Dedup(xs);
      forall p, q | 0 <= p < q < |d| ensures d[p] != d[q] {
        assert d[p] == prev[p] && d[p] in prev;
      }
    }
  }

  /** Elements of `Dedup(xs)` come in the order of their first occurrence in `xs`. */
  lemma {:induction false} DedupFirstOccurrence<T>(xs: seq<T>)
    ensures forall p, q, j :: 0 <= p < q < |Dedup(xs)| && 0 <= j < |xs| && xs[j] == Dedup(xs)[q] ==>
              exists i :: 0 <= i < j && xs[i] == Dedup(xs)[p]
    decreases |xs|
  {
    if xs != [] {
      var n := |xs|;
      var init := xs[..n - 1];
      DedupFirstOccurrence(init);
      DedupMembers(init);
      var prev := Dedup(init);
      var d := Dedup(xs);
      forall p, q, j | 0 <= p < q < |d| && 0 <= j < n && xs[j] == d[q]
        ensures exists i :: 0 <= i < j && xs[i] == d[p]
      {
        assert d[p] == prev[p] && prev[p] in init;
        if j < n - 1 {
          assert xs[j] == init[j] && init[j] in prev;
          assert q < |prev|;
          assert d[q] == prev[q];
          var i :| 0 <= i < j && init[i] == prev[p];
          assert xs[i] == d[p];
        } else {
          var i :| 0 <= i < n - 1 && init[i] == prev[p];
          assert xs[i] == d[p];
        }
      }
    }
  }
}
