/** Sequence helpers shared by the search engines and the board:
    `Array.prototype.filter`, order-preserving subsequences and
    duplicate-free sequences. */
module Seqs {

  /** `xs.filter(keep)`: the elements of `xs` that satisfy `keep`, in order. */
  function Filter<T(==)>(xs: seq<T>, keep: T -> bool): (r: seq<T>)
    ensures |r| <= |xs|
  {
    if |xs| == 0 then []
    else if keep(xs[0]) then [xs[0]] + Filter(xs[1..], keep)
    else Filter(xs[1..], keep)
  }

  /** The filter keeps exactly the elements that satisfy `keep`, in their
      order. */
  lemma {:induction false} FilterFacts<T>(xs: seq<T>, keep: T -> bool)
    ensures var r := Filter(xs, keep);
      && (forall i :: 0 <= i < |r| ==> r[i] in xs && keep(r[i]))
      && (forall i :: 0 <= i < |xs| && keep(xs[i]) ==> xs[i] in r)
      && IsSubsequence(r, xs)
  {
    if |xs| > 0 {
      FilterFacts(xs[1..], keep);
      var rest := Filter(xs[1..], keep);
      var r := Filter(xs, keep);
      forall i | 0 <= i < |xs| && keep(xs[i]) ensures xs[i] in r {
        if i > 0 { assert xs[i] == xs[1..][i - 1]; }
      }
      if keep(xs[0]) {
        assert r == [xs[0]] + rest;
        assert r[1..] == rest;
      } else {
        SubsequenceOfTail(r, xs);
      }
    }
  }

  /** A subsequence of the tail is a subsequence of the whole. */
  lemma {:induction false} SubsequenceOfTail<T>(a: seq<T>, b: seq<T>)
    requires |b| > 0 && IsSubsequence(a, b[1..])
    ensures IsSubsequence(a, b)
    decreases |b|, 0
  {
    if |a| > 0 && a[0] == b[0] {
      SubsequenceDropHead(a, b[1..]);
    }
  }

  /** Dropping the first element of a subsequence leaves a subsequence. */
  lemma {:induction false} SubsequenceDropHead<T>(a: seq<T>, c: seq<T>)
    requires |a| > 0 && IsSubsequence(a, c)
    ensures IsSubsequence(a[1..], c)
    decreases |c|, 1
  {
    if a[0] == c[0] {
      SubsequenceOfTail(a[1..], c);
    } else {
      SubsequenceDropHead(a, c[1..]);
      SubsequenceOfTail(a[1..], c);
    }
  }

  /** `a` is obtained from `b` by deleting elements (order is kept). */
  predicate IsSubsequence<T(==)>(a: seq<T>, b: seq<T>)
  {
    if |a| == 0 then true
    else if |b| == 0 then false
    else if a[0] == b[0] then IsSubsequence(a[1..], b[1..])
    else IsSubsequence(a, b[1..])
  }

  /** No element occurs twice. */
  predicate Distinct<T(==)>(xs: seq<T>)
  {
    forall i, j :: 0 <= i < j < |xs| ==> xs[i] != xs[j]
  }

  /** Two successive filters are one filter by the conjunction. */
  lemma {:induction false} FilterFilter<T>(xs: seq<T>, p: T -> bool, q: T -> bool, both: T -> bool)
    requires forall x :: x in xs ==> (both(x) <==> p(x) && q(x))
    ensures Filter(Filter(xs, p), q) == Filter(xs, both)
  {
    if |xs| > 0 {
      FilterFilter(xs[1..], p, q, both);
    }
  }

  /** Filtering depends only on the verdicts for the elements present. */
  lemma {:induction false} FilterCongruent<T>(xs: seq<T>, p: T -> bool, q: T -> bool)
    requires forall x :: x in xs ==> (p(x) <==> q(x))
    ensures Filter(xs, p) == Filter(xs, q)
  {
    if |xs| > 0 {
      FilterCongruent(xs[1..], p, q);
    }
  }

  /** A filter that rejects nothing returns its input. */
  lemma {:induction false} FilterKeepsAll<T>(xs: seq<T>, keep: T -> bool)
    requires forall x :: x in xs ==> keep(x)
    ensures Filter(xs, keep) == xs
  {
    if |xs| > 0 {
      FilterKeepsAll(xs[1..], keep);
    }
  }

  /** Filtering a sequence with one more element at the end. */
  lemma {:induction false} FilterAppend<T>(xs: seq<T>, y: T, keep: T -> bool)
    ensures Filter(xs + [y], keep) == Filter(xs, keep) + (if keep(y) then [y] else [])
  {
    if |xs| == 0 {
      assert xs + [y] == [y];
      assert [y][1..] == [];
    } else {
      FilterAppend(xs[1..], y, keep);
      assert (xs + [y])[1..] == xs[1..] + [y];
    }
  }

  /** A filter that rejects some element is strictly shorter. */
  lemma {:induction false} FilterShrinks<T>(xs: seq<T>, keep: T -> bool, x: T)
    requires x in xs && !keep(x)
    ensures |Filter(xs, keep)| < |xs|
  {
    if xs[0] != x {
      FilterShrinks(xs[1..], keep, x);
    }
  }

  /** A duplicate-free sequence has as many elements as its set. */
  lemma {:induction false} DistinctCardinality<T>(xs: seq<T>)
    requires Distinct(xs)
    ensures |set x | x in xs| == |xs|
  {
    if |xs| > 0 {
      var tail := xs[1..];
      assert Distinct(tail) by {
        forall i, j | 0 <= i < j < |tail| ensures tail[i] != tail[j] {
          assert tail[i] == xs[i + 1] && tail[j] == xs[j + 1];
        }
      }
      DistinctCardinality(tail);
      assert xs[0] !in tail;
      assert (set x | x in xs) == (set x | x in tail) + {xs[0]};
    }
  }
}
