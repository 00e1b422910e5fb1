/** Order-preserving selection from a sequence. */
module Sequences {

  /** `a` is `b` with some elements dropped, order kept. */
  ghost predicate IsSubsequence<T>(a: seq<T>, b: seq<T>)
    decreases |b|
  {
    if |a| == 0 then true
    else if |b| == 0 then false
    else (a[0] == b[0] && IsSubsequence(a[1..], b[1..])) || IsSubsequence(a, b[1..])
  }

  lemma SubsequenceDropHead<T>(a: seq<T>, b: seq<T>)
    requires |b| > 0 && IsSubsequence(a, b[1..])
    ensures IsSubsequence(a, b)
  {
  }

  lemma {:induction false} SubsequenceOfPrefix<T>(a: seq<T>, b: seq<T>, n: nat)
    requires IsSubsequence(a, b) && n <= |a|
    ensures IsSubsequence(a[..n], b)
    decreases |b|
  {
    if n > 0 {
      if a[0] == b[0] && IsSubsequence(a[1..], b[1..]) {
        SubsequenceOfPrefix(a[1..], b[1..], n - 1);
        assert a[..n][1..] == a[1..][..n - 1];
      } else {
        SubsequenceOfPrefix(a, b[1..], n);
      }
    }
  }

  /** The elements `keep` accepts, all of them, in order. */
  function Filter<T(!new)>(xs: seq<T>, keep: T -> bool): (r: seq<T>)
    ensures |r| <= |xs|
    ensures forall j :: 0 <= j < |r| ==> keep(r[j]) && r[j] in xs
    ensures forall i :: 0 <= i < |xs| && keep(xs[i]) ==> xs[i] in r
    ensures forall y :: multiset(r)[y] == if keep(y) then multiset(xs)[y] else 0
  {
    if |xs| == 0 then []
    else
      var tail := Filter(xs[1..], keep);
      assert xs == [xs[0]] + xs[1..];
      var r := if keep(xs[0]) then [xs[0]] + tail else tail;
      assert multiset(r) == (if keep(xs[0]) then multiset{xs[0]} else multiset{}) + multiset(tail);
      r
  }

  /** Filtering never merges equal elements: two kept copies stay two. */
  lemma KeepBoth<T(!new)>(x: T, keep: T -> bool)
    requires keep(x)
    ensures Filter([x, x], keep) == [x, x]
  {
    assert [x, x][1..] == [x];
    assert [x][1..] == [];
  }

  lemma {:induction false} FilterInOrder<T(!new)>(xs: seq<T>, keep: T -> bool)
    ensures IsSubsequence(Filter(xs, keep), xs)
  {
    if |xs| > 0 {
      FilterInOrder(xs[1..], keep);
      var r := Filter(xs, keep);
      if keep(xs[0]) {
        assert r[0] == xs[0] && r[1..] == Filter(xs[1..], keep);
      } else {
        SubsequenceDropHead(r, xs);
      }
    }
  }
}
