/** Sequences read through a list of indices, and the fact that reading a
    sequence through a permutation of its positions keeps its multiset of
    elements. Used to show that both constraint reorderings permute. */
module Reindexing {

  /** The positions 0, 1, ..., n - 1 in increasing order. */
  function Range(n: nat): (p: seq<nat>)
    ensures |p| == n
    ensures forall k :: 0 <= k < n ==> p[k] == k
  {
    seq(n, k => k)
  }

  /** Every index of `p` is a position of `s`. */
  predicate InBounds<T>(s: seq<T>, p: seq<nat>)
  {
    forall k :: 0 <= k < |p| ==> p[k] < |s|
  }

  /** No index occurs twice in `p`. */
  predicate Distinct(p: seq<nat>)
  {
    forall a, b :: 0 <= a < b < |p| ==> p[a] != p[b]
  }

  /** The sequence whose k-th element is the element of `s` at position `p[k]`. */
  function Gather<T>(s: seq<T>, p: seq<nat>): (r: seq<T>)
    requires InBounds(s, p)
    ensures |r| == |p|
    ensures forall k :: 0 <= k < |p| ==> r[k] == s[p[k]]
  {
    seq(|p|, k requires 0 <= k < |p| => s[p[k]])
  }

  lemma GatherAll<T>(s: seq<T>)
    ensures InBounds(s, Range(|s|)) && Gather(s, Range(|s|)) == s
  {
  }

  /** Dropping the element at position `k` removes one copy of it. */
  lemma RemoveAtMultiset<T>(q: seq<T>, k: nat)
    requires k < |q|
    ensures multiset(q[..k] + q[k + 1..]) == multiset(q) - multiset{q[k]}
  {
    assert q == q[..k] + [q[k]] + q[k + 1..];
  }

  /** Gathering through a concatenation of index lists concatenates the results. */
  lemma GatherAppend<T>(s: seq<T>, p: seq<nat>, q: seq<nat>)
    requires InBounds(s, p) && InBounds(s, q)
    ensures InBounds(s, p + q) && Gather(s, p + q) == Gather(s, p) + Gather(s, q)
  {
  }

  /** Taking one index out of an index list takes one element out of what is gathered. */
  lemma GatherRemoveAt<T>(s: seq<T>, q: seq<nat>, k: nat)
    requires InBounds(s, q) && k < |q|
    ensures InBounds(s, q[..k] + q[k + 1..])
    ensures multiset(Gather(s, q)) == multiset(Gather(s, q[..k] + q[k + 1..])) + multiset{s[q[k]]}
  {
    var q1, q2 := q[..k], q[k + 1..];
    assert q == q1 + [q[k]] + q2;
    GatherAppend(s, q1 + [q[k]], q2);
    GatherAppend(s, q1, [q[k]]);
    GatherAppend(s, q1, q2);
  }

  /** The multiset gathered depends only on the multiset of indices. */
  lemma {:induction false} GatherRespectsMultiset<T>(s: seq<T>, p: seq<nat>, q: seq<nat>)
    requires InBounds(s, p) && InBounds(s, q)
    requires multiset(p) == multiset(q)
    ensures multiset(Gather(s, p)) == multiset(Gather(s, q))
  {
    if |p| == 0 {
      assert |multiset(q)| == 0;
      assert q == [];
    } else {
      var n := |p| - 1;
      assert p[n] in multiset(q);
      var k :| 0 <= k < |q| && q[k] == p[n];
      RemoveAtMultiset(p, n);
      RemoveAtMultiset(q, k);
      assert p[..n] + p[n + 1..] == p[..n];
      GatherRespectsMultiset(s, p[..n], q[..k] + q[k + 1..]);
      GatherRemoveAt(s, p, n);
      GatherRemoveAt(s, q, k);
    }
  }

  /** A sequence without repetitions has the multiset of its set of elements. */
  lemma {:induction false} DistinctMultiset(p: seq<nat>)
    requires Distinct(p)
    ensures multiset(p) == multiset(set x | x in p)
  {
    if |p| > 0 {
      var n := |p| - 1;
      var p' := p[..n];
      assert p == p' + [p[n]];
      DistinctMultiset(p');
      assert p[n] !in p';
      assert (set x | x in p) == (set x | x in p') + {p[n]};
    }
  }

  /** Gathering through indices that hit every position exactly once permutes. */
  lemma GatherPermutes<T>(s: seq<T>, p: seq<nat>)
    requires |p| == |s| && InBounds(s, p) && Distinct(p)
    requires forall i :: 0 <= i < |s| ==> i in p
    ensures multiset(Gather(s, p)) == multiset(s)
  {
    var all := Range(|s|);
    assert Distinct(all);
    forall x | x in p ensures x in all {
      assert all[x] == x;
    }
    assert (set x | x in p) == (set x | x in all);
    DistinctMultiset(p);
    DistinctMultiset(all);
    GatherRespectsMultiset(s, p, all);
    GatherAll(s);
  }
}
