/**
 * The array operations `analyze_logs` composes: filtering a list with a
 * predicate, the indices where a predicate holds (`np.where`), and gathering
 * the elements at a list of indices (`a[idx]` with an integer index array).
 */
module Sequences {

  /** Each entry is smaller than the next one. */
  predicate StrictlyIncreasing(s: seq<nat>)
    decreases |s|
  {
    |s| < 2 || (s[|s| - 2] < s[|s| - 1] && StrictlyIncreasing(s[..|s| - 1]))
  }

  /** An increasing list orders every pair of its entries, not only neighbours. */
  lemma {:induction false} IncreasingAt(s: seq<nat>, i: nat, j: nat)
    requires StrictlyIncreasing(s) && i < j < |s|
    ensures s[i] < s[j]
    decreases |s|
  {
    var n := |s| - 1;
    var front := s[..n];
    if j < n {
      IncreasingAt(front, i, j);
    } else if i < n - 1 {
      IncreasingAt(front, i, n - 1);
    }
  }

  /** A list whose every pair of entries is ordered is increasing. */
  lemma {:induction false} IncreasingFromPairs(s: seq<nat>)
    requires forall i, j :: 0 <= i < j < |s| ==> s[i] < s[j]
    ensures StrictlyIncreasing(s)
    decreases |s|
  {
    if |s| >= 2 {
      var front := s[..|s| - 1];
      assert forall i, j :: 0 <= i < j < |front| ==> front[i] < front[j] by {
        forall i, j | 0 <= i < j < |front| ensures front[i] < front[j] {
          assert front[i] == s[i] && front[j] == s[j];
        }
      }
      IncreasingFromPairs(front);
    }
  }

  /** Appending an entry above the last one keeps a list increasing. */
  lemma IncreasingSnoc(s: seq<nat>, x: nat)
    requires StrictlyIncreasing(s) && (s != [] ==> s[|s| - 1] < x)
    ensures StrictlyIncreasing(s + [x])
  {
    assert (s + [x])[..|s|] == s;
  }

  /** `a[idx]` for an integer index array `idx`. */
  function Select<T>(a: seq<T>, idx: seq<nat>): (r: seq<T>)
    requires forall k :: 0 <= k < |idx| ==> idx[k] < |a|
    ensures |r| == |idx|
    ensures forall k :: 0 <= k < |idx| ==> r[k] == a[idx[k]]
  {
    seq(|idx|, k requires 0 <= k < |idx| => a[idx[k]])
  }

  /** The elements of `s` that satisfy `p`, in their order in `s`. */
  function Filter<T>(s: seq<T>, p: T -> bool): (r: seq<T>)
    ensures |r| <= |s|
    decreases |s|
  {
    if s == [] then []
    else Filter(s[..|s| - 1], p) + (if p(s[|s| - 1]) then [s[|s| - 1]] else [])
  }

  /** Every element the filter keeps satisfies the predicate. */
  lemma {:induction false} FilterSatisfies<T>(s: seq<T>, p: T -> bool, k: nat)
    requires k < |Filter(s, p)|
    ensures p(Filter(s, p)[k])
    decreases |s|
  {
    var n := |s| - 1;
    if k < |Filter(s[..n], p)| {
      FilterSatisfies(s[..n], p, k);
    }
  }

  /** The positions of `s` whose element satisfies `p`, in increasing order. */
  function FilterIndices<T>(s: seq<T>, p: T -> bool): (idx: seq<nat>)
    ensures |idx| <= |s|
    ensures StrictlyIncreasing(idx)
    ensures forall k :: 0 <= k < |idx| ==> idx[k] < |s|
    decreases |s|
  {
    if s == [] then []
    else
      var n := |s| - 1;
      var front := FilterIndices(s[..n], p);
      if p(s[n]) then
        IncreasingSnoc(front, n);
        front + [n]
      else front
  }

  /** The listed positions are exactly those whose element satisfies `p`. */
  lemma FilterIndicesMembers<T>(s: seq<T>, p: T -> bool)
    ensures forall k :: 0 <= k < |FilterIndices(s, p)| ==> p(s[FilterIndices(s, p)[k]])
    ensures forall i :: 0 <= i < |s| && p(s[i]) ==> i in FilterIndices(s, p)
  {
    FilterIndicesSound(s, p);
    FilterIndicesComplete(s, p);
  }

  lemma {:induction false} FilterIndicesSound<T>(s: seq<T>, p: T -> bool)
    ensures forall k :: 0 <= k < |FilterIndices(s, p)| ==> p(s[FilterIndices(s, p)[k]])
    decreases |s|
  {
    if s != [] {
      var n := |s| - 1;
      var front := FilterIndices(s[..n], p);
      FilterIndicesSound(s[..n], p);
      assert forall k :: 0 <= k < |front| ==> s[..n][front[k]] == s[front[k]];
    }
  }

  lemma {:induction false} FilterIndicesComplete<T>(s: seq<T>, p: T -> bool)
    ensures forall i :: 0 <= i < |s| && p(s[i]) ==> i in FilterIndices(s, p)
    decreases |s|
  {
    if s != [] {
      var n := |s| - 1;
      var front := FilterIndices(s[..n], p);
      FilterIndicesComplete(s[..n], p);
      assert forall i :: 0 <= i < n ==> s[..n][i] == s[i];
      assert forall i :: i in front ==> i in FilterIndices(s, p);
    }
  }

  lemma AppendAssoc<T>(a: seq<T>, b: seq<T>, c: seq<T>)
    ensures (a + b) + c == a + (b + c)
  {
  }

  /** Filtering one more element at the end. */
  lemma FilterSnoc<T>(s: seq<T>, x: T, p: T -> bool)
    ensures Filter(s + [x], p) == Filter(s, p) + (if p(x) then [x] else [])
  {
    assert (s + [x])[..|s|] == s;
  }

  /** The positions satisfying `p` after one more element at the end. */
  lemma FilterIndicesSnoc<T>(s: seq<T>, x: T, p: T -> bool)
    ensures FilterIndices(s + [x], p) == FilterIndices(s, p) + (if p(x) then [|s|] else [])
  {
    assert (s + [x])[..|s|] == s;
  }

  /** Filtering keeps the elements at the filtered positions, so it keeps their input order. */
  lemma {:induction false} FilterIsSelect<T>(s: seq<T>, p: T -> bool)
    ensures Filter(s, p) == Select(s, FilterIndices(s, p))
    decreases |s|
  {
    if s != [] {
      var n := |s| - 1;
      var front := FilterIndices(s[..n], p);
      FilterIsSelect(s[..n], p);
      SelectPrefix(s, n, front);
      if p(s[n]) {
        SelectSnoc(s, front, n);
      }
    }
  }

  /** Gathering from a prefix that covers every index is gathering from the whole list. */
  lemma SelectPrefix<T>(s: seq<T>, n: nat, idx: seq<nat>)
    requires n <= |s|
    requires forall k :: 0 <= k < |idx| ==> idx[k] < n
    ensures Select(s[..n], idx) == Select(s, idx)
  {
  }

  /** Gathering one more index appends that element. */
  lemma SelectSnoc<T>(s: seq<T>, idx: seq<nat>, i: nat)
    requires forall k :: 0 <= k < |idx| ==> idx[k] < |s|
    requires i < |s|
    ensures Select(s, idx + [i]) == Select(s, idx) + [s[i]]
  {
  }

  /** Splitting a list by a predicate and its negation loses and invents nothing. */
  lemma {:induction false} FilterPartition<T>(s: seq<T>, p: T -> bool, q: T -> bool)
    requires forall x :: q(x) == !p(x)
    ensures |Filter(s, p)| + |Filter(s, q)| == |s|
    ensures multiset(Filter(s, p)) + multiset(Filter(s, q)) == multiset(s)
    decreases |s|
  {
    if s != [] {
      var n := |s| - 1;
      var x := s[n];
      FilterPartition(s[..n], p, q);
      assert s == s[..n] + [x];
      FilterSnoc(s[..n], x, p);
      FilterSnoc(s[..n], x, q);
    }
  }

  /** Gathering an increasing list at increasing positions gives an increasing list. */
  lemma SelectIncreasing(a: seq<nat>, idx: seq<nat>)
    requires forall k :: 0 <= k < |idx| ==> idx[k] < |a|
    requires StrictlyIncreasing(a) && StrictlyIncreasing(idx)
    ensures StrictlyIncreasing(Select(a, idx))
  {
    var r := Select(a, idx);
    forall i, j | 0 <= i < j < |r| ensures r[i] < r[j] {
      IncreasingAt(idx, i, j);
      IncreasingAt(a, idx[i], idx[j]);
    }
    IncreasingFromPairs(r);
  }

  /** An increasing list of positions below `n` has at most `n` entries. */
  lemma {:induction false} IncreasingBounded(s: seq<nat>, n: nat)
    requires StrictlyIncreasing(s)
    requires forall k :: 0 <= k < |s| ==> s[k] < n
    ensures |s| <= n
    decreases |s|
  {
    if s != [] {
      var last := |s| - 1;
      forall k | 0 <= k < last ensures s[..last][k] < s[last] {
        IncreasingAt(s, k, last);
      }
      IncreasingBounded(s[..last], s[last]);
    }
  }
}
