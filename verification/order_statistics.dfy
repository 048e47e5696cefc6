/** Rank-based description of "the k-th smallest value", independent of any
    sorting algorithm; used as the reference definition of the median. */
module OrderStatistics {
  import opened Sorting

  /** Number of elements of s strictly below v. */
  function CountBelow(s: seq<real>, v: real): (n: nat)
    ensures n <= |s|
    decreases |s|
  {
    if |s| == 0 then 0 else (if s[0] < v then 1 else 0) + CountBelow(s[1..], v)
  }

  /** Number of elements of s at most v. */
  function CountAtMost(s: seq<real>, v: real): (n: nat)
    ensures n <= |s|
    decreases |s|
  {
    if |s| == 0 then 0 else (if s[0] <= v then 1 else 0) + CountAtMost(s[1..], v)
  }

  /** v is the k-th smallest element (counting from 0) of s: fewer than
      k + 1 elements lie below it and more than k lie at or below it. */
  ghost predicate IsOrderStatistic(s: seq<real>, k: nat, v: real)
  {
    CountBelow(s, v) <= k < CountAtMost(s, v)
  }

  lemma {:induction false} CountBelowInsert(x: real, s: seq<real>, v: real)
    requires Sorted(s)
    ensures CountBelow(Insert(x, s), v) == (if x < v then 1 else 0) + CountBelow(s, v)
    decreases |s|
  {
    var r := Insert(x, s);
    if |s| == 0 {
      assert r[1..] == [];
    } else if x <= s[0] {
      assert r[1..] == s;
    } else {
      assert r[0] == s[0] && r[1..] == Insert(x, s[1..]);
      CountBelowInsert(x, s[1..], v);
    }
  }

  lemma {:induction false} CountAtMostInsert(x: real, s: seq<real>, v: real)
    requires Sorted(s)
    ensures CountAtMost(Insert(x, s), v) == (if x <= v then 1 else 0) + CountAtMost(s, v)
    decreases |s|
  {
    var r := Insert(x, s);
    if |s| == 0 {
      assert r[1..] == [];
    } else if x <= s[0] {
      assert r[1..] == s;
    } else {
      assert r[0] == s[0] && r[1..] == Insert(x, s[1..]);
      CountAtMostInsert(x, s[1..], v);
    }
  }

  /** Sorting keeps both counts, for every threshold. */
  lemma {:induction false} SortKeepsCounts(s: seq<real>, v: real)
    ensures CountBelow(Sort(s), v) == CountBelow(s, v)
    ensures CountAtMost(Sort(s), v) == CountAtMost(s, v)
    decreases |s|
  {
    if |s| > 0 {
      SortKeepsCounts(s[1..], v);
      CountBelowInsert(s[0], Sort(s[1..]), v);
      CountAtMostInsert(s[0], Sort(s[1..]), v);
    }
  }

  /** If every element from index j on is at least v, at most j lie below v. */
  lemma {:induction false} CountBelowUpTo(s: seq<real>, j: nat, v: real)
    requires j <= |s|
    requires forall i :: j <= i < |s| ==> v <= s[i]
    ensures CountBelow(s, v) <= j
    decreases |s|
  {
    if |s| > 0 {
      if j == 0 {
        CountBelowUpTo(s[1..], 0, v);
      } else {
        CountBelowUpTo(s[1..], j - 1, v);
      }
    }
  }

  /** If every element before index j is at most v, at least j lie at or below v. */
  lemma {:induction false} CountAtMostFrom(s: seq<real>, j: nat, v: real)
    requires j <= |s|
    requires forall i :: 0 <= i < j ==> s[i] <= v
    ensures j <= CountAtMost(s, v)
    decreases |s|
  {
    if j > 0 {
      CountAtMostFrom(s[1..], j - 1, v);
    }
  }

  /** Nothing lies both at or below v and at or above w > v: the counts
      separate. */
  lemma {:induction false} CountsSeparate(s: seq<real>, v: real, w: real)
    requires v < w
    ensures CountAtMost(s, v) <= CountBelow(s, w)
    decreases |s|
  {
    if |s| > 0 {
      CountsSeparate(s[1..], v, w);
    }
  }

  /** The element at index k of the ascending permutation is the k-th
      smallest element of s. */
  lemma SortedIndexIsOrderStatistic(s: seq<real>, k: nat)
    requires k < |s|
    ensures IsOrderStatistic(s, k, Sort(s)[k])
  {
    var t := Sort(s);
    SortKeepsCounts(s, t[k]);
    CountBelowUpTo(t, k, t[k]);
    CountAtMostFrom(t, k + 1, t[k]);
  }

  /** The k-th smallest element is unique. */
  lemma OrderStatisticUnique(s: seq<real>, k: nat, v: real, w: real)
    requires IsOrderStatistic(s, k, v) && IsOrderStatistic(s, k, w)
    ensures v == w
  {
    if v < w {
      CountsSeparate(s, v, w);
    } else if w < v {
      CountsSeparate(s, w, v);
    }
  }

  /** The k-th smallest element exists and is the element at index k after
      sorting, whatever the input order. */
  lemma OrderStatisticIsSortedIndex(s: seq<real>, k: nat, v: real)
    requires k < |s|
    ensures IsOrderStatistic(s, k, v) <==> v == Sort(s)[k]
  {
    SortedIndexIsOrderStatistic(s, k);
    if IsOrderStatistic(s, k, v) {
      OrderStatisticUnique(s, k, v, Sort(s)[k]);
    }
  }
}
