/** The median step of the luminance sampler (src/App.tsx, getMedianLuminance):
    sort ascending, then take the middle element or the mean of the two
    middle elements. */
module Median {
  import opened Sorting
  import opened OrderStatistics

  /** A JavaScript number, as far as this computation can produce one:
      a finite value, or NaN from reading past the ends of an empty list. */
  datatype Number = Finite(value: real) | NaN

  /** Median of the luma list. The odd test comes first, as in the source;
      an empty list is "even", and its mean of two undefined neighbours is
      NaN. */
  function MedianOf(lumas: seq<real>): (m: Number)
    ensures m.NaN? <==> |lumas| == 0
  {
    var sorted := Sort(lumas);
    var mid := |sorted| / 2;
    if |sorted| % 2 != 0 then Finite(sorted[mid])
    else if mid == 0 then NaN
    else Finite((sorted[mid - 1] + sorted[mid]) / 2.0)
  }

  /** Odd count: the median is exactly the middle-ranked value, and every
      value of that rank is the median. */
  lemma MedianOddIsMiddleRank(lumas: seq<real>, v: real)
    requires |lumas| % 2 == 1
    ensures MedianOf(lumas) == Finite(v) <==> IsOrderStatistic(lumas, |lumas| / 2, v)
  {
    OrderStatisticIsSortedIndex(lumas, |lumas| / 2, v);
  }

  /** Even, non-empty count: the median is the mean of the two values ranked
      just below and at the middle. */
  lemma MedianEvenIsMeanOfMiddleRanks(lumas: seq<real>, lo: real, hi: real)
    requires |lumas| % 2 == 0 && |lumas| > 0
    requires IsOrderStatistic(lumas, |lumas| / 2 - 1, lo)
    requires IsOrderStatistic(lumas, |lumas| / 2, hi)
    ensures lo <= hi
    ensures MedianOf(lumas) == Finite((lo + hi) / 2.0)
  {
    var sorted := Sort(lumas);
    var mid := |lumas| / 2;
    OrderStatisticIsSortedIndex(lumas, mid - 1, lo);
    OrderStatisticIsSortedIndex(lumas, mid, hi);
    assert lo == sorted[mid - 1] && hi == sorted[mid];
  }

  /** A non-empty list's median lies between two of its own values, hence
      between its minimum and maximum. */
  lemma MedianWithinRange(lumas: seq<real>)
    requires |lumas| > 0
    ensures MedianOf(lumas).Finite?
    ensures exists i :: 0 <= i < |lumas| && lumas[i] <= MedianOf(lumas).value
    ensures exists j :: 0 <= j < |lumas| && MedianOf(lumas).value <= lumas[j]
  {
    var sorted := Sort(lumas);
    var m := MedianOf(lumas).value;
    assert sorted[0] <= m <= sorted[|sorted| - 1];
    assert sorted[0] in multiset(lumas);
    assert sorted[|sorted| - 1] in multiset(lumas);
  }

  /** Every bound satisfied by all values is satisfied by the median. */
  lemma MedianBounded(lumas: seq<real>, lo: real, hi: real)
    requires |lumas| > 0
    requires forall i :: 0 <= i < |lumas| ==> lo <= lumas[i] <= hi
    ensures MedianOf(lumas).Finite? && lo <= MedianOf(lumas).value <= hi
  {
    MedianWithinRange(lumas);
  }

  /** The median depends only on the multiset of values, not their order. */
  lemma MedianOrderIndependent(a: seq<real>, b: seq<real>)
    requires multiset(a) == multiset(b)
    ensures MedianOf(a) == MedianOf(b)
  {
    SortPermutationInvariant(a, b);
  }

  /** When every value is the same, so is the median. */
  lemma MedianOfConstant(lumas: seq<real>, v: real)
    requires |lumas| > 0
    requires forall i :: 0 <= i < |lumas| ==> lumas[i] == v
    ensures MedianOf(lumas) == Finite(v)
  {
    MedianBounded(lumas, v, v);
  }

  /** Worked example with an odd count: [10, 20, 30] gives 20. */
  lemma MedianOddExample()
    ensures MedianOf([10.0, 20.0, 30.0]) == Finite(20.0)
  {
    MedianOfSortedTriple([10.0, 20.0, 30.0]);
  }

  /** Worked example with an even count: [10, 20, 30, 40] gives 25. */
  lemma MedianEvenExample()
    ensures MedianOf([10.0, 20.0, 30.0, 40.0]) == Finite(25.0)
  {
    MedianOfSortedQuadruple([10.0, 20.0, 30.0, 40.0]);
  }

  /** Three ascending values: the middle one is the median. */
  lemma MedianOfSortedTriple(lumas: seq<real>)
    requires |lumas| == 3 && lumas[0] <= lumas[1] <= lumas[2]
    ensures MedianOf(lumas) == Finite(lumas[1])
  {
    assert Sorted(lumas) by {
      forall i, j | 0 <= i <= j < 3
        ensures lumas[i] <= lumas[j]
      {
      }
    }
    SortIdempotent(lumas);
    var sorted := Sort(lumas);
    assert sorted == lumas;
    assert |sorted| / 2 == 1 && |sorted| % 2 == 1;
  }

  /** Four ascending values: the mean of the two middle ones is the median. */
  lemma MedianOfSortedQuadruple(lumas: seq<real>)
    requires |lumas| == 4 && lumas[0] <= lumas[1] <= lumas[2] <= lumas[3]
    ensures MedianOf(lumas) == Finite((lumas[1] + lumas[2]) / 2.0)
  {
    assert Sorted(lumas) by {
      forall i, j | 0 <= i <= j < 4
        ensures lumas[i] <= lumas[j]
      {
      }
    }
    SortIdempotent(lumas);
    var sorted := Sort(lumas);
    assert sorted == lumas;
    assert |sorted| / 2 == 2 && |sorted| % 2 == 0;
    assert sorted[1] == lumas[1] && sorted[2] == lumas[2];
  }
}
