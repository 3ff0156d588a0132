/**
 * The command-line tool's own copy of Median. Its code is the same as the shared
 * utility's, so it is defined through it and the utility's properties carry over.
 */
module TomExtensions {
  import opened Wrappers
  import EnumerableExtensions

  /** Median of the input; an empty input is an ArgumentException. */
  function Median(s: seq<int>): (r: Result<real, string>)
    ensures r.Failure? <==> s == []
    ensures r.Failure? ==> r.error == "No elements to median-ize"
  {
    EnumerableExtensions.Median(s)
  }

  /** For an odd count the result is an element with more than half the input on either side. */
  lemma MedianOdd(s: seq<int>)
    requires |s| % 2 == 1
    ensures exists m :: (m in s && Median(s) == Success(m as real)
      && EnumerableExtensions.Count(s, EnumerableExtensions.AtMost(m)) > |s| / 2
      && EnumerableExtensions.Count(s, EnumerableExtensions.AtLeast(m)) > |s| / 2)
  {
    EnumerableExtensions.MedianOdd(s);
  }

  /** For an even count the result is the mean of a lower and an upper middle element. */
  lemma MedianEven(s: seq<int>)
    requires s != [] && |s| % 2 == 0
    ensures exists lo, hi :: (lo in s && hi in s && lo <= hi
      && Median(s) == Success(EnumerableExtensions.Mean(lo, hi))
      && EnumerableExtensions.Count(s, EnumerableExtensions.AtMost(lo)) >= |s| / 2
      && EnumerableExtensions.Count(s, EnumerableExtensions.AtLeast(hi)) >= |s| / 2)
  {
    EnumerableExtensions.MedianEven(s);
  }

  /** Reordering the input does not change the median. */
  lemma MedianOrderIndependent(s: seq<int>, t: seq<int>)
    requires multiset(s) == multiset(t)
    ensures Median(s) == Median(t)
  {
    EnumerableExtensions.MedianOrderIndependent(s, t);
  }
}
