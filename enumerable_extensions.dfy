/**
 * Lowercase hex rendering of hash bytes, the median of a sequence of numbers and
 * the in-place Fisher-Yates shuffle.
 */
module EnumerableExtensions {
  import opened Wrappers
  import Text
  import Sorting

  /** Hex digit d as BitConverter writes it: 0-9, then A-F. */
  function UpperDigit(d: int): char
    requires 0 <= d < 16
  {
    if d < 10 then ('0' as int + d) as char else ('A' as int + d - 10) as char
  }

  /** Hex digit d in lower case: 0-9, then a-f. */
  function LowerDigit(d: int): char
    requires 0 <= d < 16
  {
    if d < 10 then ('0' as int + d) as char else ('a' as int + d - 10) as char
  }

  function UpperPair(x: bv8): string
  {
    [UpperDigit(x as int / 16), UpperDigit(x as int % 16)]
  }

  function LowerPair(x: bv8): string
  {
    [LowerDigit(x as int / 16), LowerDigit(x as int % 16)]
  }

  /** BitConverter.ToString(bytes) with the dashes removed: two upper-case hex digits per byte. */
  function BitConverterHex(b: seq<bv8>): (r: string)
    ensures |r| == 2 * |b|
  {
    if b == [] then [] else UpperPair(b[0]) + BitConverterHex(b[1..])
  }

  /** ToLowercaseHash: the hex rendering, lower-cased. */
  function ToLowercaseHash(b: seq<bv8>): (r: string)
    ensures |r| == 2 * |b|
  {
    Text.ToLower(BitConverterHex(b))
  }

  /** The rendering of a non-empty byte string is the first byte's two digits, then the rest's. */
  lemma LowercaseHashCons(b: seq<bv8>)
    requires b != []
    ensures ToLowercaseHash(b) == LowerPair(b[0]) + ToLowercaseHash(b[1..])
  {
    Text.ToLowerAppend(UpperPair(b[0]), BitConverterHex(b[1..]));
    assert Text.ToLower(UpperPair(b[0])) == LowerPair(b[0]) by {
      assert forall d :: 0 <= d < 16 ==> Text.ToLowerChar(UpperDigit(d)) == LowerDigit(d);
      Text.ToLowerAt(UpperPair(b[0]), 0);
      Text.ToLowerAt(UpperPair(b[0]), 1);
    }
  }

  /** Byte i is rendered, in order, as characters 2i and 2i+1. */
  lemma {:induction false} LowercaseHashAt(b: seq<bv8>, i: nat)
    requires i < |b|
    ensures ToLowercaseHash(b)[2 * i..2 * i + 2] == LowerPair(b[i])
  {
    LowercaseHashCons(b);
    var p, t := LowerPair(b[0]), ToLowercaseHash(b[1..]);
    if i > 0 {
      LowercaseHashAt(b[1..], i - 1);
      SliceAfter(p, t, 2 * (i - 1), 2 * (i - 1) + 2);
      assert b[1..][i - 1] == b[i];
    } else {
      SliceFront(p, t);
    }
  }

  /** A slice of t read off the concatenation p + t. */
  lemma SliceAfter(p: string, t: string, lo: nat, hi: nat)
    requires lo <= hi <= |t|
    ensures (p + t)[|p| + lo..|p| + hi] == t[lo..hi]
  {
  }

  lemma SliceFront(p: string, t: string)
    ensures (p + t)[0..|p|] == p
  {
  }

  predicate IsLowerHexDigit(c: char)
  {
    '0' <= c <= '9' || 'a' <= c <= 'f'
  }

  /** Every character of the rendering is one of 0-9 and a-f. */
  lemma LowercaseHashDigits(b: seq<bv8>)
    ensures forall k :: 0 <= k < |ToLowercaseHash(b)| ==> IsLowerHexDigit(ToLowercaseHash(b)[k])
  {
    var r := ToLowercaseHash(b);
    forall k | 0 <= k < |r|
      ensures IsLowerHexDigit(r[k])
    {
      var i := k / 2;
      assert i < |b|;
      LowercaseHashAt(b, i);
      assert r[k] == r[2 * i..2 * i + 2][k - 2 * i];
      assert forall d :: 0 <= d < 16 ==> IsLowerHexDigit(LowerDigit(d));
    }
  }

  /** The value of one hex digit of either case, or -1. */
  function HexValue(c: char): (v: int)
    ensures -1 <= v < 16
  {
    if '0' <= c <= '9' then c as int - '0' as int
    else if 'a' <= c <= 'f' then c as int - 'a' as int + 10
    else if 'A' <= c <= 'F' then c as int - 'A' as int + 10
    else -1
  }

  /** Inverse of the hex rendering: pairs of hex digits back to bytes. */
  function ParseHex(s: string): (r: Option<seq<bv8>>)
    ensures r.Some? ==> 2 * |r.value| == |s|
  {
    if s == [] then Some([])
    else if |s| == 1 then None
    else
      var hi, lo := HexValue(s[0]), HexValue(s[1]);
      if hi < 0 || lo < 0 then None
      else match ParseHex(s[2..])
        case None => None
        case Some(rest) => Some([(hi * 16 + lo) as bv8] + rest)
  }

  lemma ByteFromDigits(x: bv8)
    ensures ((x as int / 16) * 16 + x as int % 16) as bv8 == x
  {
    assert (x as int / 16) * 16 + x as int % 16 == x as int;
  }

  /** Parsing a lower-case digit pair followed by more text. */
  lemma ParsePair(x: bv8, rest: string)
    ensures ParseHex(rest).None? ==> ParseHex(LowerPair(x) + rest).None?
    ensures ParseHex(rest).Some? ==> ParseHex(LowerPair(x) + rest) == Some([x] + ParseHex(rest).value)
  {
    var s := LowerPair(x) + rest;
    var hi, lo := x as int / 16, x as int % 16;
    assert s[0] == LowerDigit(hi) && s[1] == LowerDigit(lo);
    LowerDigitValue(hi);
    LowerDigitValue(lo);
    assert s[2..] == rest;
    ByteFromDigits(x);
  }

  lemma LowerDigitValue(d: int)
    requires 0 <= d < 16
    ensures HexValue(LowerDigit(d)) == d
  {
  }

  lemma {:induction false} ParseLowercaseHash(b: seq<bv8>)
    ensures ParseHex(ToLowercaseHash(b)) == Some(b)
  {
    if b != [] {
      LowercaseHashCons(b);
      ParseLowercaseHash(b[1..]);
      ParsePair(b[0], ToLowercaseHash(b[1..]));
      assert b == [b[0]] + b[1..];
    }
  }

  /** Distinct byte strings have distinct renderings. */
  lemma ToLowercaseHashInjective(a: seq<bv8>, b: seq<bv8>)
    requires ToLowercaseHash(a) == ToLowercaseHash(b)
    ensures a == b
  {
    ParseLowercaseHash(a);
    ParseLowercaseHash(b);
  }

  /** The upper- and lower-case renderings agree when case is ignored. */
  lemma HexCasesAgree(b: seq<bv8>)
    ensures Text.EqualsIgnoreCase(BitConverterHex(b), ToLowercaseHash(b))
  {
    Text.ToLowerIdempotent(BitConverterHex(b));
  }

  // ---------------------------------------------------------------- Median

  const IntLe: (int, int) -> bool := (a: int, b: int) => a <= b

  lemma IntLeIsOrder()
    ensures Sorting.TotalPreorder(IntLe) && Sorting.Antisymmetric(IntLe)
  {
  }

  /** Sorting integers gives an ascending permutation. */
  lemma SortedInts(s: seq<int>)
    ensures Sorting.SortedPairwise(IntLe, Sorting.Sort(IntLe, s))
    ensures multiset(Sorting.Sort(IntLe, s)) == multiset(s)
  {
    IntLeIsOrder();
    Sorting.SortSorted(IntLe, s);
    Sorting.SortedIsPairwise(IntLe, Sorting.Sort(IntLe, s));
  }

  /** Sorting two permutations of the same integers gives the same sequence. */
  lemma SortIntPermutation(s: seq<int>, t: seq<int>)
    requires multiset(s) == multiset(t)
    ensures Sorting.Sort(IntLe, s) == Sorting.Sort(IntLe, t)
  {
    IntLeIsOrder();
    Sorting.SortPermutationInvariant(IntLe, s, t);
  }

  /**
   * Median: the middle element of the sorted input for an odd count, the mean of
   * the two middle elements for an even count; an empty input is an ArgumentException.
   */
  function Median(s: seq<int>): (r: Result<real, string>)
    ensures r.Failure? <==> s == []
    ensures r.Failure? ==> r.error == "No elements to median-ize"
  {
    MedianOfSorted(Sorting.Sort(IntLe, s))
  }

  /** The mean of the two middle elements, in double arithmetic: (a + b) / 2.0. */
  function Mean(a: int, b: int): real
  {
    (a + b) as real / 2.0
  }

  /** The selection step of Median, on the already sorted elements. */
  function MedianOfSorted(t: seq<int>): (r: Result<real, string>)
    ensures r.Failure? <==> t == []
  {
    if |t| == 0 then Failure("No elements to median-ize")
    else
      var mid := |t| / 2;
      if |t| % 2 == 0 then Success(Mean(t[mid - 1], t[mid]))
      else Success(t[mid] as real)
  }

  /** The two conditions the median is characterised by: at or below m, at or above m. */
  datatype Bound = AtMost(m: int) | AtLeast(m: int)

  predicate Holds(p: Bound, x: int)
  {
    match p
    case AtMost(m) => x <= m
    case AtLeast(m) => x >= m
  }

  /** Number of elements of s satisfying p. */
  function Count(s: seq<int>, p: Bound): (n: nat)
    ensures n <= |s|
  {
    if s == [] then 0 else (if Holds(p, s[0]) then 1 else 0) + Count(s[1..], p)
  }

  lemma {:induction false} CountAppend(a: seq<int>, b: seq<int>, p: Bound)
    ensures Count(a + b, p) == Count(a, p) + Count(b, p)
  {
    if a != [] {
      assert (a + b)[0] == a[0];
      assert (a + b)[1..] == a[1..] + b;
      CountAppend(a[1..], b, p);
    } else {
      assert a + b == b;
    }
  }

  /** Removing the element at k lowers the count by one exactly when it satisfies p. */
  lemma CountRemove(t: seq<int>, k: nat, p: Bound)
    requires k < |t|
    ensures Count(t, p) == Count(t[..k] + t[k + 1..], p) + (if Holds(p, t[k]) then 1 else 0)
  {
    var x := [t[k]] + t[k + 1..];
    SplitAt(t, k);
    CountAppend(t[..k], x, p);
    CountAppend(t[..k], t[k + 1..], p);
    ConsParts(t[k], t[k + 1..]);
  }

  lemma SplitAt(t: seq<int>, k: nat)
    requires k < |t|
    ensures t == t[..k] + ([t[k]] + t[k + 1..])
  {
  }

  lemma ConsParts(x: int, u: seq<int>)
    ensures ([x] + u)[0] == x && ([x] + u)[1..] == u
  {
  }

  lemma SplitThree(s: seq<int>, lo: nat, hi: nat)
    requires lo <= hi <= |s|
    ensures s == s[..lo] + (s[lo..hi] + s[hi..])
  {
  }

  lemma RemoveAt(t: seq<int>, k: nat)
    requires k < |t|
    ensures multiset(t[..k] + t[k + 1..]) == multiset(t) - multiset{t[k]}
  {
    assert t == t[..k] + [t[k]] + t[k + 1..];
  }

  lemma {:induction false} CountPermutation(s: seq<int>, t: seq<int>, p: Bound)
    requires multiset(s) == multiset(t)
    ensures Count(s, p) == Count(t, p)
  {
    if s == [] {
      assert |t| == |multiset(t)| == 0;
    } else {
      var x := s[0];
      assert x in multiset(t);
      var k :| 0 <= k < |t| && t[k] == x;
      var u := t[..k] + t[k + 1..];
      RemoveAt(t, k);
      Sorting.TailMultiset(s);
      CountPermutation(s[1..], u, p);
      CountRemove(t, k, p);
    }
  }

  lemma {:induction false} CountAll(s: seq<int>, p: Bound)
    requires forall i :: 0 <= i < |s| ==> Holds(p, s[i])
    ensures Count(s, p) == |s|
  {
    if s != [] {
      CountAll(s[1..], p);
    }
  }

  /** If every element of u satisfies p, then s ++ u ++ v has at least |u| such elements. */
  lemma CountAtLeastSlice(s: seq<int>, lo: nat, hi: nat, p: Bound)
    requires lo <= hi <= |s|
    requires forall j :: lo <= j < hi ==> Holds(p, s[j])
    ensures Count(s, p) >= hi - lo
  {
    var u := s[lo..hi];
    SplitThree(s, lo, hi);
    CountAppend(s[..lo], u + s[hi..], p);
    CountAppend(u, s[hi..], p);
    assert forall j :: 0 <= j < |u| ==> u[j] == s[lo + j];
    CountAll(u, p);
  }

  /** At least i + 1 elements of a sorted sequence are at most t[i], and |t| - i at least it. */
  lemma SortedCounts(t: seq<int>, i: nat)
    requires Sorting.SortedPairwise(IntLe, t)
    requires i < |t|
    ensures Count(t, AtMost(t[i])) >= i + 1
    ensures Count(t, AtLeast(t[i])) >= |t| - i
  {
    var m := t[i];
    forall j | 0 <= j <= i
      ensures Holds(AtMost(m), t[j])
    {
      if j < i {
        assert IntLe(t[j], t[i]);
      }
    }
    CountAtLeastSlice(t, 0, i + 1, AtMost(m));
    forall j | i <= j < |t|
      ensures Holds(AtLeast(m), t[j])
    {
      if i < j {
        assert IntLe(t[i], t[j]);
      }
    }
    CountAtLeastSlice(t, i, |t|, AtLeast(m));
  }

  /**
   * Element i of the sorted input has at least i + 1 input elements at or below it,
   * at least |s| - i at or above it, and is no greater than its successor.
   */
  lemma SortCounts(s: seq<int>, i: nat)
    requires i < |s|
    ensures |Sorting.Sort(IntLe, s)| == |s|
    ensures Count(s, AtMost(Sorting.Sort(IntLe, s)[i])) >= i + 1
    ensures Count(s, AtLeast(Sorting.Sort(IntLe, s)[i])) >= |s| - i
    ensures i + 1 < |s| ==> Sorting.Sort(IntLe, s)[i] <= Sorting.Sort(IntLe, s)[i + 1]
  {
    var t := Sorting.Sort(IntLe, s);
    SortedInts(s);
    SortedCounts(t, i);
    CountPermutation(s, t, AtMost(t[i]));
    CountPermutation(s, t, AtLeast(t[i]));
    if i + 1 < |s| {
      assert IntLe(t[i], t[i + 1]);
    }
  }

  /**
   * The median of an odd count in order-statistics terms, with no reference to
   * sorting: an element of the input with more than half of the input at or below
   * it and more than half at or above it.
   */
  lemma MedianOdd(s: seq<int>)
    requires |s| % 2 == 1
    ensures exists m :: (m in s && Median(s) == Success(m as real)
      && Count(s, AtMost(m)) > |s| / 2 && Count(s, AtLeast(m)) > |s| / 2)
  {
    var t := Sorting.Sort(IntLe, s);
    MedianOfOddCount(t);
    var m := t[|s| / 2];
    SortCounts(s, |s| / 2);
    SortedElement(s, |s| / 2);
    assert m in s && Median(s) == Success(m as real)
      && Count(s, AtMost(m)) > |s| / 2 && Count(s, AtLeast(m)) > |s| / 2;
  }

  /**
   * The median of an even, non-zero count: the mean of two elements lo <= hi of the
   * input with at least half of the input at or below lo and at least half at or
   * above hi.
   */
  lemma MedianEven(s: seq<int>)
    requires s != [] && |s| % 2 == 0
    ensures exists lo, hi :: (lo in s && hi in s && lo <= hi
      && Median(s) == Success(Mean(lo, hi))
      && Count(s, AtMost(lo)) >= |s| / 2 && Count(s, AtLeast(hi)) >= |s| / 2)
  {
    var t := Sorting.Sort(IntLe, s);
    var mid := |s| / 2;
    MedianOfEvenCount(t);
    var lo, hi := t[mid - 1], t[mid];
    SortCounts(s, mid - 1);
    SortCounts(s, mid);
    SortedElement(s, mid - 1);
    SortedElement(s, mid);
    assert lo in s && hi in s && lo <= hi
      && Median(s) == Success(Mean(lo, hi))
      && Count(s, AtMost(lo)) >= |s| / 2 && Count(s, AtLeast(hi)) >= |s| / 2;
  }

  /** For an odd count Median is the middle sorted element. */
  lemma MedianOfOddCount(t: seq<int>)
    requires |t| % 2 == 1
    ensures MedianOfSorted(t) == Success(t[|t| / 2] as real)
  {
  }

  /** For an even count Median is the mean of the two middle sorted elements. */
  lemma MedianOfEvenCount(t: seq<int>)
    requires t != [] && |t| % 2 == 0
    ensures MedianOfSorted(t) == Success(Mean(t[|t| / 2 - 1], t[|t| / 2]))
  {
  }

  /** Every element of the sorted input is an element of the input. */
  lemma SortedElement(s: seq<int>, i: nat)
    requires i < |s|
    ensures |Sorting.Sort(IntLe, s)| == |s| && Sorting.Sort(IntLe, s)[i] in s
  {
    var t := Sorting.Sort(IntLe, s);
    Sorting.SortPermutes(IntLe, s);
    assert t[i] in multiset(t);
  }

  /** Reordering the input does not change the median. */
  lemma MedianOrderIndependent(s: seq<int>, t: seq<int>)
    requires multiset(s) == multiset(t)
    ensures Median(s) == Median(t)
  {
    SortIntPermutation(s, t);
    assert |s| == |multiset(s)| == |multiset(t)| == |t|;
  }

  /** (int) of a double: truncation toward zero. */
  function TruncateToInt(r: real): (n: int)
    ensures n as real <= r < n as real + 1.0 || r < 0.0
    ensures r < 0.0 ==> n as real - 1.0 < r <= n as real
  {
    if r >= 0.0 then r.Floor else -((-r).Floor)
  }

  // ---------------------------------------------------------------- Shuffle

  function Swap<T>(s: seq<T>, i: nat, j: nat): (r: seq<T>)
    requires i < |s| && j < |s|
    ensures |r| == |s| && multiset(r) == multiset(s)
    ensures r[i] == s[j] && r[j] == s[i]
    ensures forall k :: 0 <= k < |s| && k != i && k != j ==> r[k] == s[k]
  {
    s[i := s[j]][j := s[i]]
  }

  /** The random draws a shuffle of n elements may use: draw k lies in [0, k]. */
  predicate ValidDraws(draws: seq<int>, n: nat)
  {
    |draws| >= n && forall k :: 0 <= k < n ==> 0 <= draws[k] <= k
  }

  /**
   * The shuffle as a function: with `cur` elements still to place, swap index cur-1
   * with draws[cur-1] and continue with one fewer.
   */
  function Shuffled<T>(s: seq<T>, cur: nat, draws: seq<int>): (r: seq<T>)
    requires cur <= |s| && ValidDraws(draws, cur)
    ensures |r| == |s| && multiset(r) == multiset(s)
    ensures forall k :: cur <= k < |s| ==> r[k] == s[k]
    decreases cur
  {
    if cur <= 1 then s
    else Shuffled(Swap(s, cur - 1, draws[cur - 1]), cur - 1, draws)
  }

  /**
   * Shuffle in place; `draws[k]` is the value Random.Next(k + 1) returns at the step
   * that places index k.
   */
  method Shuffle<T>(a: array<T>, draws: seq<int>)
    requires ValidDraws(draws, a.Length)
    modifies a
    ensures a[..] == Shuffled(old(a[..]), a.Length, draws)
    ensures multiset(a[..]) == multiset(old(a[..]))
  {
    var currentIndex := a.Length;
    while currentIndex > 1
      invariant 0 <= currentIndex <= a.Length
      decreases currentIndex
      invariant Shuffled(a[..], currentIndex, draws) == Shuffled(old(a[..]), a.Length, draws)
    {
      currentIndex := currentIndex - 1;
      var targetIndex := draws[currentIndex];
      assert a[..][currentIndex := a[targetIndex]][targetIndex := a[currentIndex]]
        == Swap(a[..], currentIndex, targetIndex);
      a[currentIndex], a[targetIndex] := a[targetIndex], a[currentIndex];
    }
  }
}
