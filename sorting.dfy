/**
 * The stable ascending sort behind LINQ's OrderBy, as insertion sort over a
 * comparison `le`. With an antisymmetric total order the sorted permutation is
 * unique, which is what makes a result independent of the input order.
 */
module Sorting {

  ghost predicate TotalPreorder<T(!new)>(le: (T, T) -> bool)
  {
    (forall a, b :: le(a, b) || le(b, a))
    && (forall a, b, c :: le(a, b) && le(b, c) ==> le(a, c))
  }

  ghost predicate Antisymmetric<T(!new)>(le: (T, T) -> bool)
  {
    forall a, b :: le(a, b) && le(b, a) ==> a == b
  }

  /** Each element is at most its successor. */
  predicate Sorted<T>(le: (T, T) -> bool, s: seq<T>)
  {
    forall i :: 0 < i < |s| ==> le(s[i - 1], s[i])
  }

  /** Every element is at most every later one. */
  predicate SortedPairwise<T>(le: (T, T) -> bool, s: seq<T>)
  {
    forall i, j :: 0 <= i < j < |s| ==> le(s[i], s[j])
  }

  function Insert<T>(le: (T, T) -> bool, x: T, s: seq<T>): (r: seq<T>)
    ensures |r| == |s| + 1
  {
    if s == [] then [x]
    else if le(x, s[0]) then [x] + s
    else [s[0]] + Insert(le, x, s[1..])
  }

  function Sort<T>(le: (T, T) -> bool, s: seq<T>): (r: seq<T>)
    ensures |r| == |s|
  {
    if s == [] then [] else Insert(le, s[0], Sort(le, s[1..]))
  }

  /** Insert adds exactly x to the elements. */
  lemma {:induction false} InsertPermutes<T>(le: (T, T) -> bool, x: T, s: seq<T>)
    ensures multiset(Insert(le, x, s)) == multiset(s) + multiset{x}
    decreases |s|
  {
    if s != [] && !le(x, s[0]) {
      InsertPermutes(le, x, s[1..]);
      assert s == [s[0]] + s[1..];
    }
  }

  /** Sort keeps the elements with their multiplicities. */
  lemma {:induction false} SortPermutes<T>(le: (T, T) -> bool, s: seq<T>)
    ensures multiset(Sort(le, s)) == multiset(s)
    decreases |s|
  {
    if s != [] {
      SortPermutes(le, s[1..]);
      InsertPermutes(le, s[0], Sort(le, s[1..]));
      assert s == [s[0]] + s[1..];
    }
  }

  lemma {:induction false} InsertSorted<T(!new)>(le: (T, T) -> bool, x: T, s: seq<T>)
    requires TotalPreorder(le)
    requires Sorted(le, s)
    ensures Sorted(le, Insert(le, x, s))
    ensures Insert(le, x, s)[0] == x || (s != [] && Insert(le, x, s)[0] == s[0])
  {
    if s == [] || le(x, s[0]) {
    } else {
      InsertSorted(le, x, s[1..]);
    }
  }

  /** Sort yields an ascending permutation of its input. */
  lemma {:induction false} SortSorted<T(!new)>(le: (T, T) -> bool, s: seq<T>)
    requires TotalPreorder(le)
    ensures Sorted(le, Sort(le, s))
    ensures multiset(Sort(le, s)) == multiset(s)
  {
    SortPermutes(le, s);
    if s != [] {
      SortSorted(le, s[1..]);
      InsertSorted(le, s[0], Sort(le, s[1..]));
    }
  }

  lemma {:induction false} SortedIsPairwise<T(!new)>(le: (T, T) -> bool, s: seq<T>)
    requires TotalPreorder(le)
    requires Sorted(le, s)
    ensures SortedPairwise(le, s)
  {
    if |s| > 1 {
      SortedIsPairwise(le, s[1..]);
      forall j | 0 < j < |s|
        ensures le(s[0], s[j])
      {
        if j > 1 {
          assert le(s[1], s[j]) by { assert s[1..][0] == s[1] && s[1..][j - 1] == s[j]; }
        }
      }
      forall i, j | 0 <= i < j < |s|
        ensures le(s[i], s[j])
      {
        if i > 0 {
          assert s[1..][i - 1] == s[i] && s[1..][j - 1] == s[j];
        }
      }
    }
  }

  lemma SortedTail<T>(le: (T, T) -> bool, s: seq<T>)
    requires Sorted(le, s) && s != []
    ensures Sorted(le, s[1..])
  {
    forall i | 0 < i < |s| - 1
      ensures le(s[1..][i - 1], s[1..][i])
    {
      assert s[1..][i - 1] == s[i] && s[1..][i] == s[i + 1];
    }
  }

  /** In a pairwise-sorted sequence the first element is below every element. */
  lemma HeadIsLeast<T>(le: (T, T) -> bool, a: seq<T>, x: T)
    requires SortedPairwise(le, a) && x in a && le(x, x)
    ensures le(a[0], x)
  {
    var j :| 0 <= j < |a| && a[j] == x;
    if j > 0 {
      assert le(a[0], a[j]);
    }
  }

  /** Two sorted permutations of one multiset start with the same element. */
  lemma SortedHeads<T(!new)>(le: (T, T) -> bool, a: seq<T>, b: seq<T>)
    requires TotalPreorder(le) && Antisymmetric(le)
    requires Sorted(le, a) && Sorted(le, b) && a != []
    requires multiset(a) == multiset(b)
    ensures b != [] && a[0] == b[0]
  {
    assert a[0] in multiset(b);
    SortedIsPairwise(le, a);
    SortedIsPairwise(le, b);
    assert le(a[0], a[0]) && le(b[0], b[0]);
    HeadIsLeast(le, b, a[0]);
    assert b[0] in multiset(a);
    HeadIsLeast(le, a, b[0]);
  }

  lemma TailMultiset<T>(a: seq<T>)
    requires a != []
    ensures multiset(a[1..]) == multiset(a) - multiset{a[0]}
  {
    assert a == [a[0]] + a[1..];
  }

  lemma ConsEqual<T>(a: seq<T>, b: seq<T>)
    requires a != [] && b != [] && a[0] == b[0] && a[1..] == b[1..]
    ensures a == b
  {
    assert a == [a[0]] + a[1..] && b == [b[0]] + b[1..];
  }

  /** Two ascending permutations of one multiset are equal when the order is antisymmetric. */
  lemma {:induction false} SortedUnique<T(!new)>(le: (T, T) -> bool, a: seq<T>, b: seq<T>)
    requires TotalPreorder(le) && Antisymmetric(le)
    requires Sorted(le, a) && Sorted(le, b)
    requires multiset(a) == multiset(b)
    ensures a == b
    decreases |a|
  {
    if a != [] {
      SortedHeads(le, a, b);
      TailMultiset(a);
      TailMultiset(b);
      SortedTail(le, a);
      SortedTail(le, b);
      SortedUnique(le, a[1..], b[1..]);
      ConsEqual(a, b);
    } else {
      assert |b| == 0 by { assert |multiset(b)| == 0; }
    }
  }

  /** Sorting two permutations of one sequence gives the same result. */
  lemma SortPermutationInvariant<T(!new)>(le: (T, T) -> bool, s: seq<T>, t: seq<T>)
    requires TotalPreorder(le) && Antisymmetric(le)
    requires multiset(s) == multiset(t)
    ensures Sort(le, s) == Sort(le, t)
  {
    SortSorted(le, s);
    SortSorted(le, t);
    SortedUnique(le, Sort(le, s), Sort(le, t));
  }
}
