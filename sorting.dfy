/** Ascending order on sequences of integers: the meaning of Python's
    `sorted(xs)` and `xs.sort()`, which both selectors rely on. The position
    `k` of the sorted sequence is the k-th smallest element. */
module Sorting {

  /** Every element is at most every later element. */
  predicate IsSorted(s: seq<int>)
  {
    forall i, j :: 0 <= i < j < |s| ==> s[i] <= s[j]
  }

  /** Puts `x` into its place in a sequence: before the first element
      that is not smaller than it. */
  function Insert(x: int, t: seq<int>): (r: seq<int>)
    ensures multiset(r) == multiset(t) + multiset{x}
    ensures |r| == |t| + 1
  {
    if t == [] then [x]
    else if x <= t[0] then [x] + t
    else
      assert t == [t[0]] + t[1..];
      [t[0]] + Insert(x, t[1..])
  }

  /** Inserting into a sorted sequence keeps it sorted. */
  lemma {:induction false} InsertSorted(x: int, t: seq<int>)
    requires IsSorted(t)
    ensures IsSorted(Insert(x, t))
  {
    if t != [] && x > t[0] {
      var rest := Insert(x, t[1..]);
      TailSorted(t);
      InsertSorted(x, t[1..]);
      forall y | y in rest
        ensures t[0] <= y
      {
        assert y in multiset(rest);
        if y != x {
          assert y in multiset(t[1..]);
        }
      }
      SortedConcat([t[0]], rest);
    }
  }

  /** The ascending rearrangement of `s` (insertion sort, as a function):
      same elements, same length. */
  function Sort(s: seq<int>): (r: seq<int>)
    ensures multiset(r) == multiset(s)
    ensures |r| == |s|
  {
    if s == [] then []
    else
      assert s == [s[0]] + s[1..];
      Insert(s[0], Sort(s[1..]))
  }

  /** The result of `Sort` is in ascending order. */
  lemma {:induction false} SortIsSorted(s: seq<int>)
    ensures IsSorted(Sort(s))
  {
    if s != [] {
      SortIsSorted(s[1..]);
      InsertSorted(s[0], Sort(s[1..]));
    }
  }

  /** Two sorted sequences holding the same elements are the same sequence,
      so `Sort(s)` is the only sorted rearrangement of `s`. */
  lemma {:induction false} SortedUnique(a: seq<int>, b: seq<int>)
    requires IsSorted(a) && IsSorted(b)
    requires multiset(a) == multiset(b)
    ensures a == b
  {
    if a != [] {
      assert b != [] && a[0] == b[0] by {
        SameFirst(a, b);
      }
      var x := a[0];
      assert IsSorted(a[1..]) && IsSorted(b[1..]) && multiset(a[1..]) == multiset(b[1..]) by {
        SortedTail(a, b);
      }
      SortedUnique(a[1..], b[1..]);
      assert a == [x] + a[1..] && b == [x] + b[1..];
    }
  }

  /** Dropping the common first element of two sorted sequences with the
      same elements leaves two sorted sequences with the same elements. */
  lemma SortedTail(a: seq<int>, b: seq<int>)
    requires IsSorted(a) && IsSorted(b)
    requires multiset(a) == multiset(b) && a != [] && b != [] && a[0] == b[0]
    ensures IsSorted(a[1..]) && IsSorted(b[1..]) && multiset(a[1..]) == multiset(b[1..])
  {
    TailSorted(a);
    TailSorted(b);
    TailElements(a);
    TailElements(b);
  }

  /** The rest of a non-empty sequence holds its elements but the first. */
  lemma TailElements(a: seq<int>)
    requires a != []
    ensures multiset(a[1..]) == multiset(a) - multiset{a[0]}
  {
    assert a == [a[0]] + a[1..];
  }

  /** A suffix of a sorted sequence is sorted. */
  lemma TailSorted(a: seq<int>)
    requires IsSorted(a) && a != []
    ensures IsSorted(a[1..])
  {
    var t := a[1..];
    forall i, j | 0 <= i < j < |t|
      ensures t[i] <= t[j]
    {
      assert t[i] == a[i + 1] && t[j] == a[j + 1];
    }
  }

  /** Two non-empty sorted sequences with the same elements start with the
      same (smallest) element. */
  lemma SameFirst(a: seq<int>, b: seq<int>)
    requires IsSorted(a) && IsSorted(b)
    requires multiset(a) == multiset(b) && a != []
    ensures b != [] && a[0] == b[0]
  {
    assert a[0] in multiset(b) by {
      assert a[0] in multiset(a);
    }
    assert b[0] in multiset(a);
    assert a[0] in b && b[0] in a;
  }

  /** Any sorted rearrangement of `s` is `Sort(s)`. */
  lemma SortIsTheSortedPermutation(s: seq<int>, t: seq<int>)
    requires IsSorted(t) && multiset(s) == multiset(t)
    ensures Sort(s) == t
  {
    SortIsSorted(s);
    SortedUnique(Sort(s), t);
  }

  /** A sequence that is already sorted is its own sorted rearrangement. */
  lemma SortOfSorted(s: seq<int>)
    requires IsSorted(s)
    ensures Sort(s) == s
  {
    SortIsSorted(s);
    SortedUnique(Sort(s), s);
  }

  /** Sorting depends only on which elements there are, not on their order. */
  lemma SortPermutation(a: seq<int>, b: seq<int>)
    requires multiset(a) == multiset(b)
    ensures Sort(a) == Sort(b)
  {
    SortIsSorted(a);
    SortIsSorted(b);
    SortedUnique(Sort(a), Sort(b));
  }

  /** Position 0 of the sorted sequence is the minimum and the last position
      the maximum; both are elements of the input. */
  lemma SortExtremes(s: seq<int>)
    requires |s| > 0
    ensures Sort(s)[0] in s && Sort(s)[|s| - 1] in s
    ensures forall x :: x in s ==> Sort(s)[0] <= x <= Sort(s)[|s| - 1]
  {
    SortIsSorted(s);
    SortedSpan(Sort(s), s);
  }

  /** In a sorted rearrangement `t` of a non-empty `s`, the first and the
      last position hold elements of `s`, and every element of `s` lies
      between them. */
  lemma SortedSpan(t: seq<int>, s: seq<int>)
    requires IsSorted(t) && multiset(t) == multiset(s) && |s| > 0
    ensures |t| == |s|
    ensures t[0] in s && t[|t| - 1] in s
    ensures forall x :: x in s ==> t[0] <= x <= t[|t| - 1]
  {
    assert |t| == |multiset(t)| == |multiset(s)| == |s|;
    assert t[0] in multiset(t) && t[|t| - 1] in multiset(t);
    forall x | x in s
      ensures t[0] <= x <= t[|t| - 1]
    {
      assert x in multiset(s);
      assert x in t;
      var j :| 0 <= j < |t| && t[j] == x;
    }
  }

  /** Sorting neither adds nor drops values. */
  lemma SortSameElements(s: seq<int>)
    ensures forall x :: x in Sort(s) <==> x in s
  {
    forall x ensures x in Sort(s) <==> x in s {
      assert x in Sort(s) <==> x in multiset(Sort(s));
      assert x in s <==> x in multiset(s);
    }
  }

  /** Every position of the sorted sequence holds an element of the input. */
  lemma SortElement(s: seq<int>, k: nat)
    requires k < |s|
    ensures Sort(s)[k] in s
  {
    assert Sort(s)[k] in multiset(Sort(s));
  }

  /** Concatenating two sorted sequences keeps the order when every element
      of the first is at most every element of the second. */
  lemma SortedConcat(a: seq<int>, b: seq<int>)
    requires IsSorted(a) && IsSorted(b)
    requires forall x, y :: x in a && y in b ==> x <= y
    ensures IsSorted(a + b)
  {
    var c := a + b;
    forall i, j | 0 <= i < j < |c|
      ensures c[i] <= c[j]
    {
      if i < |a| && j >= |a| {
        assert c[i] in a && c[j] in b;
      }
    }
  }
}
