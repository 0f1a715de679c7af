/** The dataset generators of selection_algorithms.py. A size of zero or
    less gives the empty list, as Python's `range` does. */
module Generators {
  import opened Sorting

  /** Largest value `random.randint(1, 100000)` can draw. */
  const RandomUpperBound: int := 100000

  /** Number of elements `range` produces for `size`. `DataStructures.Slots`
      computes the same number for list repetition `[x] * n`; the two modules
      model unrelated files and share no import, so each keeps its own. */
  function Count(size: int): (r: nat)
  {
    if size < 0 then 0 else size
  }

  /** `list(range(size))`: the ascending list `0, 1, ..., size - 1`. */
  function GenerateSequentialData(size: int): (r: seq<int>)
    ensures |r| == Count(size)
    ensures forall i :: 0 <= i < |r| ==> r[i] == i
  {
    seq(Count(size), i => i)
  }

  /** `list(range(size, 0, -1))`: the descending list `size, size - 1,
      ..., 1`, starting at `size` and stopping above zero. */
  function GenerateDescendingData(size: int): (r: seq<int>)
    ensures |r| == Count(size)
    ensures forall i :: 0 <= i < |r| ==> r[i] == size - i
  {
    seq(Count(size), i => size - i)
  }

  /** `[random.randint(1, 100000) for _ in range(size)]`: each draw is any
      value in `[1, 100000]`, chosen freely. */
  method GenerateRandomSequence(size: int) returns (r: seq<int>)
    ensures |r| == Count(size)
    ensures forall i :: 0 <= i < |r| ==> 1 <= r[i] <= RandomUpperBound
  {
    r := [];
    for n := 0 to Count(size)
      invariant |r| == n
      invariant forall i :: 0 <= i < |r| ==> 1 <= r[i] <= RandomUpperBound
    {
      var draw :| 1 <= draw <= RandomUpperBound;
      r := r + [draw];
    }
  }

  /** The ascending data is already sorted, so position `k` of it sorted
      is `k`: the median of `size` elements is `size / 2`. */
  lemma SequentialSelect(size: int)
    ensures Sort(GenerateSequentialData(size)) == GenerateSequentialData(size)
    ensures forall k :: 0 <= k < Count(size) ==> Sort(GenerateSequentialData(size))[k] == k
  {
    SortOfSorted(GenerateSequentialData(size));
  }

  /** `1, 2, ..., n`: the descending data in ascending order. */
  function UpTo(n: nat): (r: seq<int>)
  {
    seq(n, i => i + 1)
  }

  /** The descending data holds exactly the values `1..size`, each once. */
  lemma {:induction false} DescendingValues(n: nat)
    ensures multiset(GenerateDescendingData(n)) == multiset(UpTo(n))
  {
    if n > 0 {
      DescendingValues(n - 1);
      assert GenerateDescendingData(n) == [n] + GenerateDescendingData(n - 1);
      assert UpTo(n) == UpTo(n - 1) + [n];
    }
  }

  /** Sorting the descending data gives `1, 2, ..., size`, so position `k`
      of it sorted is `k + 1`. */
  lemma DescendingSelect(size: int)
    ensures Sort(GenerateDescendingData(size)) == UpTo(Count(size))
    ensures forall k :: 0 <= k < Count(size) ==> Sort(GenerateDescendingData(size))[k] == k + 1
  {
    DescendingValues(Count(size));
    assert GenerateDescendingData(size) == GenerateDescendingData(Count(size));
    SortIsTheSortedPermutation(GenerateDescendingData(size), UpTo(Count(size)));
  }

  /** For size 5 the descending generator yields `[5, 4, 3, 2, 1]`. */
  lemma DescendingFive()
    ensures GenerateDescendingData(5) == [5, 4, 3, 2, 1]
  {
  }
}
