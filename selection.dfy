/** Order-statistics selection (selection_algorithms.py): the deterministic
    median-of-medians selector and randomized quickselect. Both return the
    element at position `index` of the ascending rearrangement of the list,
    `Sort(s)[index]`. */
module Selection {
  import opened Sorting

  /* ---------------------------------------------------------------------
     Three-way split around a pivot
     --------------------------------------------------------------------- */

  /** `[val for val in s if val < pivot]`: the elements below the pivot,
      each kept as often as it occurs. */
  function Smaller(s: seq<int>, pivot: int): (r: seq<int>)
    ensures forall x :: multiset(r)[x] == if x < pivot then multiset(s)[x] else 0
    ensures forall x :: x in r ==> x < pivot
  {
    if s == [] then []
    else
      assert s == [s[0]] + s[1..];
      var rest := Smaller(s[1..], pivot);
      if s[0] < pivot then [s[0]] + rest else rest
  }

  /** `[val for val in s if val > pivot]`: the elements above the pivot,
      each kept as often as it occurs. */
  function Larger(s: seq<int>, pivot: int): (r: seq<int>)
    ensures forall x :: multiset(r)[x] == if x > pivot then multiset(s)[x] else 0
    ensures forall x :: x in r ==> x > pivot
  {
    if s == [] then []
    else
      assert s == [s[0]] + s[1..];
      var rest := Larger(s[1..], pivot);
      if s[0] > pivot then [s[0]] + rest else rest
  }

  /** The copies of the pivot in `s`; the source only counts them
      (`pivot_repeats`, `data_list.count(pivot)`). */
  ghost function EqualSegment(s: seq<int>, pivot: int): (r: seq<int>)
    ensures forall x :: multiset(r)[x] == if x == pivot then multiset(s)[x] else 0
    ensures forall i :: 0 <= i < |r| ==> r[i] == pivot
    ensures |r| == multiset(s)[pivot]
  {
    if s == [] then []
    else
      assert s == [s[0]] + s[1..];
      var rest := EqualSegment(s[1..], pivot);
      if s[0] == pivot then [s[0]] + rest else rest
  }

  /** The smaller segment, the copies of the pivot and the larger segment
      hold exactly the elements of `s`. */
  lemma PartitionMultiset(s: seq<int>, pivot: int)
    ensures multiset(s) == multiset(Smaller(s, pivot)) + multiset(EqualSegment(s, pivot))
                           + multiset(Larger(s, pivot))
  {
    var sm, eq, lg := Smaller(s, pivot), EqualSegment(s, pivot), Larger(s, pivot);
    forall x ensures multiset(s)[x] == multiset(sm)[x] + multiset(eq)[x] + multiset(lg)[x] {
    }
  }

  /** The sorted smaller segment, the copies of the pivot and the sorted
      larger segment, in this order, form a sorted sequence. */
  lemma PartitionOrdered(s: seq<int>, pivot: int)
    ensures IsSorted(Sort(Smaller(s, pivot)) + EqualSegment(s, pivot) + Sort(Larger(s, pivot)))
  {
    var a, eq, b := Sort(Smaller(s, pivot)), EqualSegment(s, pivot), Sort(Larger(s, pivot));
    SortIsSorted(Smaller(s, pivot));
    SortIsSorted(Larger(s, pivot));
    SortSameElements(Smaller(s, pivot));
    SortSameElements(Larger(s, pivot));
    assert forall x :: x in a ==> x < pivot;
    assert forall y :: y in eq ==> y == pivot;
    assert forall y :: y in b ==> y > pivot;
    SortedConcat(a, eq);
    SortedConcat(a + eq, b);
  }

  /** Sorting `s` puts the smaller segment first, then every copy of the
      pivot, then the larger segment. The two segments and the copies of the
      pivot make up the whole list, and when the pivot is an element of the
      list, both segments are strictly shorter than it. */
  lemma PartitionSort(s: seq<int>, pivot: int)
    ensures |Smaller(s, pivot)| + multiset(s)[pivot] + |Larger(s, pivot)| == |s|
    ensures Sort(s) == Sort(Smaller(s, pivot)) + EqualSegment(s, pivot) + Sort(Larger(s, pivot))
    ensures pivot in s ==> multiset(s)[pivot] >= 1
    ensures pivot in s ==> |Smaller(s, pivot)| < |s| && |Larger(s, pivot)| < |s|
  {
    var sm, eq, lg := Smaller(s, pivot), EqualSegment(s, pivot), Larger(s, pivot);
    PartitionMultiset(s, pivot);
    assert |multiset(s)| == |multiset(sm)| + |multiset(eq)| + |multiset(lg)|;
    PartitionOrdered(s, pivot);
    SortIsSorted(s);
    SortedUnique(Sort(s), Sort(sm) + eq + Sort(lg));
    if pivot in s {
      assert pivot in multiset(s);
    }
  }

  /** Where position `index` of the sorted list falls after the split:
      in the sorted smaller segment, on a copy of the pivot, or in the
      sorted larger segment shifted by the two lengths before it. */
  lemma SelectStep(s: seq<int>, pivot: int, index: nat)
    requires index < |s|
    ensures |Smaller(s, pivot)| + multiset(s)[pivot] + |Larger(s, pivot)| == |s|
    ensures pivot in s ==> multiset(s)[pivot] >= 1
    ensures var sm, c := Smaller(s, pivot), multiset(s)[pivot];
            && (index < |sm| ==> Sort(s)[index] == Sort(sm)[index])
            && (|sm| <= index < |sm| + c ==> Sort(s)[index] == pivot)
            && (|sm| + c <= index ==>
                  index - |sm| - c < |Larger(s, pivot)| &&
                  Sort(s)[index] == Sort(Larger(s, pivot))[index - |sm| - c])
  {
    PartitionSort(s, pivot);
    var a, eq, b := Sort(Smaller(s, pivot)), EqualSegment(s, pivot), Sort(Larger(s, pivot));
    ConcatAt(a, eq, b, index);
  }

  /** Indexing into a concatenation of three sequences. */
  lemma ConcatAt(a: seq<int>, e: seq<int>, b: seq<int>, k: nat)
    requires k < |a| + |e| + |b|
    ensures k < |a| ==> (a + e + b)[k] == a[k]
    ensures |a| <= k < |a| + |e| ==> (a + e + b)[k] == e[k - |a|]
    ensures |a| + |e| <= k ==> (a + e + b)[k] == b[k - |a| - |e|]
  {
  }

  /** The order statistic by counting: `v` sits at position `k` of the
      sorted list exactly when at most `k` elements are below `v` and more
      than `k` elements are at most `v`. */
  lemma KthRank(s: seq<int>, k: nat, v: int)
    requires k < |s|
    ensures Sort(s)[k] == v <==>
            |Smaller(s, v)| <= k < |Smaller(s, v)| + multiset(s)[v]
  {
    PartitionSort(s, v);
  }

  /* ---------------------------------------------------------------------
     Sorting and copying lists in place
     --------------------------------------------------------------------- */

  /** `xs.sort()`: the list now holds its ascending rearrangement. */
  method SortInPlace(a: array<int>)
    modifies a
    ensures a[..] == Sort(old(a[..]))
  {
    var t := Sort(a[..]);
    forall i | 0 <= i < a.Length {
      a[i] := t[i];
    }
  }

  /** A new list with the given contents (a slice or a comprehension). */
  method NewList(s: seq<int>) returns (a: array<int>)
    ensures fresh(a) && a[..] == s
  {
    a := new int[|s|](i requires 0 <= i < |s| => s[i]);
  }

  /* ---------------------------------------------------------------------
     extract_sublist_median and the grouping step
     --------------------------------------------------------------------- */

  /** The median of a non-empty group: position `len // 2` of the sorted
      group. */
  function Median(g: seq<int>): (m: int)
    requires |g| > 0
  {
    Sort(g)[|g| / 2]
  }

  /** The median of a group is one of its elements, and at most half of
      the group (rounded down) lies strictly below it. */
  lemma MedianRank(g: seq<int>)
    requires |g| > 0
    ensures Median(g) in g
    ensures |Smaller(g, Median(g))| <= |g| / 2 < |Smaller(g, Median(g))| + multiset(g)[Median(g)]
  {
    SortElement(g, |g| / 2);
    KthRank(g, |g| / 2, Median(g));
  }

  /** `extract_sublist_median`: sorts the group in place and returns its
      middle element. */
  method ExtractSublistMedian(sublist: array<int>) returns (m: int)
    requires sublist.Length > 0
    modifies sublist
    ensures sublist[..] == Sort(old(sublist[..]))
    ensures m == sublist[sublist.Length / 2] == Median(old(sublist[..]))
  {
    SortInPlace(sublist);
    m := sublist[sublist.Length / 2];
  }

  /** The smaller of two integers. A Python slice `s[i:i + 5]` ends at
      `Min(i + 5, len(s))`. */
  function Min(a: int, b: int): (r: int)
  {
    if a < b then a else b
  }

  /** The consecutive slices `s[0:5]`, `s[5:10]`, ... that the grouping
      loop copies; the last one may be shorter, none is empty. */
  function Groups(s: seq<int>): (r: seq<seq<int>>)
    ensures |s| <= 5 * |r| < |s| + 5
    ensures forall j :: 0 <= j < |r| ==> |r[j]| > 0
    decreases |s|
  {
    if s == [] then []
    else
      var g := Min(5, |s|);
      [s[..g]] + Groups(s[g..])
  }

  /** The median of each group, in order. */
  function Medians(gs: seq<seq<int>>): (r: seq<int>)
    requires forall j :: 0 <= j < |gs| ==> |gs[j]| > 0
    ensures |r| == |gs|
  {
    if gs == [] then [] else [Median(gs[0])] + Medians(gs[1..])
  }

  /** `medians_collected`: the median of each group of five. There is one
      per five elements, rounded up. */
  function GroupMedians(s: seq<int>): (r: seq<int>)
    ensures |s| <= 5 * |r| < |s| + 5
  {
    Medians(Groups(s))
  }

  lemma {:induction false} MediansAt(gs: seq<seq<int>>, j: nat)
    requires forall j :: 0 <= j < |gs| ==> |gs[j]| > 0
    requires j < |gs|
    ensures Medians(gs)[j] == Median(gs[j])
  {
    if j > 0 {
      MediansAt(gs[1..], j - 1);
    }
  }

  /** Group `j` is the slice `s[5j : 5j + 5]`, clipped at the end of the
      list. */
  lemma {:induction false} GroupsAt(s: seq<int>, j: nat)
    requires j < |Groups(s)|
    ensures Groups(s)[j] == s[5 * j .. Min(5 * j + 5, |s|)]
    decreases |s|
  {
    if j > 0 {
      GroupsAt(s[5..], j - 1);
      SliceShift(s, j);
    }
  }

  /** Slice `j - 1` of `s[5:]` is slice `j` of `s`. */
  lemma SliceShift(s: seq<int>, j: nat)
    requires 0 < j && 5 * j < |s|
    ensures s[5..][5 * (j - 1) .. Min(5 * (j - 1) + 5, |s| - 5)] == s[5 * j .. Min(5 * j + 5, |s|)]
  {
    var lo := 5 * (j - 1);
    assert lo + 5 == 5 * j;
    var hi := Min(lo + 5, |s| - 5);
    assert hi + 5 == Min(5 * j + 5, |s|);
    assert s[5..][lo..hi] == s[lo + 5 .. hi + 5];
  }

  /** Entry `j` of the group medians is the median of the slice
      `s[5j : 5j + 5]`, clipped at the end of the list. */
  lemma GroupMediansAt(s: seq<int>, j: nat)
    requires j < |GroupMedians(s)|
    ensures GroupMedians(s)[j] == Median(s[5 * j .. Min(5 * j + 5, |s|)])
  {
    GroupsAt(s, j);
    MediansAt(Groups(s), j);
  }

  /** There are fewer group medians than elements once the list has more
      than one element, so the pivot recursion works on a shorter list. */
  lemma GroupMediansShorter(s: seq<int>)
    requires |s| > 1
    ensures 0 < |GroupMedians(s)| < |s|
  {
  }

  /** Every group median is an element of the list. */
  lemma GroupMediansMembers(s: seq<int>, x: int)
    requires x in GroupMedians(s)
    ensures x in s
  {
    var j :| 0 <= j < |GroupMedians(s)| && GroupMedians(s)[j] == x;
    GroupMediansAt(s, j);
    var g := s[5 * j .. Min(5 * j + 5, |s|)];
    MedianRank(g);
    assert x in g;
  }

  /** Cutting the first slice `s[i : i + 5]` off `s[i:]` leaves the groups
      of the rest of the list. */
  lemma GroupsStep(s: seq<int>, i: nat)
    requires i < |s|
    ensures Groups(s[i..]) == [s[i .. Min(i + 5, |s|)]] + Groups(s[Min(i + 5, |s|)..])
  {
    var t := s[i..];
    var g := Min(5, |t|);
    assert t[..g] == s[i .. Min(i + 5, |s|)];
    assert t[g..] == s[Min(i + 5, |s|)..];
  }

  /** One turn of the grouping loop at position `i`: the medians still to
      collect are the median of `s[i : i + 5]` followed by those of the
      rest of the list. */
  lemma GroupMediansStep(s: seq<int>, i: nat)
    requires i < |s|
    ensures GroupMedians(s[i..]) ==
            [Median(s[i .. Min(i + 5, |s|)])] + GroupMedians(s[Min(i + 5, |s|)..])
  {
    GroupsStep(s, i);
    var gs := Groups(s[i..]);
    assert gs[1..] == Groups(s[Min(i + 5, |s|)..]);
  }

  /** The grouping loop of `median_of_medians`: walks the list in steps of
      five, copies each slice and collects the slice's median. */
  method CollectMedians(data: array<int>) returns (medians: seq<int>)
    ensures medians == GroupMedians(data[..])
  {
    var s := data[..];
    medians := [];
    var i := 0;
    while i < |s|
      invariant i < |s| + 5
      invariant medians + GroupMedians(s[Min(i, |s|)..]) == GroupMedians(s)
    {
      var m := SliceMedian(s, i, Min(i + 5, |s|));
      assert Min(i, |s|) == i;
      GroupMediansStep(s, i);
      assert (medians + [m]) + GroupMedians(s[Min(i + 5, |s|)..]) == medians + GroupMedians(s[i..]);
      medians := medians + [m];
      i := i + 5;
    }
    assert s[|s|..] == [];
  }

  /** `extract_sublist_median(data_list[lo:hi])`: copies the slice into a
      fresh list, so the caller's list is not sorted, and returns the
      slice's median. */
  method SliceMedian(s: seq<int>, lo: nat, hi: nat) returns (m: int)
    requires lo < hi <= |s|
    ensures m == Median(s[lo..hi])
  {
    var subgroup := NewList(s[lo..hi]);
    m := ExtractSublistMedian(subgroup);
  }

  /* ---------------------------------------------------------------------
     The two selectors
     --------------------------------------------------------------------- */

  /** `median_of_medians(data_list, index)`: the element at position
      `index` of the sorted list. A list of at most five elements is sorted
      in place (the caller sees it sorted); a longer list is left as it
      was, since the recursion works on fresh lists only. */
  method MedianOfMedians(dataList: array<int>, index: nat) returns (r: int)
    requires index < dataList.Length
    modifies dataList
    ensures r == Sort(old(dataList[..]))[index]
    ensures dataList.Length <= 5 ==> dataList[..] == Sort(old(dataList[..]))
    ensures dataList.Length > 5 ==> dataList[..] == old(dataList[..])
    decreases dataList.Length, 1
  {
    if dataList.Length <= 5 {
      SortInPlace(dataList);
      r := dataList[index];
      return;
    }
    var pivot := ChoosePivot(dataList);
    r := SelectAround(dataList[..], pivot, index);
  }

  /** Steps 3 and 4 of `median_of_medians`: splits the list around the
      pivot and either returns the pivot or recurses into the one segment
      that holds position `index`. */
  method SelectAround(s: seq<int>, pivot: int, index: nat) returns (r: int)
    requires index < |s| && pivot in s
    ensures r == Sort(s)[index]
    decreases |s|, 0
  {
    var smallerSegment := Smaller(s, pivot);
    var largerSegment := Larger(s, pivot);
    var pivotRepeats := |s| - |smallerSegment| - |largerSegment|;
    SelectStep(s, pivot, index);
    PartitionSort(s, pivot);

    if index < |smallerSegment| {
      var next := NewList(smallerSegment);
      r := MedianOfMedians(next, index);
    } else if index < |smallerSegment| + pivotRepeats {
      r := pivot;
    } else {
      var next := NewList(largerSegment);
      r := MedianOfMedians(next, index - |smallerSegment| - pivotRepeats);
    }
  }

  /** Steps 1 and 2 of `median_of_medians` on a list of more than five
      elements: the median of the group medians, found by the recursive
      call. It is an element of the list. */
  method ChoosePivot(dataList: array<int>) returns (pivot: int)
    requires dataList.Length > 5
    ensures pivot == Median(GroupMedians(dataList[..]))
    ensures pivot in dataList[..]
    decreases dataList.Length, 0
  {
    var mediansCollected := CollectMedians(dataList);
    GroupMediansShorter(dataList[..]);
    var medianList := NewList(mediansCollected);
    pivot := MedianOfMedians(medianList, |mediansCollected| / 2);
    PivotInList(dataList[..], mediansCollected, pivot);
  }

  /** The pivot that `median_of_medians` picks, the median of the group
      medians, is an element of the list. */
  lemma PivotInList(s: seq<int>, medians: seq<int>, pivot: int)
    requires |s| > 1 && medians == GroupMedians(s)
    requires pivot == Sort(medians)[|medians| / 2]
    ensures pivot in s
  {
    GroupMediansShorter(s);
    SortElement(medians, |medians| / 2);
    GroupMediansMembers(s, pivot);
  }

  /** `quickselect(data_list, index)`: the pivot is any element of the
      list (the source draws it at random), and for every such choice the
      result is the element at position `index` of the sorted list. A
      one-element list returns its element whatever the index. */
  method Quickselect(dataList: seq<int>, index: int) returns (r: int)
    requires 0 <= index < |dataList| || |dataList| == 1
    ensures |dataList| == 1 ==> r == dataList[0]
    ensures 0 <= index < |dataList| ==> r == Sort(dataList)[index]
    decreases |dataList|
  {
    if |dataList| == 1 {
      r := dataList[0];
      return;
    }
    var choice :| 0 <= choice < |dataList|;
    var pivot := dataList[choice];
    var leftPart := Smaller(dataList, pivot);
    var rightPart := Larger(dataList, pivot);
    var pivotOccurrences := multiset(dataList)[pivot];
    PartitionSort(dataList, pivot);
    SelectStep(dataList, pivot, index);

    if index < |leftPart| {
      r := Quickselect(leftPart, index);
    } else if index < |leftPart| + pivotOccurrences {
      r := pivot;
    } else {
      r := Quickselect(rightPart, index - |leftPart| - pivotOccurrences);
    }
  }

  /* ---------------------------------------------------------------------
     What the two selectors have in common
     --------------------------------------------------------------------- */

  /** Both selectors, run on copies of the same list, return the same
      value: the element at position `index` of the sorted list. */
  method SelectBoth(s: seq<int>, index: nat) returns (deterministic: int, randomized: int)
    requires index < |s|
    ensures deterministic == randomized == Sort(s)[index]
  {
    var copy := NewList(s);
    deterministic := MedianOfMedians(copy, index);
    randomized := Quickselect(s, index);
  }

  /** A list whose elements are all equal yields that value at every
      position. */
  lemma AllEqualSelect(s: seq<int>, v: int, index: nat)
    requires index < |s|
    requires forall i :: 0 <= i < |s| ==> s[i] == v
    ensures Sort(s)[index] == v
  {
    SortElement(s, index);
  }

  /** `[7, 2, 9, 4, 4, 1]` sorts to `[1, 2, 4, 4, 7, 9]`, so positions
      0, 2, 3 and 5 select 1, 4, 4 and 9. */
  lemma SevenTwoNineExample(s: seq<int>)
    requires s == [7, 2, 9, 4, 4, 1]
    ensures Sort(s) == [1, 2, 4, 4, 7, 9]
  {
    var t := [1, 2, 4, 4, 7, 9];
    ExampleSorted(t);
    ExampleElements(s, t);
    SortIsTheSortedPermutation(s, t);
  }

  /** The expected answer is in ascending order. */
  lemma ExampleSorted(t: seq<int>)
    requires t == [1, 2, 4, 4, 7, 9]
    ensures IsSorted(t)
  {
  }

  /** The expected answer rearranges the example list. */
  lemma ExampleElements(s: seq<int>, t: seq<int>)
    requires s == [7, 2, 9, 4, 4, 1] && t == [1, 2, 4, 4, 7, 9]
    ensures multiset(s) == multiset(t)
  {
  }
}
