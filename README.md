# Order statistics and elementary containers, in Dafny

This project models two Python modules:

- `selection_algorithms.py` finds the k-th smallest element of a list in two ways:
  - the deterministic median-of-medians selector;
  - randomized quickselect.

  It also has three dataset generators.
- `data_structures.py` holds six teaching containers: a fixed-capacity array, a matrix, a stack, a queue, a singly linked list and a rooted tree node.

## Modules

- `sorting.dfy` (`Sorting`): the meaning of Python's `sorted` and `list.sort()` on integer lists. `Sort(s)` is insertion sort written as a function. It is tied to the usual definition by lemmas:
  - it is ascending;
  - it is a permutation of its input;
  - it is the only ascending permutation of its input.

  Position `k` of `Sort(s)` is the k-th smallest element.
- `selection.dfy` (`Selection`) covers the selectors:
  - the three-way split around a pivot;
  - the grouping step;
  - `extract_sublist_median`, `median_of_medians` and `quickselect`.

  Lists that the source sorts in place are arrays. The rest are sequences.
- `generators.dfy` (`Generators`): the three dataset generators.
- `containers.dfy` (`DataStructures`): `Array`, `Matrix`, `Stack`, `Queue` and `TreeNode` as classes whose methods update their fields in place. An `IndexError` is modelled as the `IndexError` case of a `Result`, carrying the source's message. An operation that raises changes nothing.
- `linked_list.dfy` (`LinkedList`): `Node` and `SinglyLinkedList`. The ghost sequence `nodes` names the chain from `headNode`, and `values` holds the data in list order. `insert` and `delete` walk the chain with `while` loops, as the source does.

In the code, `median_of_medians` on a list of at most five elements sorts the caller's list in place. A longer list is left as it was, because every recursive call gets a fresh list. `MedianOfMedians` states both outcomes.

## Model

| member | source | states |
|---|---|---|
| Sorting.Sort | selection_algorithms.py:7 | the sorted list holds exactly the elements of the input, each as often, and has the same length |
| Sorting.SortIsSorted | selection_algorithms.py:7 | the sorted list is in ascending order |
| Sorting.InsertSorted | selection_algorithms.py:7 | putting one element into its place in an ascending list keeps it ascending |
| Sorting.SortedUnique | selection_algorithms.py:16 | two ascending lists with the same elements are equal, so the sorted order of a list is unique |
| Sorting.SortIsTheSortedPermutation | selection_algorithms.py:16 | any ascending rearrangement of a list is its sorted list |
| Sorting.SortOfSorted | selection_algorithms.py:16 | sorting an already ascending list leaves it as it is |
| Sorting.SortPermutation | selection_algorithms.py:16 | the sorted list depends only on which elements occur, not on their order |
| Sorting.SortExtremes | selection_algorithms.py:15-17 | position 0 of the sorted list is the minimum and the last position the maximum; both are elements of the list |
| Sorting.SortSameElements | selection_algorithms.py:7 | a value occurs in the sorted list exactly when it occurs in the input |
| Sorting.SortElement | selection_algorithms.py:17 | every position of the sorted list holds an element of the input |
| Selection.Smaller | selection_algorithms.py:31 | `smaller_segment` keeps every element below the pivot, as often as it occurs, and nothing else |
| Selection.Larger | selection_algorithms.py:32 | `larger_segment` keeps every element above the pivot, as often as it occurs, and nothing else |
| Selection.EqualSegment | selection_algorithms.py:33 | the copies of the pivot; their number is the pivot's number of occurrences |
| Selection.PartitionMultiset | selection_algorithms.py:31-33 | the smaller segment, the copies of the pivot and the larger segment together hold exactly the list's elements |
| Selection.PartitionOrdered | selection_algorithms.py:31-41 | sorted smaller segment, then the pivot copies, then the sorted larger segment is ascending |
| Selection.PartitionSort | selection_algorithms.py:31-41 | the sorted list is the sorted smaller segment, the pivot copies and the sorted larger segment in this order; `pivot_repeats` is the pivot's occurrence count, at least 1 for a pivot from the list, and then both segments are strictly shorter than the list |
| Selection.SelectStep | selection_algorithms.py:37-41 | position `index` of the sorted list falls in the smaller segment at the same index, on the pivot, or in the larger segment at `index - len(smaller) - pivot_repeats` |
| Selection.KthRank | selection_algorithms.py:37-41 | `v` is at position `k` of the sorted list if and only if fewer than `k + 1` elements are below `v` and more than `k` elements are at most `v` |
| Selection.SortInPlace | selection_algorithms.py:16 | `list.sort()`: the list afterwards holds its sorted rearrangement |
| Selection.NewList | selection_algorithms.py:23 | a slice or comprehension is a fresh list with the given contents |
| Selection.MedianRank | selection_algorithms.py:5-8 | the median of a non-empty group is one of its elements, at most `len // 2` elements lie below it and more than `len // 2` are at most it |
| Selection.ExtractSublistMedian | selection_algorithms.py:5-8 | sorts the group in place and returns the element at position `len // 2` of the sorted group |
| Selection.Groups | selection_algorithms.py:20-25 | the grouping loop produces `ceil(n / 5)` groups, none empty |
| Selection.Medians | selection_algorithms.py:24 | one median per group |
| Selection.GroupMedians | selection_algorithms.py:20-28 | `medians_collected` has `ceil(n / 5)` entries |
| Selection.MediansAt | selection_algorithms.py:24 | entry `j` of the medians is the median of group `j` |
| Selection.GroupsAt | selection_algorithms.py:22-25 | group `j` is the slice `data_list[5j : 5j + 5]` |
| Selection.SliceShift | selection_algorithms.py:22-25 | slice `j - 1` of the list without its first five elements is slice `j` of the list |
| Selection.GroupMediansAt | selection_algorithms.py:20-25 | entry `j` of `medians_collected` is the median of the slice `data_list[5j : 5j + 5]` |
| Selection.GroupMediansShorter | selection_algorithms.py:28 | for more than one element there are fewer group medians than elements, and at least one, so the pivot recursion is on a shorter, non-empty list |
| Selection.GroupMediansMembers | selection_algorithms.py:20-28 | every group median is an element of the list |
| Selection.GroupsStep | selection_algorithms.py:22-25 | the groups of `data_list[i:]` are the slice `data_list[i : i + 5]` followed by the groups of the rest |
| Selection.GroupMediansStep | selection_algorithms.py:22-25 | one turn of the loop: the medians still to collect from position `i` start with the median of `data_list[i : i + 5]` |
| Selection.CollectMedians | selection_algorithms.py:20-25 | the `while` loop stepping `i` by 5 collects exactly the group medians |
| Selection.SliceMedian | selection_algorithms.py:23-24 | `extract_sublist_median` on a copied slice returns the median of that slice |
| Selection.MedianOfMedians | selection_algorithms.py:11-41 | for `0 <= index < len`, returns the element at position `index` of the sorted list; a list of at most five elements is left sorted in place, a longer one unchanged |
| Selection.ChoosePivot | selection_algorithms.py:19-28 | the pivot is the median of the group medians and an element of the list |
| Selection.SelectAround | selection_algorithms.py:31-41 | splitting around a pivot from the list and recursing into the segment that holds `index` (or returning the pivot) yields the element at position `index` of the sorted list |
| Selection.PivotInList | selection_algorithms.py:28 | the median of the group medians is an element of the list |
| Selection.Quickselect | selection_algorithms.py:44-61 | for every pivot drawn from the list and `0 <= index < len`, returns the element at position `index` of the sorted list; a one-element list returns its element for any index, negative ones included |
| Selection.SelectBoth | selection_algorithms.py:11-61 | both selectors return the same value on the same list and index |
| Selection.AllEqualSelect | selection_algorithms.py:37-39 | when every element equals `v`, every position selects `v` |
| Selection.SevenTwoNineExample | selection_algorithms.py:11-61 | `[7, 2, 9, 4, 4, 1]` sorts to `[1, 2, 4, 4, 7, 9]` |
| Generators.GenerateSequentialData | selection_algorithms.py:68-70 | `list(range(size))`: `max(size, 0)` elements, element `i` equal to `i` |
| Generators.GenerateDescendingData | selection_algorithms.py:72-74 | `list(range(size, 0, -1))`: `max(size, 0)` elements, element `i` equal to `size - i` |
| Generators.GenerateRandomSequence | selection_algorithms.py:64-66 | `max(size, 0)` elements, each in `[1, 100000]` |
| Generators.SequentialSelect | selection_algorithms.py:68-70 | the ascending data is its own sorted list, so position `k` selects `k` |
| Generators.DescendingValues | selection_algorithms.py:72-74 | the descending data holds exactly the values `1..n` |
| Generators.DescendingSelect | selection_algorithms.py:72-74 | the descending data sorts to `1, 2, ..., size`, so position `k` selects `k + 1` |
| Generators.DescendingFive | selection_algorithms.py:72-74 | size 5 gives `[5, 4, 3, 2, 1]` |
| DataStructures.Array.constructor | data_structures.py:7-10 | `size == capacity` and every slot is `None` |
| DataStructures.Array.Insert | data_structures.py:12-17 | for `0 <= index < size`, only slot `index` changes, to `value`; otherwise `IndexError("Index out of range.")` and nothing changes |
| DataStructures.Array.Delete | data_structures.py:19-24 | for `0 <= index < size`, only slot `index` changes, to `None`; otherwise `IndexError("Index out of range.")` and nothing changes |
| DataStructures.Array.Access | data_structures.py:26-31 | succeeds if and only if `0 <= index < size`, returns `container[index]` and changes nothing; otherwise `IndexError("Index out of range.")` |
| DataStructures.ArrayRoundTrip | data_structures.py:12-31 | `access` after `insert` returns the stored value, `access` after `delete` returns `None`, other slots are unchanged |
| DataStructures.Matrix.constructor | data_structures.py:44-48 | a `rows x cols` grid of zeros |
| DataStructures.Matrix.Insert | data_structures.py:50-55 | on the grid, sets that cell and no other; off the grid, `IndexError("Invalid position.")` and nothing changes |
| DataStructures.Matrix.Access | data_structures.py:57-62 | succeeds if and only if the position is on the grid, returns the cell and changes nothing; otherwise `IndexError("Invalid position.")` |
| DataStructures.MatrixRoundTrip | data_structures.py:50-62 | `access` at a cell just set returns the stored data |
| DataStructures.Stack.constructor | data_structures.py:76-78 | the stack starts empty |
| DataStructures.Stack.Push | data_structures.py:80-82 | the value goes on top |
| DataStructures.Stack.Pop | data_structures.py:84-88 | removes and returns the top; on an empty stack, `IndexError("Stack is empty.")` and the stack stays empty |
| DataStructures.Stack.Peek | data_structures.py:90-94 | succeeds if and only if the stack is non-empty, returns the top and changes nothing; otherwise `IndexError("Stack is empty.")` |
| DataStructures.Stack.IsEmpty | data_structures.py:96-98 | true exactly when the stack holds nothing |
| DataStructures.StackPushPop | data_structures.py:80-94 | `push(v)` then `peek()` and `pop()` both return `v`, and the stack is as before the push |
| DataStructures.Queue.constructor | data_structures.py:111-113 | the queue starts empty |
| DataStructures.Queue.Enqueue | data_structures.py:115-117 | the value joins at the back |
| DataStructures.Queue.Dequeue | data_structures.py:119-123 | removes and returns the front; on an empty queue, `IndexError("Queue is empty.")` and the queue stays empty |
| DataStructures.Queue.Peek | data_structures.py:125-129 | succeeds if and only if the queue is non-empty, returns the front and changes nothing; otherwise `IndexError("Queue is empty.")` |
| DataStructures.Queue.IsEmpty | data_structures.py:131-133 | true exactly when the queue holds nothing |
| DataStructures.QueueFirstInFirstOut | data_structures.py:115-133 | two values enqueued come out in the order they went in, and a third `dequeue` raises |
| DataStructures.TreeNode.constructor | data_structures.py:197-200 | a node with the value and no children |
| DataStructures.TreeNode.AddChild | data_structures.py:202-204 | the child becomes the last child; earlier children and the value stay |
| LinkedList.RemoveFirstAt | data_structures.py:170-180 | when the first occurrence of `v` is at position `k`, deleting `v` keeps everything before and after `k`, in order |
| LinkedList.RemoveFirstAbsent | data_structures.py:176-180 | deleting a value that does not occur changes nothing |
| LinkedList.RemoveFirstElements | data_structures.py:170-180 | deleting `v` removes exactly one copy of `v` when there is one, and nothing otherwise |
| LinkedList.Node.constructor | data_structures.py:146-149 | a node holding the value and pointing nowhere |
| LinkedList.SinglyLinkedList.constructor | data_structures.py:155-157 | the list starts empty and owns no nodes, so a caller that allocates it may go on to insert and delete |
| LinkedList.SinglyLinkedList.Insert | data_structures.py:159-168 | the list's values become the old values with `value` appended, and the chain stays well formed |
| LinkedList.SinglyLinkedList.Delete | data_structures.py:170-180 | the first node holding `value` is unlinked, the rest keep their order, and with no such node nothing changes |
| LinkedList.SinglyLinkedList.UnlinkHead | data_structures.py:172-175 | when the head holds the value, `head_node` moves to the second node and the first value is removed |
| LinkedList.SinglyLinkedList.ScanComplete | data_structures.py:176-180 | a scan that reaches the last node without a match means the value is absent and the list is unchanged |
| LinkedList.SinglyLinkedList.Unlink | data_structures.py:177-179 | relinking `temp` past its successor removes that successor's value, the first occurrence, and changes only `temp` |
| LinkedList.Without | data_structures.py:178 | taking out position `k` shifts every later element down by one |
| LinkedList.WithoutDistinct | data_structures.py:178 | unlinking a node from a chain without repeated nodes leaves a chain without repeated nodes |
| LinkedList.InsertThenDelete | data_structures.py:159-180 | inserting two values and deleting the first leaves only the second, also when the two are equal |
| LinkedList.LinkedListDemo | data_structures.py:247-252 | a new list given `insert(5)`, `insert(10)` and `delete(5)` holds `[10]` |
| LinkedList.DeleteFirstOfRepeated | data_structures.py:170-180 | deleting `1` from a new list holding `[1, 2, 1]` removes only the first `1`, leaving `[2, 1]` |

## Left out

- The benchmark `analyze_algorithm_efficiency` and its top-level call (selection_algorithms.py:77-107) are left out. They only measure wall-clock time and print a table.
- The `random` module is not modelled:
  - `quickselect` picks its pivot as an unconstrained choice of a list position, and its contract holds for every choice;
  - `generate_random_sequence` draws every element as an unconstrained choice in `[1, 100000]`.
- Running time is not modelled; correctness and termination are proved.
- Every `display` and `display_tree` method is left out, and so is the demo block at the end of `data_structures.py`. They only print.
- Selection.MedianOfMedians: requires `0 <= index < len(data_list)`. The source has no bounds check, so an out-of-range or negative index is not modelled. In Python such an index can raise an `IndexError` or use negative indexing.
- Selection.Quickselect: requires `0 <= index < len(data_list)` unless the list has one element, where any integer index, negative ones included, returns that element. An out-of-range or negative index on a longer list, and an empty list, are not modelled.
- Sorting.Sort specifies `list.sort()` and `sorted` by their result. The algorithm Python uses to sort is not modelled.
- Selection.NewList stands for a Python slice or comprehension that builds a fresh list. Python's list objects and their aliasing are modelled only as far as the source depends on them: the caller's array in `median_of_medians` is modified, and recursive calls get fresh arrays.
- Sorting.Sort, Selection.MedianOfMedians, Selection.Quickselect: work on lists of `int` only. The source compares any ordered Python values, floats and strings included.
- DataStructures.Matrix: holds integers only, in a Dafny `array2`. The source stores any Python value in a list of row lists, and no operation depends on the type.
- DataStructures.Array: stores values as `Some(value)`. Storing Python's `None` itself through `insert` cannot be told apart from an empty slot in the source, and the model has no such value.
- DataStructures.Array.Insert: the source raises `IndexError` and the model returns it as a value. The same holds for every other raising operation.
- LinkedList.SinglyLinkedList.Delete: its `Repr` set keeps a node after it is unlinked. The ghost `nodes` sequence, which defines the list, no longer contains it.
- LinkedList.SinglyLinkedList: list values need Dafny equality (`T(==)`), which stands in for Python's `==` on node data.
