/** The singly linked list of data_structures.py: a chain of `Node`
    objects from `headNode`, appended at the tail and unlinked by value. The
    ghost sequence `nodes` names the chain in order and `values` the data
    it holds. */
module LinkedList {

  /** `values` with the first occurrence of `v` taken out; unchanged when
      `v` does not occur. */
  function RemoveFirst<T(==)>(values: seq<T>, v: T): (r: seq<T>)
  {
    if values == [] then []
    else if values[0] == v then values[1..]
    else [values[0]] + RemoveFirst(values[1..], v)
  }

  /** When the first `v` sits at position `k`, removing it keeps everything
      before and after `k` in order. */
  lemma {:induction false} RemoveFirstAt<T>(values: seq<T>, v: T, k: nat)
    requires k < |values| && values[k] == v
    requires forall j :: 0 <= j < k ==> values[j] != v
    ensures RemoveFirst(values, v) == values[..k] + values[k + 1..]
  {
    if k > 0 {
      RemoveFirstAt(values[1..], v, k - 1);
      assert values[1..][..k - 1] + values[1..][k..] == values[1..k] + values[k + 1..];
      assert values[..k] == [values[0]] + values[1..k];
    }
  }

  /** Removing a value that does not occur changes nothing. */
  lemma {:induction false} RemoveFirstAbsent<T>(values: seq<T>, v: T)
    requires v !in values
    ensures RemoveFirst(values, v) == values
  {
    if values != [] {
      assert v !in values[1..];
      RemoveFirstAbsent(values[1..], v);
      assert values == [values[0]] + values[1..];
    }
  }

  /** Exactly one copy of `v` disappears when there is one, and nothing
      otherwise. */
  lemma {:induction false} RemoveFirstElements<T>(values: seq<T>, v: T)
    ensures multiset(RemoveFirst(values, v)) == multiset(values) - multiset{v}
    ensures |RemoveFirst(values, v)| == if v in values then |values| - 1 else |values|
  {
    if values != [] {
      var rest := values[1..];
      assert values == [values[0]] + rest;
      assert multiset(values) == multiset{values[0]} + multiset(rest);
      if values[0] != v {
        RemoveFirstElements(rest, v);
        assert RemoveFirst(values, v) == [values[0]] + RemoveFirst(rest, v);
        assert v in values <==> v in rest;
      }
    }
  }

  /** `Node(value)`: a node holding `value` and pointing nowhere. */
  class Node<T> {
    var data: T
    var nextNode: Node?<T>

    constructor (value: T)
      ensures data == value && nextNode == null
    {
      data := value;
      nextNode := null;
    }
  }

  class SinglyLinkedList<T(==)> {
    var headNode: Node?<T>
    ghost var nodes: seq<Node<T>>
    ghost var values: seq<T>
    ghost var Repr: set<Node<T>>

    /** `headNode` starts the chain `nodes`: each node links to the next,
        the last to nothing, no node occurs twice, and node `i` holds
        `values[i]`. */
    ghost predicate Valid()
      reads this, Repr
    {
      && (forall i :: 0 <= i < |nodes| ==> nodes[i] in Repr)
      && |values| == |nodes|
      && (forall i :: 0 <= i < |nodes| ==> nodes[i].data == values[i])
      && headNode == (if nodes == [] then null else nodes[0])
      && (forall i :: 0 <= i < |nodes| - 1 ==> nodes[i].nextNode == nodes[i + 1])
      && (nodes != [] ==> nodes[|nodes| - 1].nextNode == null)
      && (forall i, j :: 0 <= i < j < |nodes| ==> nodes[i] != nodes[j])
    }

    /** `SinglyLinkedList()`: empty. */
    constructor ()
      ensures Valid() && values == [] && Repr == {}
    {
      headNode := null;
      nodes, values, Repr := [], [], {};
    }

    /** `insert(value)`: walks to the last node and links a new node
        holding `value` after it. */
    method Insert(value: T)
      requires Valid()
      modifies this, Repr
      ensures Valid()
      ensures values == old(values) + [value]
      ensures fresh(Repr - old(Repr))
    {
      var newEntry := new Node(value);
      if headNode == null {
        headNode := newEntry;
        nodes, values, Repr := [newEntry], [value], {newEntry};
        return;
      }
      var temp := headNode;
      ghost var k := 0;
      while temp.nextNode != null
        invariant Valid()
        invariant 0 <= k < |nodes| && temp == nodes[k]
        decreases |nodes| - k
      {
        temp := temp.nextNode;
        k := k + 1;
      }
      forall i | 0 <= i < |nodes| - 1
        ensures nodes[i].nextNode != null
      {
        assert nodes[i].nextNode == nodes[i + 1];
      }
      assert forall i :: 0 <= i < |nodes| - 1 ==> nodes[i] != temp;
      temp.nextNode := newEntry;
      nodes, values, Repr := nodes + [newEntry], values + [value], Repr + {newEntry};
    }

    /** `delete(value)`: unlinks the first node holding `value`; the other
        nodes keep their order. With no such node the list stays as it
        was. */
    method Delete(value: T)
      requires Valid()
      modifies this, Repr
      ensures Valid()
      ensures values == RemoveFirst(old(values), value)
      ensures Repr == old(Repr)
    {
      var temp := headNode;
      if temp != null && temp.data == value {
        UnlinkHead();
        return;
      }
      ghost var k := 0;
      while temp != null && temp.nextNode != null
        invariant Valid() && values == old(values)
        invariant temp == null ==> nodes == []
        invariant temp != null ==> 0 <= k < |nodes| && temp == nodes[k]
        invariant forall j :: 0 <= j <= k && j < |values| ==> values[j] != value
        decreases |nodes| - k
      {
        if temp.nextNode.data == value {
          Unlink(temp, k);
          return;
        }
        temp := temp.nextNode;
        k := k + 1;
      }
      ScanComplete(value, k);
    }

    /** `self.head_node = temp.next_node` when the head holds the value
        being deleted. */
    method UnlinkHead()
      requires Valid() && headNode != null
      modifies this
      ensures Valid()
      ensures values == RemoveFirst(old(values), old(headNode.data))
      ensures Repr == old(Repr)
    {
      RemoveFirstAt(values, headNode.data, 0);
      if |nodes| > 1 {
        assert nodes[0].nextNode == nodes[1];
      }
      headNode := headNode.nextNode;
      nodes, values := nodes[1..], values[1..];
    }

    /** The scan of `delete` reached the last node (node `k`) without
        meeting `value`: `value` is not in the list, and deleting it
        changes nothing. */
    lemma ScanComplete(value: T, k: nat)
      requires Valid()
      requires nodes != [] ==> k < |nodes| && nodes[k].nextNode == null
      requires forall j :: 0 <= j <= k && j < |values| ==> values[j] != value
      ensures value !in values
      ensures RemoveFirst(values, value) == values
    {
      forall i | 0 <= i < |nodes| - 1
        ensures nodes[i].nextNode != null
      {
        assert nodes[i].nextNode == nodes[i + 1];
      }
      RemoveFirstAbsent(values, value);
    }

    /** `temp.next_node = temp.next_node.next_node` where `temp` is node `k`
        and node `k + 1` holds the first copy of `value`. */
    method Unlink(temp: Node<T>, ghost k: nat)
      requires Valid()
      requires k + 1 < |nodes| && temp == nodes[k]
      requires forall j :: 0 <= j <= k ==> values[j] != nodes[k + 1].data
      modifies this, temp
      ensures Valid()
      ensures values == RemoveFirst(old(values), old(nodes[k + 1].data))
      ensures Repr == old(Repr)
    {
      ghost var removed := temp.nextNode;
      ghost var before := nodes;
      RemoveFirstAt(values, removed.data, k + 1);
      WithoutDistinct(nodes, k + 1);
      temp.nextNode := temp.nextNode.nextNode;
      nodes := Without(nodes, k + 1);
      values := Without(values, k + 1);
      forall i | 0 <= i < |nodes| - 1
        ensures nodes[i].nextNode == nodes[i + 1]
      {
        if i < k {
          assert nodes[i] == before[i] != temp;
          assert old(before[i].nextNode) == before[i + 1];
        } else if i > k {
          assert nodes[i] == before[i + 1] != temp;
          assert old(before[i + 1].nextNode) == before[i + 2];
        }
      }
    }
  }

  /** `s` with the element at position `k` taken out. */
  function Without<T>(s: seq<T>, k: nat): (r: seq<T>)
    requires k < |s|
    ensures |r| == |s| - 1
    ensures forall i :: 0 <= i < |r| ==> r[i] == if i < k then s[i] else s[i + 1]
  {
    s[..k] + s[k + 1..]
  }

  /** Taking one element out of a sequence without repetitions leaves one
      without repetitions. */
  lemma WithoutDistinct<T>(s: seq<T>, k: nat)
    requires k < |s|
    requires forall i, j :: 0 <= i < j < |s| ==> s[i] != s[j]
    ensures forall i, j :: 0 <= i < j < |s| - 1 ==> Without(s, k)[i] != Without(s, k)[j]
  {
  }

  /** Appending two values to an empty list and deleting the first leaves
      only the second, also when the two values are equal. */
  method InsertThenDelete<T(==)>(list: SinglyLinkedList<T>, first: T, second: T)
    requires list.Valid() && list.values == []
    modifies list, list.Repr
    ensures list.Valid() && list.values == [second]
  {
    list.Insert(first);
    list.Insert(second);
    list.Delete(first);
  }

  /** The demo of data_structures.py: a new list, `insert(5)`,
      `insert(10)`, `delete(5)`, leaves `[10]`. */
  method LinkedListDemo() returns (ghost r: seq<int>)
    ensures r == [10]
  {
    var list := new SinglyLinkedList<int>();
    list.Insert(5);
    list.Insert(10);
    list.Delete(5);
    r := list.values;
  }

  /** Deleting a repeated value from a new list holding `[1, 2, 1]`
      removes only its first occurrence. */
  method DeleteFirstOfRepeated() returns (ghost r: seq<int>)
    ensures r == [2, 1]
  {
    var list := new SinglyLinkedList<int>();
    list.Insert(1);
    list.Insert(2);
    list.Insert(1);
    list.Delete(1);
    r := list.values;
  }
}
