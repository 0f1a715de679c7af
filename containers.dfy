/** The elementary containers of data_structures.py: a fixed-capacity
    array, a matrix, a stack, a queue and a rooted tree node. Each keeps its
    storage in a field that its methods update in place; a bad index or an
    empty container is reported as `IndexError` and changes nothing. */
module DataStructures {

  /** Python's `None` or a stored value. */
  datatype Option<T> = None | Some(value: T)

  /** What an operation returns, or the `IndexError` it raises with its
      message. */
  datatype Result<T> = Ok(value: T) | IndexError(message: string)

  const IndexOutOfRange: string := "Index out of range."
  const InvalidPosition: string := "Invalid position."
  const StackIsEmpty: string := "Stack is empty."
  const QueueIsEmpty: string := "Queue is empty."

  /** Number of slots Python's `[x] * n` creates: none for `n <= 0`. The
      generators' `Count` is the same number for `range`; this module does
      not import that one, so it keeps its own. */
  function Slots(n: int): (r: nat)
  {
    if n < 0 then 0 else n
  }

  /* ---------------------------------------------------------------------
     Array
     --------------------------------------------------------------------- */

  /** A fixed-capacity array whose slots are empty (`None`) or hold a
      value. */
  class Array<T> {
    const size: int
    const container: array<Option<T>>

    ghost predicate Valid()
      reads this
    {
      container.Length == Slots(size)
    }

    /** `Array(capacity)`: `capacity` empty slots. */
    constructor (capacity: int)
      ensures Valid() && fresh(container)
      ensures size == capacity
      ensures forall i :: 0 <= i < container.Length ==> container[i] == None
    {
      size := capacity;
      container := new Option<T>[Slots(capacity)](_ => None);
    }

    /** `insert(index, value)`: stores `value` in slot `index` and touches
        no other slot; an index outside `[0, size)` raises and changes
        nothing. */
    method Insert(index: int, value: T) returns (r: Result<()>)
      requires Valid()
      modifies container
      ensures Valid()
      ensures r == if 0 <= index < size then Ok(()) else IndexError(IndexOutOfRange)
      ensures container[..] == if r.Ok? then old(container[..])[index := Some(value)]
                               else old(container[..])
    {
      if 0 <= index < size {
        container[index] := Some(value);
        r := Ok(());
      } else {
        r := IndexError(IndexOutOfRange);
      }
    }

    /** `delete(index)`: empties slot `index` and touches no other slot;
        an index outside `[0, size)` raises and changes nothing. */
    method Delete(index: int) returns (r: Result<()>)
      requires Valid()
      modifies container
      ensures Valid()
      ensures r == if 0 <= index < size then Ok(()) else IndexError(IndexOutOfRange)
      ensures container[..] == if r.Ok? then old(container[..])[index := None]
                               else old(container[..])
    {
      if 0 <= index < size {
        container[index] := None;
        r := Ok(());
      } else {
        r := IndexError(IndexOutOfRange);
      }
    }

    /** `access(index)`: the content of slot `index`, without changing
        anything; an index outside `[0, size)` raises. */
    method Access(index: int) returns (r: Result<Option<T>>)
      requires Valid()
      ensures r.Ok? <==> 0 <= index < size
      ensures r.Ok? ==> r.value == container[index]
      ensures r.IndexError? ==> r.message == IndexOutOfRange
    {
      if 0 <= index < size {
        r := Ok(container[index]);
      } else {
        r := IndexError(IndexOutOfRange);
      }
    }
  }

  /** A value stored with `insert` is what `access` returns at the same
      index, and `delete` then empties that slot again. */
  method ArrayRoundTrip<T>(a: Array<T>, index: int, value: T)
    returns (stored: Result<Option<T>>, cleared: Result<Option<T>>)
    requires a.Valid() && 0 <= index < a.size
    modifies a.container
    ensures stored == Ok(Some(value)) && cleared == Ok(None)
    ensures forall i :: 0 <= i < a.container.Length && i != index ==>
              a.container[i] == old(a.container[i])
  {
    var _ := a.Insert(index, value);
    stored := a.Access(index);
    var _ := a.Delete(index);
    cleared := a.Access(index);
  }

  /* ---------------------------------------------------------------------
     Matrix
     --------------------------------------------------------------------- */

  /** A `rows x cols` grid of numbers. */
  class Matrix {
    const rowCount: int
    const colCount: int
    const elements: array2<int>

    ghost predicate Valid()
      reads this
    {
      elements.Length0 == Slots(rowCount) && elements.Length1 == Slots(colCount)
    }

    /** `Matrix(rows, cols)`: every cell holds 0. */
    constructor (rows: int, cols: int)
      ensures Valid() && fresh(elements)
      ensures rowCount == rows && colCount == cols
      ensures forall i, j :: 0 <= i < elements.Length0 && 0 <= j < elements.Length1 ==>
                elements[i, j] == 0
    {
      rowCount, colCount := rows, cols;
      elements := new int[Slots(rows), Slots(cols)]((_, _) => 0);
    }

    /** Whether `(row, col)` lies on the grid. */
    predicate InRange(row: int, col: int)
      reads this
    {
      0 <= row < rowCount && 0 <= col < colCount
    }

    /** `insert(row, col, data)`: sets one cell and no other; a position
        off the grid raises and changes nothing. */
    method Insert(row: int, col: int, data: int) returns (r: Result<()>)
      requires Valid()
      modifies elements
      ensures Valid()
      ensures r == if InRange(row, col) then Ok(()) else IndexError(InvalidPosition)
      ensures r.Ok? ==> elements[row, col] == data
      ensures forall i, j ::
                0 <= i < elements.Length0 && 0 <= j < elements.Length1 &&
                (i != row || j != col || r.IndexError?)
                ==> elements[i, j] == old(elements[i, j])
    {
      if InRange(row, col) {
        elements[row, col] := data;
        r := Ok(());
      } else {
        r := IndexError(InvalidPosition);
      }
    }

    /** `access(row, col)`: the cell's content, without changing anything;
        a position off the grid raises. */
    method Access(row: int, col: int) returns (r: Result<int>)
      requires Valid()
      ensures r.Ok? <==> InRange(row, col)
      ensures r.Ok? ==> r.value == elements[row, col]
      ensures r.IndexError? ==> r.message == InvalidPosition
    {
      if InRange(row, col) {
        r := Ok(elements[row, col]);
      } else {
        r := IndexError(InvalidPosition);
      }
    }
  }

  /** A later `access` at the cell just set returns the data stored. */
  method MatrixRoundTrip(m: Matrix, row: int, col: int, data: int) returns (read: Result<int>)
    requires m.Valid() && m.InRange(row, col)
    modifies m.elements
    ensures read == Ok(data)
  {
    var _ := m.Insert(row, col, data);
    read := m.Access(row, col);
  }

  /* ---------------------------------------------------------------------
     Stack
     --------------------------------------------------------------------- */

  /** Last in, first out; the top is the end of `stackData`. */
  class Stack<T> {
    var stackData: seq<T>

    /** `Stack()`: empty. */
    constructor ()
      ensures stackData == []
    {
      stackData := [];
    }

    /** `push(value)`: `value` becomes the top. */
    method Push(value: T)
      modifies this
      ensures stackData == old(stackData) + [value]
    {
      stackData := stackData + [value];
    }

    /** `pop()`: removes and returns the top; an empty stack raises and
        stays empty. */
    method Pop() returns (r: Result<T>)
      modifies this
      ensures old(stackData) == [] ==> r == IndexError(StackIsEmpty) && stackData == []
      ensures old(stackData) != [] ==>
                r == Ok(old(stackData)[|old(stackData)| - 1]) &&
                stackData == old(stackData)[..|old(stackData)| - 1]
    {
      var empty := IsEmpty();
      if empty {
        return IndexError(StackIsEmpty);
      }
      r := Ok(stackData[|stackData| - 1]);
      stackData := stackData[..|stackData| - 1];
    }

    /** `peek()`: the top, without removing it; an empty stack raises. */
    method Peek() returns (r: Result<T>)
      ensures r.Ok? <==> stackData != []
      ensures r.Ok? ==> r.value == stackData[|stackData| - 1]
      ensures r.IndexError? ==> r.message == StackIsEmpty
    {
      var empty := IsEmpty();
      if empty {
        return IndexError(StackIsEmpty);
      }
      r := Ok(stackData[|stackData| - 1]);
    }

    /** `is_empty()`. */
    method IsEmpty() returns (empty: bool)
      ensures empty <==> stackData == []
    {
      empty := |stackData| == 0;
    }
  }

  /** Pushing `value` and popping at once returns `value` and restores the
      stack as it was; `peek` in between sees `value` on top. */
  method StackPushPop<T>(s: Stack<T>, value: T) returns (top: Result<T>, popped: Result<T>)
    modifies s
    ensures top == Ok(value) && popped == Ok(value)
    ensures s.stackData == old(s.stackData)
  {
    s.Push(value);
    top := s.Peek();
    popped := s.Pop();
  }

  /* ---------------------------------------------------------------------
     Queue
     --------------------------------------------------------------------- */

  /** First in, first out; the front is the start of `queueItems`. */
  class Queue<T> {
    var queueItems: seq<T>

    /** `Queue()`: empty. */
    constructor ()
      ensures queueItems == []
    {
      queueItems := [];
    }

    /** `enqueue(value)`: `value` joins at the back. */
    method Enqueue(value: T)
      modifies this
      ensures queueItems == old(queueItems) + [value]
    {
      queueItems := queueItems + [value];
    }

    /** `dequeue()`: removes and returns the oldest element; an empty
        queue raises and stays empty. */
    method Dequeue() returns (r: Result<T>)
      modifies this
      ensures old(queueItems) == [] ==> r == IndexError(QueueIsEmpty) && queueItems == []
      ensures old(queueItems) != [] ==>
                r == Ok(old(queueItems)[0]) && queueItems == old(queueItems)[1..]
    {
      var empty := IsEmpty();
      if empty {
        return IndexError(QueueIsEmpty);
      }
      r := Ok(queueItems[0]);
      queueItems := queueItems[1..];
    }

    /** `peek()`: the front, without removing it; an empty queue raises. */
    method Peek() returns (r: Result<T>)
      ensures r.Ok? <==> queueItems != []
      ensures r.Ok? ==> r.value == queueItems[0]
      ensures r.IndexError? ==> r.message == QueueIsEmpty
    {
      var empty := IsEmpty();
      if empty {
        return IndexError(QueueIsEmpty);
      }
      r := Ok(queueItems[0]);
    }

    /** `is_empty()`. */
    method IsEmpty() returns (empty: bool)
      ensures empty <==> queueItems == []
    {
      empty := |queueItems| == 0;
    }
  }

  /** Two values enqueued on an empty queue come out in the order they
      went in, and the queue is empty again. */
  method QueueFirstInFirstOut<T>(q: Queue<T>, first: T, second: T)
    returns (out1: Result<T>, out2: Result<T>, out3: Result<T>)
    requires q.queueItems == []
    modifies q
    ensures out1 == Ok(first) && out2 == Ok(second)
    ensures out3 == IndexError(QueueIsEmpty) && q.queueItems == []
  {
    q.Enqueue(first);
    q.Enqueue(second);
    out1 := q.Dequeue();
    out2 := q.Dequeue();
    out3 := q.Dequeue();
  }

  /* ---------------------------------------------------------------------
     Rooted tree
     --------------------------------------------------------------------- */

  /** A tree node: a value and its children, in the order they were
      attached. */
  class TreeNode<T> {
    var nodeValue: T
    var childrenList: seq<TreeNode<T>>

    /** `TreeNode(value)`: a leaf. */
    constructor (value: T)
      ensures nodeValue == value && childrenList == []
    {
      nodeValue := value;
      childrenList := [];
    }

    /** `add_child(child_node)`: `childNode` becomes the last child; the
        value and the earlier children stay. */
    method AddChild(childNode: TreeNode<T>)
      modifies this
      ensures childrenList == old(childrenList) + [childNode]
      ensures nodeValue == old(nodeValue)
    {
      childrenList := childrenList + [childNode];
    }
  }
}
