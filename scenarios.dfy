/** Client runs of the three containers: the vector test of test/test.cpp
    step by step, the concrete list runs, and the
    properties that relate several calls (a push undone by a pop, a reverse
    undone by a second one, `value_n_from_end` at both ends). */
module Scenarios {
  import opened ContainerErrors
  import ListSpec
  import Vector
  import SinglyLinkedList
  import DoublyLinkedList

  /** Compares integers as `int_vec_comparator` does. */
  ghost predicate IsIntEquality(cmp: (int, int) -> bool)
  {
    forall a, b :: cmp(a, b) <==> a == b
  }

  /** The start of `test_vector`: a new vector is empty at the initial
      capacity, and push(1), push(2) give [1, 2]. `items` are the two `at`
      calls, `sizes` the emptiness check and the size check. */
  method VectorPushTwo() returns (v: Vector.Vector<int>, items: seq<Result<int>>, sizes: seq<nat>,
                                  capacity: nat)
    ensures fresh(v) && fresh(v.arr) && v.Valid() && IsIntEquality(v.cmp)
    ensures v.Contents() == [1, 2] && v.capacity == 16
    ensures items == [Ok(1), Ok(2)] && sizes == [0, 2] && capacity == 16
  {
    v := new Vector.Vector<int>((a: int, b: int) => a == b);
    sizes := [v.size];
    capacity := v.capacity;
    v.Push(1);
    v.Push(2);
    assert v.Contents() == [1, 2];
    sizes := sizes + [v.size];
    var a0 := v.At(0);
    var a1 := v.At(1);
    items := [a0, a1];
  }

  /** insert(1, 3) gives [1, 3, 2]; prepend(4) gives [4, 1, 3, 2], still
      at the initial capacity. `items` are the six `at` calls in order. */
  method VectorInsertPrepend(v: Vector.Vector<int>) returns (items: seq<Result<int>>, size: nat)
    requires v.Valid() && IsIntEquality(v.cmp)
    requires v.Contents() == [1, 2] && v.capacity == 16
    modifies v, v.arr
    ensures v.arr == old(v.arr) || fresh(v.arr)
    ensures v.Valid() && v.Contents() == [4, 1, 3, 2] && v.capacity == 16
    ensures items == [Ok(3), Ok(2), Ok(4), Ok(1), Ok(3), Ok(2)] && size == 4
  {
    var s := v.Insert(1, 3);
    assert v.Contents() == [1, 3, 2];
    var a1 := v.At(1);
    var a2 := v.At(2);
    items := [a1, a2];
    v.Prepend(4);
    assert v.Contents() == [4, 1, 3, 2];
    var a0 := v.At(0);
    a1 := v.At(1);
    a2 := v.At(2);
    var a3 := v.At(3);
    items := items + [a0, a1, a2, a3];
    size := v.size;
  }

  /** find(3) answers 2; remove(3) leaves [4, 1, 2] and halves the
      capacity to 8, after which find(3) answers -1, the size is 3 and
      at(2) is 2. */
  method VectorRemoveThree(v: Vector.Vector<int>) returns (finds: seq<int>, read: Result<int>, size: nat)
    requires v.Valid() && IsIntEquality(v.cmp)
    requires v.Contents() == [4, 1, 3, 2] && v.capacity == 16
    modifies v, v.arr
    ensures v.arr == old(v.arr) || fresh(v.arr)
    ensures v.Valid() && v.Contents() == [4, 1, 2] && v.capacity == 8
    ensures finds == [2, -1] && read == Ok(2) && size == 3
  {
    var f := v.Find(3);
    assert v.Contents()[2] == 3;
    finds := [f];
    ghost var c := v.Contents();
    assert c[1..] == [1, 3, 2] && c[2..] == [3, 2] && c[3..] == [2] && c[4..] == [];
    assert Vector.RemoveAll(c[3..], 3, v.cmp) == [2];
    assert Vector.RemoveAll(c[2..], 3, v.cmp) == [2];
    assert Vector.RemoveAll(c[1..], 3, v.cmp) == [1, 2];
    assert Vector.RemoveAll(c, 3, v.cmp) == [4, 1, 2];
    v.Remove(3);
    assert v.Contents() == [4, 1, 2];
    f := v.Find(3);
    finds := finds + [f];
    size := v.size;
    read := v.At(2);
  }

  /** find(1) answers 1; erase_at(1) leaves [4, 2] at capacity 4, after
      which find(1) answers -1, the size is 2 and at(1) is 2. */
  method VectorEraseOne(v: Vector.Vector<int>) returns (finds: seq<int>, read: Result<int>, size: nat)
    requires v.Valid() && IsIntEquality(v.cmp)
    requires v.Contents() == [4, 1, 2] && v.capacity == 8
    modifies v, v.arr
    ensures v.arr == old(v.arr) || fresh(v.arr)
    ensures v.Valid() && v.Contents() == [4, 2] && v.capacity == 4
    ensures finds == [1, -1] && read == Ok(2) && size == 2
  {
    var f := v.Find(1);
    assert v.Contents()[1] == 1;
    finds := [f];
    var s := v.EraseAt(1);
    assert v.Contents() == [4, 2];
    f := v.Find(1);
    finds := finds + [f];
    size := v.size;
    read := v.At(1);
  }

  /** pop() hands back 2 and halves the capacity to 2, leaving [4];
      insert(1, 5) at the end fits without growing, giving [4, 5]; push(4)
      doubles the capacity to 4. */
  method VectorPopInsertPush(v: Vector.Vector<int>)
      returns (popped: Result<int>, items: seq<Result<int>>, sizes: seq<nat>, capacities: seq<nat>)
    requires v.Valid() && IsIntEquality(v.cmp)
    requires v.Contents() == [4, 2] && v.capacity == 4
    modifies v, v.arr
    ensures v.arr == old(v.arr) || fresh(v.arr)
    ensures v.Valid() && v.Contents() == [4, 5, 4] && v.capacity == 4
    ensures popped == Ok(2) && items == [Ok(4), Ok(4), Ok(5)]
    ensures sizes == [1, 2] && capacities == [2, 2, 4]
  {
    popped := v.Pop();
    sizes := [v.size];
    capacities := [v.capacity];
    var a0 := v.At(0);
    items := [a0];
    var s := v.Insert(1, 5);
    assert v.Contents() == [4, 5];
    sizes := sizes + [v.size];
    capacities := capacities + [v.capacity];
    a0 := v.At(0);
    var a1 := v.At(1);
    items := items + [a0, a1];
    v.Push(4);
    capacities := capacities + [v.capacity];
  }

  /** remove(4) deletes both fours, leaving [5] at capacity 2; the last
      pop() empties the vector and keeps capacity 2. */
  method VectorRemoveFourPop(v: Vector.Vector<int>)
      returns (popped: Result<int>, read: Result<int>, sizes: seq<nat>, capacities: seq<nat>)
    requires v.Valid() && IsIntEquality(v.cmp)
    requires v.Contents() == [4, 5, 4] && v.capacity == 4
    modifies v, v.arr
    ensures v.arr == old(v.arr) || fresh(v.arr)
    ensures v.Valid() && v.Contents() == [] && v.size == 0 && v.capacity == 2
    ensures popped == Ok(5) && read == Ok(5) && sizes == [1, 0] && capacities == [2, 2]
  {
    ghost var c := v.Contents();
    assert c[1..] == [5, 4] && c[2..] == [4] && c[3..] == [];
    assert Vector.RemoveAll(c[2..], 4, v.cmp) == [];
    assert Vector.RemoveAll(c[1..], 4, v.cmp) == [5];
    assert Vector.RemoveAll(c, 4, v.cmp) == [5];
    v.Remove(4);
    assert v.Contents() == [5];
    sizes := [v.size];
    read := v.At(0);
    capacities := [v.capacity];
    popped := v.Pop();
    sizes := sizes + [v.size];
    capacities := capacities + [v.capacity];
  }

  /** `test_vector` as a whole. `items` are the results of its fourteen
      `at` calls in order, `sizes` the size its `size()` and `is_empty()`
      checks observe, `finds` the four `find` answers, `capacities` the
      capacity after construction, building, remove(3), erase_at(1), pop,
      insert(1, 5), push(4), remove(4) and the final pop, and `popped` the
      two popped items. */
  method VectorTest() returns (items: seq<Result<int>>, sizes: seq<nat>, finds: seq<int>,
                                capacities: seq<nat>, popped: seq<Result<int>>)
    ensures items == [Ok(1), Ok(2), Ok(3), Ok(2), Ok(4), Ok(1), Ok(3), Ok(2),
                      Ok(2), Ok(2), Ok(4), Ok(4), Ok(5), Ok(5)]
    ensures sizes == [0, 2, 4, 3, 2, 1, 2, 1, 0]
    ensures finds == [2, -1, 1, -1]
    ensures capacities == [16, 16, 8, 4, 2, 2, 4, 2, 2]
    ensures popped == [Ok(2), Ok(5)]
  {
    var v, r0, s0, c0 := VectorPushTwo();
    var r0b, s0b := VectorInsertPrepend(v);
    var c0b := v.capacity;
    var f1, r1, s1 := VectorRemoveThree(v);
    var c1 := v.capacity;
    var f2, r2, s2 := VectorEraseOne(v);
    var c2 := v.capacity;
    var p1, r3, s3, c3 := VectorPopInsertPush(v);
    var p2, r4, s4, c4 := VectorRemoveFourPop(v);
    items := r0 + r0b + [r1, r2] + r3 + [r4];
    sizes := s0 + [s0b, s1, s2] + s3 + s4;
    finds := f1 + f2;
    capacities := [c0, c0b, c1, c2] + c3 + c4;
    popped := [p1, p2];
  }

  /** A push followed by a pop hands back the pushed item and leaves the
      items as they were. */
  method VectorPushPop<T(0)>(v: Vector.Vector<T>, x: T) returns (r: Result<T>)
    requires v.Valid()
    modifies v, v.arr
    ensures v.Valid()
    ensures r == Ok(x) && v.Contents() == old(v.Contents())
  {
    v.Push(x);
    r := v.Pop();
  }

  /** insert(0, 1), insert(1, 2) and reverse on an empty singly linked list
      give [2, 1]; a second reverse gives back [1, 2]. */
  method SinglyReverseRun() returns (once: seq<Result<int>>, twice: seq<Result<int>>)
    ensures once == [Ok(2), Ok(1), Err(OutOfRange)]
    ensures twice == [Ok(1), Ok(2), Err(OutOfRange)]
  {
    var l := new SinglyLinkedList.List<int>((a: int, b: int) => a == b);
    var s := l.Insert(0, 1);
    s := l.Insert(1, 2);
    l.Reverse();
    assert l.Contents == [2, 1];
    var r0 := l.ValueAt(0);
    var r1 := l.ValueAt(1);
    var r2 := l.ValueAt(2);
    once := [r0, r1, r2];
    l.Reverse();
    assert l.Contents == [1, 2];
    r0 := l.ValueAt(0);
    r1 := l.ValueAt(1);
    r2 := l.ValueAt(2);
    twice := [r0, r1, r2];
  }

  /** push_back 1, pop_front, push_front 2, push_back 3 on an empty singly
      linked list: with the tail reset to null when the sole node goes,
      both pushed items are kept, in order. */
  method SinglyPopSoleNodeRun() returns (popped: Result<int>, items: seq<Result<int>>, size: nat)
    ensures popped == Ok(1)
    ensures items == [Ok(2), Ok(3), Err(OutOfRange)]
    ensures size == 2
  {
    var l := new SinglyLinkedList.List<int>((a: int, b: int) => a == b);
    l.PushBack(1);
    popped := l.PopFront();
    l.PushFront(2);
    l.PushBack(3);
    assert l.Contents == [2, 3];
    var r0 := l.ValueAt(0);
    var r1 := l.ValueAt(1);
    var r2 := l.ValueAt(2);
    items := [r0, r1, r2];
    size := l.size;
  }

  /** push_back 1, 2, 3 and erase(1) on an empty doubly linked list leave
      [1, 3], with front 1 and back 3. */
  method DoublyEraseRun() returns (front: Result<int>, back: Result<int>, size: nat)
    ensures front == Ok(1) && back == Ok(3) && size == 2
  {
    var l := new DoublyLinkedList.List<int>((a: int, b: int) => a == b);
    l.PushBack(1);
    l.PushBack(2);
    l.PushBack(3);
    var s := l.Erase(1);
    assert l.Contents == [1, 3];
    front := l.Front();
    back := l.Back();
    size := l.size;
  }

  /** The vector's `remove` deletes every equal item: from [1, 2, 1],
      removing 1 leaves [2]. */
  method VectorRemovesEveryMatch() returns (items: seq<Result<int>>)
    ensures items == [Ok(2), Err(OutOfRange)]
  {
    var v := new Vector.Vector<int>((a: int, b: int) => a == b);
    v.Push(1);
    v.Push(2);
    v.Push(1);
    assert v.Contents() == [1, 2, 1];
    ghost var c := v.Contents();
    assert c[1..] == [2, 1] && c[2..] == [1] && c[3..] == [];
    assert Vector.RemoveAll(c[2..], 1, v.cmp) == [];
    assert Vector.RemoveAll(c[1..], 1, v.cmp) == [2];
    assert Vector.RemoveAll(c, 1, v.cmp) == [2];
    v.Remove(1);
    assert v.Contents() == [2];
    var r0 := v.At(0);
    var r1 := v.At(1);
    items := [r0, r1];
  }

  /** The singly linked list's `remove_value` deletes only the first equal
      item: from [1, 2, 1], removing 1 leaves [2, 1]. */
  method SinglyRemovesFirstMatch() returns (items: seq<Result<int>>)
    ensures items == [Ok(2), Ok(1), Err(OutOfRange)]
  {
    var l := new SinglyLinkedList.List<int>((a: int, b: int) => a == b);
    l.PushBack(1);
    l.PushBack(2);
    l.PushBack(1);
    assert l.Contents == [1, 2, 1];
    l.RemoveValue(1);
    assert l.Contents == [2, 1];
    var r0 := l.ValueAt(0);
    var r1 := l.ValueAt(1);
    var r2 := l.ValueAt(2);
    items := [r0, r1, r2];
  }

  /** The same for the doubly linked list. */
  method DoublyRemovesFirstMatch() returns (items: seq<Result<int>>)
    ensures items == [Ok(2), Ok(1), Err(OutOfRange)]
  {
    var l := new DoublyLinkedList.List<int>((a: int, b: int) => a == b);
    l.PushBack(1);
    l.PushBack(2);
    l.PushBack(1);
    assert l.Contents == [1, 2, 1];
    l.RemoveValue(1);
    assert l.Contents == [2, 1];
    var r0 := l.ValueAt(0);
    var r1 := l.ValueAt(1);
    var r2 := l.ValueAt(2);
    items := [r0, r1, r2];
  }

  /** Reversing a singly linked list twice restores its items and nodes. */
  method SinglyReverseTwice<T>(l: SinglyLinkedList.List<T>)
    requires l.Valid()
    modifies l.Repr
    ensures l.Valid() && l.Contents == old(l.Contents) && l.Nodes == old(l.Nodes)
  {
    l.Reverse();
    l.Reverse();
    ListSpec.ReverseInvolution(old(l.Contents));
    ListSpec.ReverseInvolution(old(l.Nodes));
  }

  /** Reversing a doubly linked list twice restores its items and nodes. */
  method DoublyReverseTwice<T>(l: DoublyLinkedList.List<T>)
    requires l.Valid()
    modifies l.Repr
    ensures l.Valid() && l.Contents == old(l.Contents) && l.Nodes == old(l.Nodes)
  {
    l.Reverse();
    l.Reverse();
    ListSpec.ReverseInvolution(old(l.Contents));
    ListSpec.ReverseInvolution(old(l.Nodes));
  }

  /** On a singly linked list, `value_n_from_end(0)` is `back()` and
      `value_n_from_end(size - 1)` is `front()`; past the front it fails. */
  method SinglyNFromEndEnds<T>(l: SinglyLinkedList.List<T>)
      returns (last: Result<T>, back: Result<T>, first: Result<T>, front: Result<T>, beyond: Result<T>)
    requires l.Valid() && l.size > 0
    ensures last == back && first == front && back.Ok? && front.Ok?
    ensures beyond == Err(OutOfRange)
  {
    last := l.ValueNFromEnd(0);
    back := l.Back();
    first := l.ValueNFromEnd(l.size - 1);
    front := l.Front();
    beyond := l.ValueNFromEnd(l.size);
  }

  /** The same for a doubly linked list. */
  method DoublyNFromEndEnds<T>(l: DoublyLinkedList.List<T>)
      returns (last: Result<T>, back: Result<T>, first: Result<T>, front: Result<T>, beyond: Result<T>)
    requires l.Valid() && l.size > 0
    ensures last == back && first == front && back.Ok? && front.Ok?
    ensures beyond == Err(OutOfRange)
  {
    last := l.ValueNFromEnd(0);
    back := l.Back();
    first := l.ValueNFromEnd(l.size - 1);
    front := l.Front();
    beyond := l.ValueNFromEnd(l.size);
  }

  /** On empty containers, reads and pops fail; the vector and the lists
      report out-of-range reads and refuse pops as logic errors. */
  method EmptyContainersRefuse() returns (at: Result<int>, pop: Result<int>, valueAt: Result<int>,
                                          popFront: Result<int>, doublyPopBack: Result<int>)
    ensures at == Err(OutOfRange) && pop == Err(LogicError)
    ensures valueAt == Err(OutOfRange) && popFront == Err(LogicError) && doublyPopBack == Err(LogicError)
  {
    var v := new Vector.Vector<int>((a: int, b: int) => a == b);
    at := v.At(0);
    pop := v.Pop();
    var sl := new SinglyLinkedList.List<int>((a: int, b: int) => a == b);
    valueAt := sl.ValueAt(0);
    popFront := sl.PopFront();
    var dl := new DoublyLinkedList.List<int>((a: int, b: int) => a == b);
    doublyPopBack := dl.PopBack();
  }
}
