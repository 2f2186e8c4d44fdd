/** orla::singly_linked_list: a chain of nodes linked forward only, with a
    head, a tail and a size. The source's pointer-to-link (`node_t**`) is
    modelled by the node that owns the link, `pred`; `pred == null` stands
    for the list's own head field. */
module SinglyLinkedList {
  import opened ContainerErrors
  import ListSpec

  /** The node after position i of a chain, or null past its end. */
  ghost function Successor<T>(ns: seq<Node<T>>, i: int): Node?<T>
  {
    if 0 <= i && i + 1 < |ns| then ns[i + 1] else null
  }

  /** The node before position i of a chain, or null at its start. */
  ghost function Predecessor<T>(ns: seq<Node<T>>, i: int): Node?<T>
  {
    if 0 < i <= |ns| then ns[i - 1] else null
  }

  /** A node owns its item and its forward link. The list never rewrites an
      item once the node exists. */
  class Node<T> {
    const item: T
    var next: Node?<T>

    constructor (item: T, next: Node?<T>)
      ensures this.item == item && this.next == next
    {
      this.item := item;
      this.next := next;
    }
  }

  class List<T> {
    var size: nat
    var head: Node?<T>
    var tail: Node?<T>
    const cmp: (T, T) -> bool

    /** The items from head to tail, the nodes holding them, and the objects
        the list owns. */
    ghost var Contents: seq<T>
    ghost var Nodes: seq<Node<T>>
    ghost var Repr: set<object>

    /** The chain from head follows Nodes, each node linking to the next one
        and the last to null, and head, tail and size agree with it. */
    ghost predicate Valid()
      reads this, Repr
    {
      && this in Repr
      && size == |Nodes| == |Contents|
      && (forall i | 0 <= i < |Nodes| :: Nodes[i] in Repr)
      && ListSpec.Distinct(Nodes)
      && (forall i | 0 <= i < |Nodes| :: Nodes[i].item == Contents[i])
      && (forall i {:trigger Nodes[i].next} | 0 <= i < |Nodes| - 1 :: Nodes[i].next == Nodes[i + 1])
      && head == (if Nodes == [] then null else Nodes[0])
      && tail == (if Nodes == [] then null else Nodes[|Nodes| - 1])
      && (tail != null ==> tail.next == null)
    }

    /** The node a link points to (`*link`): the head field when `pred` is
        null, otherwise `pred`'s forward link. */
    function LinkTarget(pred: Node?<T>): Node?<T>
      reads this, pred
    {
      if pred == null then head else pred.next
    }

    constructor (cmp: (T, T) -> bool)
      ensures Valid() && fresh(Repr)
      ensures Contents == [] && this.cmp == cmp
    {
      size, head, tail := 0, null, null;
      this.cmp := cmp;
      Contents, Nodes, Repr := [], [], {this};
    }

    method ValueAt(index: nat) returns (r: Result<T>)
      requires Valid()
      ensures r == if index < |Contents| then Ok(Contents[index]) else Err(OutOfRange)
    {
      if index >= size {
        return Err(OutOfRange);
      }
      var tmp := head;
      var i := 1;
      while i <= index
        invariant 1 <= i <= index + 1
        invariant tmp == Nodes[i - 1]
      {
        tmp := tmp.next;
        i := i + 1;
      }
      return Ok(tmp.item);
    }

    method PushFront(x: T)
      requires Valid()
      modifies Repr
      ensures Valid() && fresh(Repr - old(Repr))
      ensures Contents == [x] + old(Contents)
      ensures head != null && fresh(head)
    {
      ghost var c := Contents;
      assert c[..0] + [x] + c[0..] == [x] + c;
      var s := Insert(0, x);
    }

    method PopFront() returns (r: Result<T>)
      requires Valid()
      modifies Repr
      ensures Valid() && fresh(Repr - old(Repr))
      ensures r == if old(Contents) == [] then Err(LogicError) else Ok(old(Contents[0]))
      ensures Contents == if old(Contents) == [] then old(Contents) else old(Contents[1..])
      ensures r.Err? ==> unchanged(this)
      ensures r.Ok? && |old(Contents)| == 1 ==> head == null && tail == null
    {
      if size == 0 {
        return Err(LogicError);
      }
      var ret := head.item;
      RemoveNextNode(null, 0);
      assert old(Contents[..0] + Contents[1..]) == old(Contents[1..]);
      return Ok(ret);
    }

    method PushBack(x: T)
      requires Valid()
      modifies Repr
      ensures Valid() && fresh(Repr - old(Repr))
      ensures Contents == old(Contents) + [x]
      ensures tail != null && fresh(tail) && tail.item == x
      ensures old(Contents) != [] ==> head == old(head)
    {
      var n := new Node(x, null);
      ListSpec.DistinctInsert(Nodes, |Nodes|, n);
      assert Nodes[..|Nodes|] + [n] + Nodes[|Nodes|..] == Nodes + [n];
      if tail != null {
        ListSpec.DistinctAt(Nodes, |Nodes| - 1);
        tail.next := n;
      } else {
        head := n;
      }
      tail := n;
      size := size + 1;
      Contents := Contents + [x];
      Nodes := Nodes + [n];
      Repr := Repr + {n};
    }

    method PopBack() returns (r: Result<T>)
      requires Valid()
      modifies Repr
      ensures Valid() && fresh(Repr - old(Repr))
      ensures r == if old(Contents) == [] then Err(LogicError) else Ok(old(Contents[|Contents| - 1]))
      ensures Contents == if old(Contents) == [] then old(Contents) else old(Contents[..|Contents| - 1])
      ensures r.Err? ==> unchanged(this)
      ensures r.Ok? ==> tail == if |old(Nodes)| == 1 then null else old(Nodes[|Nodes| - 2])
    {
      if size == 0 {
        return Err(LogicError);
      }
      var pred: Node?<T> := null;
      ghost var k := 0;
      while LinkTarget(pred).next != null
        invariant 0 <= k < |Nodes|
        invariant pred == (if k == 0 then null else Nodes[k - 1])
        invariant LinkTarget(pred) == Nodes[k]
        decreases |Nodes| - k
      {
        pred := LinkTarget(pred);
        k := k + 1;
      }
      var last := LinkTarget(pred);
      var ret := last.item;
      ListSpec.DistinctRemove(Nodes, k);
      assert Nodes[..k] + Nodes[k + 1..] == Nodes[..k];
      if pred == null {
        head := null;
      } else {
        ListSpec.DistinctAt(Nodes, k - 1);
        pred.next := null;
      }
      if head == null {
        tail := head;
      } else {
        tail := pred;
      }
      size := size - 1;
      Contents := Contents[..k];
      Nodes := Nodes[..k];
      Repr := Repr - {last};
      return Ok(ret);
    }

    method Front() returns (r: Result<T>)
      requires Valid()
      ensures r == if Contents == [] then Err(LogicError) else Ok(Contents[0])
    {
      if size == 0 {
        return Err(LogicError);
      }
      return Ok(head.item);
    }

    method Back() returns (r: Result<T>)
      requires Valid()
      ensures r == if Contents == [] then Err(LogicError) else Ok(Contents[|Contents| - 1])
    {
      if size == 0 {
        return Err(LogicError);
      }
      return Ok(tail.item);
    }

    method Insert(index: nat, x: T) returns (s: Status)
      requires Valid()
      modifies Repr
      ensures Valid() && fresh(Repr - old(Repr))
      ensures s == if index <= old(|Contents|) then Success else Failure(OutOfRange)
      ensures Contents == if index <= old(|Contents|) then old(Contents[..index]) + [x] + old(Contents[index..]) else old(Contents)
      ensures s.Failure? ==> unchanged(this) && unchanged(Repr)
      ensures s.Success? && old(Contents) == [] ==> tail == head && fresh(tail)
      ensures s.Success? && index == 0 ==> fresh(head)
    {
      if index > size {
        return Failure(OutOfRange);
      }
      if size > 0 && index == size {
        PushBack(x);
        return Success;
      }
      var pred: Node?<T> := null;
      var i := 0;
      while i < index
        invariant 0 <= i <= index && (index < |Nodes| || index == 0)
        invariant pred == (if i == 0 then null else Nodes[i - 1])
        invariant LinkTarget(pred) == (if i < |Nodes| then Nodes[i] else null)
      {
        pred := LinkTarget(pred);
        i := i + 1;
      }
      LinkAt(pred, index, x);
      return Success;
    }

    method ValueNFromEnd(n: nat) returns (r: Result<T>)
      requires Valid()
      ensures r == if n < |Contents| then Ok(Contents[|Contents| - 1 - n]) else Err(OutOfRange)
    {
      if n >= size {
        return Err(OutOfRange);
      }
      var current := head;
      var fromHead := size - 1 - n;
      while fromHead != 0
        invariant 0 <= fromHead <= size - 1 - n
        invariant current == Nodes[size - 1 - n - fromHead]
      {
        current := current.next;
        fromHead := fromHead - 1;
      }
      return Ok(current.item);
    }

    /** Relinks every node to its predecessor in one pass, then swaps head
        and tail. */
    method Reverse()
      requires Valid()
      modifies Repr
      ensures Valid() && Repr == old(Repr)
      ensures Contents == ListSpec.Reverse(old(Contents))
      ensures Nodes == ListSpec.Reverse(old(Nodes))
      ensures head == old(tail) && tail == old(head) && size == old(size)
    {
      if size == 0 || size == 1 {
        assert Contents == ListSpec.Reverse(Contents) && Nodes == ListSpec.Reverse(Nodes);
        return;
      }
      ghost var ns, cs := Nodes, Contents;
      ghost var count := |Nodes|;
      var next: Node?<T> := null;
      var prev: Node?<T> := null;
      var current := head;
      ghost var i := 0;
      while current != null
        invariant unchanged(this)
        invariant 0 <= i <= count
        invariant current == (if i < count then ns[i] else null)
        invariant prev == (if i == 0 then null else ns[i - 1])
        invariant forall j {:trigger ns[j].next} | 0 <= j < i :: ns[j].next == Predecessor(ns, j)
        invariant forall j {:trigger ns[j].next} | i <= j < count :: ns[j].next == Successor(ns, j)
        decreases count - i
      {
        ListSpec.DistinctAt(ns, i);
        next := current.next;
        current.next := prev;
        prev := current;
        current := next;
        i := i + 1;
      }
      current := head;
      head := tail;
      tail := current;
      Nodes := ListSpec.Reverse(ns);
      Contents := ListSpec.Reverse(cs);
      ListSpec.DistinctReverse(ns);
      forall j | 0 <= j < count
        ensures Nodes[j] == ns[count - 1 - j] && Contents[j] == cs[count - 1 - j]
      {
        ListSpec.ReverseAt(ns, j);
        ListSpec.ReverseAt(cs, j);
      }
    }

    /** Unlinks the first node whose item the comparator accepts as
        cmp(x, item); does nothing when none does. */
    method RemoveValue(x: T)
      requires Valid()
      modifies Repr
      ensures Valid() && fresh(Repr - old(Repr))
      ensures Contents == ListSpec.RemoveFirst(old(Contents), x, cmp)
    {
      if size == 0 {
        return;
      }
      var pred: Node?<T> := null;
      ghost var k := 0;
      while LinkTarget(pred) != null
        invariant 0 <= k <= |Nodes|
        invariant pred == (if k == 0 then null else Nodes[k - 1])
        invariant LinkTarget(pred) == (if k < |Nodes| then Nodes[k] else null)
        invariant forall j | 0 <= j < k :: !ListSpec.MatchAt(Contents, x, cmp, j)
        decreases |Nodes| - k
      {
        if cmp(x, LinkTarget(pred).item) {
          ListSpec.RemoveFirstAt(Contents, x, cmp, k);
          RemoveNextNode(pred, k);
          return;
        }
        pred := LinkTarget(pred);
        k := k + 1;
      }
      ListSpec.RemoveFirstNoMatch(Contents, x, cmp);
    }

    method Erase(index: nat) returns (s: Status)
      requires Valid()
      modifies Repr
      ensures Valid() && fresh(Repr - old(Repr))
      ensures s == if index < old(|Contents|) then Success else Failure(OutOfRange)
      ensures Contents == if index < old(|Contents|) then old(Contents[..index] + Contents[index + 1..]) else old(Contents)
      ensures s.Failure? ==> unchanged(this) && unchanged(Repr)
    {
      if index >= size {
        return Failure(OutOfRange);
      }
      if index == size - 1 {
        var r := PopBack();
        assert old(Contents[..index] + Contents[index + 1..]) == old(Contents[..|Contents| - 1]);
        return Success;
      }
      var pred: Node?<T> := null;
      var i := 0;
      while i < index
        invariant 0 <= i <= index
        invariant pred == (if i == 0 then null else Nodes[i - 1])
        invariant LinkTarget(pred) == Nodes[i]
      {
        pred := LinkTarget(pred);
        i := i + 1;
      }
      RemoveNextNode(pred, index);
      return Success;
    }

    /** Links a new node holding x into the link owned by `pred`, so that it
        becomes the k-th node; the tail moves to it when the list was empty. */
    method LinkAt(pred: Node?<T>, ghost k: nat, x: T)
      requires Valid()
      requires k <= |Nodes| && pred == (if k == 0 then null else Nodes[k - 1])
      requires k == |Nodes| ==> k == 0
      modifies Repr
      ensures Valid() && fresh(Repr - old(Repr))
      ensures Contents == old(Contents[..k]) + [x] + old(Contents[k..])
      ensures old(tail) == null ==> tail == head && fresh(tail)
      ensures k == 0 ==> fresh(head)
      ensures old(tail) != null ==> tail == old(tail)
    {
      var n := new Node(x, LinkTarget(pred));
      ghost var ns, cs := Nodes, Contents;
      ghost var nn := ListSpec.InsertedAt(ns, k, n);
      ghost var nc := ListSpec.InsertedAt(cs, k, x);
      ListSpec.DistinctInsert(ns, k, n);
      if pred == null {
        head := n;
      } else {
        ListSpec.DistinctAt(ns, k - 1);
        pred.next := n;
      }
      if tail == null {
        tail := n;
      }
      size := size + 1;
      Contents := nc;
      Nodes := nn;
      Repr := Repr + {n};
      forall i | 0 <= i < |nn| - 1
        ensures nn[i].next == nn[i + 1]
      {
        if i < k - 1 {
          assert ns[i] != pred;
        } else if i > k {
          assert ns[i - 1] != pred;
        }
      }
    }

    /** Unlinks the node that the link owned by `pred` points to. When that
        node is the last one, the tail becomes the link's owner, which is
        null when the link is the head field (the source's container_of on
        the head field is reported under Findings in README.md). */
    method RemoveNextNode(pred: Node?<T>, ghost k: nat)
      requires Valid()
      requires k < |Nodes| && pred == (if k == 0 then null else Nodes[k - 1])
      modifies Repr
      ensures Valid() && Repr == old(Repr) - {old(Nodes[k])}
      ensures Contents == old(Contents[..k] + Contents[k + 1..])
      ensures Nodes == old(Nodes[..k] + Nodes[k + 1..])
      ensures tail == if k + 1 == old(|Nodes|) then pred else old(tail)
    {
      var toDestroy := LinkTarget(pred);
      ghost var ns, cs := Nodes, Contents;
      ghost var nn := ListSpec.RemovedAt(ns, k);
      ghost var nc := ListSpec.RemovedAt(cs, k);
      ListSpec.DistinctRemove(ns, k);
      ListSpec.DistinctAt(ns, k);
      if k > 0 {
        ListSpec.DistinctAt(ns, k - 1);
      }
      if toDestroy.next == null {
        tail := pred;
      }
      if pred == null {
        head := toDestroy.next;
      } else {
        pred.next := toDestroy.next;
      }
      size := size - 1;
      Contents := nc;
      Nodes := nn;
      Repr := Repr - {toDestroy};
      forall i | 0 <= i < |nn| - 1
        ensures nn[i].next == nn[i + 1]
      {
        if i < k - 1 {
          assert ns[i] != pred;
        } else if i >= k {
          assert ns[i + 1] != pred;
        }
      }
    }
  }
}
