/** orla::doubly_linked_list: a chain of nodes linked both ways, with a
    head, a tail and a size. As in the singly linked list, the source's
    pointer-to-link (`node_t**`) is modelled by the node that owns the link,
    `pred`, with `pred == null` standing for the list's own head field. */
module DoublyLinkedList {
  import opened ContainerErrors
  import ListSpec

  /** The node after position i of a chain, or null past its end. */
  ghost function Successor<T>(ns: seq<Node<T>>, i: int): Node?<T>
  {
    if 0 <= i && i + 1 < |ns| then ns[i + 1] else null
  }

  /** The node before position i of a chain, or null at its start. */
  ghost function Predecessor<T>(ns: seq<Node<T>>, i: int): Node?<T>
  {
    if 0 < i <= |ns| then ns[i - 1] else null
  }

  /** A node owns its item and its two links. The list never rewrites an
      item once the node exists. */
  class Node<T> {
    const item: T
    var next: Node?<T>
    var prev: Node?<T>

    constructor (item: T, next: Node?<T>, prev: Node?<T>)
      ensures this.item == item && this.next == next && this.prev == prev
    {
      this.item := item;
      this.next := next;
      this.prev := prev;
    }
  }

  class List<T> {
    var size: nat
    var head: Node?<T>
    var tail: Node?<T>
    const cmp: (T, T) -> bool

    /** The items from head to tail, the nodes holding them, and the objects
        the list owns. */
    ghost var Contents: seq<T>
    ghost var Nodes: seq<Node<T>>
    ghost var Repr: set<object>

    /** The chain from head follows Nodes: each node links forward to the
        next one (the last to null) and back to the previous one (the first
        to null), and head, tail and size agree with it. */
    ghost predicate Valid()
      reads this, Repr
    {
      && this in Repr
      && size == |Nodes| == |Contents|
      && (forall i | 0 <= i < |Nodes| :: Nodes[i] in Repr)
      && ListSpec.Distinct(Nodes)
      && (forall i | 0 <= i < |Nodes| :: Nodes[i].item == Contents[i])
      && (forall i {:trigger Nodes[i].next} | 0 <= i < |Nodes| - 1 :: Nodes[i].next == Nodes[i + 1])
      && (forall i {:trigger Nodes[i].prev} | 0 < i < |Nodes| :: Nodes[i].prev == Nodes[i - 1])
      && head == (if Nodes == [] then null else Nodes[0])
      && tail == (if Nodes == [] then null else Nodes[|Nodes| - 1])
      && (head != null ==> head.prev == null)
      && (tail != null ==> tail.next == null)
    }

    /** The link invariant in the pointers' own terms: a node's successor
        points back to it, its predecessor points forward to it, nothing
        precedes the head and nothing follows the tail. */
    ghost predicate Bidirectional()
      reads this, Repr
      requires Valid()
    {
      && (head != null ==> head.prev == null)
      && (tail != null ==> tail.next == null)
      && (forall i | 0 <= i < |Nodes| && Nodes[i].next != null :: Nodes[i].next.prev == Nodes[i])
      && (forall i | 0 <= i < |Nodes| && Nodes[i].prev != null :: Nodes[i].prev.next == Nodes[i])
    }

    lemma ValidIsBidirectional()
      requires Valid()
      ensures Bidirectional()
    {
      forall i | 0 <= i < |Nodes| && Nodes[i].next != null
        ensures Nodes[i].next.prev == Nodes[i]
      {
        assert Nodes[i].next == Nodes[i + 1];
        assert Nodes[i + 1].prev == Nodes[i];
      }
      forall i | 0 <= i < |Nodes| && Nodes[i].prev != null
        ensures Nodes[i].prev.next == Nodes[i]
      {
        assert Nodes[i].prev == Nodes[i - 1];
        assert Nodes[i - 1].next == Nodes[i];
      }
    }

    /** The node a link points to (`*link`): the head field when `pred` is
        null, otherwise `pred`'s forward link. */
    function LinkTarget(pred: Node?<T>): Node?<T>
      reads this, pred
    {
      if pred == null then head else pred.next
    }

    constructor (cmp: (T, T) -> bool)
      ensures Valid() && fresh(Repr)
      ensures Contents == [] && this.cmp == cmp
    {
      size, head, tail := 0, null, null;
      this.cmp := cmp;
      Contents, Nodes, Repr := [], [], {this};
    }

    method ValueAt(index: nat) returns (r: Result<T>)
      requires Valid()
      ensures r == if index < |Contents| then Ok(Contents[index]) else Err(OutOfRange)
    {
      if index >= size {
        return Err(OutOfRange);
      }
      var tmp := head;
      var i := 1;
      while i <= index
        invariant 1 <= i <= index + 1
        invariant tmp == Nodes[i - 1]
      {
        tmp := tmp.next;
        i := i + 1;
      }
      return Ok(tmp.item);
    }

    method PushFront(x: T)
      requires Valid()
      modifies Repr
      ensures Valid() && fresh(Repr - old(Repr))
      ensures Contents == [x] + old(Contents)
      ensures head != null && fresh(head)
    {
      ghost var c := Contents;
      assert c[..0] + [x] + c[0..] == [x] + c;
      var s := Insert(0, x);
    }

    method PopFront() returns (r: Result<T>)
      requires Valid()
      modifies Repr
      ensures Valid() && fresh(Repr - old(Repr))
      ensures r == if old(Contents) == [] then Err(LogicError) else Ok(old(Contents[0]))
      ensures Contents == if old(Contents) == [] then old(Contents) else old(Contents[1..])
      ensures r.Err? ==> unchanged(this)
      ensures r.Ok? && |old(Contents)| == 1 ==> head == null && tail == null
    {
      if size == 0 {
        return Err(LogicError);
      }
      var ret := head.item;
      RemoveNextNode(null, 0);
      assert old(Contents[..0] + Contents[1..]) == old(Contents[1..]);
      return Ok(ret);
    }

    method PushBack(x: T)
      requires Valid()
      modifies Repr
      ensures Valid() && fresh(Repr - old(Repr))
      ensures Contents == old(Contents) + [x]
      ensures tail != null && fresh(tail) && tail.item == x && tail.prev == old(tail)
      ensures old(Contents) != [] ==> head == old(head)
    {
      var n := new Node(x, null, tail);
      ghost var ns, cs := Nodes, Contents;
      ghost var nn := ListSpec.InsertedAt(ns, |ns|, n);
      ghost var nc := ListSpec.InsertedAt(cs, |cs|, x);
      ListSpec.DistinctInsert(ns, |ns|, n);
      if tail != null {
        ListSpec.DistinctAt(ns, |ns| - 1);
        tail.next := n;
      } else {
        head := n;
      }
      tail := n;
      size := size + 1;
      Contents := nc;
      Nodes := nn;
      Repr := Repr + {n};
      forall i | 0 <= i < |ns| - 1
        ensures nn[i].next == nn[i + 1]
      {
        assert ns[i] != ns[|ns| - 1];
      }
      assert nc == cs + [x];
    }

    method PopBack() returns (r: Result<T>)
      requires Valid()
      modifies Repr
      ensures Valid() && fresh(Repr - old(Repr))
      ensures r == if old(Contents) == [] then Err(LogicError) else Ok(old(Contents[|Contents| - 1]))
      ensures Contents == if old(Contents) == [] then old(Contents) else old(Contents[..|Contents| - 1])
      ensures r.Err? ==> unchanged(this)
      ensures r.Ok? ==> tail == if |old(Nodes)| == 1 then null else old(Nodes[|Nodes| - 2])
      ensures r.Ok? && |old(Contents)| == 1 ==> head == null
    {
      if size == 0 {
        return Err(LogicError);
      }
      ghost var ns, cs := Nodes, Contents;
      ghost var k := |ns| - 1;
      var ret := tail.item;
      var toPop := tail;
      ListSpec.DistinctRemove(ns, k);
      assert ns[..k] + ns[k + 1..] == ns[..k];
      tail := tail.prev;
      if tail != null {
        ListSpec.DistinctAt(ns, k - 1);
        tail.next := null;
      } else {
        head := null;
      }
      size := size - 1;
      Contents := Contents[..k];
      Nodes := Nodes[..k];
      Repr := Repr - {toPop};
      forall i | 0 <= i < k - 1
        ensures Nodes[i].next == Nodes[i + 1]
      {
        assert ns[i] != ns[k - 1];
      }
      return Ok(ret);
    }

    method Front() returns (r: Result<T>)
      requires Valid()
      ensures r == if Contents == [] then Err(LogicError) else Ok(Contents[0])
    {
      if size == 0 {
        return Err(LogicError);
      }
      return Ok(head.item);
    }

    method Back() returns (r: Result<T>)
      requires Valid()
      ensures r == if Contents == [] then Err(LogicError) else Ok(Contents[|Contents| - 1])
    {
      if size == 0 {
        return Err(LogicError);
      }
      return Ok(tail.item);
    }

    method Insert(index: nat, x: T) returns (s: Status)
      requires Valid()
      modifies Repr
      ensures Valid() && fresh(Repr - old(Repr))
      ensures s == if index <= old(|Contents|) then Success else Failure(OutOfRange)
      ensures Contents == if index <= old(|Contents|) then old(Contents[..index]) + [x] + old(Contents[index..]) else old(Contents)
      ensures s.Failure? ==> unchanged(this) && unchanged(Repr)
      ensures s.Success? && old(Contents) == [] ==> tail == head && fresh(tail)
      ensures s.Success? && index == 0 ==> fresh(head)
    {
      if index > size {
        return Failure(OutOfRange);
      }
      if size > 0 && index == size {
        PushBack(x);
        return Success;
      }
      var pred: Node?<T> := null;
      var i := 0;
      while i < index
        invariant 0 <= i <= index && (index < |Nodes| || index == 0)
        invariant pred == (if i == 0 then null else Nodes[i - 1])
        invariant LinkTarget(pred) == (if i < |Nodes| then Nodes[i] else null)
      {
        pred := LinkTarget(pred);
        i := i + 1;
      }
      LinkAt(pred, index, x);
      return Success;
    }

    /** Walks n backward links from the tail. */
    method ValueNFromEnd(n: nat) returns (r: Result<T>)
      requires Valid()
      ensures r == if n < |Contents| then Ok(Contents[|Contents| - 1 - n]) else Err(OutOfRange)
    {
      if n >= size {
        return Err(OutOfRange);
      }
      var current := tail;
      for index := 0 to n
        invariant current == Nodes[size - 1 - index]
      {
        current := current.prev;
      }
      return Ok(current.item);
    }

    /** Swaps the two links of every node, walking the chain through the
        swapped backward link, then swaps head and tail. */
    method Reverse()
      requires Valid()
      modifies Repr
      ensures Valid() && Repr == old(Repr)
      ensures Contents == ListSpec.Reverse(old(Contents))
      ensures Nodes == ListSpec.Reverse(old(Nodes))
      ensures head == old(tail) && tail == old(head) && size == old(size)
    {
      if size == 0 {
        assert Contents == ListSpec.Reverse(Contents) && Nodes == ListSpec.Reverse(Nodes);
        return;
      }
      ghost var ns, cs := Nodes, Contents;
      ghost var count := |Nodes|;
      var current := head;
      ghost var i := 0;
      while current != null
        invariant unchanged(this)
        invariant 0 <= i <= count
        invariant current == (if i < count then ns[i] else null)
        invariant forall j {:trigger ns[j].next} | 0 <= j < i :: ns[j].next == Predecessor(ns, j)
        invariant forall j {:trigger ns[j].prev} | 0 <= j < i :: ns[j].prev == Successor(ns, j)
        invariant forall j {:trigger ns[j].next} | i <= j < count :: ns[j].next == Successor(ns, j)
        invariant forall j {:trigger ns[j].prev} | i <= j < count :: ns[j].prev == Predecessor(ns, j)
        decreases count - i
      {
        ListSpec.DistinctAt(ns, i);
        var tmp := current.prev;
        current.prev := current.next;
        current.next := tmp;
        current := current.prev;
        i := i + 1;
      }
      current := head;
      head := tail;
      tail := current;
      Nodes := ListSpec.Reverse(ns);
      Contents := ListSpec.Reverse(cs);
      ListSpec.DistinctReverse(ns);
      forall j | 0 <= j < count
        ensures Nodes[j] == ns[count - 1 - j] && Contents[j] == cs[count - 1 - j]
      {
        ListSpec.ReverseAt(ns, j);
        ListSpec.ReverseAt(cs, j);
      }
    }

    /** Unlinks the first node whose item the comparator accepts as
        cmp(x, item); does nothing when none does. */
    method RemoveValue(x: T)
      requires Valid()
      modifies Repr
      ensures Valid() && fresh(Repr - old(Repr))
      ensures Contents == ListSpec.RemoveFirst(old(Contents), x, cmp)
    {
      if size == 0 {
        return;
      }
      var pred: Node?<T> := null;
      ghost var k := 0;
      while LinkTarget(pred) != null
        invariant 0 <= k <= |Nodes|
        invariant pred == (if k == 0 then null else Nodes[k - 1])
        invariant LinkTarget(pred) == (if k < |Nodes| then Nodes[k] else null)
        invariant forall j | 0 <= j < k :: !ListSpec.MatchAt(Contents, x, cmp, j)
        decreases |Nodes| - k
      {
        if cmp(x, LinkTarget(pred).item) {
          ListSpec.RemoveFirstAt(Contents, x, cmp, k);
          RemoveNextNode(pred, k);
          return;
        }
        pred := LinkTarget(pred);
        k := k + 1;
      }
      ListSpec.RemoveFirstNoMatch(Contents, x, cmp);
    }

    method Erase(index: nat) returns (s: Status)
      requires Valid()
      modifies Repr
      ensures Valid() && fresh(Repr - old(Repr))
      ensures s == if index < old(|Contents|) then Success else Failure(OutOfRange)
      ensures Contents == if index < old(|Contents|) then old(Contents[..index] + Contents[index + 1..]) else old(Contents)
      ensures s.Failure? ==> unchanged(this) && unchanged(Repr)
    {
      if index >= size {
        return Failure(OutOfRange);
      }
      if index == size - 1 {
        var r := PopBack();
        assert old(Contents[..index] + Contents[index + 1..]) == old(Contents[..|Contents| - 1]);
        return Success;
      }
      var pred: Node?<T> := null;
      var i := 0;
      while i < index
        invariant 0 <= i <= index
        invariant pred == (if i == 0 then null else Nodes[i - 1])
        invariant LinkTarget(pred) == Nodes[i]
      {
        pred := LinkTarget(pred);
        i := i + 1;
      }
      RemoveNextNode(pred, index);
      return Success;
    }

    /** Links a new node holding x into the link owned by `pred`, so that it
        becomes the k-th node: its backward link is the one its successor
        had, and that successor now points back to it. The tail moves to it
        when the list was empty. */
    method LinkAt(pred: Node?<T>, ghost k: nat, x: T)
      requires Valid()
      requires k <= |Nodes| && pred == (if k == 0 then null else Nodes[k - 1])
      requires k == |Nodes| ==> k == 0
      modifies Repr
      ensures Valid() && fresh(Repr - old(Repr))
      ensures Contents == old(Contents[..k]) + [x] + old(Contents[k..])
      ensures old(tail) == null ==> tail == head && fresh(tail)
      ensures k == 0 ==> fresh(head)
      ensures old(tail) != null ==> tail == old(tail)
    {
      var target := LinkTarget(pred);
      var n := new Node(x, target, if target != null then target.prev else null);
      ghost var ns, cs := Nodes, Contents;
      ghost var nn := ListSpec.InsertedAt(ns, k, n);
      ghost var nc := ListSpec.InsertedAt(cs, k, x);
      ListSpec.DistinctInsert(ns, k, n);
      Contents, Nodes, Repr := nc, nn, Repr + {n};
      if target != null {
        ListSpec.DistinctAt(ns, k);
        target.prev := n;
      }
      if pred == null {
        head := n;
      } else {
        ListSpec.DistinctAt(ns, k - 1);
        pred.next := n;
      }
      if tail == null {
        tail := n;
      }
      size := size + 1;
      forall i | 0 <= i < |nn| - 1
        ensures nn[i].next == nn[i + 1]
      {
        if i < k - 1 {
          assert ns[i] != pred;
        } else if i > k {
          assert ns[i - 1] != pred;
        }
      }
      forall i | 0 < i < |nn|
        ensures nn[i].prev == nn[i - 1]
      {
        if i < k {
          assert ns[i] != target;
        } else if i > k + 1 {
          assert ns[i - 1] != target;
        }
      }
    }

    /** Unlinks the node that the link owned by `pred` points to: its
        successor, if any, points back to the node's predecessor; otherwise
        the tail moves to that predecessor. */
    method RemoveNextNode(pred: Node?<T>, ghost k: nat)
      requires Valid()
      requires k < |Nodes| && pred == (if k == 0 then null else Nodes[k - 1])
      modifies Repr
      ensures Valid() && Repr == old(Repr) - {old(Nodes[k])}
      ensures Contents == old(Contents[..k] + Contents[k + 1..])
      ensures Nodes == old(Nodes[..k] + Nodes[k + 1..])
      ensures tail == if k + 1 == old(|Nodes|) then pred else old(tail)
    {
      var toDestroy := LinkTarget(pred);
      ghost var ns, cs := Nodes, Contents;
      ghost var nn := ListSpec.RemovedAt(ns, k);
      ghost var nc := ListSpec.RemovedAt(cs, k);
      ListSpec.DistinctRemove(ns, k);
      ListSpec.DistinctAt(ns, k);
      if k > 0 {
        ListSpec.DistinctAt(ns, k - 1);
      }
      if toDestroy.next != null {
        ListSpec.DistinctAt(ns, k + 1);
        toDestroy.next.prev := toDestroy.prev;
      } else {
        tail := toDestroy.prev;
      }
      if pred == null {
        head := toDestroy.next;
      } else {
        pred.next := toDestroy.next;
      }
      size := size - 1;
      Contents := nc;
      Nodes := nn;
      Repr := Repr - {toDestroy};
      forall i | 0 <= i < |nn| - 1
        ensures nn[i].next == nn[i + 1]
      {
        if i < k - 1 {
          assert ns[i] != pred;
        } else if i >= k {
          assert ns[i + 1] != pred;
        }
      }
      forall i | 0 < i < |nn|
        ensures nn[i].prev == nn[i - 1]
      {
        if i < k && k + 1 < |ns| {
          assert ns[i] != ns[k + 1];
        } else if i > k {
          assert ns[i + 1] != ns[k + 1];
        }
      }
    }
  }
}
