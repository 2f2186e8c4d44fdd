/** The pointer-level behaviour of orla::singly_linked_list as written, for
    the operations that reach `remove_next_node` through the head field.

    Nodes live in an arena of cells that is never shrunk (deleted cells are
    simply no longer reachable). A link (`node_t**`) is either the list's
    head field or a cell's forward link. `container_of(link, node_t, next)`
    maps a cell's forward link back to the cell; applied to the address of
    the head field it yields `HeadSlotOwner`, an address that is not a node
    but whose `next` member occupies the head field's storage. */
module SinglyAsWritten {
  import opened ContainerErrors

  datatype Ptr = Null | Cell(id: nat) | HeadSlotOwner

  datatype Link = HeadField | NextOf(id: nat)

  datatype RawNode<T> = RawNode(item: T, next: Ptr)

  datatype RawList<T> = RawList(cells: seq<RawNode<T>>, head: Ptr, tail: Ptr, size: nat)

  datatype Popped<T> = Popped(item: T, list: RawList<T>)

  predicate InArena<T>(l: RawList<T>, p: Ptr)
  {
    p.Cell? ==> p.id < |l.cells|
  }

  predicate LinkInArena<T>(l: RawList<T>, link: Link)
  {
    link.NextOf? ==> link.id < |l.cells|
  }

  /** Every pointer the list holds is null, the fake head-slot owner, or a
      cell of the arena. */
  predicate WellFormed<T>(l: RawList<T>)
  {
    && InArena(l, l.head)
    && InArena(l, l.tail)
    && forall i | 0 <= i < |l.cells| :: InArena(l, l.cells[i].next)
  }

  function Empty<T>(): (l: RawList<T>)
    ensures WellFormed(l) && l.size == 0 && l.head == Null && l.tail == Null
  {
    RawList([], Null, Null, 0)
  }

  /** `container_of(link, node_t, next)`. */
  function ContainerOf(link: Link): Ptr
  {
    match link
    case HeadField => HeadSlotOwner
    case NextOf(id) => Cell(id)
  }

  /** `&p->next` for a pointer that is not null. */
  function NextLink(p: Ptr): Link
    requires p != Null
  {
    match p
    case Cell(id) => NextOf(id)
    case HeadSlotOwner => HeadField
  }

  /** The forward link of what `container_of` returns is the link it was
      given: in particular, writing through the fake node's `next` writes
      the head field. */
  lemma NextLinkOfContainer(link: Link)
    ensures ContainerOf(link) != Null && NextLink(ContainerOf(link)) == link
  {
  }

  /** `*link`. */
  function Load<T>(l: RawList<T>, link: Link): (p: Ptr)
    requires WellFormed(l) && LinkInArena(l, link)
    ensures InArena(l, p)
  {
    match link
    case HeadField => l.head
    case NextOf(id) => l.cells[id].next
  }

  /** `*link = p`. */
  function Store<T>(l: RawList<T>, link: Link, p: Ptr): (r: RawList<T>)
    requires WellFormed(l) && LinkInArena(l, link) && InArena(l, p)
    ensures WellFormed(r) && |r.cells| == |l.cells| && r.tail == l.tail && r.size == l.size
    ensures Load(r, link) == p
  {
    match link
    case HeadField => l.(head := p)
    case NextOf(id) => l.(cells := l.cells[id := l.cells[id].(next := p)])
  }

  /** `push_back`: makes a new cell the head when the tail is null, and
      otherwise writes it through the tail's forward link, which is the head
      field itself when the tail is the fake head-slot owner. */
  function PushBack<T>(l: RawList<T>, x: T): (r: RawList<T>)
    requires WellFormed(l)
    ensures WellFormed(r) && r.size == l.size + 1 && r.tail == Cell(|l.cells|)
    ensures l.tail == Null ==> r.head == Cell(|l.cells|)
    ensures l.tail != Null ==> LinkInArena(r, NextLink(l.tail)) && Load(r, NextLink(l.tail)) == Cell(|l.cells|)
  {
    var n := Cell(|l.cells|);
    var l1 := l.(cells := l.cells + [RawNode(x, Null)]);
    var l2 := if l1.tail != Null then Store(l1, NextLink(l1.tail), n) else l1.(head := n);
    l2.(tail := n, size := l2.size + 1)
  }

  /** `push_front`, which is `insert(0, x)` through its general path: the
      new cell takes over the head field's target, and the tail is set only
      when it is null. */
  function PushFront<T>(l: RawList<T>, x: T): (r: RawList<T>)
    requires WellFormed(l)
    ensures WellFormed(r) && r.size == l.size + 1 && r.head == Cell(|l.cells|)
    ensures r.tail == if l.tail == Null then Cell(|l.cells|) else l.tail
  {
    var n := Cell(|l.cells|);
    var l1 := l.(cells := l.cells + [RawNode(x, l.head)]);
    var l2 := Store(l1, HeadField, n);
    var l3 := if l2.tail == Null then l2.(tail := n) else l2;
    l3.(size := l3.size + 1)
  }

  /** `remove_next_node(link)` as written: when the removed cell is the
      last one, the tail becomes `container_of(link)`, whatever the link. */
  function RemoveNextNode<T>(l: RawList<T>, link: Link): (r: RawList<T>)
    requires WellFormed(l) && LinkInArena(l, link) && Load(l, link).Cell? && l.size > 0
    ensures WellFormed(r) && r.size == l.size - 1
    ensures r.tail == if l.cells[Load(l, link).id].next == Null then ContainerOf(link) else l.tail
  {
    var d := Load(l, link).id;
    var l1 := if l.cells[d].next == Null then l.(tail := ContainerOf(link)) else l;
    var l2 := Store(l1, link, l.cells[d].next);
    l2.(size := l2.size - 1)
  }

  /** `pop_front`: refuses an empty list, otherwise reads the head's item
      and removes the head through the head field. */
  function PopFront<T>(l: RawList<T>): (r: Result<Popped<T>>)
    requires WellFormed(l) && (l.size > 0 ==> l.head.Cell?)
    ensures r.Err? <==> l.size == 0
    ensures r.Ok? ==> WellFormed(r.value.list) && r.value.list.size == l.size - 1
  {
    if l.size == 0 then Err(LogicError)
    else Ok(Popped(l.cells[l.head.id].item, RemoveNextNode(l, HeadField)))
  }

  /** The items reached from p by following forward links, for at most
      `fuel` cells; the fake head-slot owner holds no item of the list. */
  function Chain<T>(l: RawList<T>, p: Ptr, fuel: nat): (s: seq<T>)
    requires WellFormed(l) && InArena(l, p)
    ensures |s| <= fuel
    decreases fuel
  {
    if fuel == 0 then []
    else match p
      case Null => []
      case HeadSlotOwner => []
      case Cell(id) => [l.cells[id].item] + Chain(l, l.cells[id].next, fuel - 1)
  }

  /** Popping the only cell of a list leaves a tail that is neither null
      nor a cell, on an empty list whose head is null. */
  lemma PopSoleNodeLeavesFakeTail<T>(l: RawList<T>)
    requires WellFormed(l) && l.size == 1 && l.head.Cell?
    requires l.cells[l.head.id].next == Null
    ensures PopFront(l).Ok?
    ensures var r := PopFront(l).value.list; r.size == 0 && r.head == Null && r.tail == HeadSlotOwner
  {
  }

  /** With that tail in place, a push_front leaves the tail where it is, and
      the next push_back writes through the fake node into the head field:
      the node pushed in front is lost while the size counts it. */
  lemma {:induction false} FakeTailLosesNode<T>(l: RawList<T>, x: T, y: T)
    requires WellFormed(l) && l.size == 0 && l.head == Null && l.tail == HeadSlotOwner
    ensures var r := PushBack(PushFront(l, x), y);
      r.size == 2 && r.head == Cell(|l.cells| + 1) && Chain(r, r.head, |r.cells|) == [y]
  {
    var l1 := PushFront(l, x);
    var r := PushBack(l1, y);
    assert r.cells[|l.cells| + 1] == RawNode(y, Null);
    assert Chain(r, r.head, |r.cells|) == [y] + Chain(r, Null, |r.cells| - 1);
  }

  /** The concrete run push_back 1, pop_front, push_front 2, push_back 3
      ends with size 2 while only the item 3 is reachable from the head. */
  lemma LostNodeRun()
    ensures var l1 := PushBack(Empty<int>(), 1);
      var p := PopFront(l1);
      p.Ok? && p.value.item == 1 && p.value.list.tail == HeadSlotOwner &&
      var r := PushBack(PushFront(p.value.list, 2), 3);
      r.size == 2 && Chain(r, r.head, |r.cells|) == [3]
  {
    var l1 := PushBack(Empty<int>(), 1);
    PopSoleNodeLeavesFakeTail(l1);
    FakeTailLosesNode(PopFront(l1).value.list, 2, 3);
  }
}
