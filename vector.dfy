/** The growable array `orla::vector`: a heap buffer `arr` of `capacity`
    slots whose first `size` slots hold the items. The buffer doubles before
    an insertion that would overflow it and halves after a deletion that
    leaves it at most a quarter full. */
module Vector {
  import opened ContainerErrors

  /** The capacity of a freshly constructed vector. */
  const InitialCapacity: nat := 16

  ghost predicate IsPowerOfTwo(n: nat)
  {
    n == 1 || (n > 1 && n % 2 == 0 && IsPowerOfTwo(n / 2))
  }

  /** The capacity left by `check_resize(false)` once the size is `size`:
      halved when the vector is non-empty and at most a quarter full. */
  function ShrunkCapacity(size: nat, capacity: nat): nat
  {
    if 0 < size && size <= capacity / 4 then capacity / 2 else capacity
  }

  /** The capacity after `n` deletions, one at a time, from a vector of
      `size` items and capacity `capacity`, each followed by the shrink
      check. */
  function CapacityAfterErasures(capacity: nat, size: nat, n: nat): nat
    requires n <= size
  {
    if n == 0 then capacity
    else ShrunkCapacity(size - n, CapacityAfterErasures(capacity, size, n - 1))
  }

  /** The shrink rule never takes the capacity below the size, and keeps a
      capacity of at least 2 that is a power of two. */
  lemma ShrinkKeepsBounds(size: nat, capacity: nat)
    requires size <= capacity && 2 <= capacity && IsPowerOfTwo(capacity)
    ensures size <= ShrunkCapacity(size, capacity)
    ensures 2 <= ShrunkCapacity(size, capacity) && IsPowerOfTwo(ShrunkCapacity(size, capacity))
  {
  }

  /** The items of `s` that do not match `x`, in their order: what `remove`
      leaves behind. The comparator is called as `cmp(element, x)`. */
  function RemoveAll<T>(s: seq<T>, x: T, cmp: (T, T) -> bool): (r: seq<T>)
    ensures |r| <= |s|
    ensures forall j | 0 <= j < |r| :: !cmp(r[j], x)
  {
    if s == [] then []
    else if cmp(s[0], x) then RemoveAll(s[1..], x, cmp)
    else [s[0]] + RemoveAll(s[1..], x, cmp)
  }

  /** Erasing one matching item does not change what `RemoveAll` keeps. */
  lemma {:induction false} RemoveAllErase<T>(s: seq<T>, k: nat, x: T, cmp: (T, T) -> bool)
    requires k < |s| && cmp(s[k], x)
    ensures RemoveAll(s[..k] + s[k + 1..], x, cmp) == RemoveAll(s, x, cmp)
  {
    if k > 0 {
      RemoveAllErase(s[1..], k - 1, x, cmp);
      assert (s[..k] + s[k + 1..])[1..] == s[1..][..k - 1] + s[1..][k..];
    } else {
      assert s[..k] + s[k + 1..] == s[1..];
    }
  }

  /** When nothing matches, `RemoveAll` keeps everything. */
  lemma {:induction false} RemoveAllNoMatch<T>(s: seq<T>, x: T, cmp: (T, T) -> bool)
    requires forall j | 0 <= j < |s| :: !cmp(s[j], x)
    ensures RemoveAll(s, x, cmp) == s
  {
    if s != [] {
      assert !cmp(s[0], x);
      RemoveAllNoMatch(s[1..], x, cmp);
    }
  }

  class Vector<T(0)> {
    var capacity: nat
    var size: nat
    var arr: array<T>
    const cmp: (T, T) -> bool

    /** The buffer has `capacity` slots and holds the `size` items. */
    ghost predicate Sized()
      reads this
    {
      arr.Length == capacity && size <= capacity
    }

    /** Besides fitting its buffer, the capacity starts at 16 and only ever
        doubles or halves, and it never drops below 2. */
    ghost predicate Valid()
      reads this
    {
      Sized() && 2 <= capacity && IsPowerOfTwo(capacity)
    }

    /** The items, in order. */
    ghost function Contents(): seq<T>
      reads this, arr
      requires Sized()
    {
      arr[..size]
    }

    constructor (cmp: (T, T) -> bool)
      ensures Valid() && fresh(arr)
      ensures Contents() == [] && capacity == InitialCapacity && this.cmp == cmp
    {
      capacity := InitialCapacity;
      size := 0;
      this.cmp := cmp;
      arr := new T[InitialCapacity];
    }

    method At(index: nat) returns (r: Result<T>)
      requires Valid()
      ensures r == if index < |Contents()| then Ok(Contents()[index]) else Err(OutOfRange)
    {
      if index >= size {
        return Err(OutOfRange);
      }
      return Ok(arr[index]);
    }

    method Push(x: T)
      requires Valid()
      modifies this, arr
      ensures Valid() && (arr == old(arr) || fresh(arr))
      ensures Contents() == old(Contents()) + [x]
      ensures capacity == if old(size) == old(capacity) then 2 * old(capacity) else old(capacity)
    {
      CheckResize(true);
      arr[size] := x;
      size := size + 1;
    }

    method Insert(index: nat, x: T) returns (s: Status)
      requires Valid()
      modifies this, arr
      ensures Valid() && (arr == old(arr) || fresh(arr))
      ensures s == if index <= old(size) then Success else Failure(OutOfRange)
      ensures s.Success? ==> Contents() == old(Contents()[..index]) + [x] + old(Contents()[index..])
      ensures s.Success? ==> capacity == if old(size) == old(capacity) then 2 * old(capacity) else old(capacity)
      ensures s.Failure? ==> unchanged(this) && unchanged(arr)
    {
      if index > size {
        return Failure(OutOfRange);
      }
      CheckResize(true);
      ghost var c := Contents();
      if size > 0 {
        // The items from `index` on move one slot up, the last one first.
        for i := size downto index
          modifies arr
          invariant forall j | 0 <= j < i :: arr[j] == c[j]
          invariant forall j | i < j <= size :: arr[j] == c[j - 1]
        {
          arr[i + 1] := arr[i];
        }
      }
      arr[index] := x;
      size := size + 1;
      assert Contents() == c[..index] + [x] + c[index..];
      return Success;
    }

    method Prepend(x: T)
      requires Valid()
      modifies this, arr
      ensures Valid() && (arr == old(arr) || fresh(arr))
      ensures Contents() == [x] + old(Contents())
      ensures capacity == if old(size) == old(capacity) then 2 * old(capacity) else old(capacity)
    {
      var s := Insert(0, x);
    }

    method Pop() returns (r: Result<T>)
      requires Valid()
      modifies this, arr
      ensures Valid() && (arr == old(arr) || fresh(arr))
      ensures r == if old(size) == 0 then Err(LogicError) else Ok(old(Contents()[|Contents()| - 1]))
      ensures r.Err? ==> unchanged(this) && unchanged(arr)
      ensures r.Ok? ==> Contents() == old(Contents()[..size - 1])
      ensures r.Ok? ==> capacity == ShrunkCapacity(size, old(capacity))
    {
      if size == 0 {
        return Err(LogicError);
      }
      var ret := arr[size - 1];
      PostDeleteActions();
      return Ok(ret);
    }

    method EraseAt(index: nat) returns (s: Status)
      requires Valid()
      modifies this, arr
      ensures Valid() && (arr == old(arr) || fresh(arr))
      ensures s == if index < old(size) then Success else Failure(OutOfRange)
      ensures s.Failure? ==> unchanged(this) && unchanged(arr)
      ensures s.Success? ==> Contents() == old(Contents()[..index] + Contents()[index + 1..])
      ensures s.Success? ==> capacity == ShrunkCapacity(size, old(capacity))
    {
      if size == 0 || index >= size {
        return Failure(OutOfRange);
      }
      if index == size - 1 {
        var popped := Pop();
        return Success;
      }
      ghost var c := Contents();
      // The items after `index` move one slot down, the first one first.
      for i := index to size - 1
        modifies arr
        invariant forall j | 0 <= j < index :: arr[j] == c[j]
        invariant forall j | index <= j < i :: arr[j] == c[j + 1]
        invariant forall j | i <= j < size :: arr[j] == c[j]
      {
        arr[i] := arr[i + 1];
      }
      PostDeleteActions();
      assert Contents() == c[..index] + c[index + 1..];
      return Success;
    }

    /** The first position whose item matches `x`, or -1. */
    method Find(x: T) returns (r: int)
      requires Valid()
      ensures -1 <= r < |Contents()|
      ensures r >= 0 ==> cmp(Contents()[r], x)
      ensures forall j | 0 <= j < |Contents()| && (r < 0 || j < r) :: !cmp(Contents()[j], x)
    {
      if size == 0 {
        return -1;
      }
      for i := 0 to size
        invariant forall j | 0 <= j < i :: !cmp(arr[j], x)
      {
        if cmp(arr[i], x) {
          return i;
        }
      }
      return -1;
    }

    /** The first position at or after `index` whose item matches `x`, or -1. */
    method FindFromIndex(index: nat, x: T) returns (r: int)
      requires Valid()
      ensures r == -1 || index <= r < |Contents()|
      ensures r >= 0 ==> cmp(Contents()[r], x)
      ensures forall j | index <= j < |Contents()| && (r < 0 || j < r) :: !cmp(Contents()[j], x)
    {
      if size == 0 || index >= size {
        return -1;
      }
      for i := index to size
        invariant forall j | index <= j < i :: !cmp(arr[j], x)
      {
        if cmp(arr[i], x) {
          return i;
        }
      }
      return -1;
    }

    /** Erases every item matching `x`, rescanning from the position just
        erased, and shrinks the buffer after each erasure as `erase_at`
        does. */
    method Remove(x: T)
      requires Valid()
      modifies this, arr
      ensures Valid() && (arr == old(arr) || fresh(arr))
      ensures Contents() == RemoveAll(old(Contents()), x, cmp)
      ensures capacity == CapacityAfterErasures(old(capacity), old(size), old(size) - size)
    {
      if size == 0 {
        return;
      }
      var index: int := 0;
      while true
        invariant Valid() && (arr == old(arr) || fresh(arr))
        invariant 0 <= index <= size <= old(size)
        invariant RemoveAll(Contents(), x, cmp) == RemoveAll(old(Contents()), x, cmp)
        invariant forall j | 0 <= j < index :: !cmp(Contents()[j], x)
        invariant capacity == CapacityAfterErasures(old(capacity), old(size), old(size) - size)
        decreases size
      {
        index := FindFromIndex(index, x);
        if index == -1 {
          RemoveAllNoMatch(Contents(), x, cmp);
          return;
        }
        ghost var c := Contents();
        RemoveAllErase(c, index, x, cmp);
        var s := EraseAt(index);
        assert forall j | 0 <= j < index :: Contents()[j] == c[j];
      }
    }

    /** Moves the items into a fresh buffer of `newCapacity` slots; refuses
        to drop items. */
    method Resize(newCapacity: nat) returns (s: Status)
      requires Sized()
      modifies this
      ensures Sized()
      ensures s == if newCapacity < old(size) then Failure(LogicError) else Success
      ensures s.Failure? ==> unchanged(this)
      ensures s.Success? ==> fresh(arr) && capacity == newCapacity && size == old(size)
      ensures s.Success? ==> Contents() == old(Contents())
    {
      if newCapacity < size {
        return Failure(LogicError);
      }
      var temp := new T[newCapacity];
      for i := 0 to size
        modifies temp
        invariant forall j | 0 <= j < i :: temp[j] == arr[j]
      {
        temp[i] := arr[i];
      }
      arr := temp;
      capacity := newCapacity;
      return Success;
    }

    /** Doubles a full buffer before an insertion, or halves a non-empty
        buffer at most a quarter full after a deletion; the resize it asks
        for never loses items. */
    method CheckResize(willAdd: bool)
      requires Valid()
      modifies this
      ensures Valid() && (arr == old(arr) || fresh(arr))
      ensures size == old(size) && Contents() == old(Contents())
      ensures willAdd ==> capacity == if old(size) == old(capacity) then 2 * old(capacity) else old(capacity)
      ensures willAdd ==> size < capacity
      ensures !willAdd ==> capacity == ShrunkCapacity(size, old(capacity))
    {
      if willAdd && size >= capacity {
        var s := Resize(capacity * 2);
        assert s == Success;
      } else if !willAdd && size > 0 && size <= capacity / 4 {
        var s := Resize(capacity / 2);
        assert s == Success;
      }
    }

    /** Forgets the last item, then applies the shrink check. */
    method PostDeleteActions()
      requires Valid() && size > 0
      modifies this
      ensures Valid() && (arr == old(arr) || fresh(arr))
      ensures Contents() == old(Contents()[..size - 1])
      ensures size == old(size) - 1 && capacity == ShrunkCapacity(size, old(capacity))
    {
      size := size - 1;
      CheckResize(false);
    }
  }
}
