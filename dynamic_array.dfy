/**
 * The generic growable array of dynamic_array.h / dynamic_array.c, modelled element by element:
 * `data` holds whole elements instead of `type_size`-byte cells, and allocation never fails.
 */
module DynamicArray {
  import opened Options

  /** ARRAY_INITIAL_CAPACITY */
  const ArrayInitialCapacity: int := 2

  /** The capacity array_change_capacity allocates: the request, or twice the old capacity when the request is not positive. */
  function NewCapacity(capacity: int, request: int): int {
    if request <= 0 then capacity * 2 else request
  }

  /**
   * The capacity array_remove_last leaves once the size has dropped to `size`: when the size is
   * below half the capacity the capacity is halved (the product `capacity * 0.5` truncated to an
   * integer), and a halved capacity of 0 is a non-positive request, which doubles instead.
   */
  function ShrunkCapacity(size: int, capacity: int): int {
    if 2 * size < capacity then NewCapacity(capacity, capacity / 2) else capacity
  }

  /** The capacity array_clear leaves after `size` calls of array_remove_last. */
  function ClearedCapacity(size: nat, capacity: int): int
    decreases size
  {
    if size == 0 then capacity else ClearedCapacity(size - 1, ShrunkCapacity(size - 1, capacity))
  }

  /** Shrinking never loses an element and never reaches capacity 0. */
  lemma ShrunkCapacityBounds(size: int, capacity: int)
    requires 0 <= size < capacity
    ensures size <= ShrunkCapacity(size, capacity) && 1 <= ShrunkCapacity(size, capacity)
  {
  }

  /** array_clear leaves a positive capacity, whatever the size it started from. */
  lemma {:induction false} ClearedCapacityPositive(size: nat, capacity: int)
    requires size <= capacity && 1 <= capacity
    ensures 1 <= ClearedCapacity(size, capacity)
    decreases size
  {
    if size > 0 {
      ShrunkCapacityBounds(size - 1, capacity);
      ClearedCapacityPositive(size - 1, ShrunkCapacity(size - 1, capacity));
    }
  }

  /** The Array record: `capacity` slots allocated in `data`, of which the first `size` hold elements. */
  class Array<T(0)> {
    var capacity: int
    var size: int
    const typeSize: int
    var data: array<T>

    ghost predicate Valid()
      reads this
    {
      data.Length == capacity && 1 <= capacity && 0 <= size <= capacity
    }

    /** The stored elements, in order. */
    function Elements(): seq<T>
      reads this, data
      requires Valid()
    {
      data[..size]
    }

    /** _array_create (and the array_create macro): an empty array with ARRAY_INITIAL_CAPACITY slots. */
    constructor (typeSize: int)
      ensures Valid() && fresh(data)
      ensures size == 0 && capacity == ArrayInitialCapacity && this.typeSize == typeSize
      ensures Elements() == []
    {
      this.typeSize := typeSize;
      capacity := ArrayInitialCapacity;
      size := 0;
      data := new T[ArrayInitialCapacity];
    }

    /**
     * array_change_capacity: move the elements into a fresh buffer of the requested capacity, or of
     * twice the old capacity when the request is not positive. A positive request below the size
     * would make the copy overrun the new buffer, so callers must not make one.
     */
    method ChangeCapacity(newCapacity: int)
      requires Valid()
      requires newCapacity <= 0 || size <= newCapacity
      modifies this
      ensures Valid() && fresh(data)
      ensures capacity == NewCapacity(old(capacity), newCapacity)
      ensures size == old(size) && Elements() == old(Elements())
    {
      var request := newCapacity;
      if request <= 0 {
        request := capacity * 2;
      }
      var newData := new T[request];
      forall i | 0 <= i < size {
        newData[i] := data[i];
      }
      data := newData;
      capacity := request;
    }

    /** _array_at: the slot index for `index`, accepted from 0 up to and including `size`. */
    function SlotAt(index: int): (slot: Option<int>)
      reads this
      requires Valid()
      ensures slot.Some? <==> 0 <= index <= size
      ensures slot.Some? ==> slot.value == index && slot.value <= capacity
    {
      if index < 0 || index > size then None else Some(index)
    }

    /** array_get_at: the element at `index`; reading a NULL slot is undefined, so the index must hold an element. */
    function GetAt(index: int): (item: T)
      reads this, data
      requires Valid() && 0 <= index < size
      ensures item == Elements()[index]
    {
      data[index]
    }

    /** array_first: element 0 of a non-empty array. */
    function First(): (item: T)
      reads this, data
      requires Valid() && size > 0
      ensures item == Elements()[0]
    {
      GetAt(0)
    }

    /** array_last: element `size - 1` of a non-empty array. */
    function Last(): (item: T)
      reads this, data
      requires Valid() && size > 0
      ensures item == Elements()[|Elements()| - 1]
    {
      GetAt(size - 1)
    }

    /**
     * array_change_at: overwrite the slot `_array_at` returns; every other slot keeps its value.
     * The slot may be the one just past the elements, as array_add uses it, if the buffer has it.
     */
    method ChangeAt(index: int, item: T)
      requires Valid() && SlotAt(index).Some? && index < capacity
      modifies data
      ensures data[..] == old(data[..])[index := item]
      ensures index < size ==> Elements() == old(Elements())[index := item]
      ensures index == size ==> Elements() == old(Elements())
    {
      data[index] := item;
    }

    /** array_enumerate_begin / array_enumerate_end: visit the elements 0 .. size-1 in order. */
    method Enumerate() returns (visited: seq<T>)
      requires Valid()
      ensures visited == Elements()
    {
      visited := [];
      var i := 0;
      while i < size
        invariant 0 <= i <= size
        invariant visited == Elements()[..i]
      {
        visited := visited + [GetAt(i)];
        i := i + 1;
      }
    }

    /**
     * array_insert_at with the off-by-one of the source corrected: grow when the new size reaches
     * the capacity (the same test as the source), copy the old elements and shift the tail one slot
     * up starting from the old size. An index outside [0, size] changes nothing.
     */
    method InsertAt(index: int, item: T)
      requires Valid()
      modifies this, data
      ensures Valid() && (data == old(data) || fresh(data))
      ensures 0 <= index <= old(size) ==>
        Elements() == old(Elements())[..index] + [item] + old(Elements())[index..] &&
        capacity == (if old(size) + 1 >= old(capacity) then 2 * old(capacity) else old(capacity))
      ensures !(0 <= index <= old(size)) ==>
        Elements() == old(Elements()) && size == old(size) && capacity == old(capacity)
    {
      if index < 0 || index > size {
        return;
      }
      if size + 1 >= capacity {
        ChangeCapacity(capacity * 2);
      }
      size := size + 1;
      ShiftUpAndPlace(index, item);
    }

    /**
     * The shifting loop of array_insert_at, run once `size` already counts the new element: slots
     * size-1 down to index+1 take their lower neighbour, then `item` goes to `index`.
     */
    method ShiftUpAndPlace(index: int, item: T)
      requires Valid() && 0 <= index < size
      modifies data
      ensures Elements() == old(Elements())[..index] + [item] + old(Elements())[index..size - 1]
    {
      ghost var before := Elements();
      var i := size - 1;
      while i > index
        invariant index <= i <= size - 1
        invariant forall k :: 0 <= k <= i ==> data[k] == before[k]
        invariant forall k :: i < k < size ==> data[k] == before[k - 1]
      {
        data[i] := data[i - 1];
        i := i - 1;
      }
      data[index] := item;
    }

    /** array_add: append after doubling the capacity when it is full. */
    method Add(item: T)
      requires Valid()
      modifies this, data
      ensures Valid() && (data == old(data) || fresh(data))
      ensures Elements() == old(Elements()) + [item]
      ensures capacity == if old(size) >= old(capacity) then 2 * old(capacity) else old(capacity)
    {
      if size >= capacity {
        ChangeCapacity(capacity * 2);
      }
      ChangeAt(size, item);
      size := size + 1;
      assert Elements() == old(Elements()) + [item];
    }

    /**
     * array_remove_last: on a non-empty array, clear the last slot, decrement the size and halve
     * the capacity when less than half of it is used. An empty array is left as it is.
     */
    method RemoveLast()
      requires Valid()
      modifies this, data
      ensures Valid() && (data == old(data) || fresh(data))
      ensures old(size) == 0 ==> size == 0 && capacity == old(capacity) && Elements() == []
      ensures old(size) > 0 ==>
        Elements() == old(Elements())[..old(size) - 1] &&
        capacity == ShrunkCapacity(old(size) - 1, old(capacity))
    {
      if IsArrayEmpty(this) {
        return;
      }
      ghost var before := Elements();
      size := size - 1;
      assert Elements() == before[..size];
      if 2 * size < capacity {
        ChangeCapacity(capacity / 2);
      }
    }

    /** The loop of array_remove_at: every element after `index` moves down one slot. */
    method ShiftDown(index: int)
      requires Valid() && 0 <= index < size
      modifies data
      ensures data[..size - 1] == old(Elements())[..index] + old(Elements())[index + 1..]
      ensures data[size - 1] == old(data[size - 1])
    {
      ghost var before := Elements();
      var i := index;
      while i < size - 1
        invariant index <= i <= size - 1
        invariant forall k :: 0 <= k < index ==> data[k] == before[k]
        invariant forall k :: index <= k < i ==> data[k] == before[k + 1]
        invariant forall k :: i <= k < size ==> data[k] == before[k]
      {
        data[i] := data[i + 1];
        i := i + 1;
      }
    }

    /**
     * array_remove_at: for 0 <= index < size, shift the elements after `index` down one slot and
     * drop the last; an empty array, `index == size` or an index out of range changes nothing.
     */
    method RemoveAt(index: int)
      requires Valid()
      modifies this, data
      ensures Valid() && (data == old(data) || fresh(data))
      ensures IsIndexInBounds(old(size), index) ==>
        Elements() == old(Elements())[..index] + old(Elements())[index + 1..] &&
        capacity == ShrunkCapacity(old(size) - 1, old(capacity))
      ensures !IsIndexInBounds(old(size), index) ==>
        Elements() == old(Elements()) && size == old(size) && capacity == old(capacity)
    {
      if IsArrayEmpty(this) {
        return;
      }
      if index < 0 || index > size {
        return;
      }
      if index == size {
        return;
      }
      ShiftDown(index);
      RemoveLast();
    }

    /** array_clear: call array_remove_last once per element. */
    method Clear()
      requires Valid()
      modifies this, data
      ensures Valid() && (data == old(data) || fresh(data))
      ensures size == 0 && Elements() == []
      ensures capacity == ClearedCapacity(old(size), old(capacity))
    {
      if IsArrayEmpty(this) {
        return;
      }
      var n := size;
      var i := 0;
      while i < n
        invariant 0 <= i <= n && size == n - i
        invariant Valid() && (data == old(data) || fresh(data))
        invariant ClearedCapacity(old(size), old(capacity)) == ClearedCapacity(size, capacity)
      {
        RemoveLast();
        i := i + 1;
      }
    }

    /**
     * array_swap: exchange the elements at `a` and `b` when both lie in [0, size); otherwise, or on
     * an empty array, nothing changes.
     */
    method Swap(a: int, b: int)
      requires Valid()
      modifies data
      ensures IsIndexInBounds(size, a) && IsIndexInBounds(size, b) ==>
        Elements() == old(Elements())[a := old(Elements())[b]][b := old(Elements())[a]]
      ensures !(IsIndexInBounds(size, a) && IsIndexInBounds(size, b)) ==> Elements() == old(Elements())
      ensures multiset(Elements()) == multiset(old(Elements()))
    {
      if IsArrayEmpty(this) {
        return;
      }
      if a < 0 || b < 0 || a >= size || b >= size {
        return;
      }
      var temp := GetAt(a);
      ChangeAt(a, GetAt(b));
      ChangeAt(b, temp);
    }
  }

  /** array_size: the number of stored elements, or -1 for a NULL array. */
  function ArraySize<T(0)>(a: Array?<T>): (n: int)
    reads a
    ensures a == null ==> n == -1
    ensures a != null && a.Valid() ==> n == a.size && n >= 0
  {
    if a == null then -1 else a.size
  }

  /** array_capacity: the number of allocated slots, or -1 for a NULL array. */
  function ArrayCapacity<T(0)>(a: Array?<T>): (n: int)
    reads a
    ensures a != null && a.Valid() ==> n == a.capacity && n >= 1
    ensures a == null ==> n == -1
  {
    if a == null then -1 else a.capacity
  }

  /** is_array_empty: true for a NULL array and for one that holds no element. */
  predicate IsArrayEmpty<T(0)>(a: Array?<T>)
    reads a
    ensures a == null ==> IsArrayEmpty(a)
    ensures a != null && a.Valid() ==> (IsArrayEmpty(a) <==> a.size == 0)
  {
    a == null || ArraySize(a) <= 0
  }

  /**
   * is_valid_index as written: the array must be non-NULL and non-empty and the index must satisfy
   * `index > 0 && index < size`, so index 0 is rejected although it holds the first element.
   */
  predicate IsValidIndex<T(0)>(a: Array?<T>, index: int)
    reads a
    ensures a != null && a.Valid() ==> (IsValidIndex(a, index) <==> 1 <= index < a.size)
  {
    a != null && !IsArrayEmpty(a) && index > 0 && index < a.size
  }

  /** Index 0 of a non-empty array holds an element, yet is_valid_index rejects it. */
  lemma IsValidIndexRejectsFirstElement(a: Array<int>)
    requires a.Valid() && a.size > 0
    ensures |a.Elements()| > 0 && !IsValidIndex(a, 0)
  {
  }

  /** The bounds test the source intends (and array_swap / array_remove_at apply): 0 <= index < size. */
  predicate IsIndexInBounds(size: int, index: int) {
    0 <= index < size
  }

  /** An index is in bounds exactly when it selects a stored element. */
  lemma IndexInBoundsSelectsElement<T(0)>(a: Array<T>, index: int)
    requires a.Valid()
    ensures IsIndexInBounds(a.size, index) <==> 0 <= index < |a.Elements()|
    ensures IsIndexInBounds(a.size, index) ==> a.GetAt(index) == a.Elements()[index]
  {
  }

  /** array_find: the least index holding `item`, or -1 when it is absent or the array is NULL or empty. */
  method ArrayFind<T(0, ==)>(a: Array?<T>, item: T) returns (index: int)
    requires a != null ==> a.Valid()
    ensures a == null ==> index == -1
    ensures a != null ==> (index == -1 <==> item !in a.Elements())
    ensures index != -1 ==>
      a != null && 0 <= index < a.size && a.Elements()[index] == item && item !in a.Elements()[..index]
  {
    if a == null {
      return -1;
    }
    if IsArrayEmpty(a) {
      return -1;
    }
    var i := 0;
    while i < ArraySize(a)
      invariant 0 <= i <= a.size
      invariant item !in a.Elements()[..i]
    {
      if a.GetAt(i) != item {
        i := i + 1;
        continue;
      }
      return i;
    }
    return -1;
  }

  /**
   * array_insert_at as written increments `size` before it grows the buffer and starts the shifting
   * loop at the new size. These functions give, for an array of `size` elements in a buffer of
   * `capacity` slots, the capacity after the growth test, the number of elements the growth copy
   * reads out of the old buffer, and the slots the insertion writes, in order.
   */
  function AsWrittenInsertCapacity(size: int, capacity: int): int {
    if size + 1 >= capacity then capacity * 2 else capacity
  }

  /** array_change_capacity copies `size` elements, and `size` already counts the new one: 0 when there is no growth. */
  function AsWrittenGrowthCopy(size: int, capacity: int): int {
    if size + 1 >= capacity then size + 1 else 0
  }

  /** The shifting loop, from slot `from` down to slot `index + 1`. */
  function AsWrittenShiftSlots(from: int, index: int): seq<int>
    decreases from - index
  {
    if from <= index then [] else [from] + AsWrittenShiftSlots(from - 1, index)
  }

  /** Every slot array_insert_at writes: the shifting loop from the new size down, then `index`. */
  function AsWrittenInsertWrites(size: int, index: int): seq<int> {
    AsWrittenShiftSlots(size + 1, index) + [index]
  }

  /** Some slot the as-written insertion writes lies outside the buffer it has after the growth test. */
  predicate AsWrittenWritesOutside(size: int, capacity: int, index: int) {
    var writes := AsWrittenInsertWrites(size, index);
    exists k :: 0 <= k < |writes| && writes[k] >= AsWrittenInsertCapacity(size, capacity)
  }

  /** The shifting loop writes the slots from `from` down to `index + 1`, starting with `from`. */
  lemma {:induction false} AsWrittenShiftSlotsRange(from: int, index: int)
    ensures forall k :: 0 <= k < |AsWrittenShiftSlots(from, index)| ==> index < AsWrittenShiftSlots(from, index)[k] <= from
    ensures from > index ==> |AsWrittenShiftSlots(from, index)| > 0 && AsWrittenShiftSlots(from, index)[0] == from
    decreases from - index
  {
    if from > index {
      AsWrittenShiftSlotsRange(from - 1, index);
    }
  }

  /**
   * Whatever the index, the as-written insertion writes a slot outside its buffer exactly when one
   * element fills capacity 1, and its growth copy reads past the old buffer exactly when the array
   * was full.
   */
  lemma AsWrittenInsertOverrun(size: int, capacity: int, index: int)
    requires 1 <= capacity && 0 <= size <= capacity && 0 <= index <= size
    ensures AsWrittenWritesOutside(size, capacity, index) <==> size == capacity == 1
    ensures AsWrittenGrowthCopy(size, capacity) > capacity <==> size == capacity
  {
    var writes := AsWrittenInsertWrites(size, index);
    AsWrittenShiftSlotsRange(size + 1, index);
    assert writes[0] == size + 1;
    assert forall k :: 0 <= k < |writes| ==> writes[k] <= size + 1;
  }

  /** create, add, remove_last, add: the array holds one element in a buffer of capacity 1. */
  method ReachCapacityOne() returns (a: Array<int>)
    ensures a.Valid() && a.capacity == 1 && a.size == 1
    ensures AsWrittenInsertWrites(a.size, 0)[0] >= AsWrittenInsertCapacity(a.size, a.capacity)
    ensures AsWrittenWritesOutside(a.size, a.capacity, 0)
  {
    a := new Array<int>(4);
    a.Add(7);
    a.RemoveLast();
    a.Add(8);
  }
}
