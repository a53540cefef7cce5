/** payload/sp/CircularBuffer.hh: the fixed-capacity wrapping queue. */
module CircularBufferModule {
  import opened Wrappers
  import opened Bytes

  /** Where logical position `k` is stored when the front is at `front`. */
  function Slot(front: nat, k: nat, capacity: nat): (slot: nat)
    requires front < capacity && k <= capacity
    ensures slot == if front + k < capacity then front + k else front + k - capacity
  {
    DivModUnique(front + k, capacity, if front + k < capacity then 0 else 1,
                 if front + k < capacity then front + k else front + k - capacity);
    (front + k) % capacity
  }

  /** Moving what follows `index` down by one, and then dropping the last place, deletes that element. */
  lemma Deleted<T>(before: seq<T>, shifted: seq<T>, index: nat)
    requires index < |before| == |shifted|
    requires forall k :: 0 <= k < |before| - 1 ==> shifted[k] == before[if index <= k then k + 1 else k]
    ensures shifted[..|before| - 1] == before[..index] + before[index + 1..]
  {
  }

  class CircularBuffer<T(0)> {
    const vals: array<T>
    var frontIndex: nat
    var size: nat

    ghost predicate Valid()
      reads this
    {
      frontIndex < vals.Length && size <= vals.Length
    }

    /** The queue, front first. */
    ghost function Contents(): (s: seq<T>)
      requires Valid()
      reads this, vals
      ensures |s| == size
    {
      seq(size, k requires 0 <= k < size && Valid() reads this, vals => vals[Slot(frontIndex, k, vals.Length)])
    }

    constructor (capacity: nat)
      requires capacity > 0
      ensures Valid() && Contents() == [] && fresh(vals) && vals.Length == capacity
    {
      vals, frontIndex, size := new T[capacity], 0, 0;
    }

    predicate Empty()
      reads this
    {
      size == 0
    }

    predicate Full()
      reads this
    {
      size == vals.Length
    }

    method Front() returns (r: Option<T>)
      requires Valid()
      ensures r == if Contents() == [] then None else Some(Contents()[0])
    {
      if Empty() {
        return None;
      }
      return Some(vals[frontIndex]);
    }

    method Back() returns (r: Option<T>)
      requires Valid()
      ensures r == if Contents() == [] then None else Some(Contents()[|Contents()| - 1])
    {
      if Empty() {
        return None;
      }
      return Some(vals[Slot(frontIndex, size - 1, vals.Length)]);
    }

    /** Reading through `operator[]`. */
    method Get(index: nat) returns (val: T)
      requires Valid() && index < |Contents()|
      ensures val == Contents()[index]
    {
      val := vals[Slot(frontIndex, index, vals.Length)];
    }

    /** Writing through `operator[]`. */
    method Set(index: nat, val: T)
      requires Valid() && index < |Contents()|
      modifies vals
      ensures Valid() && Contents() == old(Contents())[index := val]
    {
      vals[Slot(frontIndex, index, vals.Length)] := val;
    }

    method PushBack(val: T) returns (ok: bool)
      requires Valid()
      modifies this, vals
      ensures Valid() && ok == (|old(Contents())| < vals.Length)
      ensures Contents() == if ok then old(Contents()) + [val] else old(Contents())
    {
      if Full() {
        return false;
      }
      vals[Slot(frontIndex, size, vals.Length)] := val;
      size := size + 1;
      return true;
    }

    method PopFront()
      requires Valid() && Contents() != []
      modifies this
      ensures Valid() && Contents() == old(Contents())[1..]
    {
      frontIndex := Slot(frontIndex, 1, vals.Length);
      size := size - 1;
    }

    /** Deletes element `index`, for every wrap position of the front. */
    method Remove(index: nat)
      requires Valid() && index < |Contents()|
      modifies this, vals
      ensures Valid() && Contents() == old(Contents())[..index] + old(Contents())[index + 1..]
    {
      ghost var before := Contents();
      var i := index;
      while i < size - 1
        invariant Valid() && frontIndex == old(frontIndex) && size == old(size)
        invariant index <= i < size
        invariant forall k :: 0 <= k < size ==> Contents()[k] == before[if index <= k < i then k + 1 else k]
      {
        var next := Get(i + 1);
        Set(i, next);
        i := i + 1;
      }
      ghost var shifted := Contents();
      Deleted(before, shifted, index);
      size := size - 1;
      assert Contents() == shifted[..size];
    }

    method Contains(needle: T, eq: (T, T) -> bool) returns (found: bool)
      requires Valid()
      ensures found == exists k :: 0 <= k < |Contents()| && eq(Contents()[k], needle)
    {
      var i := 0;
      while i < size
        invariant i <= size
        invariant forall k :: 0 <= k < i ==> !eq(Contents()[k], needle)
      {
        var val := Get(i);
        if eq(val, needle) {
          return true;
        }
        i := i + 1;
      }
      return false;
    }

    method Reset()
      requires Valid()
      modifies this
      ensures Valid() && Contents() == []
    {
      while !Empty()
        invariant Valid()
        decreases size
      {
        PopFront();
      }
    }
  }
}
