/** The growable array under every list of the program. */
module GrowArray {

  /** The capacity after growing from `capacity`. */
  function Grown(capacity: nat): nat {
    (capacity + 1) * 2
  }

  function Pow2(k: nat): (p: nat)
    ensures p >= 1
  {
    if k == 0 then 1 else 2 * Pow2(k - 1)
  }

  /** The capacities that growth from an empty array passes through. */
  function CapacityAfter(growths: nat): nat {
    if growths == 0 then 0 else Grown(CapacityAfter(growths - 1))
  }

  /** Elements moved by that many reallocations, each moving a full array. */
  function MovedBy(growths: nat): nat {
    if growths == 0 then 0 else MovedBy(growths - 1) + CapacityAfter(growths - 1)
  }

  /** The k-th capacity is 2^(k+1) - 2, and all moves up to it number that less 2k. */
  lemma {:induction false} CapacityForm(growths: nat)
    ensures CapacityAfter(growths) == Pow2(growths + 1) - 2
    ensures MovedBy(growths) == CapacityAfter(growths) - 2 * growths
  {
    if growths > 0 {
      CapacityForm(growths - 1);
    } else {
      assert Pow2(1) == 2;
    }
  }

  /** Each element added pays for at most two moves. */
  lemma MovesAreAmortized(growths: nat, size: nat)
    requires growths > 0 ==> CapacityAfter(growths - 1) < size
    ensures MovedBy(growths) <= 2 * size
  {
    CapacityForm(growths);
  }

  class Array<T(0)> {
    var data: array<T>
    var size: nat
    ghost var growths: nat
    /** Elements moved by all reallocations so far. */
    ghost var moved: nat

    ghost predicate Valid()
      reads this
    {
      && size <= data.Length
      && data.Length == CapacityAfter(growths)
      && moved == MovedBy(growths)
      && (growths > 0 ==> CapacityAfter(growths - 1) < size)
    }

    ghost function Contents(): seq<T>
      reads this, data
      requires size <= data.Length
    {
      data[..size]
    }

    constructor ()
      ensures Valid() && size == 0 && moved == 0 && fresh(data)
    {
      data := new T[0];
      size, growths, moved := 0, 0, 0;
    }

    method Realloc(capacity: nat)
      requires size <= data.Length && size <= capacity
      modifies this`data
      ensures fresh(data) && data.Length == capacity && Contents() == old(Contents())
    {
      var bigger, before := new T[capacity], data;
      for k := 0 to size
        invariant forall j :: 0 <= j < k ==> bigger[j] == before[j]
      {
        bigger[k] := before[k];
      }
      data := bigger;
    }

    /** Appends one element; the reallocations of n additions from empty move at most 2n elements. */
    method Add(element: T)
      requires Valid()
      modifies this, data
      ensures Valid() && Contents() == old(Contents()) + [element] && moved <= 2 * size
      ensures data == old(data) || fresh(data)
    {
      if size + 1 > data.Length {
        growths, moved := growths + 1, moved + size;
        Realloc(Grown(data.Length));
      }
      data[size] := element;
      size := size + 1;
      MovesAreAmortized(growths, size);
    }
  }
}
