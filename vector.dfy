/**
 * The kernel's growable array (`kernel/vector.h`): a heap buffer `mem` of
 * `capacity` slots of which the first `length` hold the elements.
 *
 * Other modules that keep a vector as a field hold its contents as a
 * sequence and update it with the functions below, which the methods of
 * `Vector` are proved against.
 */
module Vectors {
  import opened Types
  import opened Math

  /** The smallest capacity `append` grows an empty or full vector to. */
  const MIN_GROWTH: u32 := 64

  /**
   * `unstable_remove(i)` on the contents: the last element moves into slot
   * `i` and the vector is one shorter.
   */
  function UnstableRemoved<T>(s: seq<T>, i: nat): (r: seq<T>)
    requires i < |s|
    ensures |r| == |s| - 1
    ensures forall k :: 0 <= k < |r| && k != i ==> r[k] == s[k]
    ensures i < |r| ==> r[i] == s[|s| - 1]
  {
    if i == |s| - 1 then s[..i] else s[..i] + [s[|s| - 1]] + s[i + 1..|s| - 1]
  }

  /** What `unstable_remove` leaves is the old contents less the removed element, in some order. */
  lemma UnstableRemovedMultiset<T>(s: seq<T>, i: nat)
    requires i < |s|
    ensures multiset(UnstableRemoved(s, i)) == multiset(s) - multiset{s[i]}
  {
    var n := |s| - 1;
    if i == n {
      assert s == s[..i] + [s[i]];
    } else {
      assert s == s[..i] + [s[i]] + s[i + 1..n] + [s[n]];
    }
  }

  /** The first position of `x` in `s`, if there is one. */
  function FirstIndex<T(==)>(s: seq<T>, x: T): (r: Option<nat>)
    ensures r.None? <==> x !in s
    ensures r.Some? ==> r.value < |s| && s[r.value] == x && x !in s[..r.value]
  {
    if |s| == 0 then None
    else if s[0] == x then Some(0)
    else match FirstIndex(s[1..], x)
      case None => None
      case Some(i) => assert s[..i + 1] == [s[0]] + s[1..][..i]; Some(i + 1)
  }

  /** The capacity `append` asks for when the vector is full: twice the old one in 32 bits, at least 64. */
  function GrownCapacity(capacity: u32): (c: u32)
    ensures capacity < 0x8000_0000 ==> c == Max(2 * capacity, MIN_GROWTH as int)
  {
    Max((capacity * 2) % U32_MOD, MIN_GROWTH as int)
  }

  class Vector<T(0)> {
    var mem: array<T>
    var length: u32
    var capacity: u32

    ghost predicate Valid()
      reads this
    {
      mem.Length == capacity as int && length <= capacity
    }

    /** The elements, in order. */
    ghost function Contents(): seq<T>
      reads this, mem
      requires Valid()
    {
      mem[..length]
    }

    /** `Vector()`: no buffer, nothing stored. */
    constructor Empty()
      ensures Valid() && Contents() == [] && capacity == 0
    {
      mem := new T[0];
      length, capacity := 0, 0;
    }

    /** `Vector(initial_capacity)`: an empty vector with room for `initialCapacity` elements. */
    constructor (initialCapacity: u32)
      ensures Valid() && Contents() == [] && capacity == initialCapacity
    {
      mem := new T[initialCapacity];
      length, capacity := 0, initialCapacity;
    }

    /**
     * `expand_capacity`: a request no larger than the capacity does nothing;
     * otherwise the elements are copied into a new buffer of the requested
     * size.
     */
    method ExpandCapacity(newCapacity: u32)
      requires Valid()
      modifies this
      ensures Valid() && Contents() == old(Contents()) && length == old(length)
      ensures capacity == Max(old(capacity) as int, newCapacity as int)
      ensures newCapacity <= old(capacity) ==> mem == old(mem)
      ensures newCapacity > old(capacity) ==> fresh(mem)
    {
      if newCapacity <= capacity {
        return;
      }
      var newMem := new T[newCapacity];
      var i: u32 := 0;
      while i < length
        invariant mem == old(mem) && length == old(length) && capacity == old(capacity)
        invariant Valid() && newMem.Length > capacity as int
        invariant i <= length && newMem[..i] == mem[..i]
      {
        newMem[i] := mem[i];
        i := i + 1;
      }
      mem := newMem;
      capacity := newCapacity;
    }

    /**
     * `append`: grow when full, then store `obj` after the last element.
     * When the doubled capacity wraps round in 32 bits and no longer exceeds
     * the length, or `length + 1` itself wraps to 0, the source writes past
     * its buffer; here that is `ok == false` with nothing stored.
     */
    method Append(obj: T) returns (ok: bool)
      requires Valid()
      modifies this, mem
      ensures Valid()
      ensures ok <==> (old(length) < 0xFFFF_FFFF &&
        (old(length) < old(capacity) || old(length) < GrownCapacity(old(capacity))))
      ensures ok ==> Contents() == old(Contents()) + [obj]
      ensures !ok ==> Contents() == old(Contents())
      ensures old(length) == old(capacity) && ok ==> capacity == GrownCapacity(old(capacity))
      ensures old(length) < old(capacity) ==> capacity == old(capacity)
    {
      if length == 0xFFFF_FFFF {
        return false;
      }
      if length + 1 > capacity {
        ExpandCapacity(GrownCapacity(capacity));
      }
      if length >= capacity {
        return false;
      }
      mem[length] := obj;
      length := length + 1;
      ok := true;
    }

    /** `unstable_remove`: the index must be in range; the last element fills its slot. */
    method UnstableRemove(index: u32)
      requires Valid() && index < length
      modifies this, mem
      ensures Valid() && mem == old(mem) && capacity == old(capacity)
      ensures Contents() == UnstableRemoved(old(Contents()), index as nat)
    {
      mem[index] := mem[length - 1];
      length := length - 1;
    }

    /** `operator[]`: the index must be in range. */
    method Get(index: u32) returns (v: T)
      requires Valid() && index < length
      ensures v == Contents()[index]
    {
      v := mem[index];
    }
  }
}
