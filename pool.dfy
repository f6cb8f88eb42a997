/** The fixed-size object pool (ObjectPool.hpp): `slots` is the pre-allocated
    block of objects and `freeList` a stack of the slots that are available.
    Pointers into the pool are modelled as slot indices. The ghost set
    `inUse` names the slots handed out and not yet released; `Valid()` states
    that free slots and slots in use partition the pool. */
module Pool {
  import opened Wrappers

  /** The slot indices 0, 1, ..., n - 1 in increasing order. */
  function Range(n: nat): (r: seq<nat>)
    ensures |r| == n
    ensures forall i :: 0 <= i < n ==> r[i] == i
  {
    if n == 0 then [] else Range(n - 1) + [n - 1]
  }

  class ObjectPool<T(0)> {
    const slots: array<T>
    var freeList: seq<nat>
    ghost var inUse: set<nat>

    ghost predicate Valid()
      reads this
    {
      && (forall i :: 0 <= i < |freeList| ==> freeList[i] < slots.Length)
      && (forall i, j :: 0 <= i < j < |freeList| ==> freeList[i] != freeList[j])
      && (forall i :: 0 <= i < |freeList| ==> freeList[i] !in inUse)
      && (forall s :: s in inUse ==> s < slots.Length)
      && (forall s :: 0 <= s < slots.Length ==> s in inUse || s in freeList)
    }

    /** Every slot starts on the free list, once, in increasing order. */
    constructor (size: nat)
      ensures Valid() && fresh(slots)
      ensures slots.Length == size
      ensures freeList == Range(size) && inUse == {}
    {
      slots := new T[size];
      freeList := [];
      inUse := {};
      new;
      var i := 0;
      while i < size
        invariant 0 <= i <= size
        invariant freeList == Range(i) && inUse == {}
      {
        freeList := freeList + [i];
        i := i + 1;
      }
      forall s | 0 <= s < size ensures s in freeList {
        assert freeList[s] == s;
      }
    }

    /** Takes the most recently freed slot and stores `value` in it (the
        source constructs the object in place from the forwarded arguments).
        Returns None, changing nothing, when the free list is empty. */
    method Acquire(value: T) returns (slot: Option<nat>)
      requires Valid()
      modifies this, slots
      ensures Valid()
      ensures old(freeList) == [] ==> slot == None
      ensures slot == None ==> freeList == old(freeList) && inUse == old(inUse) && slots[..] == old(slots[..])
      ensures old(freeList) != [] ==>
        && slot == Some(old(freeList)[|old(freeList)| - 1])
        && freeList == old(freeList)[..|old(freeList)| - 1]
      ensures slot.Some? ==>
        && slot.value < slots.Length
        && slot.value !in old(inUse)
        && inUse == old(inUse) + {slot.value}
        && slots[..] == old(slots[..])[slot.value := value]
    {
      if freeList == [] {
        return None;
      }
      var last := |freeList| - 1;
      var obj := freeList[last];
      freeList := freeList[..last];
      inUse := inUse + {obj};
      slots[obj] := value;
      slot := Some(obj);
      assert forall s :: 0 <= s < slots.Length && s != obj && s in old(freeList) ==> s in freeList by {
        forall s | 0 <= s < slots.Length && s != obj && s in old(freeList)
          ensures s in freeList
        {
          var i :| 0 <= i < |old(freeList)| && old(freeList)[i] == s;
          assert i != last;
          assert freeList[i] == s;
        }
      }
    }

    /** Puts a slot that is in use back on top of the free list. */
    method Release(slot: nat)
      requires Valid()
      requires slot in inUse
      modifies this
      ensures Valid()
      ensures freeList == old(freeList) + [slot]
      ensures inUse == old(inUse) - {slot}
    {
      freeList := freeList + [slot];
      inUse := inUse - {slot};
    }
  }

  /** A release followed by an acquire hands back the released slot. */
  method ReleaseThenAcquire<T(0)>(pool: ObjectPool<T>, slot: nat, value: T) returns (again: Option<nat>)
    requires pool.Valid() && slot in pool.inUse
    modifies pool, pool.slots
    ensures pool.Valid()
    ensures again == Some(slot)
    ensures pool.freeList == old(pool.freeList) && pool.inUse == old(pool.inUse)
  {
    pool.Release(slot);
    again := pool.Acquire(value);
  }
}
