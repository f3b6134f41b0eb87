/** `Vector` and `DescriptorVector` over their mutable buffers. */
module Vectors {
  import opened Tables

  /** A vector; what its default constructor makes of an element is `blank`. */
  class Vector<T(0)> {
    const blank: T
    const initCapacity: nat
    const capacityInc: nat
    var buffer: array<T>
    var count: nat
    var size: nat

    ghost predicate Valid()
      reads this
    {
      && initCapacity > 0 && capacityInc > 0
      && (buffer.Length == 0 || buffer.Length >= initCapacity)
      && count <= size <= buffer.Length
    }

    ghost function Slots(): (s: seq<T>)
      requires Valid()
      reads this, buffer
      ensures |s| == size
    {
      buffer[..size]
    }

    constructor (blank: T, initCapacity: nat, capacityInc: nat)
      requires initCapacity > 0 && capacityInc > 0
      ensures Valid() && fresh(buffer) && count == size == 0
      ensures this.blank == blank && this.initCapacity == initCapacity && this.capacityInc == capacityInc
    {
      this.blank, this.initCapacity, this.capacityInc := blank, initCapacity, capacityInc;
      buffer := new T[0];
      count, size := 0, 0;
    }

    /** Makes room for one more element. */
    method Reserve()
      requires Valid()
      modifies this`buffer
      ensures Valid() && size < buffer.Length && (buffer == old(buffer) || fresh(buffer))
      ensures Slots() == old(Slots())
    {
      if buffer.Length == 0 || buffer.Length == size {
        var capacity := if buffer.Length == 0 then initCapacity else buffer.Length + capacityInc;
        var larger := new T[capacity](_ => blank);
        var smaller := buffer;
        for i := 0 to size
          invariant unchanged(this) && larger[..i] == smaller[..i]
        {
          larger[i] := smaller[i];
        }
        buffer := larger;
      }
    }

    method Push(e: T)
      requires Valid()
      modifies this, buffer
      ensures Valid() && (buffer == old(buffer) || fresh(buffer))
      ensures Slots() == old(Slots()) + [e] && count == old(count) + 1
    {
      Reserve();
      buffer[size] := e;
      size, count := size + 1, count + 1;
    }

    method Pop() returns (e: T)
      requires Valid() && count > 0
      modifies this`count, this`size
      ensures Valid() && count == old(count) - 1
      ensures old(Slots()) == Slots() + [e]
    {
      count, size := count - 1, size - 1;
      e := buffer[size];
    }

    /** Puts an element into a hole. */
    method Refill(i: nat, e: T)
      requires Valid() && i < size && count < size
      modifies this`count, buffer
      ensures Valid() && count == old(count) + 1
      ensures Slots() == old(Slots())[i := e]
    {
      buffer[i] := e;
      count := count + 1;
    }

    /** Clears one element; true if that leaves a hole. */
    method ClearAt(i: nat) returns (hole: bool)
      requires Valid() && i < size && count > 0
      modifies this`count, this`size, buffer
      ensures Valid() && count == old(count) - 1
      ensures hole == (old(count) > 1 && i < old(size) - 1)
      ensures Slots() == if hole then old(Slots())[i := blank] else if count > 0 then old(Slots())[..i] else []
    {
      buffer[i] := blank;
      count := count - 1;
      if count > 0 {
        if i == size - 1 {
          size := size - 1;
          hole := false;
        } else {
          hole := true;
        }
      } else {
        size := 0;
        hole := false;
      }
    }

    /** Clears all elements. */
    method Clear()
      requires Valid()
      modifies this`count, this`size, buffer
      ensures Valid() && count == size == 0
    {
      if count > 0 {
        for i := 0 to size {
          buffer[i] := blank;
        }
        count := 0;
      }
      size := 0;
    }
  }

  class DescriptorVector<T(0)> {
    const data: Vector<T>
    const removed: Vector<nat>

    ghost predicate Apart()
      reads this, data, removed
    {
      data as object != removed && data.buffer as object != removed.buffer
    }

    ghost function State(): (t: Table<T>)
      requires data.Valid() && removed.Valid()
      reads this, data, data.buffer, removed, removed.buffer
    {
      Table(data.Slots(), removed.Slots())
    }

    /** The counts agree with the slots: the number of elements is the size less the holes. */
    ghost predicate Valid()
      reads this, data, data.buffer, removed, removed.buffer
    {
      Whole() && Sound(State(), data.blank)
    }

    constructor (blank: T, dataCapacity: nat, dataInc: nat, removedCapacity: nat, removedInc: nat)
      requires dataCapacity > 0 && dataInc > 0 && removedCapacity > 0 && removedInc > 0
      ensures Valid() && fresh(data) && fresh(data.buffer) && fresh(removed) && fresh(removed.buffer)
      ensures data.blank == blank && State() == Table([], [])
    {
      data := new Vector(blank, dataCapacity, dataInc);
      removed := new Vector(0, removedCapacity, removedInc);
    }

    /** The vectors with their counts. */
    ghost predicate Whole()
      reads this, data, removed
    {
      && Apart() && data.Valid() && removed.Valid()
      && removed.count == removed.size && data.count == data.size - removed.size
    }

    /** Stores an element in the slot that was freed last. */
    method FillHole(e: T) returns (i: nat)
      requires Whole() && removed.count > 0 && removed.Slots()[removed.size - 1] < data.size
      modifies data`count, data.buffer, removed`count, removed`size
      ensures Whole()
      ensures i == old(removed.Slots())[old(removed.size) - 1]
      ensures data.Slots() == old(data.Slots())[i := e]
      ensures removed.Slots() == old(removed.Slots())[..old(removed.size) - 1]
    {
      i := removed.Pop();
      data.Refill(i, e);
    }

    /** Stores an element in a freed slot if there is one; the handle was not in use. */
    method Insert(e: T) returns (i: nat)
      requires Valid()
      modifies data, data.buffer, removed, removed.buffer
      ensures Valid() && NextHandle(old(State())) <= |old(State()).slots|
      ensures i == NextHandle(old(State())) && State() == Add(old(State()), e)
      ensures i !in Live(old(State())) && Live(State()) == Live(old(State()))[i := e]
      ensures data.buffer == old(data.buffer) || fresh(data.buffer)
      ensures removed.buffer == old(removed.buffer)
    {
      hide Live, Sound, Add, NextHandle;
      ghost var t := State();
      AddIsMapUpdate(t, e, data.blank);
      AddCases(t, e, data.blank);
      if removed.count > 0 {
        i := FillHole(e);
      } else {
        i := data.size;
        data.Push(e);
      }
    }

    /** Assigns to the element of a live handle. */
    method Assign(i: nat, e: T)
      requires Valid() && i in Live(State())
      modifies data.buffer
      ensures Valid() && Live(State()) == Live(old(State()))[i := e]
    {
      AssignIsMapUpdate(State(), i, e, data.blank);
      assert i < |State().slots|;
      hide Live, Sound;
      data.buffer[i] := e;
      assert data.Slots() == old(data.Slots())[i := e];
    }

    /** Removes the element of a live handle. */
    method Delete(i: nat)
      requires Valid() && i in Live(State())
      modifies data, data.buffer, removed, removed.buffer
      ensures Valid() && i < |old(State()).slots| && State() == Remove(old(State()), i, data.blank)
      ensures Live(State()) == Live(old(State())) - {i}
      ensures data.buffer == old(data.buffer)
      ensures removed.buffer == old(removed.buffer) || fresh(removed.buffer)
    {
      RemoveIsMapRemoval(State(), i, data.blank);
      assert i < |State().slots|;
      assert State().slots != [] ==> State().Count() > 0;
      hide Live, Sound;
      var hole := data.ClearAt(i);
      if hole {
        removed.Push(i);
      } else if data.size == 0 {
        removed.Clear();
      }
    }
  }

  lemma {:induction false} AddCases<T>(t: Table<T>, e: T, blank: T)
    requires Sound(t, blank)
    ensures NextHandle(t) <= |t.slots|
    ensures t.removed != [] ==>
              && NextHandle(t) == t.removed[|t.removed| - 1] < |t.slots|
              && Add(t, e) == Table(t.slots[NextHandle(t) := e], t.removed[..|t.removed| - 1])
    ensures t.removed == [] ==> NextHandle(t) == |t.slots| && Add(t, e) == Table(t.slots + [e], t.removed)
  {
  }
}
