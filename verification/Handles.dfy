/**
  The runtime's table of opaque handles. A handle packs a slot number and the slot's
  generation; freed slots are reused with the next generation.

  The table is compared with a ledger, a plain map from handles to pointers kept beside it.
 */
module Handles {

  const U32: int := 0x1_0000_0000
  const SIZE_MAX: int := 0xffff_ffff_ffff_ffff
  const I63: int := 0x8000_0000_0000_0000
  /** A table of this many slots is the largest the allocator is taken to grant. */
  const MAX_SLOTS: int := 0x8000_0000
  /** The generation whose handles no longer fit a positive `long long`. */
  const LAST: int := 0x8000_0000

  /** A `long long`. */
  type Handle = h: int | -I63 <= h < I63

  /** A pointer is a number and 0 is the null pointer. */
  datatype Slot = Slot(ptr: nat, generation: nat, alive: bool)
  datatype Table = Table(slots: seq<Slot>, capacity: nat)

  const EMPTY := Table([], 0)

  /** `ptr` is what `New` registers; `granted` is the answer of `realloc`, should it be asked. */
  datatype Call = New(ptr: nat, granted: bool) | Get(handle: Handle) | Take(handle: Handle)

  // ----- what the three operations do -----

  function FirstFree(slots: seq<Slot>): (i: nat)
    ensures i <= |slots|
    ensures i < |slots| ==> !slots[i].alive
    ensures forall k :: 0 <= k < i ==> slots[k].alive
  {
    if slots == [] || !slots[0].alive then 0 else
      var i := FirstFree(slots[1..]);
      assert forall k :: 1 <= k < i + 1 ==> slots[k] == slots[1..][k - 1];
      i + 1
  }

  function Doubled(capacity: nat, need: nat): (c: nat)
    requires capacity > 0
    ensures c >= need && c >= capacity
    decreases need - capacity
  {
    if capacity >= need then capacity else Doubled(2 * capacity, need)
  }

  function Room(capacity: nat, need: nat): (c: nat)
    ensures c >= need
  {
    if capacity >= need then capacity else Doubled(if capacity == 0 then 16 else capacity, need)
  }

  predicate Fits(capacity: nat, need: nat, granted: bool)
  {
    capacity >= need || (granted && Room(capacity, need) <= MAX_SLOTS)
  }

  function NextGeneration(g: nat): nat
  {
    if (g + 1) % U32 == 0 then 1 else (g + 1) % U32
  }

  /** The packed handle as a two's complement `long long`. */
  function Pack(generation: nat, index: nat): int
  {
    var h := generation * U32 + index + 1;
    if h >= I63 then h - 2 * I63 else h
  }

  function GenerationAt(slots: seq<Slot>, i: nat): nat
  {
    if i < |slots| then slots[i].generation else 0
  }

  function Put(slots: seq<Slot>, i: nat, slot: Slot): (r: seq<Slot>)
    requires i <= |slots|
    ensures |r| == if i < |slots| then |slots| else |slots| + 1
    ensures r[i] == slot && forall k :: 0 <= k < |slots| && k != i ==> r[k] == slots[k]
  {
    if i < |slots| then slots[i := slot] else slots + [slot]
  }

  function NewStep(t: Table, ptr: nat, granted: bool): (Table, int)
  {
    var i := FirstFree(t.slots);
    if ptr == 0 || (i == |t.slots| && !Fits(t.capacity, i + 1, granted)) then (t, 0)
    else
      var g := NextGeneration(GenerationAt(t.slots, i));
      var capacity := if i == |t.slots| then Room(t.capacity, i + 1) else t.capacity;
      (Table(Put(t.slots, i, Slot(ptr, g, true)), capacity), Pack(g, i))
  }

  predicate Decodes(slots: seq<Slot>, handle: int)
  {
    handle > 0 && handle % U32 != 0 && handle / U32 != 0 && handle % U32 - 1 < |slots|
  }

  /** The handle names a slot in its present generation. */
  predicate Current(slots: seq<Slot>, handle: int)
  {
    Decodes(slots, handle)
    && slots[handle % U32 - 1].alive && slots[handle % U32 - 1].generation == handle / U32
  }

  function GetStep(t: Table, handle: int): nat
  {
    if Current(t.slots, handle) then t.slots[handle % U32 - 1].ptr else 0
  }

  function TakeStep(t: Table, handle: int): (Table, nat)
  {
    if Current(t.slots, handle)
    then
      var i := handle % U32 - 1;
      (t.(slots := t.slots[i := t.slots[i].(ptr := 0, alive := false)]), t.slots[i].ptr)
    else (t, 0)
  }

  function Step(t: Table, c: Call): (Table, int)
  {
    match c
    case New(ptr, granted) => NewStep(t, ptr, granted)
    case Get(handle) => (t, GetStep(t, handle))
    case Take(handle) => TakeStep(t, handle)
  }

  function Run(calls: seq<Call>): Table
  {
    if calls == [] then EMPTY else Step(Run(calls[..|calls| - 1]), calls[|calls| - 1]).0
  }

  function Answer(calls: seq<Call>, k: nat): int
    requires k < |calls|
  {
    Step(Run(calls[..k]), calls[k]).1
  }

  function Alive(slots: seq<Slot>): (n: nat)
    ensures n <= |slots|
  {
    if slots == [] then 0 else Alive(slots[..|slots| - 1]) + if slots[|slots| - 1].alive then 1 else 0
  }

  // ----- the table as the runtime keeps it -----

  class HandleTable {
    var slots: seq<Slot>
    var capacity: nat

    function State(): Table
      reads this
    {
      Table(slots, capacity)
    }

    constructor ()
      ensures State() == EMPTY
    {
      slots, capacity := [], 0;
    }

    method EnsureCapacity(need: nat, granted: bool) returns (ok: bool)
      modifies this`capacity
      ensures ok == Fits(old(capacity), need, granted)
      ensures capacity == if ok then Room(old(capacity), need) else old(capacity)
    {
      if capacity >= need {
        return true;
      }
      var next := if capacity == 0 then 16 else capacity;
      ghost var goal := Doubled(next, need);
      while next < need
        invariant next > 0 && Doubled(next, need) == goal
        decreases need - next
      {
        if next > SIZE_MAX / 2 {
          DoubledGrows(next, need);
          return false;
        }
        next := 2 * next;
      }
      if !granted || next > MAX_SLOTS {
        return false;
      }
      capacity := next;
      return true;
    }

    method NewHandle(ptr: nat, granted: bool) returns (handle: int)
      modifies this
      ensures (State(), handle) == NewStep(old(State()), ptr, granted)
    {
      hide Room, Fits, NextGeneration, Pack, Put;
      if ptr == 0 {
        return 0;
      }
      var index := |slots|;
      for i := 0 to |slots|
        invariant index == |slots|
        invariant forall k :: 0 <= k < i ==> slots[k].alive
      {
        if !slots[i].alive {
          index := i;
          break;
        }
      }
      FirstFreeIs(slots, index);
      if index == |slots| {
        var ok := EnsureCapacity(|slots| + 1, granted);
        if !ok {
          return 0;
        }
      }
      var generation := NextGeneration(GenerationAt(slots, index));
      slots := Put(slots, index, Slot(ptr, generation, true));
      return Pack(generation, index);
    }

    method GetPointer(handle: int) returns (ptr: nat)
      ensures ptr == GetStep(State(), handle)
    {
      if handle <= 0 {
        return 0;
      }
      var raw, generation := handle % U32, handle / U32;
      if raw == 0 || generation == 0 || raw - 1 >= |slots| {
        return 0;
      }
      var slot := slots[raw - 1];
      return if !slot.alive || slot.generation != generation then 0 else slot.ptr;
    }

    method TakePointer(handle: int) returns (ptr: nat)
      modifies this`slots
      ensures (State(), ptr) == TakeStep(old(State()), handle)
    {
      if handle <= 0 {
        return 0;
      }
      var raw, generation := handle % U32, handle / U32;
      if raw == 0 || generation == 0 || raw - 1 >= |slots| {
        return 0;
      }
      var slot := slots[raw - 1];
      if !slot.alive || slot.generation != generation {
        return 0;
      }
      slots := slots[raw - 1 := slot.(ptr := 0, alive := false)];
      return slot.ptr;
    }

    method LiveCount() returns (count: nat)
      ensures count == Alive(slots)
    {
      count := 0;
      for i := 0 to |slots|
        invariant count == Alive(slots[..i])
      {
        assert slots[..i + 1][..i] == slots[..i];
        if slots[i].alive {
          count := count + 1;
        }
      }
      assert slots[..|slots|] == slots;
    }
  }

  lemma DoubledGrows(capacity: nat, need: nat)
    requires capacity > MAX_SLOTS
    ensures Doubled(capacity, need) > MAX_SLOTS
  {
  }

  lemma FirstFreeIs(slots: seq<Slot>, i: nat)
    requires i <= |slots| && (i < |slots| ==> !slots[i].alive)
    requires forall k :: 0 <= k < i ==> slots[k].alive
    ensures FirstFree(slots) == i
  {
  }
}
