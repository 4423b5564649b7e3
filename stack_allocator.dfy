/**
 * The bump allocator of stack_allocator/StackAllocator.h: a buffer of `N`
 * slots and an `offset_` that only grows. Slots are named by their index
 * into the buffer; `deallocate` gives nothing back.
 */
module StackAllocators {
  import opened Wrappers

  /** `size_t` on a 64-bit target. */
  const SIZE_MAX: nat := 0xFFFF_FFFF_FFFF_FFFF

  /** The default `N` of the template. */
  const DEFAULT_CAPACITY: nat := 1024

  // ---------------------------------------------------------------------
  // One call of allocate, as a function of the offset

  /**
   * `allocate(n)` as written: `offset_ + n` is computed in `size_t`, so
   * it wraps, and the new offset is that wrapped sum.
   */
  function AllocateAsWritten(offset: nat, n: nat, capacity: nat): (r: (Option<nat>, nat))
    requires offset <= SIZE_MAX && n <= SIZE_MAX
    ensures r.1 <= SIZE_MAX
    ensures r.0.None? ==> r.1 == offset
    ensures r.0.Some? ==> r.0.value == offset
    ensures offset <= capacity ==> r.1 <= capacity
    ensures r.1 < offset ==> offset + n > SIZE_MAX
  {
    var sum := (offset + n) % (SIZE_MAX + 1);
    if sum > capacity then (None, offset) else (Some(offset), sum)
  }

  /**
   * `allocate(n)` with the bound check stated so that it cannot wrap: the
   * request is refused exactly when fewer than `n` slots are left.
   * Otherwise the grant is the first unused slot and the offset moves past
   * the `n` granted slots.
   */
  function Allocate(offset: nat, n: nat, capacity: nat): (r: (Option<nat>, nat))
    requires offset <= capacity
    ensures offset <= r.1 <= capacity
    ensures r.0.None? <==> offset + n > capacity
    ensures r.0.None? ==> r.1 == offset
    ensures r.0.Some? ==> r.0.value == offset && r.1 == offset + n
  {
    if n > capacity - offset then (None, offset) else (Some(offset), offset + n)
  }

  /** Whenever the sum does not wrap, the code as written behaves as intended. */
  lemma AllocateAsWrittenWithoutWrap(offset: nat, n: nat, capacity: nat)
    requires offset <= capacity && offset + n <= SIZE_MAX
    ensures AllocateAsWritten(offset, n, capacity) == Allocate(offset, n, capacity)
  {
  }

  /**
   * With one slot of 1024 used, a request for `SIZE_MAX` slots passes the
   * check as written (the sum wraps to 0) and resets the offset to 0, so
   * the slot already handed out would be handed out again; the intended
   * check refuses it.
   */
  lemma AllocateAsWrittenWraps()
    ensures AllocateAsWritten(1, SIZE_MAX, DEFAULT_CAPACITY) == (Some(1), 0)
    ensures Allocate(1, SIZE_MAX, DEFAULT_CAPACITY) == (None, 1)
  {
  }

  // ---------------------------------------------------------------------
  // A run of allocations

  /** The grants of successive `allocate(ns[0])`, `allocate(ns[1])`, ... */
  function Grants(offset: nat, ns: seq<nat>, capacity: nat): (r: seq<Option<nat>>)
    requires offset <= capacity
    ensures |r| == |ns|
    decreases |ns|
  {
    if ns == [] then []
    else
      var (g, next) := Allocate(offset, ns[0], capacity);
      [g] + Grants(next, ns[1..], capacity)
  }

  /** The offset after those allocations. */
  function FinalOffset(offset: nat, ns: seq<nat>, capacity: nat): (r: nat)
    requires offset <= capacity
    ensures offset <= r <= capacity
    decreases |ns|
  {
    if ns == [] then offset
    else FinalOffset(Allocate(offset, ns[0], capacity).1, ns[1..], capacity)
  }

  /**
   * Every granted range `[g, g + n)` lies between the starting offset and
   * the final one (so inside the buffer), and a range granted earlier ends
   * no later than one granted afterwards starts: the grants are increasing
   * and pairwise disjoint.
   */
  lemma {:induction false} GrantsDisjoint(offset: nat, ns: seq<nat>, capacity: nat)
    requires offset <= capacity
    ensures var g := Grants(offset, ns, capacity);
      forall i :: 0 <= i < |ns| && g[i].Some? ==>
        offset <= g[i].value && g[i].value + ns[i] <= FinalOffset(offset, ns, capacity)
    ensures var g := Grants(offset, ns, capacity);
      forall i, j :: 0 <= i < j < |ns| && g[i].Some? && g[j].Some? ==> g[i].value + ns[i] <= g[j].value
    decreases |ns|
  {
    if ns != [] {
      var (g0, next) := Allocate(offset, ns[0], capacity);
      GrantsDisjoint(next, ns[1..], capacity);
      var g := Grants(offset, ns, capacity);
      var rest := Grants(next, ns[1..], capacity);
      assert g == [g0] + rest;
      assert forall i :: 1 <= i < |ns| ==> g[i] == rest[i - 1] && ns[i] == ns[1..][i - 1];
      assert FinalOffset(offset, ns, capacity) == FinalOffset(next, ns[1..], capacity);
    }
  }

  // ---------------------------------------------------------------------
  // The allocator object

  class StackAllocator {
    /** `N`, the number of slots. */
    const capacity: nat
    /** `offset_`, the number of slots handed out so far. */
    var offset: nat

    ghost predicate Valid()
      reads this
    {
      offset <= capacity <= SIZE_MAX
    }

    /** `StackAllocator()`: nothing handed out yet. */
    constructor(capacity: nat)
      requires capacity <= SIZE_MAX
      ensures Valid() && this.capacity == capacity && offset == 0
    {
      this.capacity := capacity;
      offset := 0;
    }

    /**
     * `allocate(n)`: None stands for the `bad_alloc` the code throws; the
     * offset then stays put. A grant is the old offset, and the offset
     * advances by `n`.
     */
    method AllocateSlots(n: nat) returns (slot: Option<nat>)
      requires Valid() && n <= SIZE_MAX
      modifies this`offset
      ensures Valid()
      ensures (slot, offset) == Allocate(old(offset), n, capacity)
    {
      if n > capacity - offset {
        return None;
      }
      slot := Some(offset);
      offset := offset + n;
    }

    /** `deallocate(p, n)`: gives nothing back, so the offset never goes down. */
    method Deallocate(slot: nat, n: nat)
      requires Valid()
      ensures Valid() && offset == old(offset)
    {
    }

    /**
     * `rebind<U>::other` names the allocator type for another element type
     * with the same `N`; a container default-constructs one, so it starts
     * with nothing handed out.
     */
    method Rebind() returns (other: StackAllocator)
      requires Valid()
      ensures fresh(other) && other.Valid() && other.capacity == capacity && other.offset == 0
    {
      other := new StackAllocator(capacity);
    }
  }
}
