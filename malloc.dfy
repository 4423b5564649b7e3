/**
 * The allocator of malloc/MallocImplementation.c with its globals as the
 * fields of one object: `list` is `Entity LIST[40]`, `inUse` is `IN_USE`,
 * `mem` holds the bytes of the static `VirtualMemory.heap`, and `booted`
 * records that new_entity has installed the heap. Each method runs the
 * loops of the C function it is named after and is proved to compute the
 * function of the same name in module MallocSpec.
 */
module Malloc {
  import opened Wrappers
  import opened Header
  import opened FreeList
  import opened MallocSpec

  class Allocator {
    const list: array<Entity>
    var inUse: nat
    var booted: bool
    var mem: Memory

    ghost predicate Valid()
      reads this, list
    {
      list.Length == CAPACITY && inUse <= CAPACITY && Wf(Heap(list[..inUse], booted, mem))
    }

    /** The state as MallocSpec sees it: the live entries, the flag and the heap. */
    ghost function State(): Heap
      reads this, list
      requires inUse <= list.Length
    {
      Heap(list[..inUse], booted, mem)
    }

    /** Program start: `LIST` and the heap zero-filled, `IN_USE == 0`. */
    constructor ()
      ensures Valid() && State() == Initial && fresh(list)
    {
      list := new Entity[CAPACITY];
      inUse := 0;
      booted := false;
      mem := map[];
    }

    /**
     * The best-fit scan of new_entity: the candidate with the smallest
     * size, the first one among equals, or None when there is none.
     */
    method FindBestFit(total: nat) returns (best: Option<nat>)
      requires Valid()
      ensures best == BestFit(list[..inUse], total)
    {
      ghost var s := list[..inUse];
      best := None;
      var bestSize := UINT16_MAX;
      var i := 0;
      while i < inUse
        invariant i <= inUse
        invariant best == BestFit(s[..i], total)
        invariant bestSize == if best.None? then UINT16_MAX else s[best.value].size
      {
        BestFitStep(s, i, total);
        if list[i].size >= total && list[i].size < bestSize {
          best := Some(i);
          bestSize := list[i].size;
        }
        i := i + 1;
      }
      assert s[..i] == s;
    }

    /** `new_entity(total)`: install the heap on first use, then search. */
    method NewEntity(total: nat) returns (best: Option<nat>)
      requires Valid()
      modifies this, list
      ensures Valid()
      ensures State() == Bootstrap(old(State()))
      ensures best == BestFit(State().list, total)
    {
      if !booted {
        list[0] := Entity(0, HEAP_SIZE);
        inUse := inUse + 1;
        booted := true;
        assert list[..inUse] == [Entity(0, HEAP_SIZE)];
      }
      best := FindBestFit(total);
    }

    /** The removal loop of c_malloc: `LIST[k] = LIST[IN_USE - 1]; --IN_USE;` */
    method RemoveEntry(k: nat)
      requires list.Length == CAPACITY && k < inUse <= CAPACITY
      modifies this`inUse, list
      ensures inUse == old(inUse) - 1
      ensures list[..inUse] == SwapRemove(old(list[..inUse]), k)
    {
      ghost var s := list[..inUse];
      var i := 0;
      while i < inUse
        invariant i <= k
        invariant list[..inUse] == s
      {
        if i == k {
          list[i] := list[inUse - 1];
          break;
        }
        i := i + 1;
      }
      inUse := inUse - 1;
      assert list[..inUse] == s[k := s[|s| - 1]][..|s| - 1];
    }

    /**
     * `c_malloc(size)`: NULL for an oversize request or when no entry
     * fits; otherwise the header is written, the entry is carved, and the
     * user pointer follows the header.
     */
    method CMalloc(size: nat) returns (p: Option<nat>)
      requires Valid()
      modifies this, list
      ensures Valid()
      ensures (State(), p) == Malloc(old(State()), size)
    {
      if size > HEAP_SIZE - HEADER {
        return None;
      }
      ghost var h := State();
      var e := NewEntity(size + HEADER);
      if e.None? {
        MallocFindsNothing(h, size);
        return None;
      }
      p := Split(h, size, e.value);
    }

    /** The part of c_malloc after a successful search in the bootstrapped state of `h`. */
    method Split(ghost h: Heap, size: nat, k: nat) returns (p: Option<nat>)
      requires Valid() && Wf(h) && size <= HEAP_SIZE - HEADER
      requires State() == Bootstrap(h) && BestFit(State().list, size + HEADER) == Some(k)
      modifies this`inUse, this`mem, list
      ensures Valid()
      ensures (State(), p) == Malloc(h, size)
    {
      var total := size + HEADER;
      ghost var b := State();
      MallocTakes(h, size, k);
      ghost var after := Heap(Carve(b.list, k, total), true, WriteU16(b.mem, b.list[k].ptr, total));
      assert Malloc(h, size) == (after, Some(b.list[k].ptr + HEADER));
      CarveSizes(b.list, k, total);
      p := Some(list[k].ptr + HEADER);
      TakeFrom(k, total);
      assert list[..inUse] == after.list && booted && mem == after.mem;
      assert State() == after;
    }

    /**
     * The split in c_malloc: the header goes at the entry's start, the
     * entry gives up its first `total` bytes, and a used-up entry is
     * removed.
     */
    method TakeFrom(k: nat, total: nat)
      requires list.Length == CAPACITY && k < inUse <= CAPACITY
      requires total <= list[k].size && total < UINT16_LIMIT
      modifies this`inUse, this`mem, list
      ensures inUse <= old(inUse)
      ensures mem == WriteU16(old(mem), old(list[k].ptr), total)
      ensures list[..inUse] == Carve(old(list[..inUse]), k, total)
    {
      ghost var s := list[..inUse];
      var start := list[k].ptr;
      mem := WriteU16(mem, start, total);
      var rest := Entity(start + total, list[k].size - total);
      list[k] := rest;
      assert list[..inUse] == s[k := rest];
      if rest.size == 0 {
        RemoveEntry(k);
      }
    }

    /**
     * `c_free(p)`: `aborted` when the assertion on the header fails, which
     * ends the program in C; the state is then left as it was. Otherwise
     * the block is merged into its left neighbour, else its right
     * neighbour, else appended, and the list is compacted once.
     */
    method CFree(p: Option<nat>) returns (aborted: bool)
      requires Valid() && FreeFitsList(State(), p)
      modifies this, list
      ensures Valid()
      ensures aborted == Free(old(State()), p).None?
      ensures if aborted then State() == old(State()) else State() == Free(old(State()), p).value
    {
      ghost var h := State();
      if p.None? {
        assert Free(h, p) == Some(h);
        return false;
      }
      var start := p.value - HEADER;
      var size := ReadU16(mem, start);
      if size <= HEADER {
        assert Free(h, p).None?;
        return true;
      }
      FreeReleases(h, p.value, start, size);
      assert booted;
      Release(start, size);
      aborted := false;
    }

    /**
     * The part of c_free after the assertion: merge or append, then
     * compact. A header above `HEADER` can only have been written once the
     * heap was installed, hence `booted`.
     */
    method Release(start: nat, size: nat)
      requires Valid() && booted && HEADER < size <= UINT16_MAX
      requires |Reclaim(list[..inUse], start, size)| <= CAPACITY
      modifies this`inUse, list
      ensures Valid()
      ensures State() == Heap(Compact(Reclaim(old(State()).list, start, size)), booted, mem)
    {
      ghost var h := State();
      ghost var after := Compact(Reclaim(h.list, start, size));
      CompactFromSizes(Reclaim(h.list, start, size), 0);
      Reinsert(start, size);
      CompactList();
      assert list[..inUse] == after;
      assert State() == Heap(after, h.booted, h.mem);
    }

    /** The merge-or-append step of c_free for the block `[start, start + size)`. */
    method Reinsert(start: nat, size: nat)
      requires list.Length == CAPACITY && inUse <= CAPACITY && size <= UINT16_MAX
      requires |Reclaim(list[..inUse], start, size)| <= CAPACITY
      modifies this`inUse, list
      ensures inUse <= CAPACITY
      ensures list[..inUse] == Reclaim(old(list[..inUse]), start, size)
    {
      ghost var s := list[..inUse];
      var insertIndex := inUse;
      var left := FindLeftNeighbour(start);
      var mStart, mSize := start, size;
      if left.Some? {
        var i := left.value;
        list[i] := Entity(list[i].ptr, Wrap16(list[i].size + size));
        mStart, mSize := list[i].ptr, list[i].size;
        insertIndex := i;
      } else {
        var right := FindRightNeighbour(start + size);
        if right.Some? {
          var i := right.value;
          mStart, mSize := list[i].ptr, Wrap16(size + list[i].size);
          insertIndex := i;
        }
      }
      if insertIndex == inUse {
        list[inUse] := Entity(mStart, mSize);
        inUse := inUse + 1;
        assert list[..inUse] == s + [Entity(start, size)];
      } else {
        list[insertIndex] := Entity(mStart, mSize);
      }
    }

    /** The left-merge search of c_free: the first entry ending at `start`. */
    method FindLeftNeighbour(start: nat) returns (r: Option<nat>)
      requires inUse <= list.Length
      ensures r == FirstEndingAt(list[..inUse], start)
      ensures r.Some? ==> r.value < inUse && list[r.value].ptr + list[r.value].size == start
    {
      var i := 0;
      while i < inUse
        invariant i <= inUse
        invariant forall j :: 0 <= j < i ==> End(list[j]) != start
      {
        if list[i].ptr + list[i].size == start {
          return Some(i);
        }
        i := i + 1;
      }
      return None;
    }

    /** The right-merge search of c_free: the first entry starting at `end`. */
    method FindRightNeighbour(end: nat) returns (r: Option<nat>)
      requires inUse <= list.Length
      ensures r == FirstStartingAt(list[..inUse], end)
      ensures r.Some? ==> r.value < inUse && list[r.value].ptr == end
    {
      var i := 0;
      while i < inUse
        invariant i <= inUse
        invariant forall j :: 0 <= j < i ==> list[j].ptr != end
      {
        if list[i].ptr == end {
          return Some(i);
        }
        i := i + 1;
      }
      return None;
    }

    /**
     * The compaction loop of c_free: one pass that merges `LIST[i + 1]`
     * into `LIST[i]` when it starts where `LIST[i]` ends.
     */
    method CompactList()
      requires list.Length == CAPACITY && inUse <= CAPACITY
      modifies this`inUse, list
      ensures inUse <= old(inUse)
      ensures list[..inUse] == Compact(old(list[..inUse]))
    {
      var i := 0;
      while i + 1 < inUse
        invariant inUse <= old(inUse)
        invariant CompactFrom(list[..inUse], i) == Compact(old(list[..inUse]))
        decreases inUse - i
      {
        if list[i].ptr + list[i].size == list[i + 1].ptr {
          MergeWithNext(i);
        }
        i := i + 1;
      }
    }

    /**
     * One merge of the compaction loop: `LIST[i]` absorbs `LIST[i + 1]`,
     * the entries after it move down one slot, and `IN_USE` drops by one.
     */
    method MergeWithNext(i: nat)
      requires list.Length == CAPACITY && i + 1 < inUse <= CAPACITY
      modifies this`inUse, list
      ensures inUse == old(inUse) - 1
      ensures list[..inUse] == MergeNext(old(list[..inUse]), i)
    {
      ghost var t := list[..inUse];
      var merged := Entity(list[i].ptr, Wrap16(list[i].size + list[i + 1].size));
      list[i] := merged;
      ShiftDown(i + 1);
      inUse := inUse - 1;
      ghost var r := MergeNext(t, i);
      forall k | 0 <= k < inUse
        ensures list[k] == r[k]
      {
        if k < i {
        } else if k == i {
        } else {
        }
      }
      assert list[..inUse] == r;
    }

    /** The inner loop of the compaction: `LIST[j] = LIST[j + 1]` for `from <= j < IN_USE - 1`. */
    method ShiftDown(from: nat)
      requires 0 < from < inUse <= list.Length
      modifies list
      ensures forall k :: 0 <= k < from ==> list[k] == old(list[k])
      ensures forall k :: from <= k < inUse - 1 ==> list[k] == old(list[k + 1])
    {
      var j := from;
      while j + 1 < inUse
        invariant from <= j < inUse
        invariant forall k :: 0 <= k < from ==> list[k] == old(list[k])
        invariant forall k :: from <= k < j ==> list[k] == old(list[k + 1])
        invariant forall k :: j <= k < inUse ==> list[k] == old(list[k])
      {
        list[j] := list[j + 1];
        j := j + 1;
      }
    }
  }
}
