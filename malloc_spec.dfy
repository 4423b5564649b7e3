/**
 * c_malloc and c_free of malloc/MallocImplementation.c as functions on the
 * allocator's whole state (the live free-list, whether the heap has been
 * installed, and the heap bytes), and the properties that the code as
 * written has.
 */
module MallocSpec {
  import opened Wrappers
  import opened Header
  import opened FreeList

  /**
   * `list` is `LIST[0 .. IN_USE)`; `booted` records that new_entity has
   * installed the heap; `mem` holds the bytes of the static heap.
   */
  datatype Heap = Heap(list: seq<Entity>, booted: bool, mem: Memory)

  /** The state before any call: empty list, zeroed heap. */
  const Initial: Heap := Heap([], false, map[])

  /** What every reachable state satisfies. */
  predicate Wf(h: Heap)
  {
    |h.list| <= CAPACITY && SizesFit(h.list) && (!h.booted ==> h.list == [] && h.mem == map[])
  }

  /** The first-use set-up in new_entity: one entry for the whole heap. */
  function Bootstrap(h: Heap): (r: Heap)
    requires Wf(h)
    ensures Wf(r) && r.booted && r.mem == h.mem
  {
    if h.booted then h else Heap([Entity(0, HEAP_SIZE)], true, h.mem)
  }

  /**
   * `c_malloc(size)`: the new state and the user pointer (None for NULL).
   * Oversize requests are refused before anything is touched; any other
   * request installs the heap if needed, then takes its bytes from the
   * best-fit entry and writes the total size into the block header.
   */
  function Malloc(h: Heap, size: nat): (r: (Heap, Option<nat>))
    requires Wf(h)
    ensures Wf(r.0)
    ensures size > HEAP_SIZE - HEADER ==> r == (h, None)
    ensures r.0.booted == (h.booted || size <= HEAP_SIZE - HEADER)
  {
    if size > HEAP_SIZE - HEADER then (h, None)
    else
      var total := size + HEADER;
      var b := Bootstrap(h);
      match BestFit(b.list, total)
      case None => (b, None)
      case Some(k) =>
        CarveSizes(b.list, k, total);
        (Heap(Carve(b.list, k, total), true, WriteU16(b.mem, b.list[k].ptr, total)), Some(b.list[k].ptr + HEADER))
  }

  /**
   * c_free appends at `LIST[IN_USE]` without a bound check: the call is
   * defined only when that write stays inside the 40 slots.
   */
  predicate FreeFitsList(h: Heap, p: Option<nat>)
  {
    p.None? ||
    (HEADER <= p.value &&
     var start := p.value - HEADER;
     var size := ReadU16(h.mem, start);
     size <= HEADER || |Reclaim(h.list, start, size)| <= CAPACITY)
  }

  /**
   * `c_free(p)`: None when `assert(size > HEADER)` fails on the header
   * read before `p`; otherwise the new state after merging or appending
   * the block and one compaction pass.
   */
  function Free(h: Heap, p: Option<nat>): (r: Option<Heap>)
    requires Wf(h) && FreeFitsList(h, p)
    ensures r.None? <==> p.Some? && ReadU16(h.mem, p.value - HEADER) <= HEADER
    ensures r.Some? ==> Wf(r.value) && r.value.booted == h.booted && r.value.mem == h.mem
  {
    if p.None? then Some(h)
    else
      var start := p.value - HEADER;
      var size := ReadU16(h.mem, start);
      if size <= HEADER then None
      else
        var s := Reclaim(h.list, start, size);
        CompactFromSizes(s, 0);
        assert h.booted;
        Some(Heap(Compact(s), h.booted, h.mem))
  }

  /**
   * The heap is installed on the first call only: the installed list is a
   * single entry over the whole heap, and an installed state is left as
   * it is.
   */
  lemma BootstrapOnce(h: Heap)
    requires Wf(h)
    ensures !h.booted ==> Bootstrap(h).list == [Entity(0, HEAP_SIZE)]
    ensures Bootstrap(Bootstrap(h)) == Bootstrap(h)
    ensures h.booted ==> Bootstrap(h) == h
  {
  }

  /** The outcome of a successful best-fit search, spelled out. */
  lemma MallocTakes(h: Heap, size: nat, k: nat)
    requires Wf(h) && size <= HEAP_SIZE - HEADER
    requires BestFit(Bootstrap(h).list, size + HEADER) == Some(k)
    ensures var b := Bootstrap(h);
      Malloc(h, size) == (Heap(Carve(b.list, k, size + HEADER), true, WriteU16(b.mem, b.list[k].ptr, size + HEADER)),
                          Some(b.list[k].ptr + HEADER))
  {
  }

  /** The outcome of a failed best-fit search, spelled out. */
  lemma MallocFindsNothing(h: Heap, size: nat)
    requires Wf(h) && size <= HEAP_SIZE - HEADER
    requires BestFit(Bootstrap(h).list, size + HEADER) == None
    ensures Malloc(h, size) == (Bootstrap(h), None)
  {
  }

  /**
   * The outcome of a free that passes the assertion, spelled out for the
   * header `size` read at `start`; the append then fits in the list.
   */
  lemma FreeReleases(h: Heap, p: nat, start: nat, size: nat)
    requires Wf(h) && FreeFitsList(h, Some(p))
    requires HEADER <= p && start == p - HEADER && size == ReadU16(h.mem, start) && size > HEADER
    ensures |Reclaim(h.list, start, size)| <= CAPACITY
    ensures Free(h, Some(p)) == Some(Heap(Compact(Reclaim(h.list, start, size)), h.booted, h.mem))
  {
  }

  // ---------------------------------------------------------------------
  // c_malloc

  /**
   * The first call that is not oversize installs exactly one entry over
   * the whole heap and carves the block from its front: the pointer is
   * `HEADER`, the header at 0 holds the total, and the rest of the heap
   * stays free (nothing, when the request takes the whole heap).
   */
  lemma FirstAllocation(size: nat)
    requires size <= HEAP_SIZE - HEADER
    ensures Malloc(Initial, size).1 == Some(HEADER)
    ensures ReadU16(Malloc(Initial, size).0.mem, 0) == size + HEADER
    ensures Malloc(Initial, size).0.list ==
      if size + HEADER == HEAP_SIZE then [] else [Entity(size + HEADER, HEAP_SIZE - HEADER - size)]
  {
    var b := Bootstrap(Initial);
    assert b.list == [Entity(0, HEAP_SIZE)];
    assert BestFit(b.list, size + HEADER) == Some(0);
    ReadAfterWrite(map[], 0, size + HEADER);
  }

  /**
   * A request that is not oversize fails exactly when no entry of the
   * (bootstrapped) list is a candidate. When it succeeds, the block starts
   * at the best-fit entry: the pointer is that start plus `HEADER`, the
   * header there reads back the total, no candidate entry is smaller, and
   * the free bytes drop by exactly the total.
   */
  lemma MallocOutcome(h: Heap, size: nat)
    requires Wf(h) && size <= HEAP_SIZE - HEADER
    ensures var b := Bootstrap(h);
      Malloc(h, size).1.None? <==> forall j :: 0 <= j < |b.list| ==> !Fits(b.list[j], size + HEADER)
    ensures Malloc(h, size).1.Some? ==>
      var b := Bootstrap(h);
      var (h', p) := Malloc(h, size);
      var total := size + HEADER;
      exists k :: 0 <= k < |b.list| && p.value == b.list[k].ptr + HEADER && Fits(b.list[k], total)
        && (forall j :: 0 <= j < |b.list| && Fits(b.list[j], total) ==> b.list[k].size <= b.list[j].size)
        && ReadU16(h'.mem, b.list[k].ptr) == total
        && FreeSum(h'.list) + total == FreeSum(b.list)
  {
    var b := Bootstrap(h);
    var total := size + HEADER;
    match BestFit(b.list, total)
    case None =>
    case Some(k) =>
      ReadAfterWrite(b.mem, b.list[k].ptr, total);
      CarveEffect(b.list, k, total);
  }

  /**
   * A zero-byte request succeeds but records a header of exactly
   * `HEADER`, so freeing its block always fails the assertion.
   */
  lemma ZeroSizeBlockCannotBeFreed(h: Heap)
    requires Wf(h) && Malloc(h, 0).1.Some?
    ensures Free(Malloc(h, 0).0, Malloc(h, 0).1).None?
  {
    var b := Bootstrap(h);
    var k := BestFit(b.list, HEADER).value;
    ReadAfterWrite(b.mem, b.list[k].ptr, HEADER);
  }

  // ---------------------------------------------------------------------
  // c_free

  /** `c_free(NULL)` changes nothing. */
  lemma FreeNull(h: Heap)
    requires Wf(h)
    ensures Free(h, None) == Some(h)
  {
  }

  /**
   * A free that passes the assertion adds exactly the recorded size to
   * the free bytes (unless a uint16_t size wraps).
   */
  lemma FreeAddsRecordedSize(h: Heap, p: nat)
    requires Wf(h) && FreeFitsList(h, Some(p)) && Free(h, Some(p)).Some?
    requires FreeSum(h.list) + ReadU16(h.mem, p - HEADER) <= UINT16_MAX
    ensures FreeSum(Free(h, Some(p)).value.list) == FreeSum(h.list) + ReadU16(h.mem, p - HEADER)
  {
    var start, size := p - HEADER, ReadU16(h.mem, p - HEADER);
    var s := Reclaim(h.list, start, size);
    assert Free(h, Some(p)).value.list == Compact(s);
    ReclaimFreeSum(h.list, start, size);
    CompactPreserves(s, 0);
  }

  /**
   * Which bytes a free makes free: the block's own bytes, except when the
   * block is merged onto the entry that follows it; then the `size` bytes
   * after that entry's end are what become free instead.
   */
  lemma FreeCovers(h: Heap, p: nat, b: nat)
    requires Wf(h) && FreeFitsList(h, Some(p)) && Free(h, Some(p)).Some?
    requires FreeSum(h.list) + ReadU16(h.mem, p - HEADER) <= UINT16_MAX
    ensures Covers(Free(h, Some(p)).value.list, b) <==>
      Covers(h.list, b) || Released(h.list, p - HEADER, ReadU16(h.mem, p - HEADER), b)
  {
    var start, size := p - HEADER, ReadU16(h.mem, p - HEADER);
    var after := Compact(Reclaim(h.list, start, size));
    FreeReleases(h, p, start, size);
    assert Free(h, Some(p)).value.list == after;
    ReleaseCovers(h.list, start, size, b);
    assert Covers(after, b) <==> Covers(h.list, b) || Released(h.list, start, size, b);
  }

  /** Reclaiming and then compacting adds exactly the `Released` bytes. */
  lemma ReleaseCovers(s: seq<Entity>, start: nat, size: nat, b: nat)
    requires FreeSum(s) + size <= UINT16_MAX
    ensures Covers(Compact(Reclaim(s, start, size)), b) <==> Covers(s, b) || Released(s, start, size, b)
  {
    ReclaimFreeSum(s, start, size);
    ReclaimCovers(s, start, size, b);
    CompactPreserves(Reclaim(s, start, size), b);
  }

  // ---------------------------------------------------------------------
  // Behaviour of the code as written, on concrete calls

  /**
   * `c_malloc(8)` on a fresh heap returns offset 4 with header 12 and
   * leaves 116 free bytes; freeing it merges onto the following entry, so
   * the heap is again one entry of 128 bytes, but it starts at 12 and runs
   * 12 bytes past the end of the heap.
   */
  lemma MallocEightThenFree()
    ensures var (h1, p) := Malloc(Initial, 8);
      p == Some(4) && ReadU16(h1.mem, 0) == 12 && FreeSum(h1.list) == 116 &&
      FreeFitsList(h1, p) && Free(h1, p) == Some(Heap([Entity(12, 128)], true, h1.mem))
  {
    FirstAllocation(8);
    var (h1, p) := Malloc(Initial, 8);
    assert h1.list == [Entity(12, 116)];
    assert Reclaim(h1.list, 0, 12) == [Entity(12, 128)];
  }

  // The calls of the demonstration in the same file: blocks of 16, 5 and
  // 4 bytes, all three freed in order, then an 8-byte block allocated and
  // freed. The heap bytes after the three allocations are M3; after the
  // last allocation M4.

  const M1: Memory := WriteU16(map[], 0, 20)
  const M2: Memory := WriteU16(M1, 20, 9)
  const M3: Memory := WriteU16(M2, 29, 8)
  const M4: Memory := WriteU16(M3, 0, 12)

  /** The three allocations are carved one after the other from the front. */
  lemma DemoAllocations()
    ensures Malloc(Initial, 16) == (Heap([Entity(20, 108)], true, M1), Some(4))
    ensures Malloc(Heap([Entity(20, 108)], true, M1), 5) == (Heap([Entity(29, 99)], true, M2), Some(24))
    ensures Malloc(Heap([Entity(29, 99)], true, M2), 4) == (Heap([Entity(37, 91)], true, M3), Some(33))
  {
    assert BestFit([Entity(0, HEAP_SIZE)], 20) == Some(0);
    DemoMalloc(Initial, 16, 0, Heap([Entity(20, 108)], true, M1));
    assert BestFit([Entity(20, 108)], 9) == Some(0);
    DemoMalloc(Heap([Entity(20, 108)], true, M1), 5, 0, Heap([Entity(29, 99)], true, M2));
    assert BestFit([Entity(29, 99)], 8) == Some(0);
    DemoMalloc(Heap([Entity(29, 99)], true, M2), 4, 0, Heap([Entity(37, 91)], true, M3));
  }

  /**
   * Freeing the three blocks in order: the first is appended, the other
   * two merge onto it. Everything is free again (128 bytes), yet the list
   * keeps two entries, `[37, 128)` and `[0, 37)`, because compaction only
   * compares neighbours in storage order.
   */
  lemma DemoFrees()
    ensures FreeFitsList(Heap([Entity(37, 91)], true, M3), Some(4))
    ensures Free(Heap([Entity(37, 91)], true, M3), Some(4)) == Some(Heap([Entity(37, 91), Entity(0, 20)], true, M3))
    ensures FreeFitsList(Heap([Entity(37, 91), Entity(0, 20)], true, M3), Some(24))
    ensures Free(Heap([Entity(37, 91), Entity(0, 20)], true, M3), Some(24)) == Some(Heap([Entity(37, 91), Entity(0, 29)], true, M3))
    ensures FreeFitsList(Heap([Entity(37, 91), Entity(0, 29)], true, M3), Some(33))
    ensures Free(Heap([Entity(37, 91), Entity(0, 29)], true, M3), Some(33)) == Some(Heap([Entity(37, 91), Entity(0, 37)], true, M3))
    ensures FreeSum([Entity(37, 91), Entity(0, 37)]) == HEAP_SIZE
  {
    DemoHeaders();
    DemoFreeFoo();
    DemoFreeBar();
    DemoFreeBazz();
  }

  /** Freeing the 16-byte block: nothing ends at 0 or starts at 20, so it is appended. */
  lemma DemoFreeFoo()
    requires ReadU16(M3, 0) == 20
    ensures FreeFitsList(Heap([Entity(37, 91)], true, M3), Some(4))
    ensures Free(Heap([Entity(37, 91)], true, M3), Some(4)) == Some(Heap([Entity(37, 91), Entity(0, 20)], true, M3))
  {
    var l3 := [Entity(37, 91)];
    assert Reclaim(l3, 0, 20) == [Entity(37, 91), Entity(0, 20)];
    DemoCompactTwo(37, 91, 0, 20);
    DemoFree(Heap(l3, true, M3), 4, 20, [Entity(37, 91), Entity(0, 20)]);
  }

  /** Freeing the 5-byte block: it merges onto `[0, 20)`. */
  lemma DemoFreeBar()
    requires ReadU16(M3, 20) == 9
    ensures FreeFitsList(Heap([Entity(37, 91), Entity(0, 20)], true, M3), Some(24))
    ensures Free(Heap([Entity(37, 91), Entity(0, 20)], true, M3), Some(24)) == Some(Heap([Entity(37, 91), Entity(0, 29)], true, M3))
  {
    var l4 := [Entity(37, 91), Entity(0, 20)];
    assert FirstEndingAt(l4, 20) == Some(1);
    assert Reclaim(l4, 20, 9) == [Entity(37, 91), Entity(0, 29)];
    DemoCompactTwo(37, 91, 0, 29);
    DemoFree(Heap(l4, true, M3), 24, 9, [Entity(37, 91), Entity(0, 29)]);
  }

  /** Freeing the 4-byte block: it merges onto `[0, 29)`. */
  lemma DemoFreeBazz()
    requires ReadU16(M3, 29) == 8
    ensures FreeFitsList(Heap([Entity(37, 91), Entity(0, 29)], true, M3), Some(33))
    ensures Free(Heap([Entity(37, 91), Entity(0, 29)], true, M3), Some(33)) == Some(Heap([Entity(37, 91), Entity(0, 37)], true, M3))
  {
    var l5 := [Entity(37, 91), Entity(0, 29)];
    assert FirstEndingAt(l5, 29) == Some(1);
    assert Reclaim(l5, 29, 8) == [Entity(37, 91), Entity(0, 37)];
    DemoCompactTwo(37, 91, 0, 37);
    DemoFree(Heap(l5, true, M3), 33, 8, [Entity(37, 91), Entity(0, 37)]);
  }

  /**
   * An 8-byte block then comes from the smaller entry; freeing it merges
   * onto the following entry, which keeps its address, so the two entries
   * end up overlapping.
   */
  lemma DemoReuse()
    ensures Malloc(Heap([Entity(37, 91), Entity(0, 37)], true, M3), 8) ==
      (Heap([Entity(37, 91), Entity(12, 25)], true, M4), Some(4))
    ensures FreeFitsList(Heap([Entity(37, 91), Entity(12, 25)], true, M4), Some(4))
    ensures Free(Heap([Entity(37, 91), Entity(12, 25)], true, M4), Some(4)) ==
      Some(Heap([Entity(37, 91), Entity(12, 37)], true, M4))
  {
    DemoReuseMalloc();
    DemoReuseFree();
  }

  lemma DemoReuseMalloc()
    ensures Malloc(Heap([Entity(37, 91), Entity(0, 37)], true, M3), 8) ==
      (Heap([Entity(37, 91), Entity(12, 25)], true, M4), Some(4))
  {
    var l6 := [Entity(37, 91), Entity(0, 37)];
    BestFitStep(l6, 1, 12);
    assert BestFit(l6, 12) == Some(1);
    assert Carve(l6, 1, 12) == l6[1 := Entity(12, 25)];
    DemoMalloc(Heap(l6, true, M3), 8, 1, Heap([Entity(37, 91), Entity(12, 25)], true, M4));
  }

  lemma DemoReuseFree()
    ensures FreeFitsList(Heap([Entity(37, 91), Entity(12, 25)], true, M4), Some(4))
    ensures Free(Heap([Entity(37, 91), Entity(12, 25)], true, M4), Some(4)) ==
      Some(Heap([Entity(37, 91), Entity(12, 37)], true, M4))
  {
    ReadAfterWrite(M3, 0, 12);
    var l7 := [Entity(37, 91), Entity(12, 25)];
    assert FirstEndingAt(l7, 0) == None;
    assert FirstStartingAt(l7, 12) == Some(1);
    assert Reclaim(l7, 0, 12) == [Entity(37, 91), Entity(12, 37)];
    DemoCompactTwo(37, 91, 12, 37);
    DemoFree(Heap(l7, true, M4), 4, 12, [Entity(37, 91), Entity(12, 37)]);
  }

  /** The headers the three frees read. */
  lemma DemoHeaders()
    ensures ReadU16(M3, 0) == 20 && ReadU16(M3, 20) == 9 && ReadU16(M3, 29) == 8
  {
    ReadAfterWrite(map[], 0, 20);
    ReadAfterWrite(M1, 20, 9);
    ReadAfterWriteElsewhere(M1, 20, 9, 0);
    ReadAfterWrite(M2, 29, 8);
    ReadAfterWriteElsewhere(M2, 29, 8, 0);
    ReadAfterWriteElsewhere(M2, 29, 8, 20);
  }

  /** One allocation of the demonstration, given the entry it takes and the outcome. */
  lemma DemoMalloc(h: Heap, size: nat, k: nat, h': Heap)
    requires Wf(h) && size <= HEAP_SIZE - HEADER
    requires BestFit(Bootstrap(h).list, size + HEADER) == Some(k)
    requires var b := Bootstrap(h);
      h' == Heap(Carve(b.list, k, size + HEADER), true, WriteU16(b.mem, b.list[k].ptr, size + HEADER))
    ensures Malloc(h, size) == (h', Some(Bootstrap(h).list[k].ptr + HEADER))
  {
  }

  /** One free of the demonstration, given the header it reads and the outcome. */
  lemma DemoFree(h: Heap, p: nat, size: nat, list': seq<Entity>)
    requires Wf(h) && h.booted && HEADER <= p && ReadU16(h.mem, p - HEADER) == size && size > HEADER
    requires |Reclaim(h.list, p - HEADER, size)| <= CAPACITY
    requires Compact(Reclaim(h.list, p - HEADER, size)) == list'
    ensures FreeFitsList(h, Some(p)) && Free(h, Some(p)) == Some(Heap(list', true, h.mem))
  {
  }

  /** A two-entry list whose first entry does not end where the second starts stays as it is. */
  lemma DemoCompactTwo(p0: nat, s0: nat, p1: nat, s1: nat)
    requires p0 + s0 != p1
    ensures Compact([Entity(p0, s0), Entity(p1, s1)]) == [Entity(p0, s0), Entity(p1, s1)]
  {
    CompactFromNoStorageNeighbours([Entity(p0, s0), Entity(p1, s1)], 0);
  }

  /**
   * With free entries of 10, 5 and 20 bytes, a request needing 4 bytes
   * takes the 5-byte entry.
   */
  lemma BestFitExample()
    ensures BestFit([Entity(0, 10), Entity(10, 5), Entity(15, 20)], 4) == Some(1)
  {
  }
}
