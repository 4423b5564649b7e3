# A verified model of a small best-fit heap allocator, a bump allocator and a linked list

This project models three pieces of C and C++ code in Dafny and proves what they do.

- `malloc/MallocImplementation.c` is a single-arena heap allocator. `c_malloc` and `c_free` manage a 128-byte static heap.
  - Free space is a free-list of at most 40 `(ptr, size)` entries, `LIST[0 .. IN_USE)`.
  - Each allocated block starts with a 4-byte header whose first two bytes hold the block's total size as a `uint16_t`.
  - `c_malloc` installs the heap lazily on first use. It rejects requests above 124 bytes and picks the best-fit entry. It writes the header, carves the block from the front of the entry, and swap-removes the entry if nothing is left.
  - `c_free` reads the header and asserts it is above 4. It merges the block into a left neighbour, else a right neighbour, else appends it. It then runs one compaction pass.
- `stack_allocator/StackAllocator.h` is a bump allocator. Its `offset_` counts the slots handed out from a buffer of `N` slots. It never goes down unless `offset_ + n` wraps (see Findings).
- `stack_allocator/LinkedList.h` is a singly linked list whose nodes come from such an allocator.

## Layout

The model is split into seven files.

- `wrappers.dfy`: `Option`.
- `header.dfy` (module Header): heap bytes as a map from offset to byte, and 16-bit header reads and writes.
- `free_list.dfy` (module FreeList): the free-list steps as functions on the live prefix, with their lemmas.
  - Steps: best-fit search, carving, swap-removal, neighbour search, reclaiming, compaction.
  - Lemmas: free bytes are conserved, the set of free bytes changes as stated, and swap-removal keeps the other entries.
- `malloc_spec.dfy` (module MallocSpec): `c_malloc` and `c_free` as functions on the whole allocator state `Heap(list, booted, mem)`.
  - Lemmas about these functions.
  - The call sequence of the file's `test()`, evaluated step by step.
- `malloc.dfy` (module Malloc): class `Allocator`, whose fields are the globals.
  - It holds `list: array<Entity>` (the 40 slots), `inUse`, and `mem`.
  - Each method runs the C loops in place. Each is proved to produce the state or result that a MallocSpec or FreeList function defines.
- `stack_allocator.dfy` (module StackAllocators): `allocate` as a function, with grant lemmas over a run of requests, and class `StackAllocator`.
- `linked_list.dfy` (module LinkedLists): class `LinkedList`.
  - A node pointer is its slot index. `nodes` maps live slots to `Node(data, next)`.
  - A ghost `chain` lists the slots reached from `head`. `Contents()` is the element sequence.

## Modelling decisions

- Addresses are offsets from the start of the heap, as unbounded naturals. NULL is `None`.
  - The code as written can describe free ranges that run past the end of the heap (see the `FreeList.ReclaimCovers` and `MallocSpec.MallocEightThenFree` rows), so addresses are not bounded by 128.
  - The heap bytes are a map rather than a 128-byte array for the same reason: headers can then be written beyond offset 128.
- The header is stored little-endian. The C code uses the platform's byte order; the properties here do not depend on it.
- The test `LIST[0].ptr == NULL && LIST[0].size == 0` in new_entity becomes a `booted` flag. That test holds exactly until the first installation, because the heap address is never NULL.
- `uint16_t` arithmetic is explicit:
  - merged sizes are taken modulo 2^16 (`Wrap16`);
  - lemmas about totals are stated for lists whose total stays within `UINT16_MAX`.
- `best_size` starts at `UINT16_MAX` and the comparison is strict. An entry of exactly 65535 bytes is therefore never chosen; `Fits` states this.
- A failing `assert(size > HEADER)` in `c_free` ends the program. It is modelled as an abort outcome: `Free` returns `None`, `CFree` returns `aborted`, and the state is left as it was.
- The append in `c_free` writes `LIST[IN_USE]` without a bound check. `FreeFitsList` makes "the append stays within the 40 slots" a precondition of `c_free`, on the append path only.
- Three behaviours of the code that a reader might not expect are modelled as written.
  - Best fit excludes 65535-byte entries, as well as entries shorter than the need.
  - A right merge keeps the neighbour's address and grows the entry past its end, instead of covering the freed range.
  - Free ranges can therefore overlap after a right merge.
- Demonstration sizes come from a 64-bit ABI: `sizeof(Foo) = 16`, `sizeof(int) = 4`, `sizeof(double) = 8`.
- `SIZE_MAX` is that of a 64-bit `size_t`.

## Model

| member | source | states |
|---|---|---|
| Header.ReadU16 | malloc/MallocImplementation.c:121 | the header read yields a `uint16_t`; that it returns what c_malloc stored is stated by ReadAfterWrite and ReadAfterWriteElsewhere |
| Header.WriteU16 | malloc/MallocImplementation.c:92 | storing the header touches exactly the two bytes at the block start and keeps every other byte |
| Header.ReadAfterWrite | malloc/MallocImplementation.c:121 | reading the header back at the block start returns the total that c_malloc stored |
| Header.ReadAfterWriteElsewhere | malloc/MallocImplementation.c:92 | a header write leaves every non-overlapping 16-bit slot unchanged |
| FreeList.Wrap16 | malloc/MallocImplementation.c:130 | assigning a sum to a `uint16_t` size (here, and likewise at lines 143 and 164) yields at most 65535, and the sum itself when it fits |
| FreeList.BestFit | malloc/MallocImplementation.c:55-70 | the selected index is a candidate; no candidate is smaller; every earlier candidate is strictly larger (ties go to the lowest index); None iff no entry is a candidate |
| FreeList.SwapRemove | malloc/MallocImplementation.c:98-106 | removal by copying the last live entry into slot k, one entry shorter; its effect on contents and free bytes is stated by SwapRemoveKeepsOthers |
| FreeList.Carve | malloc/MallocImplementation.c:89-106 | the chosen entry gives its front bytes, and leaves the list exactly when used up; in-place advance, multiset and free-byte effects are stated by CarveEffect and CarveSizes |
| FreeList.SwapRemoveKeepsOthers | malloc/MallocImplementation.c:98-106 | swap-removal deletes exactly entry k (multiset minus that entry); every other live slot keeps its entry; slot k receives the former last entry; free bytes drop by its size |
| FreeList.CarveEffect | malloc/MallocImplementation.c:89-106 | carving `total` bytes removes exactly `total` free bytes; a partly used entry advances by `total` in place; a used-up entry leaves the list and the rest is kept as a multiset |
| FreeList.CarveSizes | malloc/MallocImplementation.c:94-106 | carving keeps sizes within uint16_t and never lengthens the list |
| FreeList.FirstEndingAt | malloc/MallocImplementation.c:128-136 | the left-merge search finds the first live entry ending at the block start, or reports that none does |
| FreeList.FirstStartingAt | malloc/MallocImplementation.c:139-148 | the right-merge search finds the first live entry starting at the block end, or reports that none does |
| FreeList.Reclaim | malloc/MallocImplementation.c:125-159 | merge-or-append as written: every existing entry keeps its address (including a right-merged neighbour), and at most one entry, the freed range, is appended; its effect on the free-byte count and set is stated by ReclaimFreeSum and ReclaimCovers |
| FreeList.ReclaimFreeSum | malloc/MallocImplementation.c:125-159 | left merge, right merge or append adds exactly the freed size to the free bytes and at most one entry |
| FreeList.ReclaimCovers | malloc/MallocImplementation.c:125-159 | the newly free bytes are exactly `Released`: the freed range after a left merge or append; after a right merge, the `size` bytes past the right neighbour's end |
| FreeList.MergeNext | malloc/MallocImplementation.c:163-167 | merging at i grows entry i by entry i+1; the entries before i are kept; those after i+1 move down one slot in order |
| FreeList.MergeNextFreeSum | malloc/MallocImplementation.c:163-167 | one merge keeps the number of free bytes, when no uint16_t size wraps |
| FreeList.MergeNextCovers | malloc/MallocImplementation.c:163-167 | merging two storage neighbours that touch keeps the set of free bytes, when no uint16_t size wraps |
| FreeList.CompactFrom | malloc/MallocImplementation.c:161-170 | the compaction loop from index i: never lengthens the list and leaves the entries before i alone; its preservation facts are stated by CompactFromPreserves, CompactFromNoStorageNeighbours and CompactFromSizes |
| FreeList.Compact | malloc/MallocImplementation.c:161-170 | the whole compaction pass never lengthens the list; CompactPreserves states that it keeps the free bytes |
| FreeList.CompactFromPreserves | malloc/MallocImplementation.c:161-170 | the compaction pass keeps the free-byte count and the free-byte set, and never lengthens the list, when no uint16_t size wraps |
| FreeList.CompactPreserves | malloc/MallocImplementation.c:161-170 | the same facts for the whole pass from index 0, when no uint16_t size wraps |
| FreeList.CompactFromNoStorageNeighbours | malloc/MallocImplementation.c:161-170 | compaction compares storage neighbours only: without a touching storage neighbour the list is left as it is, however the ranges lie in memory |
| FreeList.CompactFromSizes | malloc/MallocImplementation.c:161-170 | compaction keeps sizes within uint16_t and never lengthens the list |
| MallocSpec.Bootstrap | malloc/MallocImplementation.c:46-52 | installing the heap yields a well-formed, installed state with the heap bytes unchanged |
| MallocSpec.BootstrapOnce | malloc/MallocImplementation.c:46-52 | the first installation yields the single entry [0, 128); an installed state is left alone, so installation happens once |
| MallocSpec.Malloc | malloc/MallocImplementation.c:74-111 | c_malloc keeps the state well-formed; an oversize request (above 124) returns NULL with the state untouched; any other request installs the heap |
| MallocSpec.FirstAllocation | malloc/MallocImplementation.c:46-95 | the first request returns pointer 4, header 0 holds its total, and the list is the rest of the heap (empty if the request takes all of it) |
| MallocSpec.MallocOutcome | malloc/MallocImplementation.c:55-106 | NULL iff no entry is a candidate; on success the block sits at a minimal candidate, the header reads back the total, and the free bytes drop by the total |
| MallocSpec.ZeroSizeBlockCannotBeFreed | malloc/MallocImplementation.c:120-123 | the block from `c_malloc(0)` has header 4, so freeing it always fails the assertion |
| MallocSpec.Free | malloc/MallocImplementation.c:114-171 | c_free aborts exactly when the header read before a non-NULL pointer is at most 4; otherwise the new state is well-formed, with the installed flag and heap bytes unchanged |
| MallocSpec.FreeNull | malloc/MallocImplementation.c:116-118 | `c_free(NULL)` changes nothing |
| MallocSpec.FreeAddsRecordedSize | malloc/MallocImplementation.c:125-170 | a successful free adds exactly the recorded size to the free bytes (no uint16_t wrap) |
| MallocSpec.FreeCovers | malloc/MallocImplementation.c:125-170 | after a successful free, a byte is free iff it was free before or it is among the `Released` bytes |
| MallocSpec.ReleaseCovers | malloc/MallocImplementation.c:125-170 | the same at list level: reclaiming then compacting adds exactly the `Released` bytes |
| MallocSpec.MallocEightThenFree | malloc/MallocImplementation.c:138-159 | `c_malloc(8)` returns 4 (header 12, 116 bytes free); freeing it leaves one 128-byte entry starting at 12, running past the heap end |
| MallocSpec.DemoAllocations | malloc/MallocImplementation.c:184-186 | the allocations of 16, 5 and 4 bytes return 4, 24 and 33 and leave the single entry [37, 128) |
| MallocSpec.DemoFrees | malloc/MallocImplementation.c:200-202 | freeing the three blocks in order leaves the entries [37, 128) and [0, 37): all 128 bytes are free, yet the list keeps two entries |
| MallocSpec.DemoFreeFoo | malloc/MallocImplementation.c:200 | freeing the 16-byte block appends `[0, 20)` behind `[37, 128)` |
| MallocSpec.DemoFreeBar | malloc/MallocImplementation.c:201 | freeing the 5-byte block merges it onto `[0, 20)`, giving `[0, 29)` |
| MallocSpec.DemoFreeBazz | malloc/MallocImplementation.c:202 | freeing the 4-byte block merges it onto `[0, 29)`, giving `[0, 37)` |
| MallocSpec.DemoReuse | malloc/MallocImplementation.c:205-212 | the 8-byte allocation comes from [0, 37) at pointer 4; freeing it leaves [37, 128) and [12, 49), which overlap |
| MallocSpec.DemoReuseMalloc | malloc/MallocImplementation.c:205 | the 8-byte allocation step of the demonstration |
| MallocSpec.DemoReuseFree | malloc/MallocImplementation.c:212 | the final free of the demonstration |
| MallocSpec.BestFitExample | malloc/MallocImplementation.c:58-63 | with free entries of 10, 5 and 20 bytes, a 4-byte need takes the 5-byte entry |
| Malloc.Allocator.constructor | malloc/MallocImplementation.c:10-31 | program start: empty list, heap not installed, zeroed heap |
| Malloc.Allocator.FindBestFit | malloc/MallocImplementation.c:55-70 | the scan loop returns exactly `BestFit` of the live entries |
| Malloc.Allocator.NewEntity | malloc/MallocImplementation.c:44-71 | new_entity installs the heap (if needed) and returns the best-fit index of the resulting list |
| Malloc.Allocator.RemoveEntry | malloc/MallocImplementation.c:98-106 | the removal loop leaves exactly `SwapRemove` of the live entries |
| Malloc.Allocator.CMalloc | malloc/MallocImplementation.c:74-111 | the in-place c_malloc produces exactly the state and pointer of `Malloc` |
| Malloc.Allocator.Split | malloc/MallocImplementation.c:89-106 | the part after a successful search produces exactly the state and pointer of `Malloc` |
| Malloc.Allocator.TakeFrom | malloc/MallocImplementation.c:89-106 | writes the header at the entry start and leaves exactly `Carve` of the live entries |
| Malloc.Allocator.CFree | malloc/MallocImplementation.c:114-171 | the in-place c_free aborts exactly when `Free` does, leaving the state unchanged; otherwise it produces exactly the state of `Free` |
| Malloc.Allocator.Release | malloc/MallocImplementation.c:125-170 | merge-or-append followed by compaction leaves exactly `Compact(Reclaim(...))` |
| Malloc.Allocator.Reinsert | malloc/MallocImplementation.c:125-159 | the `insert_index` logic leaves exactly `Reclaim` of the live entries |
| Malloc.Allocator.FindLeftNeighbour | malloc/MallocImplementation.c:128-136 | the left search loop returns exactly `FirstEndingAt` |
| Malloc.Allocator.FindRightNeighbour | malloc/MallocImplementation.c:139-148 | the right search loop returns exactly `FirstStartingAt` |
| Malloc.Allocator.CompactList | malloc/MallocImplementation.c:161-170 | the compaction loop leaves exactly `Compact` of the live entries |
| Malloc.Allocator.MergeWithNext | malloc/MallocImplementation.c:163-167 | one merge with its shift loop leaves exactly `MergeNext` and one fewer live entry |
| Malloc.Allocator.ShiftDown | malloc/MallocImplementation.c:165-167 | the shift loop moves every entry after the merged one down one slot and keeps the slots before it |
| StackAllocators.AllocateAsWritten | stack_allocator/StackAllocator.h:25-32 | the bound check as written, in wrapping `size_t` arithmetic: a grant is the old offset; a refusal keeps the offset; the new offset stays representable and within N; it drops below the old offset only when `offset + n` exceeds `SIZE_MAX` |
| StackAllocators.Allocate | stack_allocator/StackAllocator.h:25-32 | refused iff `offset + n > N` in true arithmetic, offset unchanged; otherwise the grant is the old offset and the offset advances by n, staying within N |
| StackAllocators.AllocateAsWrittenWithoutWrap | stack_allocator/StackAllocator.h:26-30 | whenever `offset + n` does not wrap, the code as written returns what `Allocate` returns |
| StackAllocators.AllocateAsWrittenWraps | stack_allocator/StackAllocator.h:26-30 | with offset 1 and N = 1024, `allocate(SIZE_MAX)` passes the check as written and resets the offset to 0; `Allocate` refuses it |
| StackAllocators.Grants | stack_allocator/StackAllocator.h:25-32 | the grants of a run of `allocate` calls, one per request; GrantsDisjoint states that they are increasing, disjoint and inside the buffer |
| StackAllocators.FinalOffset | stack_allocator/StackAllocator.h:29-30 | over any run of requests the offset never decreases and never exceeds N |
| StackAllocators.GrantsDisjoint | stack_allocator/StackAllocator.h:29-30 | in any run, every granted range lies between the starting and final offsets, and ranges granted earlier end before later ones start (increasing, pairwise disjoint, inside the buffer) |
| StackAllocators.StackAllocator.constructor | stack_allocator/StackAllocator.h:23 | a new allocator has offset 0 |
| StackAllocators.StackAllocator.AllocateSlots | stack_allocator/StackAllocator.h:25-32 | `allocate(n)` returns and updates exactly as `Allocate`, keeping `offset <= N` |
| StackAllocators.StackAllocator.Deallocate | stack_allocator/StackAllocator.h:34-36 | `deallocate` changes no state |
| StackAllocators.StackAllocator.Rebind | stack_allocator/StackAllocator.h:18-21 | the rebound allocator has the same N and starts with nothing handed out |
| LinkedLists.Values | stack_allocator/LinkedList.h:47-69 | the elements along a chain of nodes, in chain order |
| LinkedLists.ReachesFrame | stack_allocator/LinkedList.h:25-39 | what `head_` reaches depends only on the nodes along the chain |
| LinkedLists.PushLinks | stack_allocator/LinkedList.h:25-30 | linking a node from a fresh slot in front keeps the list well linked and puts its value first |
| LinkedLists.PopLinks | stack_allocator/LinkedList.h:32-39 | unlinking the head node keeps the rest well linked and drops the first value |
| LinkedLists.PopValues | stack_allocator/LinkedList.h:32-39 | removing the head node from storage drops exactly the first value |
| LinkedLists.DescendingBelow | stack_allocator/LinkedList.h:25-30 | every slot on the chain is below the allocator's offset, so a fresh slot is never already linked |
| LinkedLists.LinkedList.constructor | stack_allocator/LinkedList.h:21 | a new list is empty, over a fresh allocator with nothing handed out |
| LinkedLists.LinkedList.PushFront | stack_allocator/LinkedList.h:25-30 | succeeds iff the allocator has a slot left; then the contents become `[v] + old` and exactly one slot is consumed; otherwise nothing changes |
| LinkedLists.LinkedList.PopFront | stack_allocator/LinkedList.h:32-39 | no-op on an empty list; otherwise the contents become `old[1..]`; the allocator's offset is unchanged (no slot is returned) |
| LinkedLists.LinkedList.Clear | stack_allocator/LinkedList.h:41-45 | the loop terminates with an empty list and the allocator's offset unchanged |
| LinkedLists.LinkedList.Elements | stack_allocator/LinkedList.h:47-69 | iterating from `begin()` to `end()` yields exactly the contents, head first |
| LinkedLists.PushAfterCapacityFails | stack_allocator/LinkedList.h:25-39 | with the default 1024-slot allocator, after 1024 push/pop pairs the next push fails; the returned list is empty and all 1024 slots are used up |

## Findings

| source | as written | input that shows it | evidently intended | confidence | as-written member | corrected member |
|---|---|---|---|---|---|---|
| stack_allocator/StackAllocator.h:26 | `offset_ + n > N` is computed in `size_t` and wraps, so a huge request passes the check and `offset_ += n` wraps the offset back below its old value | `offset_ = 1`, `n = SIZE_MAX`, `N = 1024`: the sum wraps to 0, the request is granted, the offset becomes 0, and slot 0 would be handed out again | refuse when fewer than `n` slots are left (`n > N - offset_`) | medium; not executed | StackAllocators.AllocateAsWrittenWraps | StackAllocators.Allocate |

`StackAllocator.AllocateSlots`, `Grants` and everything built on them use the corrected check.

## Left out

- `LOG()` and all `printf` output: diagnostics only.
- The `stack`, `unmapped` and `data_t` fields of `VirtualMemory`: the code never uses them.
- The payload bytes of blocks (`strcpy`, `memcpy`, the `double` values in `test()`), and the read of `foo->b` after `c_free(foo)`. Only the call sequence of `test()` is modelled.
- `main` in both programs. `stack_allocator/main.cpp` as a whole: benchmarks, console output, and calls to list operations that `LinkedList.h` does not declare.
- `stack_allocator/AllocatorTraits.h`: it only forwards to the allocator.
- `construct`/`destroy` (placement new and explicit destructor calls), `alignas` and the `reinterpret_cast` address computation. Slots are indices, and a popped node is simply removed from `nodes`.
- The `LinkedList` destructor: it only calls `clear()`, which is modelled as `Clear`.
- Concurrency: all state is single-threaded.
- Malloc.Allocator: entries stored beyond `IN_USE` are not specified; the methods say nothing about stale slots.
- The `bad_alloc` exception: it is modelled as a `None` grant, or `ok == false` for `push_front`. Exception propagation itself is not modelled.
- FreeList.ReclaimFreeSum, FreeList.ReclaimCovers, FreeList.MergeNextFreeSum, FreeList.MergeNextCovers, FreeList.CompactFromPreserves, FreeList.CompactPreserves, MallocSpec.FreeAddsRecordedSize, MallocSpec.FreeCovers, MallocSpec.ReleaseCovers: stated only while the total of free bytes plus the freed size stays within 65535. Otherwise a `uint16_t` size wraps and the totals are not conserved.
- MallocSpec.Free: both the abort (a failed `assert`) and the caller's promise are simplified. An abort is an outcome with the state unchanged, not termination. The caller's promise is reduced to the one condition the code needs, `FreeFitsList`; a pointer that `c_malloc` never returned is otherwise accepted and its header is read from the model's heap bytes.
- Header byte order: fixed to little-endian; the C code uses the platform's order.
- StackAllocators.StackAllocator.Rebind: `rebind` is a type-level alias. It is modelled as constructing the rebound allocator, which is what the list's default-constructed `allocator_` amounts to.
