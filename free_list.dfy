/**
 * The free-list of malloc/MallocImplementation.c as values: the live prefix
 * `LIST[0 .. IN_USE)` is a sequence of entries, and each step that c_malloc
 * and c_free apply to it is a function here. The methods of module Malloc
 * perform the same steps in place on the `LIST` array and are proved equal
 * to these functions.
 *
 * Addresses are offsets from the start of the heap. They are unbounded
 * naturals because the list, as written, can describe ranges that run past
 * the end of the heap (see Reclaim).
 */
module FreeList {
  import opened Wrappers

  const HEAP_SIZE: nat := 128        // STACK_SIZE * 4
  const HEADER: nat := 4
  const CAPACITY: nat := 40          // Entity LIST[40]
  const UINT16_MAX: nat := 0xFFFF

  /** One free range: `ptr` is its start, `size` (a uint16_t) its length. */
  datatype Entity = Entity(ptr: nat, size: nat)

  function End(e: Entity): nat
  {
    e.ptr + e.size
  }

  /** Assignment of a sum to the uint16_t `size` field keeps it modulo 2^16. */
  function Wrap16(x: nat): (r: nat)
    ensures r <= UINT16_MAX
    ensures x <= UINT16_MAX ==> r == x
  {
    x % 0x1_0000
  }

  predicate SizesFit(s: seq<Entity>)
  {
    forall i :: 0 <= i < |s| ==> s[i].size <= UINT16_MAX
  }

  /** Total number of free bytes the list describes. */
  function FreeSum(s: seq<Entity>): nat
  {
    if s == [] then 0 else FreeSum(s[..|s| - 1]) + s[|s| - 1].size
  }

  /** Byte offset `b` lies in some free range of `s`. */
  ghost predicate Covers(s: seq<Entity>, b: nat)
  {
    exists j :: 0 <= j < |s| && s[j].ptr <= b < End(s[j])
  }

  lemma {:induction false} FreeSumConcat(a: seq<Entity>, b: seq<Entity>)
    ensures FreeSum(a + b) == FreeSum(a) + FreeSum(b)
  {
    if b == [] {
      assert a + b == a;
    } else {
      assert (a + b)[..|a + b| - 1] == a + b[..|b| - 1];
      FreeSumConcat(a, b[..|b| - 1]);
    }
  }

  /** Replacing one entry changes the total by the difference of the sizes. */
  lemma {:induction false} FreeSumUpdate(s: seq<Entity>, k: nat, e: Entity)
    requires k < |s|
    ensures FreeSum(s[k := e]) + s[k].size == FreeSum(s) + e.size
  {
    assert s == s[..k] + [s[k]] + s[k + 1..];
    assert s[k := e] == s[..k] + [e] + s[k + 1..];
    FreeSumConcat(s[..k] + [s[k]], s[k + 1..]);
    FreeSumConcat(s[..k] + [e], s[k + 1..]);
    FreeSumConcat(s[..k], [s[k]]);
    FreeSumConcat(s[..k], [e]);
  }

  /** Two distinct entries together hold no more than the whole list. */
  lemma {:induction false} FreeSumPair(s: seq<Entity>, i: nat, j: nat)
    requires i < j < |s|
    ensures s[i].size + s[j].size <= FreeSum(s)
  {
    assert s == s[..i] + [s[i]] + (s[i + 1..j] + [s[j]] + s[j + 1..]);
    FreeSumConcat(s[..i] + [s[i]], s[i + 1..j] + [s[j]] + s[j + 1..]);
    FreeSumConcat(s[..i], [s[i]]);
    FreeSumConcat(s[i + 1..j] + [s[j]], s[j + 1..]);
    FreeSumConcat(s[i + 1..j], [s[j]]);
  }

  // ---------------------------------------------------------------------
  // new_entity: best-fit search

  /**
   * An entry is a candidate for a request of `need` bytes when it is large
   * enough and strictly smaller than the initial `best_size` (UINT16_MAX).
   */
  predicate Fits(e: Entity, need: nat)
  {
    need <= e.size < UINT16_MAX
  }

  /**
   * The index that the best-fit scan selects: the smallest candidate, the
   * lowest index among candidates of that size, or None when no entry is a
   * candidate.
   */
  function BestFit(s: seq<Entity>, need: nat): (r: Option<nat>)
    ensures r.Some? ==> r.value < |s| && Fits(s[r.value], need)
    ensures r.Some? ==> forall j :: 0 <= j < |s| && Fits(s[j], need) ==> s[r.value].size <= s[j].size
    ensures r.Some? ==> forall j :: 0 <= j < r.value && Fits(s[j], need) ==> s[r.value].size < s[j].size
    ensures r.None? <==> forall j :: 0 <= j < |s| ==> !Fits(s[j], need)
  {
    if s == [] then None
    else
      var earlier := BestFit(s[..|s| - 1], need);
      var last := |s| - 1;
      if Fits(s[last], need) && (earlier.None? || s[last].size < s[earlier.value].size)
      then Some(last)
      else earlier
  }

  /** One step of the scan: the best fit among the first `i + 1` entries. */
  lemma BestFitStep(s: seq<Entity>, i: nat, need: nat)
    requires i < |s|
    ensures var before := BestFit(s[..i], need);
      BestFit(s[..i + 1], need) ==
        if Fits(s[i], need) && (before.None? || s[i].size < s[before.value].size) then Some(i) else before
  {
    assert s[..i + 1][..i] == s[..i];
  }

  // ---------------------------------------------------------------------
  // c_malloc: split the chosen entry and drop it when it is used up

  /** `LIST[k] = LIST[IN_USE - 1]; --IN_USE;` */
  function SwapRemove(s: seq<Entity>, k: nat): (r: seq<Entity>)
    requires k < |s|
    ensures |r| == |s| - 1
  {
    s[k := s[|s| - 1]][..|s| - 1]
  }

  /**
   * Swap-removal deletes exactly the entry at `k`: the other entries are
   * kept as a multiset, every slot but `k` keeps its entry, and slot `k`
   * (if still live) receives the former last entry.
   */
  lemma {:induction false} SwapRemoveKeepsOthers(s: seq<Entity>, k: nat)
    requires k < |s|
    ensures multiset(SwapRemove(s, k)) == multiset(s) - multiset{s[k]}
    ensures forall j :: 0 <= j < |s| - 1 && j != k ==> SwapRemove(s, k)[j] == s[j]
    ensures k < |s| - 1 ==> SwapRemove(s, k)[k] == s[|s| - 1]
    ensures FreeSum(SwapRemove(s, k)) == FreeSum(s) - s[k].size
  {
    var n := |s| - 1;
    if k == n {
      assert SwapRemove(s, k) == s[..n];
      assert s == s[..n] + [s[n]];
      assert FreeSum(s) == FreeSum(s[..n]) + s[n].size;
    } else {
      SwapRemoveMultiset(s, k);
      SwapRemoveFreeSum(s, k);
    }
  }

  lemma {:induction false} SwapRemoveMultiset(s: seq<Entity>, k: nat)
    requires k < |s| - 1
    ensures multiset(SwapRemove(s, k)) == multiset(s) - multiset{s[k]}
  {
    var n := |s| - 1;
    var pre, mid := s[..k], s[k + 1..n];
    assert s == pre + [s[k]] + mid + [s[n]];
    assert SwapRemove(s, k) == pre + [s[n]] + mid;
  }

  lemma {:induction false} SwapRemoveFreeSum(s: seq<Entity>, k: nat)
    requires k < |s| - 1
    ensures FreeSum(SwapRemove(s, k)) == FreeSum(s) - s[k].size
  {
    var n := |s| - 1;
    var t := s[k := s[n]];
    FreeSumUpdate(s, k, s[n]);
    assert t == t[..n] + [t[n]];
    assert FreeSum(t) == FreeSum(t[..n]) + s[n].size;
  }

  /**
   * The chosen entry `s[k]` gives `total` bytes from its front; if nothing
   * is left of it, it is swap-removed.
   */
  function Carve(s: seq<Entity>, k: nat, total: nat): (r: seq<Entity>)
    requires k < |s| && total <= s[k].size
    ensures |r| == if total == s[k].size then |s| - 1 else |s|
  {
    var rest := Entity(s[k].ptr + total, s[k].size - total);
    if rest.size == 0 then SwapRemove(s[k := rest], k) else s[k := rest]
  }

  /**
   * Carving removes exactly `total` free bytes; the list keeps its other
   * entries, and only a used-up entry leaves the list.
   */
  lemma {:induction false} CarveEffect(s: seq<Entity>, k: nat, total: nat)
    requires k < |s| && total <= s[k].size
    ensures FreeSum(Carve(s, k, total)) + total == FreeSum(s)
    ensures total < s[k].size ==> Carve(s, k, total) == s[k := Entity(s[k].ptr + total, s[k].size - total)]
    ensures total == s[k].size ==> multiset(Carve(s, k, total)) == multiset(s) - multiset{s[k]}
  {
    var rest := Entity(s[k].ptr + total, s[k].size - total);
    var t := s[k := rest];
    FreeSumUpdate(s, k, rest);
    if total == s[k].size {
      SwapRemoveKeepsOthers(t, k);
      UpdateMultiset(s, k, rest);
    }
  }

  lemma {:induction false} UpdateMultiset(s: seq<Entity>, k: nat, e: Entity)
    requires k < |s|
    ensures multiset(s[k := e]) - multiset{e} == multiset(s) - multiset{s[k]}
  {
    assert s == s[..k] + [s[k]] + s[k + 1..];
    assert s[k := e] == s[..k] + [e] + s[k + 1..];
  }

  /** Carving keeps every size within uint16_t and never lengthens the list. */
  lemma {:induction false} CarveSizes(s: seq<Entity>, k: nat, total: nat)
    requires k < |s| && total <= s[k].size && SizesFit(s)
    ensures SizesFit(Carve(s, k, total)) && |Carve(s, k, total)| <= |s|
  {
    var t := s[k := Entity(s[k].ptr + total, s[k].size - total)];
    assert SizesFit(t);
  }

  // ---------------------------------------------------------------------
  // c_free: merge the released range into one neighbour, or append it

  /** The first live entry that ends exactly at `a` (the left-merge search). */
  function FirstEndingAt(s: seq<Entity>, a: nat): (r: Option<nat>)
    ensures r.Some? ==> r.value < |s| && End(s[r.value]) == a
    ensures r.Some? ==> forall j :: 0 <= j < r.value ==> End(s[j]) != a
    ensures r.None? ==> forall j :: 0 <= j < |s| ==> End(s[j]) != a
  {
    if s == [] then None
    else if End(s[0]) == a then Some(0)
    else match FirstEndingAt(s[1..], a)
      case None => None
      case Some(i) => Some(i + 1)
  }

  /** The first live entry that starts exactly at `a` (the right-merge search). */
  function FirstStartingAt(s: seq<Entity>, a: nat): (r: Option<nat>)
    ensures r.Some? ==> r.value < |s| && s[r.value].ptr == a
    ensures r.Some? ==> forall j :: 0 <= j < r.value ==> s[j].ptr != a
    ensures r.None? ==> forall j :: 0 <= j < |s| ==> s[j].ptr != a
  {
    if s == [] then None
    else if s[0].ptr == a then Some(0)
    else match FirstStartingAt(s[1..], a)
      case None => None
      case Some(i) => Some(i + 1)
  }

  /**
   * The range `[start, start + size)` goes back into the list: grown onto
   * the first entry that ends at `start`; otherwise onto the first entry
   * that starts at `start + size`, which keeps its own address (so the
   * grown entry covers `size` bytes past its old end, not the released
   * range); otherwise appended as a new entry.
   */
  function Reclaim(s: seq<Entity>, start: nat, size: nat): (r: seq<Entity>)
    ensures |s| <= |r| <= |s| + 1
    ensures forall j :: 0 <= j < |s| ==> r[j].ptr == s[j].ptr
    ensures |r| == |s| + 1 ==> r[|s|] == Entity(start, size)
  {
    match FirstEndingAt(s, start)
    case Some(i) => s[i := Entity(s[i].ptr, Wrap16(s[i].size + size))]
    case None =>
      match FirstStartingAt(s, start + size)
      case Some(i) => s[i := Entity(s[i].ptr, Wrap16(size + s[i].size))]
      case None => s + [Entity(start, size)]
  }

  /** Reclaiming adds exactly `size` free bytes, unless a uint16_t size wraps. */
  lemma {:induction false} ReclaimFreeSum(s: seq<Entity>, start: nat, size: nat)
    requires FreeSum(s) + size <= UINT16_MAX
    ensures FreeSum(Reclaim(s, start, size)) == FreeSum(s) + size
    ensures |Reclaim(s, start, size)| <= |s| + 1
  {
    var left := FirstEndingAt(s, start);
    var right := FirstStartingAt(s, start + size);
    if left.Some? {
      GrowEntryFreeSum(s, left.value, size);
    } else if right.Some? {
      GrowEntryFreeSum(s, right.value, size);
    } else {
      assert Reclaim(s, start, size) == s + [Entity(start, size)];
      assert (s + [Entity(start, size)])[..|s|] == s;
    }
  }

  /** Growing one entry by `size` bytes adds `size` to the total. */
  lemma {:induction false} GrowEntryFreeSum(s: seq<Entity>, i: nat, size: nat)
    requires i < |s| && FreeSum(s) + size <= UINT16_MAX
    ensures FreeSum(s[i := Entity(s[i].ptr, Wrap16(s[i].size + size))]) == FreeSum(s) + size
    ensures FreeSum(s[i := Entity(s[i].ptr, Wrap16(size + s[i].size))]) == FreeSum(s) + size
  {
    FreeSumPairOne(s, i);
    assert Wrap16(s[i].size + size) == s[i].size + size;
    FreeSumUpdate(s, i, Entity(s[i].ptr, s[i].size + size));
  }

  /**
   * The bytes that reclaiming `[start, start + size)` makes free: the
   * released range itself after a left merge or an append; after a right
   * merge onto entry `i`, the `size` bytes that follow that entry instead.
   */
  ghost predicate Released(s: seq<Entity>, start: nat, size: nat, b: nat)
  {
    var right := FirstStartingAt(s, start + size);
    if FirstEndingAt(s, start).None? && right.Some?
    then End(s[right.value]) <= b < End(s[right.value]) + size
    else start <= b < start + size
  }

  /** Reclaiming adds exactly the `Released` bytes to the free bytes. */
  lemma ReclaimCovers(s: seq<Entity>, start: nat, size: nat, b: nat)
    requires FreeSum(s) + size <= UINT16_MAX
    ensures Covers(Reclaim(s, start, size), b) <==> Covers(s, b) || Released(s, start, size, b)
  {
    match FirstEndingAt(s, start)
    case Some(i) =>
      FreeSumPairOne(s, i);
      GrowCovers(s, i, s[i].size + size, b);
    case None =>
      match FirstStartingAt(s, start + size)
      case Some(i) =>
        FreeSumPairOne(s, i);
        GrowCovers(s, i, size + s[i].size, b);
      case None =>
        AppendCovers(s, Entity(start, size), b);
  }

  /** Growing entry `i` to `n >= s[i].size` bytes adds the bytes after its old end. */
  lemma GrowCovers(s: seq<Entity>, i: nat, n: nat, b: nat)
    requires i < |s| && s[i].size <= n <= UINT16_MAX
    ensures Covers(s[i := Entity(s[i].ptr, Wrap16(n))], b) <==> Covers(s, b) || End(s[i]) <= b < s[i].ptr + n
  {
    var r := s[i := Entity(s[i].ptr, n)];
    if Covers(r, b) {
      var j :| 0 <= j < |r| && r[j].ptr <= b < End(r[j]);
      if j != i { assert s[j].ptr <= b < End(s[j]); }
      else if b < End(s[i]) { assert s[i].ptr <= b < End(s[i]); }
    }
    if Covers(s, b) {
      var j :| 0 <= j < |s| && s[j].ptr <= b < End(s[j]);
      assert r[j].ptr <= b < End(r[j]);
    }
    if End(s[i]) <= b < s[i].ptr + n {
      assert r[i].ptr <= b < End(r[i]);
    }
  }

  /** Appending an entry adds exactly its bytes. */
  lemma AppendCovers(s: seq<Entity>, e: Entity, b: nat)
    ensures Covers(s + [e], b) <==> Covers(s, b) || e.ptr <= b < End(e)
  {
    var r := s + [e];
    if Covers(r, b) {
      var j :| 0 <= j < |r| && r[j].ptr <= b < End(r[j]);
      if j < |s| { assert s[j].ptr <= b < End(s[j]); }
    }
    if Covers(s, b) {
      var j :| 0 <= j < |s| && s[j].ptr <= b < End(s[j]);
      assert r[j].ptr <= b < End(r[j]);
    }
    if e.ptr <= b < End(e) {
      assert r[|s|].ptr <= b < End(r[|s|]);
    }
  }

  /** One entry holds no more than the whole list. */
  lemma {:induction false} FreeSumPairOne(s: seq<Entity>, i: nat)
    requires i < |s|
    ensures s[i].size <= FreeSum(s)
  {
    assert s == s[..i] + [s[i]] + s[i + 1..];
    FreeSumConcat(s[..i] + [s[i]], s[i + 1..]);
    FreeSumConcat(s[..i], [s[i]]);
  }

  // ---------------------------------------------------------------------
  // c_free: the compaction pass

  /**
   * `LIST[i].size += LIST[i + 1].size`, then the entries after `i + 1`
   * move down one slot.
   */
  function MergeNext(s: seq<Entity>, i: nat): (r: seq<Entity>)
    requires i + 1 < |s|
    ensures |r| == |s| - 1
    ensures forall k :: 0 <= k < i ==> r[k] == s[k]
    ensures r[i] == Entity(s[i].ptr, Wrap16(s[i].size + s[i + 1].size))
    ensures forall k :: i < k < |r| ==> r[k] == s[k + 1]
  {
    s[..i] + [Entity(s[i].ptr, Wrap16(s[i].size + s[i + 1].size))] + s[i + 2..]
  }

  /**
   * The compaction loop from index `i` on: an entry is merged with the one
   * stored right after it when that one starts where it ends; after a
   * merge the scan moves on, so the merged entry is not compared again.
   */
  function CompactFrom(s: seq<Entity>, i: nat): (r: seq<Entity>)
    ensures |r| <= |s|
    ensures i <= |s| ==> i <= |r| && r[..i] == s[..i]
    decreases |s| - i
  {
    if i + 1 < |s| then
      if End(s[i]) == s[i + 1].ptr then CompactFrom(MergeNext(s, i), i + 1)
      else CompactFrom(s, i + 1)
    else s
  }

  /** The whole compaction pass; it never lengthens the list. */
  function Compact(s: seq<Entity>): (r: seq<Entity>)
    ensures |r| <= |s|
  {
    CompactFrom(s, 0)
  }

  lemma {:induction false} MergeNextFreeSum(s: seq<Entity>, i: nat)
    requires i + 1 < |s| && FreeSum(s) <= UINT16_MAX
    ensures FreeSum(MergeNext(s, i)) == FreeSum(s)
  {
    FreeSumPair(s, i, i + 1);
    var pre, post := s[..i], s[i + 2..];
    var m := Entity(s[i].ptr, s[i].size + s[i + 1].size);
    assert MergeNext(s, i) == pre + [m] + post;
    assert s == pre + [s[i], s[i + 1]] + post;
    FreeSumConcat(pre + [m], post);
    FreeSumConcat(pre, [m]);
    FreeSumConcat(pre + [s[i], s[i + 1]], post);
    FreeSumConcat(pre, [s[i], s[i + 1]]);
    assert FreeSum([m]) == m.size by {
      assert [m][..0] == [];
    }
    assert FreeSum([s[i], s[i + 1]]) == s[i].size + s[i + 1].size by {
      assert [s[i], s[i + 1]][..1] == [s[i]];
      assert [s[i]][..0] == [];
    }
  }

  lemma {:induction false} MergeNextCovers(s: seq<Entity>, i: nat, b: nat)
    requires i + 1 < |s| && FreeSum(s) <= UINT16_MAX && End(s[i]) == s[i + 1].ptr
    ensures Covers(MergeNext(s, i), b) <==> Covers(s, b)
  {
    var r := MergeNext(s, i);
    FreeSumPair(s, i, i + 1);
    assert r[i] == Entity(s[i].ptr, s[i].size + s[i + 1].size);
    if Covers(r, b) {
      var j :| 0 <= j < |r| && r[j].ptr <= b < End(r[j]);
      if j < i {
        assert s[j].ptr <= b < End(s[j]);
      } else if j > i {
        assert s[j + 1].ptr <= b < End(s[j + 1]);
      } else if b < End(s[i]) {
        assert s[i].ptr <= b < End(s[i]);
      } else {
        assert s[i + 1].ptr <= b < End(s[i + 1]);
      }
    }
    if Covers(s, b) {
      var j :| 0 <= j < |s| && s[j].ptr <= b < End(s[j]);
      if j < i {
        assert r[j].ptr <= b < End(r[j]);
      } else if j > i + 1 {
        assert r[j - 1].ptr <= b < End(r[j - 1]);
      } else {
        assert r[i].ptr <= b < End(r[i]);
      }
    }
  }

  /**
   * Compaction keeps the number of free bytes and the set of free bytes,
   * and never lengthens the list (as long as no uint16_t size wraps).
   */
  lemma {:induction false} CompactFromPreserves(s: seq<Entity>, i: nat, b: nat)
    requires FreeSum(s) <= UINT16_MAX
    ensures FreeSum(CompactFrom(s, i)) == FreeSum(s)
    ensures Covers(CompactFrom(s, i), b) <==> Covers(s, b)
    ensures |CompactFrom(s, i)| <= |s|
    decreases |s| - i
  {
    if i + 1 < |s| {
      if End(s[i]) == s[i + 1].ptr {
        MergeNextFreeSum(s, i);
        MergeNextCovers(s, i, b);
        CompactFromPreserves(MergeNext(s, i), i + 1, b);
      } else {
        CompactFromPreserves(s, i + 1, b);
      }
    }
  }

  lemma CompactPreserves(s: seq<Entity>, b: nat)
    requires FreeSum(s) <= UINT16_MAX
    ensures FreeSum(Compact(s)) == FreeSum(s)
    ensures Covers(Compact(s), b) <==> Covers(s, b)
    ensures |Compact(s)| <= |s|
  {
    CompactFromPreserves(s, 0, b);
  }

  /**
   * Compaction only looks at neighbours in storage order: when no entry
   * ends where the entry stored after it starts, the list is left as it
   * is, however the ranges lie in the address space.
   */
  lemma {:induction false} CompactFromNoStorageNeighbours(s: seq<Entity>, i: nat)
    requires forall j :: i <= j && j + 1 < |s| ==> End(s[j]) != s[j + 1].ptr
    ensures CompactFrom(s, i) == s
    decreases |s| - i
  {
    if i + 1 < |s| {
      CompactFromNoStorageNeighbours(s, i + 1);
    }
  }

  /** The pass keeps the size of every entry within uint16_t and never grows. */
  lemma {:induction false} CompactFromSizes(s: seq<Entity>, i: nat)
    requires SizesFit(s)
    ensures SizesFit(CompactFrom(s, i)) && |CompactFrom(s, i)| <= |s|
    decreases |s| - i
  {
    if i + 1 < |s| {
      if End(s[i]) == s[i + 1].ptr {
        var m := MergeNext(s, i);
        assert forall j :: 0 <= j < |m| ==> m[j] == s[j] || j == i || m[j] == s[j + 1];
        CompactFromSizes(m, i + 1);
      } else {
        CompactFromSizes(s, i + 1);
      }
    }
  }
}
