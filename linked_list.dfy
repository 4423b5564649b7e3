/**
 * The singly linked list of stack_allocator/LinkedList.h. Nodes live in
 * slots handed out by a `StackAllocator`; a node pointer is its slot
 * index, `nodes` maps the slots of the live nodes to their contents, and
 * `head` is `head_`.
 */
module LinkedLists {
  import opened Wrappers
  import opened StackAllocators

  /** `Node{data, next}`; None for a null `next`. */
  datatype Node<T> = Node(data: T, next: Option<nat>)

  /** The elements stored along a chain of slots, in chain order. */
  function Values<T>(nodes: map<nat, Node<T>>, chain: seq<nat>): (r: seq<T>)
    requires forall k :: k in chain ==> k in nodes
    ensures |r| == |chain|
    ensures forall i :: 0 <= i < |chain| ==> r[i] == nodes[chain[i]].data
  {
    if chain == [] then [] else [nodes[chain[0]].data] + Values(nodes, chain[1..])
  }

  /** Following `next` from `head` visits the slots of `chain`, then a null. */
  ghost predicate Reaches<T>(head: Option<nat>, nodes: map<nat, Node<T>>, chain: seq<nat>)
    decreases |chain|
  {
    if chain == [] then head.None?
    else head == Some(chain[0]) && chain[0] in nodes && Reaches(nodes[chain[0]].next, nodes, chain[1..])
  }

  /**
   * Every slot of `chain` is below the one before it, and the first is
   * below `bound`: nodes are pushed in increasing slot order, so the slot
   * in front is always the most recent one.
   */
  ghost predicate Descending(chain: seq<nat>, bound: nat)
    decreases |chain|
  {
    chain == [] || (chain[0] < bound && Descending(chain[1..], chain[0]))
  }

  /** A descending chain lies below its bound, so no slot repeats. */
  lemma {:induction false} DescendingBelow(chain: seq<nat>, bound: nat, k: nat)
    requires Descending(chain, bound) && k in chain
    ensures k < bound
    decreases |chain|
  {
    if k != chain[0] {
      assert k in chain[1..];
      DescendingBelow(chain[1..], chain[0], k);
    }
  }

  /**
   * `chain` is the list of nodes: it is what `head` reaches, its slots
   * are exactly the stored nodes, and it descends from `bound`.
   */
  ghost predicate Linked<T>(head: Option<nat>, nodes: map<nat, Node<T>>, chain: seq<nat>, bound: nat)
  {
    Reaches(head, nodes, chain) && (forall k :: k in nodes <==> k in chain) && Descending(chain, bound)
  }

  /** What `head` reaches depends only on the nodes along the way. */
  lemma {:induction false} ReachesFrame<T>(head: Option<nat>, nodes: map<nat, Node<T>>, nodes': map<nat, Node<T>>, chain: seq<nat>)
    requires Reaches(head, nodes, chain)
    requires forall k :: k in chain ==> k in nodes && k in nodes' && nodes'[k] == nodes[k]
    ensures Reaches(head, nodes', chain)
    decreases |chain|
  {
    if chain != [] {
      assert forall k :: k in chain[1..] ==> k in chain;
      ReachesFrame(nodes[chain[0]].next, nodes, nodes', chain[1..]);
    }
  }

  /**
   * Linking a new node in a slot at or above `bound` in front of the list
   * keeps it linked and puts its value first.
   */
  lemma PushLinks<T>(head: Option<nat>, nodes: map<nat, Node<T>>, chain: seq<nat>, bound: nat, p: nat, v: T)
    requires Linked(head, nodes, chain, bound) && bound <= p
    ensures Linked(Some(p), nodes[p := Node(v, head)], [p] + chain, p + 1)
    ensures Values(nodes[p := Node(v, head)], [p] + chain) == [v] + Values(nodes, chain)
  {
    var nodes', chain' := nodes[p := Node(v, head)], [p] + chain;
    if p in chain {
      DescendingBelow(chain, bound, p);
    }
    assert chain'[1..] == chain;
    ReachesFrame(head, nodes, nodes', chain);
    forall k
      ensures k in nodes' <==> k in chain'
    {
      assert k in chain' <==> k == p || k in chain;
    }
    assert Descending(chain, p) by {
      if chain != [] {
        assert chain[0] < bound;
      }
    }
    var r := Values(nodes', chain');
    assert forall i :: 0 <= i < |r| ==> r[i] == ([v] + Values(nodes, chain))[i] by {
      assert forall i :: 1 <= i < |chain'| ==> chain'[i] == chain[i - 1];
    }
  }

  /** Unlinking the head node keeps the rest linked and drops the first value. */
  lemma PopLinks<T>(head: Option<nat>, nodes: map<nat, Node<T>>, chain: seq<nat>, bound: nat)
    requires Linked(head, nodes, chain, bound) && head.Some?
    ensures Linked(nodes[head.value].next, nodes - {head.value}, chain[1..], bound)
    ensures Values(nodes - {head.value}, chain[1..]) == Values(nodes, chain)[1..]
  {
    assert chain != [] && head.value == chain[0];
    var p := chain[0];
    var nodes', chain' := nodes - {p}, chain[1..];
    assert Descending(chain', p) && p < bound;
    if p in chain' {
      DescendingBelow(chain', p, p);
    }
    assert forall k :: k in chain' ==> k in chain;
    ReachesFrame(nodes[p].next, nodes, nodes', chain');
    forall k
      ensures k in nodes' <==> k in chain'
    {
      assert k in chain <==> k == p || k in chain';
    }
    assert Descending(chain', bound) by {
      if chain' != [] {
        assert chain'[0] < p;
      }
    }
    PopValues(nodes, chain);
  }

  /** Dropping the first slot of a chain drops its first value. */
  lemma PopValues<T>(nodes: map<nat, Node<T>>, chain: seq<nat>)
    requires chain != [] && chain[0] !in chain[1..] && forall k :: k in chain ==> k in nodes
    ensures Values(nodes - {chain[0]}, chain[1..]) == Values(nodes, chain)[1..]
  {
    var rest := chain[1..];
    assert forall k :: k in rest ==> k in chain;
    var r := Values(nodes - {chain[0]}, rest);
    assert forall i :: 0 <= i < |r| ==> r[i] == Values(nodes, chain)[1..][i];
  }

  class LinkedList<T> {
    var head: Option<nat>
    var nodes: map<nat, Node<T>>
    /** `allocator_`, of the allocator type rebound to `Node`. */
    const alloc: StackAllocator
    /** The slots of the nodes reached from `head`, in order. */
    ghost var chain: seq<nat>

    ghost predicate Valid()
      reads this, alloc
    {
      alloc.Valid() && Linked(head, nodes, chain, alloc.offset)
    }

    /** The elements from `begin()` to `end()`. */
    ghost function Contents(): seq<T>
      reads this
      requires forall k :: k in chain ==> k in nodes
    {
      Values(nodes, chain)
    }

    /** `LinkedList()`: an empty list over a fresh allocator of `capacity` nodes. */
    constructor(capacity: nat)
      requires capacity <= SIZE_MAX
      ensures Valid() && Contents() == []
      ensures fresh(alloc) && alloc.capacity == capacity && alloc.offset == 0
    {
      head := None;
      nodes := map[];
      chain := [];
      alloc := new StackAllocator(capacity);
    }

    /**
     * `push_front(v)`: one node is requested; when the allocator throws,
     * nothing changes (`ok` is false), otherwise the new node holds `v` and
     * points at the old head.
     */
    method PushFront(v: T) returns (ok: bool)
      requires Valid()
      modifies this, alloc`offset
      ensures Valid()
      ensures ok <==> old(alloc.offset) < alloc.capacity
      ensures ok ==> Contents() == [v] + old(Contents()) && alloc.offset == old(alloc.offset) + 1
      ensures !ok ==> Contents() == old(Contents()) && alloc.offset == old(alloc.offset)
    {
      var slot := alloc.AllocateSlots(1);
      if slot.None? {
        return false;
      }
      var p := slot.value;
      PushLinks(head, nodes, chain, p, p, v);
      nodes := nodes[p := Node(v, head)];
      head := Some(p);
      chain := [p] + chain;
      ok := true;
    }

    /**
     * `pop_front()`: nothing on an empty list; otherwise the head node is
     * unlinked, destroyed and handed to `deallocate`, which keeps its slot.
     */
    method PopFront()
      requires Valid()
      modifies this
      ensures Valid()
      ensures Contents() == if old(Contents()) == [] then [] else old(Contents())[1..]
      ensures alloc.offset == old(alloc.offset)
    {
      if head.Some? {
        var p := head.value;
        PopLinks(head, nodes, chain, alloc.offset);
        head := nodes[p].next;
        nodes := nodes - {p};
        chain := chain[1..];
        alloc.Deallocate(p, 1);
      }
    }

    /** `clear()`, which the destructor also calls: pop until empty. */
    method Clear()
      requires Valid()
      modifies this
      ensures Valid() && Contents() == []
      ensures alloc.offset == old(alloc.offset)
    {
      while head.Some?
        invariant Valid() && alloc.offset == old(alloc.offset)
        decreases |chain|
      {
        PopFront();
      }
    }

    /** Iterating from `begin()` to `end()`: the elements head first. */
    method Elements() returns (r: seq<T>)
      requires Valid()
      ensures r == Contents()
    {
      r := [];
      var cur := head;
      ghost var i := 0;
      while cur.Some?
        invariant 0 <= i <= |chain|
        invariant Reaches(cur, nodes, chain[i..])
        invariant r + Values(nodes, chain[i..]) == Contents()
        decreases |chain| - i
      {
        var node := nodes[cur.value];
        assert chain[i..][1..] == chain[i + 1..];
        r := r + [node.data];
        cur := node.next;
        i := i + 1;
      }
    }
  }

  /**
   * Slots are never given back: with the default 1024-node allocator, after
   * 1024 pushes, each followed by a pop, the list is empty and yet the next
   * push fails and leaves the list as it was.
   */
  method PushAfterCapacityFails<T>(v: T) returns (list: LinkedList<T>, ok: bool)
    ensures list.Valid() && list.Contents() == []
    ensures list.alloc.capacity == DEFAULT_CAPACITY && list.alloc.offset == DEFAULT_CAPACITY
    ensures !ok
  {
    list := new LinkedList<T>(DEFAULT_CAPACITY);
    var n := 0;
    while n < DEFAULT_CAPACITY
      invariant 0 <= n <= DEFAULT_CAPACITY
      invariant list.Valid() && list.Contents() == []
      invariant list.alloc.capacity == DEFAULT_CAPACITY && list.alloc.offset == n
    {
      var pushed := list.PushFront(v);
      list.PopFront();
      n := n + 1;
    }
    ok := list.PushFront(v);
  }
}
