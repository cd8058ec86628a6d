/**
 * The untyped pool allocator as an object whose fields its methods update in
 * place.
 *
 * Memory is modelled by slot index: `slots[i]` is the link word at the front
 * of slot i (the index of the next free slot, or -1 for the null pointer), and
 * `freeList` is the head of the free list as a slot index. Addresses are what
 * callers see: slot i lives at SlotAddress(Geometry(), i). The ghost field
 * `free` is the free list as PoolModel sees it, and Valid() ties it to the
 * links stored in the slots.
 */
module RawPool {
  import opened Alignment
  import opened PoolModel

  /** The link word that points at the head of `free`: its first slot, or null. */
  function Head(free: seq<nat>): int
  {
    if free == [] then -1 else free[0]
  }

  /**
   * The link words spell out the free list: every free slot is in range and
   * its link word points at the slot after it, the last one at null.
   */
  ghost predicate Linked(links: seq<int>, free: seq<nat>)
  {
    && (forall k :: 0 <= k < |free| ==> free[k] < |links|)
    && forall k {:trigger links[free[k]]} :: 0 <= k < |free| ==> links[free[k]] == Head(free[k + 1..])
  }

  /** The links the constructor writes: slot i to slot i + 1, the last slot to null. */
  function Chain(n: nat): (r: seq<int>)
    ensures |r| == n
  {
    seq(n, k => if k + 1 < n then k + 1 else -1)
  }

  /** The constructor's links thread every slot in index order. */
  lemma ChainLinksIndices(n: nat)
    ensures Linked(Chain(n), Indices(n))
  {
    forall k | 0 <= k < n
      ensures Chain(n)[Indices(n)[k]] == Head(Indices(n)[k + 1..])
    {
      if k + 1 < n {
        assert Indices(n)[k + 1..][0] == k + 1;
      } else {
        assert Indices(n)[k + 1..] == [];
      }
    }
  }

  /** Following the head's link word leaves the rest of the free list linked. */
  lemma LinkedPop(links: seq<int>, free: seq<nat>)
    requires Linked(links, free) && free != []
    ensures free[0] < |links| && links[free[0]] == Head(free[1..])
    ensures Linked(links, free[1..])
  {
    forall k | 0 <= k < |free| - 1
      ensures free[1..][k] < |links| && links[free[1..][k]] == Head(free[1..][k + 1..])
    {
      assert free[1..][k] == free[k + 1];
      assert free[1..][k + 1..] == free[k + 2..];
    }
  }

  /** Writing the old head into a slot not on the list pushes that slot on. */
  lemma LinkedPush(links: seq<int>, free: seq<nat>, i: nat)
    requires Linked(links, free) && i < |links| && i !in free
    ensures Linked(links[i := Head(free)], [i] + free)
  {
    var links', free' := links[i := Head(free)], [i] + free;
    forall k | 0 <= k < |free'|
      ensures free'[k] < |links'| && links'[free'[k]] == Head(free'[k + 1..])
    {
      if k == 0 {
        assert free'[1..] == free;
      } else {
        assert free'[k] == free[k - 1] != i;
        assert free'[k + 1..] == free[k..];
      }
    }
  }

  class PoolAllocator {
    /** Address of the block reserved from the system allocator, not aligned. */
    var start: nat
    /** Bytes spanned by the slots; the alignment padding is not counted. */
    var size: nat
    var usedMemory: nat
    var numAllocations: nat
    /** Slot size, fixed for the pool's lifetime. */
    const objSize: nat
    var objNum: nat
    var alignment: uint8
    /** Head of the free list as a slot index; -1 is the null pointer. */
    var freeList: int
    /** The leading link word of every slot; the pool owns this arena alone. */
    const slots: array<int>
    /** The free list as the sequence of slots reached from its head. */
    ghost var free: seq<nat>

    /** The construction parameters, with the block's address. */
    function Geometry(): Layout
      reads this
    {
      Layout(start, objSize, objNum, alignment)
    }

    /** The abstract state: free list and counters. */
    ghost function Model(): State
      reads this
    {
      State(free, usedMemory, numAllocations)
    }

    ghost predicate Valid()
      reads this, slots
    {
      && Inv(Geometry(), Model())
      && slots.Length == objNum
      && size == objSize * objNum
      && freeList == Head(free)
      && Linked(slots[..], free)
    }

    /**
     * Takes the block the system allocator returned (its reservation is not
     * modelled and always succeeds) and threads every slot into the free
     * list: slot i links to slot i + 1 and the last slot links to null.
     */
    constructor (block: nat, objSize: nat, objNum: nat, alignment: uint8 := DefaultAlignment)
      requires objSize >= PointerWidth
      requires IsValidAlignment(alignment)
      requires objNum > 0
      ensures Valid() && fresh(slots)
      ensures Geometry() == Layout(block, objSize, objNum, alignment)
      ensures Model() == Init(Geometry())
      ensures slots[..] == Chain(objNum)
    {
      ValidAlignments(alignment);
      var links := new int[objNum];
      var p := 0;
      var i := 0;
      while i < objNum - 1
        invariant 0 <= i <= objNum - 1 && p == i
        invariant forall k :: 0 <= k < i ==> links[k] == Chain(objNum)[k]
      {
        links[p] := p + 1;
        p := links[p];
        i := i + 1;
      }
      links[p] := -1;
      assert links[..] == Chain(objNum) by {
        assert forall k :: 0 <= k < objNum ==> links[k] == Chain(objNum)[k];
      }
      ChainLinksIndices(objNum);
      InitValid(Layout(block, objSize, objNum, alignment));
      this.start := block;
      this.size := objSize * objNum;
      this.usedMemory := 0;
      this.numAllocations := 0;
      this.objSize := objSize;
      this.objNum := objNum;
      this.alignment := alignment;
      this.freeList := 0;
      this.slots := links;
      this.free := Indices(objNum);
      new;
      assert Geometry() == Layout(block, objSize, objNum, alignment);
      assert Model() == Init(Geometry());
      assert Inv(Geometry(), Model());
      assert slots[..] == Chain(objNum);
      assert Linked(slots[..], free);
    }

    /**
     * Pops the head of the free list: null, with nothing changed, when the
     * list is empty; otherwise the head slot's address, with the head moved to
     * that slot's link. No slot memory is written.
     */
    method Allocate() returns (p: Pointer)
      requires Valid()
      modifies this
      ensures Valid() && Geometry() == old(Geometry())
      ensures (p, Model()) == PoolModel.Allocate(Geometry(), old(Model()))
    {
      if freeList == -1 {
        return Null;
      }
      ghost var l, s := Geometry(), Model();
      AllocateKeepsInv(l, s);
      LinkedPop(slots[..], free);
      p := At(SlotAddress(Geometry(), freeList));
      freeList := slots[freeList];
      usedMemory := usedMemory + objSize;
      numAllocations := numAllocations + 1;
      free := free[1..];
    }

    /**
     * Pushes the slot of `pointer` onto the free list: its link word gets the
     * old head, and it becomes the head. Only that one link word is written.
     */
    method Deallocate(pointer: Pointer)
      requires Valid() && IsLive(Geometry(), Model(), pointer)
      modifies this, slots
      ensures Valid() && Geometry() == old(Geometry())
      ensures Model() == PoolModel.Deallocate(Geometry(), old(Model()), pointer)
      ensures pointer.address >= FirstSlot(Geometry())
      ensures slots[..] == old(slots[..])[SlotIndex(Geometry(), pointer.address) := old(freeList)]
    {
      ghost var l, s := Geometry(), Model();
      ghost var i := LiveSlot(l, s, pointer);
      DeallocateKeepsInv(l, s, pointer);
      ghost var t := PoolModel.Deallocate(l, s, pointer);
      assert i !in s.free;
      LinkedPush(slots[..], free, i);
      var newHead := SlotIndex(Geometry(), pointer.address);
      slots[newHead] := freeList;
      freeList := newHead;
      usedMemory := usedMemory - objSize;
      numAllocations := numAllocations - 1;
      free := [newHead] + free;
    }

    /** The raw block address; the first slot lies the adjustment, 1 to alignment bytes, after it. */
    function GetStart(): (r: nat)
      reads this, slots
      requires Valid()
      ensures r < FirstSlot(Geometry()) <= r + alignment as nat
    {
      start
    }

    /** The bytes the slots span: the block reserved, less the alignment room. */
    function GetSize(): (r: nat)
      reads this, slots
      requires Valid()
      ensures r == objSize * objNum
      ensures r + alignment as nat == ArenaBytes(Geometry())
    {
      size
    }

    /** The bytes handed out: one slot size per live allocation. */
    function GetUsedMemory(): (r: nat)
      reads this, slots
      requires Valid()
      ensures r == GetNumAllocations() * objSize
    {
      usedMemory
    }

    /** The number of slots currently handed out, at most the slot count. */
    function GetNumAllocations(): (r: nat)
      reads this, slots
      requires Valid()
      ensures r == |Allocated(Geometry(), Model())|
      ensures r <= objNum
    {
      AllocatedCount(Geometry(), Model());
      numAllocations
    }
  }
}
