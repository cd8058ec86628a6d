/**
 * The typed pool: a raw pool whose slot size and alignment are those of an
 * element type T, and whose operations forward to it unchanged.
 *
 * The size and alignment of T are constructor parameters here (sizeOfT,
 * alignOfT); a C++ type's size is always a multiple of its alignment, which
 * is what makes every address the typed pool hands out aligned for T.
 */
module TypedPool {
  import opened Alignment
  import opened PoolModel
  import opened RawPool

  class PoolAllocatorT<T> {
    /** The raw pool this one owns and forwards to. */
    const alloc: PoolAllocator

    ghost predicate Valid()
      reads this, alloc, alloc.slots
    {
      alloc.Valid() && alloc.objSize % alloc.alignment as nat == 0
    }

    /** A raw pool of objNum slots of sizeOfT bytes, aligned to alignOfT. */
    constructor (block: nat, objNum: nat, sizeOfT: nat, alignOfT: uint8)
      requires sizeOfT >= PointerWidth
      requires IsValidAlignment(alignOfT)
      requires objNum > 0
      requires sizeOfT % alignOfT as nat == 0
      ensures Valid() && fresh(alloc) && fresh(alloc.slots)
      ensures alloc.Geometry() == Layout(block, sizeOfT, objNum, alignOfT)
      ensures alloc.Model() == Init(alloc.Geometry())
      ensures alloc.slots[..] == Chain(objNum)
    {
      alloc := new PoolAllocator(block, sizeOfT, objNum, alignOfT);
    }

    /** The raw pool's result, null included; an address is aligned for T. */
    method Allocate() returns (p: Pointer)
      requires Valid()
      modifies alloc
      ensures Valid() && alloc.Geometry() == old(alloc.Geometry())
      ensures (p, alloc.Model()) == PoolModel.Allocate(alloc.Geometry(), old(alloc.Model()))
      ensures p.At? ==> p.address % alloc.alignment as nat == 0
    {
      AllocateAligned(alloc.Geometry(), alloc.Model());
      p := alloc.Allocate();
    }

    /** Gives the same pointer back to the raw pool. */
    method Deallocate(pointer: Pointer)
      requires Valid() && IsLive(alloc.Geometry(), alloc.Model(), pointer)
      modifies alloc, alloc.slots
      ensures Valid() && alloc.Geometry() == old(alloc.Geometry())
      ensures alloc.Model() == PoolModel.Deallocate(alloc.Geometry(), old(alloc.Model()), pointer)
      ensures pointer.address >= FirstSlot(alloc.Geometry())
      ensures alloc.slots[..] ==
                old(alloc.slots[..])[SlotIndex(alloc.Geometry(), pointer.address) := old(alloc.freeList)]
    {
      alloc.Deallocate(pointer);
    }

    /** The raw pool's unaligned block address, before the first slot. */
    function GetStart(): (r: nat)
      reads this, alloc, alloc.slots
      requires Valid()
      ensures r == alloc.GetStart()
      ensures r < FirstSlot(alloc.Geometry())
    {
      alloc.GetStart()
    }

    /** The raw pool's slot bytes: objNum elements of T. */
    function GetSize(): (r: nat)
      reads this, alloc, alloc.slots
      requires Valid()
      ensures r == alloc.GetSize()
      ensures r == alloc.objSize * alloc.objNum
    {
      alloc.GetSize()
    }

    /** The raw pool's used bytes: one element of T per live allocation. */
    function GetUsedMemory(): (r: nat)
      reads this, alloc, alloc.slots
      requires Valid()
      ensures r == alloc.GetUsedMemory()
      ensures r == GetNumAllocations() * alloc.objSize
    {
      alloc.GetUsedMemory()
    }

    /** The raw pool's count of live allocations, at most objNum. */
    function GetNumAllocations(): (r: nat)
      reads this, alloc, alloc.slots
      requires Valid()
      ensures r == alloc.GetNumAllocations()
      ensures r <= alloc.objNum
    {
      alloc.GetNumAllocations()
    }
  }

  /** The slot indices n-1, n-2, ..., 0: the free list after giving slots 0 .. n-1 back in order. */
  function Descending(n: nat): (r: seq<nat>)
    ensures |r| == n && forall k :: 0 <= k < n ==> r[k] == n - 1 - k
  {
    seq(n, k requires 0 <= k < n => n - 1 - k)
  }

  /**
   * The benchmark's allocation phase on a fresh pool: one allocation per
   * element of `pointers`, stored in order. Slot k comes back k-th.
   */
  method AllocateAll<T>(pool: PoolAllocatorT<T>, pointers: array<Pointer>)
    requires pool.Valid() && pool.alloc.Model() == Init(pool.alloc.Geometry())
    requires pointers.Length == pool.alloc.objNum
    modifies pool.alloc, pointers
    ensures pool.Valid() && pool.alloc.Geometry() == old(pool.alloc.Geometry())
    ensures pool.alloc.Model().free == [] && pool.alloc.Model().numAllocations == pointers.Length
    ensures forall k :: 0 <= k < pointers.Length ==>
              pointers[k] == At(SlotAddress(pool.alloc.Geometry(), k))
    ensures forall k :: 0 <= k < pointers.Length ==>
              pointers[k].address % pool.alloc.alignment as nat == 0
  {
    ghost var l := pool.alloc.Geometry();
    var i := 0;
    while i < pointers.Length
      invariant 0 <= i <= pointers.Length
      invariant pool.Valid() && pool.alloc.Geometry() == l
      invariant pool.alloc.Model().free == Indices(l.objNum)[i..]
      invariant pool.alloc.Model().numAllocations == i
      invariant forall k :: 0 <= k < i ==> pointers[k] == At(SlotAddress(l, k))
    {
      ghost var s := pool.alloc.Model();
      assert s.free[0] == i && s.free[1..] == Indices(l.objNum)[i + 1..];
      var p := pool.Allocate();
      assert p == At(SlotAddress(l, i));
      pointers[i] := p;
      i := i + 1;
    }
    forall k | 0 <= k < pointers.Length ensures pointers[k].address % l.alignment as nat == 0 {
      SlotAligned(l, k);
    }
  }

  /**
   * The benchmark's deallocation phase on a full pool: every slot given back
   * in index order. Each pointer is live when it is given back, and the free
   * list ends up running from the last slot down to the first.
   */
  method DeallocateInOrder<T>(pool: PoolAllocatorT<T>, pointers: array<Pointer>)
    requires pool.Valid() && pool.alloc.Model().free == []
    requires pointers.Length == pool.alloc.objNum
    requires forall k :: 0 <= k < pointers.Length ==>
               pointers[k] == At(SlotAddress(pool.alloc.Geometry(), k))
    modifies pool.alloc, pool.alloc.slots
    ensures pool.Valid() && pool.alloc.Geometry() == old(pool.alloc.Geometry())
    ensures pool.alloc.Model() == State(Descending(pointers.Length), 0, 0)
  {
    ghost var l := pool.alloc.Geometry();
    var i := 0;
    while i < pointers.Length
      invariant 0 <= i <= pointers.Length
      invariant pool.Valid() && pool.alloc.Geometry() == l
      invariant pool.alloc.Model().free == Descending(i)
      invariant pool.alloc.Model().numAllocations == pointers.Length - i
    {
      ghost var s := pool.alloc.Model();
      assert i in Allocated(l, s);
      assert SlotAddress(l, i) in LiveAddresses(l, s);
      SlotIndexOfAddress(l, i);
      assert [i] + Descending(i) == Descending(i + 1);
      pool.Deallocate(pointers[i]);
      i := i + 1;
    }
  }

  /**
   * The benchmark's use of a typed pool: numBlocks allocations into an array
   * of pointers, then every pointer given back in the order it was received.
   * The allocations return the slots in address order, distinct and aligned;
   * afterwards nothing is allocated and the free list runs from the last slot
   * down to the first, so the next allocation reuses the last slot given back.
   */
  method BulkAllocateThenFree<T>(block: nat, numBlocks: nat, sizeOfT: nat, alignOfT: uint8)
    returns (pointers: array<Pointer>, pool: PoolAllocatorT<T>)
    requires sizeOfT >= PointerWidth
    requires IsValidAlignment(alignOfT)
    requires numBlocks > 0
    requires sizeOfT % alignOfT as nat == 0
    ensures fresh(pointers) && fresh(pool) && fresh(pool.alloc) && fresh(pool.alloc.slots)
    ensures pool.Valid()
    ensures pool.alloc.Geometry() == Layout(block, sizeOfT, numBlocks, alignOfT)
    ensures pointers.Length == numBlocks
    ensures forall k :: 0 <= k < numBlocks ==> pointers[k] == At(SlotAddress(pool.alloc.Geometry(), k))
    ensures forall k :: 0 <= k < numBlocks ==> pointers[k].address % alignOfT as nat == 0
    ensures forall j, k :: 0 <= j < k < numBlocks ==> pointers[j].address < pointers[k].address
    ensures pool.alloc.Model() == State(Descending(numBlocks), 0, 0)
  {
    pointers := new Pointer[numBlocks];
    pool := new PoolAllocatorT<T>(block, numBlocks, sizeOfT, alignOfT);
    ghost var l := pool.alloc.Geometry();
    AllocateAll(pool, pointers);
    DeallocateInOrder(pool, pointers);
    forall j, k | 0 <= j < k < numBlocks ensures pointers[j].address < pointers[k].address {
      SlotAddressIncreasing(l, j, k);
    }
  }
}
