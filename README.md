# Pool allocator, modelled and proved in Dafny

This project models the fixed-size block pool allocator in `Optimization/`.
It has two layers:

- **Raw pool** (`PoolAllocator`). It reserves one block of
  `obj_size * obj_num + alignment` bytes. The first slot is the first multiple of
  the power-of-two alignment strictly after the start of the block, so an
  already aligned block is moved forward by a whole alignment.
  It threads an intrusive, singly linked free list through the slots.
  `Allocate` pops the head of that list and `Deallocate` pushes onto it.
  Two counters track the bytes and the number of slots handed out.
- **Typed pool** (`PoolAllocatorT<T>`). A wrapper whose slot size and alignment
  are those of `T`. Every operation forwards to one raw pool.

The files:

- `Alignment.dfy` covers the constructor's bit arithmetic.
  - Bitwise AND is defined on naturals.
  - `a & (a - 1) == 0` holds exactly for powers of two.
  - `x & (a - 1)` is `x mod a` when `a` is a power of two.
  - The forward adjustment `alignment - (raw & (alignment - 1))` lies in
    `[1, alignment]` and lands on an aligned address.
- `PoolModel.dfy` is the pool's behaviour on values.
  - A `Layout` holds the block address, slot size, slot count and alignment.
  - A `State` holds the free list as a sequence of slot indices, plus the two
    counters.
  - `Allocate` and `Deallocate` are functions on these values.
  - The invariant, LIFO reuse, exhaustion, the order a fresh pool hands out its
    slots, and drain-then-refill are lemmas about those functions.
- `RawPool.dfy` is the class `PoolAllocator`, with the fields the C++ class
  updates in place.
  - Memory is modelled by slot index. The array `slots` holds each slot's
    leading link word: the next free slot's index, or -1 for null.
  - `freeList` is the head index.
  - Callers see addresses: slot `i` is at `FirstSlot + i * objSize`.
  - The constructor runs the source's threading loop.
  - `Allocate` and `Deallocate` are proved to follow the `PoolModel` functions.
- `TypedPool.dfy` is the class `PoolAllocatorT<T>`, holding one
  `PoolAllocator`. It also contains the benchmark's usage pattern: allocate
  every slot into an array of pointers, then give them back in order.

The memory the pool gets from the system allocator is a constructor parameter,
`block`: the address `malloc` returned. Reserving it always succeeds.
`sizeof(T)` and `alignof(T)` are constructor parameters of the typed pool.
A native address is 8 bytes wide.

The slot size is a `const` field, as `m_obj_size` is, and the link array is a
`const` reference. The four getters are functions with only `reads` frames,
so they cannot change the free list or the counters.

## Model

| member | source | states |
|---|---|---|
| Alignment.PowerOfTwoTest | Optimization/PoolAllocator.cpp:13-14 | for a nonzero `a`, `a & (a - 1) == 0` holds exactly when `a` is a power of two |
| Alignment.IsValidAlignment | Optimization/PoolAllocator.cpp:14 | the constructor's alignment check (nonzero, and `a & (a - 1) == 0`) accepts exactly the powers of two |
| Alignment.ValidAlignments | Optimization/PoolAllocator.hpp:36 | an alignment held in 8 bits passes the check exactly when it is one of 1, 2, 4, ..., 128, which are 2^0 .. 2^7 |
| Alignment.MaskIsMod | Optimization/PoolAllocator.cpp:21-22 | for a power of two `a`, masking with `a - 1` gives the remainder modulo `a` |
| Alignment.Misalignment | Optimization/PoolAllocator.cpp:21-22 | `raw & (alignment - 1)` is `raw mod alignment`, below the alignment |
| Alignment.Adjustment | Optimization/PoolAllocator.cpp:23 | the adjustment lies in `[1, alignment]` and `raw + adjustment` is a multiple of the alignment; it is a whole alignment exactly when `raw` is already aligned |
| PoolModel.FirstSlot | Optimization/PoolAllocator.cpp:20-25 | the first slot lies strictly after the block's start and at most one alignment past it |
| PoolModel.FirstSlotAligned | Optimization/PoolAllocator.cpp:25 | the free list's first slot is aligned and lies exactly the adjustment past the block's start |
| PoolModel.SlotIndexOfAddress | Optimization/PoolAllocator.cpp:30 | slot i's address lies at or after the first slot and maps back to index i |
| PoolModel.SlotAddressInjective | Optimization/PoolAllocator.cpp:29-32 | distinct slots have distinct addresses |
| PoolModel.SlotAddressIncreasing | Optimization/PoolAllocator.cpp:29-32 | a later slot starts at least one slot size after an earlier one, so slots do not overlap |
| PoolModel.SlotInArena | Optimization/PoolAllocator.cpp:16-25 | every slot lies wholly inside the `obj_size * obj_num + alignment` bytes reserved |
| PoolModel.SlotAligned | Optimization/PoolAllocator.cpp:25-32 | the first slot is aligned; every slot is when the slot size is a multiple of the alignment |
| PoolModel.MisalignedSecondSlot | Optimization/PoolAllocator.cpp:12-14 | the constructor accepts 12-byte slots aligned to 8, and then slot 1 is 4 mod 8 wherever the block lands |
| PoolModel.InitValid | Optimization/PoolAllocator.cpp:3-11 | a fresh pool satisfies the invariant with both counters zero and no slot handed out |
| PoolModel.AllocatedCount | Optimization/PoolAllocator.cpp:48-49 | under the invariant, the number of slots handed out equals the allocation counter, which is at most `obj_num` |
| PoolModel.LiveCount | Optimization/PoolAllocator.cpp:44-49 | the live addresses are exactly as many as the allocation counter |
| PoolModel.LiveSlot | Optimization/PoolAllocator.cpp:55 | a live pointer addresses one handed-out slot, which the pointer maps back to |
| PoolModel.AllocateKeepsInv | Optimization/PoolAllocator.cpp:41-52 | Allocate keeps the invariant, including `used == count * obj_size` |
| PoolModel.AllocateNullIffExhausted | Optimization/PoolAllocator.cpp:42 | Allocate returns null exactly when every slot is handed out, and then changes nothing |
| PoolModel.AllocateTakesFreeSlot | Optimization/PoolAllocator.cpp:44-51 | a successful Allocate returns an address that was not live, makes it live, keeps every other live address, and raises the counters by one slot |
| PoolModel.AllocateAligned | Optimization/PoolAllocator.cpp:44 | when the slot size is a multiple of the alignment, every address Allocate returns is aligned |
| PoolModel.DeallocateKeepsInv | Optimization/PoolAllocator.cpp:54-61 | Deallocate of a live pointer keeps the invariant and lowers both counters by one slot |
| PoolModel.DeallocateFreesSlot | Optimization/PoolAllocator.cpp:55-57 | Deallocate makes exactly the given address no longer live |
| PoolModel.DeallocateThenAllocate | Optimization/PoolAllocator.cpp:44-46 | Deallocate(p) then Allocate returns p and restores the whole state (LIFO reuse) |
| PoolModel.AllocateManyFromFree | Optimization/PoolAllocator.cpp:41-52 | k allocations in a row return the first k free slots in list order, leave the rest of the list, and raise the counter by k |
| PoolModel.AllocateManyDistinct | Optimization/PoolAllocator.cpp:41-52 | pointers from consecutive allocations are pairwise distinct |
| PoolModel.ExhaustFreeList | Optimization/PoolAllocator.cpp:42 | one allocation per free slot all succeed and fill the pool; the next returns null |
| PoolModel.FreshPoolOrder | Optimization/PoolAllocator.cpp:27-34 | a fresh pool's `obj_num` allocations return slot 0, 1, ... in increasing address order, all inside the reserved block, the first aligned; allocation `obj_num + 1` returns null |
| PoolModel.DeallocateAll | Optimization/PoolAllocator.cpp:54-61 | giving back distinct live pointers one after another keeps the invariant, lowers the count by their number and frees exactly their slots |
| PoolModel.DrainEmpties | Optimization/PoolAllocator.cpp:54-61 | giving back every live pointer leaves nothing allocated and every slot free |
| PoolModel.RefillFromEmpty | Optimization/PoolAllocator.cpp:41-52 | from a pool with nothing allocated, `obj_num` allocations all succeed |
| PoolModel.DrainThenRefill | Optimization/PoolAllocator.cpp:41-61 | after every live pointer is given back, in any order, the counters are zero and the pool can be filled again |
| PoolModel.SixteenByFourExample | Optimization/PoolAllocator.cpp:41-61 | 16-byte slots, 4 of them, aligned to 8: addresses A, A+16, A+32, A+48, each 8-aligned; a fifth allocation fails; giving back A+32 and allocating returns A+32 |
| RawPool.ChainLinksIndices | Optimization/PoolAllocator.cpp:27-34 | the links the constructor writes (slot i to slot i+1, the last to null) thread every slot in index order |
| RawPool.LinkedPop | Optimization/PoolAllocator.cpp:46 | following the head's link word gives the next free slot, and the rest of the list stays linked |
| RawPool.LinkedPush | Optimization/PoolAllocator.cpp:55-57 | writing the old head into a slot not on the list and making it the head keeps the list linked |
| RawPool.PoolAllocator.constructor | Optimization/PoolAllocator.cpp:3-35 | requires slot size at least a pointer, a power-of-two alignment and at least one slot; leaves the links `0 -> 1 -> ... -> obj_num-1 -> null`, every slot free in index order, both counters zero, and `size == obj_size * obj_num`; the alignment defaults to 4 (`Optimization/PoolAllocator.hpp:9`) |
| RawPool.PoolAllocator.Allocate | Optimization/PoolAllocator.cpp:41-52 | the pointer and new state are those of `PoolModel.Allocate`: null with nothing changed on an empty list, else the head slot's address with the head advanced to its link and the counters raised; no link word is written |
| RawPool.PoolAllocator.Deallocate | Optimization/PoolAllocator.cpp:54-61 | for a live pointer, the new state is that of `PoolModel.Deallocate`; the only link word written is the pointer's slot, which gets the old head |
| RawPool.PoolAllocator.GetStart | Optimization/PoolAllocator.cpp:63-65 | returns the unaligned block address, before the first slot and within one alignment of it |
| RawPool.PoolAllocator.GetSize | Optimization/PoolAllocator.cpp:67-69 | returns `obj_size * obj_num`: the reserved bytes less the alignment room |
| RawPool.PoolAllocator.GetUsedMemory | Optimization/PoolAllocator.cpp:71-73 | returns `count * obj_size` |
| RawPool.PoolAllocator.GetNumAllocations | Optimization/PoolAllocator.cpp:75-77 | returns the number of slots handed out, at most `obj_num` |
| TypedPool.PoolAllocatorT.constructor | Optimization/PoolAllocatorT.hpp:8 | a raw pool with slot size `sizeof(T)`, alignment `alignof(T)` and `obj_num` slots, freshly threaded: every slot free in index order and links `0 -> 1 -> ... -> obj_num-1 -> null` |
| TypedPool.PoolAllocatorT.Allocate | Optimization/PoolAllocatorT.hpp:10-12 | exactly the raw pool's result, null included, and every address aligned for T |
| TypedPool.PoolAllocatorT.Deallocate | Optimization/PoolAllocatorT.hpp:14-16 | the raw pool's Deallocate on the same pointer: the raw pool's new abstract state, and the only link word written is the freed slot's, which gets the old head |
| TypedPool.PoolAllocatorT.GetStart | Optimization/PoolAllocatorT.hpp:18-20 | the raw pool's block address, before the first slot |
| TypedPool.PoolAllocatorT.GetSize | Optimization/PoolAllocatorT.hpp:22-24 | the raw pool's size, `sizeof(T) * obj_num` |
| TypedPool.PoolAllocatorT.GetUsedMemory | Optimization/PoolAllocatorT.hpp:26-28 | the raw pool's used bytes, `count * sizeof(T)` |
| TypedPool.PoolAllocatorT.GetNumAllocations | Optimization/PoolAllocatorT.hpp:30-32 | the raw pool's count, at most `obj_num` |
| TypedPool.AllocateAll | Optimization/ObjectPool.cpp:43-45 | on a fresh pool, allocation k returns slot k, aligned; afterwards the pool is full |
| TypedPool.DeallocateInOrder | Optimization/ObjectPool.cpp:52-54 | on a full pool, each pointer is live when it is given back; afterwards nothing is allocated and the free list runs from the last slot down to the first |
| TypedPool.BulkAllocateThenFree | Optimization/ObjectPool.cpp:37-58 | the pointer array and pool are new objects the caller owns; the benchmark's pointers are the slots in strictly increasing address order, each aligned; after the frees both counters are zero and the next allocation reuses the last slot given back |

## Left out

- The destructor (`Optimization/PoolAllocator.cpp:37-39`) gives the block back to the system allocator. Memory release is not modelled.
- `malloc` is not modelled; its result is the constructor parameter `block`, and reservation always succeeds. The source's check at `Optimization/PoolAllocator.cpp:17-18` can never fail, because a string literal is never null, so the model does not claim the source handles allocation failure.
- Addresses and sizes are unbounded naturals. The `size_t` overflow of `obj_size * obj_num + alignment` and of `raw_address + adjustment` is not modelled.
- RawPool.PoolAllocator.constructor: the two `assert`s at `Optimization/PoolAllocator.cpp:12` and `:14` (slot size at least a pointer, power-of-two alignment) are its `requires`. With `NDEBUG` those checks are compiled out and a bad configuration carries on running; that behaviour is not modelled.
- RawPool.PoolAllocator.constructor: requires `obj_num > 0`. With `obj_num == 0` the source's loop bound `obj_num - 1` wraps around to the largest `size_t`, and that behaviour is not modelled.
- RawPool.PoolAllocator.Deallocate: requires a live pointer. Double frees, foreign pointers and null are undefined behaviour in the source and are not modelled.
- `reinterpret_cast` and raw memory writes: a slot's link word is an element of `slots`; the rest of a slot's bytes belong to the caller and are not modelled.
- Deleted copy construction and assignment (`Optimization/PoolAllocator.hpp:25-26`, `Optimization/PoolAllocatorT.hpp:35-36`). Dafny objects are references and are never copied. Exclusive ownership of the link words shows only as `fresh(slots)` after construction.
- TypedPool.PoolAllocatorT.constructor: takes `sizeof(T)` and `alignof(T)` as parameters and requires the size to be a multiple of the alignment, as every C++ type's is. The truncation of `alignof(T)` into `uint8_t` is not modelled.
- `sizeof(void*)` is fixed at 8 bytes (`PointerWidth`).
- PoolModel.AllocateAligned: states alignment only when the slot size is a multiple of the alignment. The raw pool's constructor does not check this, and `PoolModel.MisalignedSecondSlot` shows a pool it accepts whose second slot is misaligned. So "every returned address is aligned" holds for the typed pool, but for the raw pool only under that condition.
- The benchmark's timing, console output, float arithmetic and its `malloc`/`free` comparison (`Optimization/ObjectPool.cpp:20-35`, `60-87`) are not modelled. `Optimization/ObjectPool.cpp:37` allocates its pointer array with `malloc`; here it is a Dafny array.
- The construction-idiom demos under `Creational/` are not part of this model.
- Threads are not modelled: the pool has no synchronisation and is modelled for a single caller.

## Findings

| source | as written | input that shows it | evidently intended | confidence | as-written member | corrected member |
|---|---|---|---|---|---|---|
| Optimization/PoolAllocator.cpp:12-14 | the constructor checks the slot size against a pointer and the alignment for a power of two, but not that the slot size is a multiple of the alignment, so only the first slot is sure to be aligned | `obj_size = 12`, `obj_num = 2`, `alignment = 8`: slot 1 is 4 mod 8 wherever the block lands | every address Allocate returns is a multiple of the alignment, which holds when the slot size is a multiple of it, as it always is for the typed pool | not executed; the counterexample is proved | PoolModel.MisalignedSecondSlot | PoolModel.AllocateAligned, TypedPool.PoolAllocatorT.Allocate |
