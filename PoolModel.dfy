/**
 * The abstract behaviour of a raw pool, stated on values.
 *
 * A pool is fixed by its Layout (the address of the reserved block, slot size,
 * slot count and alignment) and evolves through States: the free list as the
 * sequence of slot indices reached from its head, and the two usage counters.
 * Slot i lives at FirstSlot + i * objSize. The class in RawPool is proved to
 * follow Allocate and Deallocate below; the lemmas here state what the pool
 * promises about them.
 */
module PoolModel {
  import opened Alignment

  /** A pointer the pool hands out or takes back: null, or a byte address. */
  datatype Pointer = Null | At(address: nat)

  /** The construction parameters, with the address the block was reserved at. */
  datatype Layout = Layout(start: nat, objSize: nat, objNum: nat, alignment: uint8)

  /** The free list (slot indices from the head on) and the usage counters. */
  datatype State = State(free: seq<nat>, usedMemory: nat, numAllocations: nat)

  /** What the constructor demands of its arguments. */
  predicate ValidLayout(l: Layout)
  {
    l.objSize >= PointerWidth && l.alignment in AlignmentValues && l.objNum > 0
  }

  /** Bytes requested from the system allocator: the slots plus room to align. */
  function ArenaBytes(l: Layout): nat
  {
    l.objSize * l.objNum + l.alignment as nat
  }

  /** The first aligned address after the start of the reserved block. */
  function FirstSlot(l: Layout): (a: nat)
    requires ValidLayout(l)
    ensures l.start < a <= l.start + l.alignment as nat
  {
    ValidAlignments(l.alignment);
    l.start + Adjustment(l.start, l.alignment as nat)
  }

  /** The first slot is aligned, and lies the adjustment past the block's start. */
  lemma FirstSlotAligned(l: Layout)
    requires ValidLayout(l)
    ensures FirstSlot(l) % l.alignment as nat == 0
    ensures FirstSlot(l) - l.start == Adjustment(l.start, l.alignment as nat)
  {
    ValidAlignments(l.alignment);
  }

  /** Bytes from the first slot to slot i. */
  function Offset(i: nat, objSize: nat): nat
  {
    i * objSize
  }

  function SlotAddress(l: Layout, i: nat): nat
    requires ValidLayout(l)
  {
    FirstSlot(l) + Offset(i, l.objSize)
  }

  /** The slot an address at or after the first slot falls into. */
  function SlotIndex(l: Layout, address: nat): nat
    requires ValidLayout(l) && address >= FirstSlot(l)
  {
    (address - FirstSlot(l)) / l.objSize
  }

  lemma SlotIndexOfAddress(l: Layout, i: nat)
    requires ValidLayout(l)
    ensures SlotAddress(l, i) >= FirstSlot(l)
    ensures SlotIndex(l, SlotAddress(l, i)) == i
  {
    DivExact(i, l.objSize);
  }

  /** Distinct slots have distinct addresses. */
  lemma SlotAddressInjective(l: Layout, i: nat, j: nat)
    requires ValidLayout(l) && i != j
    ensures SlotAddress(l, i) != SlotAddress(l, j)
  {
    SlotIndexOfAddress(l, i);
    SlotIndexOfAddress(l, j);
  }

  /** Slots are laid out upwards in index order. */
  lemma SlotAddressIncreasing(l: Layout, i: nat, j: nat)
    requires ValidLayout(l) && i < j
    ensures SlotAddress(l, i) + l.objSize <= SlotAddress(l, j)
  {
    MulLe(i + 1, j, l.objSize);
    assert (i + 1) * l.objSize == i * l.objSize + l.objSize;
  }

  /** Every slot lies wholly inside the block reserved from the system allocator. */
  lemma SlotInArena(l: Layout, i: nat)
    requires ValidLayout(l) && i < l.objNum
    ensures l.start < SlotAddress(l, i)
    ensures SlotAddress(l, i) + l.objSize <= l.start + ArenaBytes(l)
  {
    MulLe(i + 1, l.objNum, l.objSize);
    assert (i + 1) * l.objSize == i * l.objSize + l.objSize;
    assert l.objNum * l.objSize == l.objSize * l.objNum;
  }

  /**
   * The first slot is always aligned; every slot is when the slot size is a
   * multiple of the alignment. The constructor does not check the latter.
   */
  lemma SlotAligned(l: Layout, i: nat)
    requires ValidLayout(l)
    requires i == 0 || l.objSize % l.alignment as nat == 0
    ensures SlotAddress(l, i) % l.alignment as nat == 0
  {
    FirstSlotAligned(l);
    if i != 0 {
      AlignedStride(FirstSlot(l), l.alignment as nat, i, l.objSize);
    }
  }

  /**
   * Wherever the block lands, a pool of 12-byte slots aligned to 8 hands out
   * a second slot that is only 4-aligned.
   */
  lemma MisalignedSecondSlot(start: nat)
    ensures ValidLayout(Layout(start, 12, 2, 8))
    ensures SlotAddress(Layout(start, 12, 2, 8), 1) % 8 == 4
  {
    var l := Layout(start, 12, 2, 8);
    assert ValidLayout(l);
    FirstSlotAligned(l);
    var f := FirstSlot(l);
    assert SlotAddress(l, 1) == f + 12;
    DivModUnique(f + 12, 8, f / 8 + 1, 4);
  }

  /** The indices 0 .. n-1, in order. */
  function Indices(n: nat): (r: seq<nat>)
    ensures |r| == n && forall k :: 0 <= k < n ==> r[k] == k
  {
    seq(n, k => k)
  }

  /** The state the constructor leaves: every slot free in index order, counters zero. */
  function Init(l: Layout): State
  {
    State(Indices(l.objNum), 0, 0)
  }

  /** The invariant every observable state keeps. */
  ghost predicate Inv(l: Layout, s: State)
  {
    && ValidLayout(l)
    && (forall k :: 0 <= k < |s.free| ==> s.free[k] < l.objNum)
    && (forall j, k :: 0 <= j < k < |s.free| ==> s.free[j] != s.free[k])
    && s.numAllocations + |s.free| == l.objNum
    && s.usedMemory == s.numAllocations * l.objSize
  }

  /** The slots currently handed out. */
  ghost function Allocated(l: Layout, s: State): set<nat>
  {
    set i | 0 <= i < l.objNum && i !in s.free
  }

  /** The addresses currently handed out. */
  ghost function LiveAddresses(l: Layout, s: State): set<nat>
    requires ValidLayout(l)
  {
    set i | i in Allocated(l, s) :: SlotAddress(l, i)
  }

  /** The pointer was returned by Allocate and has not been given back since. */
  ghost predicate IsLive(l: Layout, s: State, p: Pointer)
    requires ValidLayout(l)
  {
    p.At? && p.address in LiveAddresses(l, s)
  }

  /**
   * Allocate: on an empty free list, null and no change; otherwise the head
   * slot's address, the head advanced to its link, and both counters raised.
   */
  function Allocate(l: Layout, s: State): (Pointer, State)
    requires ValidLayout(l)
  {
    if s.free == [] then (Null, s)
    else (At(SlotAddress(l, s.free[0])),
          State(s.free[1..], s.usedMemory + l.objSize, s.numAllocations + 1))
  }

  /**
   * Deallocate: the slot of p becomes the head of the free list, linked to the
   * old head, and both counters drop. Only live pointers may be given back.
   */
  ghost function Deallocate(l: Layout, s: State, p: Pointer): (t: State)
    requires Inv(l, s) && IsLive(l, s, p)
  {
    var i := LiveSlot(l, s, p);
    SlotIndexOfAddress(l, i);
    AllocatedCount(l, s);
    State([SlotIndex(l, p.address)] + s.free, s.usedMemory - l.objSize, s.numAllocations - 1)
  }

  /** The slot a live pointer addresses. */
  ghost function LiveSlot(l: Layout, s: State, p: Pointer): (i: nat)
    requires ValidLayout(l) && IsLive(l, s, p)
    ensures i in Allocated(l, s) && SlotAddress(l, i) == p.address
    ensures p.address >= FirstSlot(l) && SlotIndex(l, p.address) == i
  {
    var i :| i in Allocated(l, s) && SlotAddress(l, i) == p.address;
    SlotIndexOfAddress(l, i);
    i
  }

  // ---- Cardinalities ------------------------------------------------------

  /** The slot indices 0 .. n-1 as a set. */
  function Range(n: nat): (r: set<nat>)
    ensures forall i: nat :: i in r <==> i < n
    ensures |r| == n
  {
    if n == 0 then {}
    else
      assert n - 1 !in Range(n - 1);
      Range(n - 1) + {n - 1}
  }

  /** The elements of a sequence as a set. */
  function Elems(xs: seq<nat>): set<nat>
  {
    set x | x in xs
  }

  lemma {:induction false} DistinctCard(xs: seq<nat>)
    requires forall j, k :: 0 <= j < k < |xs| ==> xs[j] != xs[k]
    ensures |Elems(xs)| == |xs|
  {
    if xs != [] {
      DistinctCard(xs[1..]);
      assert xs[0] !in Elems(xs[1..]);
      assert Elems(xs) == {xs[0]} + Elems(xs[1..]);
    }
  }

  /** The number of slots handed out is the allocation counter. */
  lemma AllocatedCount(l: Layout, s: State)
    requires Inv(l, s)
    ensures |Allocated(l, s)| == s.numAllocations
    ensures s.numAllocations <= l.objNum
  {
    var range := Range(l.objNum);
    var freeSet := Elems(s.free);
    DistinctCard(s.free);
    assert Allocated(l, s) == range - freeSet;
    assert freeSet <= range;
    assert range == Allocated(l, s) + freeSet;
    assert Allocated(l, s) !! freeSet;
  }

  /** Live addresses and handed-out slots are in one-to-one correspondence. */
  lemma LiveCount(l: Layout, s: State)
    requires Inv(l, s)
    ensures |LiveAddresses(l, s)| == s.numAllocations
  {
    AllocatedCount(l, s);
    LiveCountFrom(l, Allocated(l, s));
  }

  lemma {:induction false} LiveCountFrom(l: Layout, slots: set<nat>)
    requires ValidLayout(l)
    ensures |set i | i in slots :: SlotAddress(l, i)| == |slots|
    decreases |slots|
  {
    if slots != {} {
      var i :| i in slots;
      LiveCountFrom(l, slots - {i});
      var rest := set j | j in slots - {i} :: SlotAddress(l, j);
      assert (set j | j in slots :: SlotAddress(l, j)) == rest + {SlotAddress(l, i)};
      forall j | j in slots - {i} ensures SlotAddress(l, j) != SlotAddress(l, i) {
        SlotAddressInjective(l, i, j);
      }
    }
  }

  // ---- Construction -------------------------------------------------------

  /** A fresh pool keeps the invariant, has nothing handed out and uses no memory. */
  lemma InitValid(l: Layout)
    requires ValidLayout(l)
    ensures Inv(l, Init(l))
    ensures Init(l).usedMemory == 0 && Init(l).numAllocations == 0
    ensures Allocated(l, Init(l)) == {}
  {
    forall i | 0 <= i < l.objNum ensures i in Init(l).free {
      assert Init(l).free[i] == i;
    }
  }

  // ---- Allocate -----------------------------------------------------------

  /** Allocate keeps the invariant and keeps the two counters in step. */
  lemma AllocateKeepsInv(l: Layout, s: State)
    requires Inv(l, s)
    ensures Inv(l, Allocate(l, s).1)
  {
  }

  /** Allocate returns null exactly when the free list is empty, and then changes nothing. */
  lemma AllocateNullIffExhausted(l: Layout, s: State)
    requires Inv(l, s)
    ensures Allocate(l, s).0 == Null <==> s.numAllocations == l.objNum
    ensures Allocate(l, s).0 == Null ==> Allocate(l, s).1 == s
  {
  }

  /**
   * A successful Allocate hands out an address that was not live, makes it
   * live and leaves every other live address live.
   */
  lemma AllocateTakesFreeSlot(l: Layout, s: State)
    requires Inv(l, s) && s.free != []
    ensures var (p, t) := Allocate(l, s);
      && !IsLive(l, s, p) && IsLive(l, t, p)
      && LiveAddresses(l, t) == LiveAddresses(l, s) + {p.address}
      && t.numAllocations == s.numAllocations + 1
      && t.usedMemory == s.usedMemory + l.objSize
  {
    var (p, t) := Allocate(l, s);
    var h := s.free[0];
    assert Allocated(l, t) == Allocated(l, s) + {h} by {
      assert forall i :: i in s.free <==> i == h || i in t.free;
      assert h !in t.free;
    }
    assert h !in Allocated(l, s);
    forall i | i in Allocated(l, s) ensures SlotAddress(l, i) != p.address {
      SlotAddressInjective(l, i, h);
    }
  }

  /** Every address Allocate returns is aligned when slot size is a multiple of alignment. */
  lemma AllocateAligned(l: Layout, s: State)
    requires Inv(l, s) && l.objSize % l.alignment as nat == 0
    ensures Allocate(l, s).0.At? ==> Allocate(l, s).0.address % l.alignment as nat == 0
  {
    if s.free != [] {
      SlotAligned(l, s.free[0]);
    }
  }

  // ---- Deallocate ---------------------------------------------------------

  /** Deallocate keeps the invariant and lowers both counters together. */
  lemma DeallocateKeepsInv(l: Layout, s: State, p: Pointer)
    requires Inv(l, s) && IsLive(l, s, p)
    ensures Inv(l, Deallocate(l, s, p))
    ensures Deallocate(l, s, p).numAllocations == s.numAllocations - 1
    ensures Deallocate(l, s, p).usedMemory == s.usedMemory - l.objSize
  {
    var i := LiveSlot(l, s, p);
    AllocatedCount(l, s);
    var t := Deallocate(l, s, p);
    assert t.free == [i] + s.free;
    assert t.usedMemory == t.numAllocations * l.objSize by {
      assert s.numAllocations * l.objSize == (s.numAllocations - 1) * l.objSize + l.objSize;
    }
  }

  /** Deallocate makes exactly p no longer live. */
  lemma DeallocateFreesSlot(l: Layout, s: State, p: Pointer)
    requires Inv(l, s) && IsLive(l, s, p)
    ensures !IsLive(l, Deallocate(l, s, p), p)
    ensures LiveAddresses(l, Deallocate(l, s, p)) == LiveAddresses(l, s) - {p.address}
  {
    var i := LiveSlot(l, s, p);
    var t := Deallocate(l, s, p);
    assert t.free == [i] + s.free;
    assert Allocated(l, t) == Allocated(l, s) - {i};
    forall j | j in Allocated(l, t) ensures SlotAddress(l, j) != p.address {
      SlotAddressInjective(l, i, j);
    }
  }

  /** LIFO reuse: Deallocate(p) followed by Allocate returns p and restores the state. */
  lemma DeallocateThenAllocate(l: Layout, s: State, p: Pointer)
    requires Inv(l, s) && IsLive(l, s, p)
    ensures Allocate(l, Deallocate(l, s, p)) == (p, s)
  {
    var i := LiveSlot(l, s, p);
    AllocatedCount(l, s);
    var t := Deallocate(l, s, p);
    assert t.free == [i] + s.free;
    assert t.free[1..] == s.free;
  }

  // ---- Sequences of operations ---------------------------------------------

  /** k allocations in a row: the pointers they return and the state after. */
  function AllocateMany(l: Layout, s: State, k: nat): (seq<Pointer>, State)
    requires ValidLayout(l)
    decreases k
  {
    if k == 0 then ([], s)
    else
      var (p, s1) := Allocate(l, s);
      var (ps, t) := AllocateMany(l, s1, k - 1);
      ([p] + ps, t)
  }

  /**
   * While the free list lasts, k allocations return the first k free slots in
   * list order and leave the rest of the list.
   */
  lemma {:induction false} AllocateManyFromFree(l: Layout, s: State, k: nat)
    requires Inv(l, s) && k <= |s.free|
    ensures |AllocateMany(l, s, k).0| == k
    ensures forall j :: 0 <= j < k ==> AllocateMany(l, s, k).0[j] == At(SlotAddress(l, s.free[j]))
    ensures AllocateMany(l, s, k).1.free == s.free[k..]
    ensures AllocateMany(l, s, k).1.numAllocations == s.numAllocations + k
    ensures Inv(l, AllocateMany(l, s, k).1)
    decreases k
  {
    if k > 0 {
      var s1 := Allocate(l, s).1;
      AllocateKeepsInv(l, s);
      AllocateManyFromFree(l, s1, k - 1);
      assert s.free[1..][k - 1..] == s.free[k..];
      var ps := AllocateMany(l, s, k).0;
      assert ps == [Allocate(l, s).0] + AllocateMany(l, s1, k - 1).0;
      forall j | 0 <= j < k ensures ps[j] == At(SlotAddress(l, s.free[j])) {
        if j > 0 {
          assert ps[j] == AllocateMany(l, s1, k - 1).0[j - 1];
          assert s1.free[j - 1] == s.free[j];
        }
      }
    }
  }

  /** The pointers handed out by consecutive allocations are pairwise distinct. */
  lemma AllocateManyDistinct(l: Layout, s: State, k: nat)
    requires Inv(l, s) && k <= |s.free|
    ensures |AllocateMany(l, s, k).0| == k
    ensures forall i, j :: 0 <= i < j < k ==>
      AllocateMany(l, s, k).0[i] != AllocateMany(l, s, k).0[j]
  {
    AllocateManyFromFree(l, s, k);
    var ps := AllocateMany(l, s, k).0;
    forall i, j | 0 <= i < j < k ensures ps[i] != ps[j] {
      assert ps[i] == At(SlotAddress(l, s.free[i]));
      assert ps[j] == At(SlotAddress(l, s.free[j]));
      SlotAddressInjective(l, s.free[i], s.free[j]);
    }
  }

  /**
   * Allocating once per free slot succeeds every time and fills the pool; the
   * allocation after that returns null.
   */
  lemma ExhaustFreeList(l: Layout, s: State)
    requires Inv(l, s)
    ensures var (ps, t) := AllocateMany(l, s, |s.free|);
      && (forall j :: 0 <= j < |ps| ==> ps[j].At?)
      && t.numAllocations == l.objNum
      && Allocate(l, t).0 == Null
  {
    AllocateManyFromFree(l, s, |s.free|);
  }

  /**
   * A fresh pool hands out its slots from the first aligned address upwards,
   * one slot size apart and all inside the reserved block; the allocation
   * after the last slot returns null.
   */
  lemma FreshPoolOrder(l: Layout)
    requires ValidLayout(l)
    ensures |AllocateMany(l, Init(l), l.objNum).0| == l.objNum
    ensures var ps := AllocateMany(l, Init(l), l.objNum).0;
      forall j :: 0 <= j < l.objNum ==> ps[j] == At(SlotAddress(l, j))
    ensures var ps := AllocateMany(l, Init(l), l.objNum).0;
      forall i, j :: 0 <= i < j < l.objNum ==> ps[i].address < ps[j].address
    ensures var ps := AllocateMany(l, Init(l), l.objNum).0;
      forall j :: 0 <= j < l.objNum ==>
        l.start < ps[j].address && ps[j].address + l.objSize <= l.start + ArenaBytes(l)
    ensures AllocateMany(l, Init(l), l.objNum).0[0].address % l.alignment as nat == 0
    ensures Allocate(l, AllocateMany(l, Init(l), l.objNum).1).0 == Null
  {
    InitValid(l);
    AllocateManyFromFree(l, Init(l), l.objNum);
    var ps := AllocateMany(l, Init(l), l.objNum).0;
    forall j | 0 <= j < l.objNum ensures ps[j] == At(SlotAddress(l, j)) {
      assert Init(l).free[j] == j;
    }
    forall j | 0 <= j < l.objNum
      ensures l.start < ps[j].address && ps[j].address + l.objSize <= l.start + ArenaBytes(l)
    {
      SlotInArena(l, j);
    }
    forall i, j | 0 <= i < j < l.objNum ensures ps[i].address < ps[j].address {
      SlotAddressIncreasing(l, i, j);
    }
    SlotAligned(l, 0);
  }

  /** Deallocating the given live pointers one after another, in that order. */
  ghost function DeallocateAll(l: Layout, s: State, ps: seq<Pointer>): (t: State)
    requires Inv(l, s)
    requires forall k :: 0 <= k < |ps| ==> IsLive(l, s, ps[k])
    requires forall j, k :: 0 <= j < k < |ps| ==> ps[j] != ps[k]
    ensures Inv(l, t)
    ensures t.numAllocations + |ps| == s.numAllocations
    ensures forall i :: i in Allocated(l, t) <==> i in Allocated(l, s) && At(SlotAddress(l, i)) !in ps
    decreases |ps|
  {
    if ps == [] then s
    else
      var s1 := Deallocate(l, s, ps[0]);
      DeallocateKeepsInv(l, s, ps[0]);
      DeallocateFreesSlot(l, s, ps[0]);
      var i := LiveSlot(l, s, ps[0]);
      assert Allocated(l, s1) == Allocated(l, s) - {i} by {
        assert s1.free == [i] + s.free;
      }
      assert forall k :: 0 <= k < |ps[1..]| ==> IsLive(l, s1, ps[1..][k]) by {
        forall k | 0 <= k < |ps[1..]| ensures IsLive(l, s1, ps[1..][k]) {
          var q := ps[k + 1];
          assert ps[1..][k] == q;
          assert IsLive(l, s, q) && IsLive(l, s, ps[0]);
          assert q != ps[0];
          assert q.address != ps[0].address;
          assert q.address in LiveAddresses(l, s);
        }
      }
      var t := DeallocateAll(l, s1, ps[1..]);
      assert forall i' :: i' in Allocated(l, t) <==>
                i' in Allocated(l, s) && At(SlotAddress(l, i')) !in ps by {
        forall i' ensures i' in Allocated(l, t) <==>
                i' in Allocated(l, s) && At(SlotAddress(l, i')) !in ps {
          if i' != i {
            SlotAddressInjective(l, i, i');
          }
          assert At(SlotAddress(l, i')) in ps <==>
                 At(SlotAddress(l, i')) == ps[0] || At(SlotAddress(l, i')) in ps[1..];
        }
      }
      t
  }

  /**
   * Giving back every live pointer, in any order, empties the pool; then
   * objNum allocations in a row all succeed and fill it again.
   */
  lemma DrainThenRefill(l: Layout, s: State, ps: seq<Pointer>)
    requires Inv(l, s)
    requires forall k :: 0 <= k < |ps| ==> IsLive(l, s, ps[k])
    requires forall j, k :: 0 <= j < k < |ps| ==> ps[j] != ps[k]
    requires forall a :: a in LiveAddresses(l, s) ==> At(a) in ps
    ensures DeallocateAll(l, s, ps).numAllocations == 0
    ensures DeallocateAll(l, s, ps).usedMemory == 0
    ensures var qs := AllocateMany(l, DeallocateAll(l, s, ps), l.objNum).0;
      |qs| == l.objNum && forall j :: 0 <= j < l.objNum ==> qs[j].At?
    ensures AllocateMany(l, DeallocateAll(l, s, ps), l.objNum).1.numAllocations == l.objNum
  {
    DrainEmpties(l, s, ps);
    RefillFromEmpty(l, DeallocateAll(l, s, ps));
  }

  /** From a pool with nothing handed out, objNum allocations all succeed. */
  lemma RefillFromEmpty(l: Layout, t: State)
    requires Inv(l, t) && t.numAllocations == 0
    ensures t.usedMemory == 0
    ensures var qs := AllocateMany(l, t, l.objNum).0;
      |qs| == l.objNum && forall j :: 0 <= j < l.objNum ==> qs[j].At?
    ensures AllocateMany(l, t, l.objNum).1.numAllocations == l.objNum
  {
    AllocateManyFromFree(l, t, l.objNum);
  }

  /** Giving back every live pointer leaves nothing allocated. */
  lemma DrainEmpties(l: Layout, s: State, ps: seq<Pointer>)
    requires Inv(l, s)
    requires forall k :: 0 <= k < |ps| ==> IsLive(l, s, ps[k])
    requires forall j, k :: 0 <= j < k < |ps| ==> ps[j] != ps[k]
    requires forall a :: a in LiveAddresses(l, s) ==> At(a) in ps
    ensures DeallocateAll(l, s, ps).numAllocations == 0
    ensures |DeallocateAll(l, s, ps).free| == l.objNum
  {
    var t := DeallocateAll(l, s, ps);
    forall i | i in Allocated(l, s) ensures At(SlotAddress(l, i)) in ps {
      assert SlotAddress(l, i) in LiveAddresses(l, s);
    }
    assert Allocated(l, t) == {};
    AllocatedCount(l, t);
  }

  /**
   * The worked example of a 16-byte, 4-slot, 8-aligned pool: four addresses
   * A, A+16, A+32, A+48, each 8-aligned; a fifth allocation fails; giving back
   * A+32 and allocating again returns A+32.
   */
  lemma SixteenByFourExample(start: nat)
    ensures var l := Layout(start, 16, 4, 8);
      && ValidLayout(l)
      && var a := FirstSlot(l);
      && var (ps, t) := AllocateMany(l, Init(l), 4);
      && ps == [At(a), At(a + 16), At(a + 32), At(a + 48)]
      && (forall j :: 0 <= j < 4 ==> ps[j].address % 8 == 0)
      && Allocate(l, t).0 == Null
      && IsLive(l, t, At(a + 32))
      && Allocate(l, Deallocate(l, t, At(a + 32))).0 == At(a + 32)
  {
    var l := Layout(start, 16, 4, 8);
    ValidAlignments(8);
    InitValid(l);
    FreshPoolOrder(l);
    AllocateManyFromFree(l, Init(l), 4);
    var (ps, t) := AllocateMany(l, Init(l), 4);
    forall j | 0 <= j < 4 ensures ps[j].address % 8 == 0 {
      SlotAligned(l, j);
    }
    assert 2 in Allocated(l, t);
    assert SlotAddress(l, 2) == FirstSlot(l) + 32;
    DeallocateThenAllocate(l, t, At(FirstSlot(l) + 32));
  }
}
