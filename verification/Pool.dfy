/** The pool allocator as it runs: a singly linked list threaded through the free slots of its buffer. */
module Pool {
  import opened Order
  import opened Memory
  import PoolModel

  function SlotAt(buffer: nat, blockSize: nat, k: nat): nat
  {
    buffer + k * blockSize
  }

  /** Different slots share no byte, and every slot ends inside the buffer. */
  lemma SlotsApart(buffer: nat, blockSize: nat, total: nat, i: nat, j: nat)
    requires i < total && j < total && i != j
    ensures SlotAt(buffer, blockSize, i) + blockSize <= SlotAt(buffer, blockSize, j) ||
            SlotAt(buffer, blockSize, j) + blockSize <= SlotAt(buffer, blockSize, i)
  {
    if i < j {
      MulLe(i + 1, j, blockSize);
    } else {
      MulLe(j + 1, i, blockSize);
    }
  }

  lemma SlotInside(buffer: nat, blockSize: nat, total: nat, k: nat)
    requires k < total
    ensures SlotAt(buffer, blockSize, k) + blockSize <= buffer + blockSize * total
  {
    MulLe(k + 1, total, blockSize);
  }

  lemma SlotStart(buffer: nat, blockSize: nat, k: nat)
    ensures buffer <= SlotAt(buffer, blockSize, k)
    ensures SlotAt(buffer, blockSize, k + 1) == SlotAt(buffer, blockSize, k) + blockSize
    ensures SlotAt(buffer, blockSize, 0) == buffer
  {
  }

  lemma InitialSlots(total: nat, blockSize: nat)
    ensures var st := PoolModel.Initial(total, blockSize);
            st.total == total && st.blockSize == blockSize && |st.free| == total && (total > 0 ==> st.free[0] == 0)
  {
  }

  lemma SlotNumber(buffer: nat, blockSize: nat, k: nat)
    requires blockSize > 0
    ensures (SlotAt(buffer, blockSize, k) - buffer) / blockSize == k
  {
    QuotientUnique(k * blockSize, blockSize, k, 0);
  }

  function SlotNumberOf(buffer: nat, blockSize: nat, p: nat): nat
    requires buffer <= p && blockSize > 0
  {
    (p - buffer) / blockSize
  }

  predicate InSlot(buffer: nat, blockSize: nat, k: nat, p: nat)
  {
    SlotAt(buffer, blockSize, k) <= p < SlotAt(buffer, blockSize, k) + blockSize
  }

  /** The buffer is exactly its slots. */
  lemma SlotBytes(buffer: nat, blockSize: nat, total: nat, p: nat)
    ensures buffer <= p < buffer + blockSize * total <==> exists k: nat :: k < total && InSlot(buffer, blockSize, k, p)
  {
    if buffer <= p < buffer + blockSize * total && blockSize > 0 {
      var k, r := (p - buffer) / blockSize, (p - buffer) % blockSize;
      assert p - buffer == blockSize * k + r;
      if k >= total {
        MulLe(total, k, blockSize);
      }
      assert InSlot(buffer, blockSize, k, p);
    }
    forall k: nat | k < total && InSlot(buffer, blockSize, k, p)
      ensures buffer <= p < buffer + blockSize * total
    {
      SlotInside(buffer, blockSize, total, k);
    }
  }

  ghost predicate SlotHolds(st: PoolModel.State, buffer: nat, p: nat, size: nat)
  {
    && buffer <= p && st.blockSize > 0
    && var k := SlotNumberOf(buffer, st.blockSize, p);
       k in st.live && st.live[k] == size && p == SlotAt(buffer, st.blockSize, k)
  }

  /** The address that answers a request. */
  function Answer(buffer: nat, blockSize: nat, r: PoolModel.AllocResult): nat
  {
    match r
    case Failed => NULL
    case Slot(k) => SlotAt(buffer, blockSize, k)
  }

  /** Each free slot starts with the address of the next one on the list. */
  ghost predicate Threaded(m: seq<Byte>, buffer: nat, blockSize: nat, head: nat, free: seq<nat>)
  {
    && head == (if free == [] then NULL else SlotAt(buffer, blockSize, free[0]))
    && forall i :: 0 <= i < |free| ==> LinkOk(m, buffer, blockSize, free, i)
  }

  ghost predicate LinkOk(m: seq<Byte>, buffer: nat, blockSize: nat, free: seq<nat>, i: int)
    requires 0 <= i < |free|
  {
    var a := SlotAt(buffer, blockSize, free[i]);
    a + 8 <= |m| && Load64(m, a) == if i + 1 < |free| then SlotAt(buffer, blockSize, free[i + 1]) else NULL
  }

  /** Changes outside the free slots leave the list alone. */
  lemma ThreadedFrame(m: seq<Byte>, m': seq<Byte>, buffer: nat, blockSize: nat, head: nat, free: seq<nat>)
    requires Threaded(m, buffer, blockSize, head, free) && |m'| == |m|
    requires forall i :: 0 <= i < |free| ==>
               Same(m, m', SlotAt(buffer, blockSize, free[i]), SlotAt(buffer, blockSize, free[i]) + 8)
    ensures Threaded(m', buffer, blockSize, head, free)
  {
    forall i | 0 <= i < |free|
      ensures LinkOk(m', buffer, blockSize, free, i)
    {
      assert LinkOk(m, buffer, blockSize, free, i);
      LoadFrame(m, m', SlotAt(buffer, blockSize, free[i]), 8);
    }
  }

  class Context {
    const heap: Heap
    const buffer: nat
    const blockSize: nat
    const totalBlocks: nat
    var freeList: nat

    ghost var st: PoolModel.State

    ghost predicate Shape()
      reads this
    {
      && 0 < buffer && 8 <= blockSize && blockSize % 8 == 0
      && st.total == totalBlocks && st.blockSize == blockSize
      && PoolModel.Inv(st)
    }

    /** The part of Valid that depends on the memory m. */
    ghost predicate Links(m: seq<Byte>)
      reads this
    {
      buffer + blockSize * totalBlocks <= |m| <= WORD && Threaded(m, buffer, blockSize, freeList, st.free)
    }

    ghost predicate Valid()
      reads this, heap
    {
      Shape() && Links(heap.bytes)
    }

    /** p is a live slot that was last requested with this size. */
    ghost predicate LiveAt(p: nat, size: nat)
      reads this
    {
      blockSize == st.blockSize && SlotHolds(st, buffer, p, size)
    }

    ghost function SlotOf(p: nat): nat
      requires buffer <= p && blockSize > 0
    {
      SlotNumberOf(buffer, blockSize, p)
    }

    /** pool_contains_fn: exactly the bytes of the slots. */
    predicate Contains(p: nat): (yes: bool)
      ensures yes <==> exists k: nat :: k < totalBlocks && InSlot(buffer, blockSize, k, p)
    {
      SlotBytes(buffer, blockSize, totalBlocks, p);
      buffer <= p < buffer + blockSize * totalBlocks
    }

    /** Every byte of the slot of a live allocation is contained. */
    lemma LiveIsContained(p: nat, size: nat, x: nat)
      requires Shape() && LiveAt(p, size) && p <= x < p + blockSize
      ensures Contains(x)
    {
      assert InSlot(buffer, blockSize, SlotOf(p), x);
    }

    /** make_pool_allocator over a given buffer: the loop links every slot to the next. */
    constructor (heap: Heap, buffer: nat, requested: nat, totalBlocks: nat)
      requires requested > 0 && totalBlocks > 0 && buffer > 0
      requires buffer + AlignUp8(if requested < 8 then 8 else requested) * totalBlocks <= |heap.bytes| <= WORD
      modifies heap
      ensures Valid() && this.heap == heap && this.buffer == buffer && this.totalBlocks == totalBlocks
      ensures blockSize == AlignUp8(if requested < 8 then 8 else requested)
      ensures st == PoolModel.Initial(totalBlocks, blockSize)
      ensures |heap.bytes| == |old(heap.bytes)| && Same(old(heap.bytes), heap.bytes, 0, buffer)
      ensures Same(old(heap.bytes), heap.bytes, buffer + blockSize * totalBlocks, |heap.bytes|)
    {
      this.heap := heap;
      this.buffer := buffer;
      this.blockSize := AlignUp8(if requested < 8 then 8 else requested);
      this.totalBlocks := totalBlocks;
      freeList := buffer;
      st := PoolModel.Initial(totalBlocks, AlignUp8(if requested < 8 then 8 else requested));
      new;
      PoolModel.InitialInv(totalBlocks, blockSize);
      LinkSlots();
    }

    /** The constructor's loop: slot i points to slot i + 1, and the last one to nothing. */
    method LinkSlots()
      requires Shape() && st == PoolModel.Initial(totalBlocks, blockSize) && totalBlocks > 0
      requires buffer + blockSize * totalBlocks <= |heap.bytes| <= WORD
      modifies heap
      ensures |heap.bytes| == |old(heap.bytes)| && Same(old(heap.bytes), heap.bytes, 0, buffer)
      ensures Same(old(heap.bytes), heap.bytes, buffer + blockSize * totalBlocks, |heap.bytes|)
      ensures Threaded(heap.bytes, buffer, blockSize, buffer, st.free)
    {
      hide SlotAt, PoolModel.Inv, LinkOk, PoolModel.Initial, Load64, Put64;
      InitialSlots(totalBlocks, blockSize);
      SlotStart(buffer, blockSize, 0);
      var curr := buffer;
      ghost var m0, end := heap.bytes, buffer + blockSize * totalBlocks;
      for i := 0 to totalBlocks
        invariant |heap.bytes| == |m0| && Same(m0, heap.bytes, 0, buffer) && Same(m0, heap.bytes, end, |m0|)
        invariant i < totalBlocks ==> curr == SlotAt(buffer, blockSize, i)
        invariant forall k :: 0 <= k < i ==> LinkOk(heap.bytes, buffer, blockSize, st.free, k)
      {
        ghost var before := heap.bytes;
        SlotInside(buffer, blockSize, totalBlocks, i);
        SlotStart(buffer, blockSize, i);
        if i < totalBlocks - 1 {
          SlotInside(buffer, blockSize, totalBlocks, i + 1);
          heap.Store(curr, curr + blockSize);
          curr := curr + blockSize;
        } else {
          heap.Store(curr, NULL);
        }
        LinkAdded(before, heap.bytes, buffer, blockSize, totalBlocks, i);
      }
    }

    /** pool_alloc_fn */
    method Alloc(size: nat) returns (p: nat)
      requires Valid()
      modifies this
      ensures Valid() && st == PoolModel.Alloc(old(st), size).0
      ensures p == Answer(buffer, blockSize, PoolModel.Alloc(old(st), size).1)
      ensures p != NULL ==> LiveAt(p, size)
    {
      PoolModel.AllocKeepsInv(st, size);
      if size == 0 {
        return NULL;
      }
      if size > blockSize {
        return NULL;
      }
      if freeList == NULL {
        return NULL;
      }
      p := freeList;
      assert LinkOk(heap.bytes, buffer, blockSize, st.free, 0);
      freeList := heap.Load(p);
      SlotNumber(buffer, blockSize, st.free[0]);
      ThreadedTail(heap.bytes, buffer, blockSize, p, st.free);
      st := PoolModel.Alloc(st, size).0;
    }

    /** pool_realloc_fn */
    method Realloc(p: nat, oldSize: nat, newSize: nat) returns (q: nat)
      requires Valid() && (p == NULL || LiveAt(p, oldSize))
      modifies this`st
      ensures Valid() && q == (if newSize <= blockSize then p else NULL)
      ensures st == if p == NULL then old(st) else PoolModel.Realloc(old(st), SlotOf(p), newSize)
      ensures q != NULL ==> LiveAt(q, newSize)
    {
      if p != NULL {
        LiveIsContained(p, oldSize, p);
      }
      assert p == NULL || Contains(p);
      if newSize <= blockSize {
        if p != NULL {
          PoolModel.ReallocKeepsInv(st, SlotOf(p), newSize);
          st := PoolModel.Realloc(st, SlotOf(p), newSize);
        }
        return p;
      }
      return NULL;
    }

    /** pool_free_fn */
    method Free(p: nat, size: nat)
      requires Valid() && (p == NULL || LiveAt(p, size))
      modifies this, heap
      ensures Valid() && st == if p == NULL then old(st) else PoolModel.Free(old(st), SlotOf(p))
      ensures |heap.bytes| == |old(heap.bytes)|
      ensures Same(old(heap.bytes), heap.bytes, 0, p) && Same(old(heap.bytes), heap.bytes, p + 8, |heap.bytes|)
      ensures p == NULL ==> heap.bytes == old(heap.bytes)
    {
      if p == NULL {
        return;
      }
      LiveIsContained(p, size, p);
      assert Contains(p);
      ghost var k, m, head := SlotOf(p), heap.bytes, freeList;
      PoolModel.FreeKeepsInv(st, k);
      SlotInside(buffer, blockSize, totalBlocks, k);
      HeadSmall(head);
      heap.Store(p, freeList);
      freeList := p;
      ThreadedPush(m, heap.bytes, buffer, blockSize, totalBlocks, head, st.free, k);
      st := PoolModel.Free(st, k);
    }

    /** Changes outside the buffer leave the list alone. */
    lemma LinksFrame(m: seq<Byte>, m': seq<Byte>)
      requires Shape() && Links(m) && |m'| == |m| && Same(m, m', buffer, buffer + blockSize * totalBlocks)
      ensures Links(m')
    {
      forall i | 0 <= i < |st.free|
        ensures Same(m, m', SlotAt(buffer, blockSize, st.free[i]), SlotAt(buffer, blockSize, st.free[i]) + 8)
      {
        assert st.free[i] in st.free;
        SlotInside(buffer, blockSize, totalBlocks, st.free[i]);
      }
      ThreadedFrame(m, m', buffer, blockSize, freeList, st.free);
    }

    /** Changes inside a live slot leave the list alone: its data are in free slots. */
    lemma LinksPayload(m: seq<Byte>, m': seq<Byte>, k: nat)
      requires Shape() && Links(m) && |m'| == |m| && k in st.live
      requires Same(m, m', 0, SlotAt(buffer, blockSize, k)) &&
               Same(m, m', SlotAt(buffer, blockSize, k) + blockSize, |m|)
      ensures Links(m')
    {
      forall i | 0 <= i < |st.free|
        ensures Same(m, m', SlotAt(buffer, blockSize, st.free[i]), SlotAt(buffer, blockSize, st.free[i]) + 8)
      {
        assert st.free[i] in st.free;
        SlotsApart(buffer, blockSize, totalBlocks, st.free[i], k);
      }
      ThreadedFrame(m, m', buffer, blockSize, freeList, st.free);
    }

    lemma HeadSmall(head: nat)
      requires Valid() && head == freeList
      ensures head < WORD
    {
      if st.free != [] {
        assert st.free[0] in st.free;
        SlotInside(buffer, blockSize, totalBlocks, st.free[0]);
      }
    }
  }

  lemma LinkAdded(m: seq<Byte>, m': seq<Byte>, buffer: nat, blockSize: nat, total: nat, i: nat)
    requires 8 <= blockSize && i < total && buffer + blockSize * total <= |m| <= WORD
    requires SlotAt(buffer, blockSize, i) + 8 <= |m|
    requires i + 1 < total ==> SlotAt(buffer, blockSize, i + 1) < WORD
    requires m' == Put64(m, SlotAt(buffer, blockSize, i),
                         if i + 1 < total then SlotAt(buffer, blockSize, i + 1) else NULL)
    requires forall k :: 0 <= k < i ==> LinkOk(m, buffer, blockSize, PoolModel.Initial(total, blockSize).free, k)
    ensures forall k :: 0 <= k < i + 1 ==> LinkOk(m', buffer, blockSize, PoolModel.Initial(total, blockSize).free, k)
    ensures Same(m, m', 0, buffer) && Same(m, m', buffer + blockSize * total, |m|)
  {
    hide Load64, Put64;
    Put64Facts(m, SlotAt(buffer, blockSize, i), if i + 1 < total then SlotAt(buffer, blockSize, i + 1) else NULL);
    SlotInside(buffer, blockSize, total, i);
    var free := PoolModel.Initial(total, blockSize).free;
    forall k | 0 <= k < i
      ensures LinkOk(m', buffer, blockSize, free, k)
    {
      assert LinkOk(m, buffer, blockSize, free, k);
      SlotsApart(buffer, blockSize, total, k, i);
    }
  }

  lemma ThreadedTail(m: seq<Byte>, buffer: nat, blockSize: nat, head: nat, free: seq<nat>)
    requires Threaded(m, buffer, blockSize, head, free) && free != []
    ensures head + 8 <= |m| && Threaded(m, buffer, blockSize, Load64(m, head), free[1..])
  {
    assert LinkOk(m, buffer, blockSize, free, 0);
    forall i | 0 <= i < |free| - 1
      ensures LinkOk(m, buffer, blockSize, free[1..], i)
    {
      assert LinkOk(m, buffer, blockSize, free, i + 1);
    }
  }
  lemma ThreadedPush(m: seq<Byte>, m': seq<Byte>, buffer: nat, blockSize: nat, total: nat, head: nat, free: seq<nat>,
                     k: nat)
    requires Threaded(m, buffer, blockSize, head, free) && 8 <= blockSize && k < total && k !in free
    requires (forall x :: x in free ==> x < total) && buffer + blockSize * total <= |m| <= WORD
    requires SlotAt(buffer, blockSize, k) + 8 <= |m| && head < WORD
    requires m' == Put64(m, SlotAt(buffer, blockSize, k), head)
    ensures Threaded(m', buffer, blockSize, SlotAt(buffer, blockSize, k), [k] + free)
    ensures Same(m, m', 0, SlotAt(buffer, blockSize, k)) && Same(m, m', SlotAt(buffer, blockSize, k) + 8, |m|)
  {
    hide Load64, Put64;
    Put64Facts(m, SlotAt(buffer, blockSize, k), head);
    var free' := [k] + free;
    forall i | 0 <= i < |free'|
      ensures LinkOk(m', buffer, blockSize, free', i)
    {
      if i > 0 {
        assert LinkOk(m, buffer, blockSize, free, i - 1);
        assert free'[i] == free[i - 1] && free[i - 1] in free;
        SlotsApart(buffer, blockSize, total, k, free[i - 1]);
      }
    }
  }
}
