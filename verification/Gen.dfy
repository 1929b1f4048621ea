/** The general allocator as it runs: eight pools in buddy blocks, the buddy buffer in a page mapping,
    all over one memory. */
module Gen {
  import opened Order
  import opened Memory
  import opened Sequences
  import opened BuddyTree
  import opened GenRouting
  import opened Os
  import opened GenModel
  import opened GenFacts
  import opened GenExact
  import BuddyModel
  import BuddyTheorems
  import BuddyRep
  import FreeLists
  import Buddy
  import Pool
  import PoolModel
  import Page

  class Context {
    const os: Kernel
    const heap: Heap
    const page: Page.Context
    const buddy: Buddy.Context
    const pools: seq<Pool.Context>
    const stateAddr: nat
    const headsAddr: nat
    const bitsetAddr: nat
    const ordersAddr: nat
    ghost const layout: Layout
    ghost var st: State

    constructor (os: Kernel, page: Page.Context, buddy: Buddy.Context, pools: seq<Pool.Context>,
                 stateAddr: nat, headsAddr: nat, bitsetAddr: nat, ordersAddr: nat,
                 ghost layout: Layout, ghost st: State)
      ensures this.os == os && heap == os.heap && this.page == page && this.buddy == buddy && this.pools == pools
      ensures this.stateAddr == stateAddr && this.headsAddr == headsAddr
      ensures this.bitsetAddr == bitsetAddr && this.ordersAddr == ordersAddr
      ensures this.layout == layout && this.st == st
    {
      this.os := os;
      this.heap := os.heap;
      this.page := page;
      this.buddy := buddy;
      this.pools := pools;
      this.stateAddr := stateAddr;
      this.headsAddr := headsAddr;
      this.bitsetAddr := bitsetAddr;
      this.ordersAddr := ordersAddr;
      this.layout := layout;
      this.st := st;
    }

    /** The allocator's own page allocations: its state, and the buddy allocator's four. */
    ghost predicate InnerPlaced()
    {
      && buddy.totalSize == Pow2(BUDDY_ORDER) && GetOrder(Pow2(BUDDY_ORDER)) == BUDDY_ORDER && GetOrder(32) == 5
      && Distinct([stateAddr, buddy.buffer, headsAddr, bitsetAddr, ordersAddr])
      && layout.inner == map[stateAddr := GEN_STATE_BYTES, buddy.buffer := buddy.totalSize,
                             headsAddr := Buddy.HeadsBytes(buddy.totalSize),
                             bitsetAddr := Buddy.BitsetBytes(buddy.totalSize),
                             ordersAddr := Buddy.OrdersBytes(buddy.totalSize)]
    }

    /** Where the parts are: this never changes. */
    ghost predicate Placed()
    {
      && heap == os.heap && page.os == os && buddy.heap == heap && |pools| == POOL_COUNT
      && (forall i, j :: 0 <= i < j < POOL_COUNT ==> pools[i] != pools[j])
      && 0 < layout.base == buddy.buffer && buddy.maxOrder == BUDDY_ORDER
      && (forall i :: 0 <= i < POOL_COUNT ==> PoolPlaced(i))
    }

    /** Pool i fills its buffer block. */
    ghost predicate PoolPlaced(i: nat)
      requires i < POOL_COUNT && |pools| == POOL_COUNT
    {
      && pools[i].heap == heap && |layout.bufs| == POOL_COUNT
      && pools[i].buffer == PoolBuffer(layout, i)
      && pools[i].blockSize == POOL_SIZES[i] && pools[i].totalBlocks == POOL_BLOCKS[i]
    }

    /** Pool i is in the state the model gives it. */
    ghost predicate PoolShows(states: seq<PoolModel.State>, m: seq<Byte>, i: nat)
      requires i < |pools| == |states|
      reads pools
    {
      pools[i].Shape() && pools[i].st == states[i] && pools[i].Links(m)
    }

    ghost predicate AllPools(states: seq<PoolModel.State>, m: seq<Byte>)
      reads pools
    {
      |pools| == |states| == POOL_COUNT && forall i :: 0 <= i < POOL_COUNT ==> PoolShows(states, m, i)
    }

    /** The model state and the states of the page and buddy allocators agree. */
    ghost predicate Agrees()
      reads this, page, buddy
    {
      && st.page == page.live && st.buddy == buddy.St()
      && Inv(layout, st) && Exact(layout, st)
    }

    ghost predicate Valid()
      reads this, os, heap, os.heap, page, buddy, buddy.freeLists, buddy.bitset, buddy.blockOrders, pools
    {
      Placed() && InnerPlaced() && Agrees() && page.Valid() && buddy.Valid() && AllPools(st.pools, heap.bytes)
    }

    ghost predicate BuddyLinked(m: seq<Byte>)
      requires |buddy.lists| > 0
      reads buddy, buddy.freeLists
    {
      FreeLists.Linked(m, buddy.freeLists[..], BuddyRep.Chains(buddy.buffer, buddy.lists))
    }

    /* ----------------------------------------------- what a change of memory keeps */

    /** The buffer of a pool is its block, and that block is live. */
    lemma BufIsBlock(s: State, i: nat)
      requires Placed() && Inv(layout, s) && i < POOL_COUNT
      ensures var b := layout.bufs[i];
              b in s.buddy.live && b.level == POOL_LEVEL && s.buddy.live[b] == POOL_BUFFER &&
              pools[i].buffer == buddy.buffer + Lo(BUDDY_ORDER, b) &&
              pools[i].buffer + pools[i].blockSize * pools[i].totalBlocks == buddy.buffer + Hi(BUDDY_ORDER, b) &&
              Hi(BUDDY_ORDER, b) <= Pow2(BUDDY_ORDER)
    {
      assert PoolPlaced(i);
      PoolBytes(i);
      PoolBufferSize();
      hide PoolOk, PageOk, BuddyModel.Inv, Routed;
      BuddyBlock(layout, s.buddy, layout.bufs[i]);
      assert layout.bufs[i] == Block(POOL_LEVEL, layout.bufs[i].index);
    }

    lemma PoolKept(states: seq<PoolModel.State>, m: seq<Byte>, m': seq<Byte>, i: nat)
      requires i < |pools| == |states| && PoolShows(states, m, i)
      requires |m'| == |m| && Same(m, m', pools[i].buffer, pools[i].buffer + pools[i].blockSize * pools[i].totalBlocks)
      ensures PoolShows(states, m', i)
    {
      pools[i].LinksFrame(m, m');
    }

    /** A change outside the buddy buffer. */
    lemma OutsideChange(s: State, m: seq<Byte>, m': seq<Byte>)
      requires Placed() && Inv(layout, s) && s.buddy == buddy.St() && BuddyLinked(m) && AllPools(s.pools, m)
      requires |m'| == |m| && Same(m, m', buddy.buffer, buddy.buffer + Pow2(BUDDY_ORDER))
      ensures BuddyLinked(m') && AllPools(s.pools, m')
    {
      hide InnerPlaced, Inv, PoolShows, BuddyModel.Consistent, FreeLists.Linked, BuddyRep.Chains, PoolPlaced, PartsOk;
      BuddyFacts(layout, s);
      BuddyRep.LinkedInBuffer(m, m', buddy.freeLists[..], buddy.buffer, buddy.lists, buddy.live.Keys);
      forall i: nat | i < POOL_COUNT
        ensures PoolShows(s.pools, m', i)
      {
        BufIsBlock(s, i);
        PoolKept(s.pools, m, m', i);
      }
    }

    /** A change that frames the pools' blocks. */
    lemma FramedChange(s: State, m: seq<Byte>, m': seq<Byte>, keep: set<Block>)
      requires Placed() && Inv(layout, s) && AllPools(s.pools, m)
      requires BuddyRep.Framed(m, m', buddy.buffer, BUDDY_ORDER, keep) && forall b :: b in layout.bufs ==> b in keep
      ensures AllPools(s.pools, m')
    {
      InvParts(layout, s);
      hide InnerPlaced, Inv, PartsOk, PoolShows;
      forall i: nat | i < POOL_COUNT
        ensures PoolShows(s.pools, m', i)
      {
        BufIsBlock(s, i);
        assert layout.bufs[i] in layout.bufs;
        assert BuddyRep.BlockSame(m, m', buddy.buffer, BUDDY_ORDER, layout.bufs[i]);
        PoolKept(s.pools, m, m', i);
      }
    }

    /** The pools outside block b. */
    ghost predicate OtherPools(states: seq<PoolModel.State>, m: seq<Byte>, b: Block)
      reads pools
    {
      && |pools| == |states| == |layout.bufs| == POOL_COUNT
      && forall i :: 0 <= i < POOL_COUNT && layout.bufs[i] != b ==> PoolShows(states, m, i)
    }

    /** A change inside one live block: the other blocks, and the buddy lists, are as before. */
    lemma BlockChange(s: State, m: seq<Byte>, m': seq<Byte>, b: Block)
      requires Placed() && Inv(layout, s) && s.buddy == buddy.St() && BuddyLinked(m) && OtherPools(s.pools, m, b)
      requires b in buddy.live && b.level <= BUDDY_ORDER && Buddy.ChangedInside(m, m', buddy.buffer, BUDDY_ORDER, b)
      ensures BuddyLinked(m') && OtherPools(s.pools, m', b)
    {
      hide InnerPlaced, Inv, PartsOk, PoolShows, BuddyModel.Inv, FreeLists.Linked, BuddyRep.Chains, SizeOf, BuddyOk,
        PoolPlaced, Pool.Context.Shape, Buddy.ChangedInside;
      BuddyFacts(layout, s);
      Buddy.PayloadKeepsLinks(m, m', buddy.freeLists[..], buddy.buffer, buddy.St(), b);
      BlockChangeBytes(m, m', b);
      forall i: nat | i < POOL_COUNT && layout.bufs[i] != b
        ensures PoolShows(s.pools, m', i)
      {
        BufIsBlock(s, i);
        BuddyBlocksApart(layout, s.buddy, layout.bufs[i], b);
        PoolKept(s.pools, m, m', i);
      }
    }

    lemma BlockChangeBytes(m: seq<Byte>, m': seq<Byte>, b: Block)
      requires b.level <= BUDDY_ORDER && Buddy.ChangedInside(m, m', buddy.buffer, BUDDY_ORDER, b)
      ensures |m'| == |m| && Same(m, m', 0, buddy.buffer + Lo(BUDDY_ORDER, b))
      ensures Same(m, m', buddy.buffer + Hi(BUDDY_ORDER, b), |m|)
    {
    }

    /** A change inside a live slot, seen from outside its pool. */
    lemma SlotChangeElsewhere(s: State, m: seq<Byte>, m': seq<Byte>, i: nat, k: nat)
      requires Placed() && Inv(layout, s) && s.buddy == buddy.St() && BuddyLinked(m) && i < POOL_COUNT
      requires |layout.bufs| == |s.pools| == POOL_COUNT && OtherPools(s.pools, m, layout.bufs[i])
      requires k in s.pools[i].live && |m'| == |m|
      requires Same(m, m', 0, Pool.SlotAt(PoolBuffer(layout, i), POOL_SIZES[i], k))
      requires Same(m, m', Pool.SlotAt(PoolBuffer(layout, i), POOL_SIZES[i], k) + POOL_SIZES[i], |m|)
      ensures BuddyLinked(m') && OtherPools(s.pools, m', layout.bufs[i])
    {
      hide InnerPlaced, Inv, PartsOk, PoolShows, BuddyModel.Inv, FreeLists.Linked, BuddyRep.Chains, SizeOf,
        PoolBuffer, PoolPlaced, OtherPools;
      InvParts(layout, s);
      SlotExists(layout, s, i, k);
      SlotInBlock(layout, s, i, k);
      BufIsBlock(s, i);
      BlockChange(s, m, m', layout.bufs[i]);
    }

    /** A change inside a live slot. */
    lemma SlotChange(s: State, m: seq<Byte>, m': seq<Byte>, i: nat, k: nat)
      requires Placed() && Inv(layout, s) && s.buddy == buddy.St() && BuddyLinked(m) && AllPools(s.pools, m)
      requires i < POOL_COUNT && k in s.pools[i].live && |m'| == |m|
      requires |layout.bufs| == POOL_COUNT
      requires Same(m, m', 0, Pool.SlotAt(PoolBuffer(layout, i), POOL_SIZES[i], k))
      requires Same(m, m', Pool.SlotAt(PoolBuffer(layout, i), POOL_SIZES[i], k) + POOL_SIZES[i], |m|)
      ensures BuddyLinked(m') && AllPools(s.pools, m')
    {
      InvParts(layout, s);
      DistinctBufs(layout, s);
      hide InnerPlaced, Inv, BuddyModel.Inv, FreeLists.Linked, PartsOk;
      SlotChangeElsewhere(s, m, m', i, k);
      assert PoolPlaced(i) && PoolShows(s.pools, m, i);
      pools[i].LinksPayload(m, m', k);
    }

    /** Valid, with the parts that a change of memory can touch set apart. */
    ghost predicate Steady(top: nat)
      reads os, page, buddy, buddy.bitset, buddy.blockOrders
    {
      Placed() && InnerPlaced() && page.Rest(top) && buddy.Rest(top) && |buddy.lists| > 0
    }

    lemma ValidParts()
      ensures Valid() <==> Steady(|heap.bytes|) && Agrees() && page.InMemory(heap.bytes) && BuddyLinked(heap.bytes) &&
                           AllPools(st.pools, heap.bytes)
    {
      if Placed() {
        hide InnerPlaced, Inv, Exact, AllPools, Page.Context.Valid, Buddy.Context.Valid, Page.Context.Rest,
          FreeLists.Linked;
        page.ValidParts();
        buddy.ValidParts();
      }
    }

    /** A change inside the buddy buffer touches neither the page registry nor a mapping of somebody else. */
    lemma BufferChange(s: State, m: seq<Byte>, m': seq<Byte>)
      requires Placed() && Inv(layout, s) && s.page == page.live && page.Rest(|m|) && page.InMemory(m)
      requires |m'| == |m| && Same(m, m', 0, layout.base) && Same(m, m', layout.base + Pow2(BUDDY_ORDER), |m|)
      ensures page.InMemory(m') && MapsSame(m, m', page.Foreign())
    {
      hide PoolsOk, BuddyOk, Routed, Page.Context.Rest, Page.Context.InMemory, MapsSame, PoolPlaced,
        Page.Context.Foreign;
      page.InsideChange(m, m', layout.base);
    }

    /** The same of a buddy operation. */
    lemma BuddyChange(s: State, m: seq<Byte>, m': seq<Byte>, keep: set<Block>)
      requires Placed() && Inv(layout, s) && s.page == page.live && page.Rest(|m|) && page.InMemory(m)
      requires BuddyRep.Framed(m, m', buddy.buffer, BUDDY_ORDER, keep)
      ensures page.InMemory(m') && MapsSame(m, m', page.Foreign())
    {
      hide Inv, Page.Context.Rest, Page.Context.InMemory, MapsSame, PoolPlaced, Page.Context.Foreign;
      BufferChange(s, m, m');
    }

    /* ------------------------------------------------------------- allocation */

    /** A pool's answer, and the states of all eight pools after it. */
    method PoolAlloc(idx: nat, size: nat, ghost states: seq<PoolModel.State>) returns (p: nat)
      requires Placed() && idx < POOL_COUNT && AllPools(states, heap.bytes)
      modifies pools
      ensures p == Pool.Answer(pools[idx].buffer, pools[idx].blockSize, PoolModel.Alloc(states[idx], size).1)
      ensures AllPools(states[idx := PoolModel.Alloc(states[idx], size).0], heap.bytes)
    {
      hide PoolModel.Alloc, PoolModel.Inv, Pool.Threaded;
      assert PoolPlaced(idx) && PoolShows(states, heap.bytes, idx);
      label before:
      p := pools[idx].Alloc(size);
      ghost var states' := states[idx := PoolModel.Alloc(states[idx], size).0];
      forall i | 0 <= i < POOL_COUNT
        ensures PoolShows(states', heap.bytes, i)
      {
        if i != idx {
          assert old@before(PoolShows(states, heap.bytes, i));
        }
      }
    }

    method AllocSmall(size: nat) returns (p: nat)
      requires Valid() && 0 < size <= SMALL_OBJ_LIMIT
      modifies this`st, pools
      ensures Valid() && AllocNext(layout, old(st), size, p, st)
      ensures page.Foreign() == old(page.Foreign())
    {
      hide InnerPlaced, Inv, Exact, AllocNext, PoolBuffer, AllPools, BuddyLinked, Same, UsersSame, PoolIndex,
        Page.Context.Rest, Buddy.Context.Rest, Valid, Page.Context.Valid, Buddy.Context.Valid, PoolModel.Alloc,
        BuddyModel.Alloc, SmallResult;
      ghost var s := st;
      ValidParts();
      InvParts(layout, s);
      var idx := PoolIndex(size);
      assert PoolPlaced(idx);
      p := PoolAlloc(idx, size, s.pools);
      SmallAnswer(layout, s, size, p);
      st := SmallResult(s, idx, PoolModel.Alloc(s.pools[idx], size).0, p, size);
      AllocKeepsInv(layout, s, size, p, st);
      AllocKeepsExact(layout, s, size, p, st);
      ValidParts();
    }

    method AllocMedium(size: nat) returns (p: nat)
      requires Valid() && SMALL_OBJ_LIMIT < size <= MEDIUM_OBJ_LIMIT
      modifies this`st, heap, buddy, buddy.freeLists, buddy.bitset, buddy.blockOrders
      ensures Valid() && AllocNext(layout, old(st), size, p, st)
      ensures UsersSame(old(st).user, old(heap.bytes), heap.bytes, NULL)
      ensures page.Foreign() == old(page.Foreign()) && MapsSame(old(heap.bytes), heap.bytes, old(page.Foreign()))
    {
      hide InnerPlaced, Inv, Exact, AllocNext, PoolBuffer, AllPools, FreeLists.Linked, BuddyRep.Chains, Same,
        UsersSame, PoolIndex, Page.Context.Rest, MapsSame, Page.Context.InMemory, Page.Context.Foreign,
        Buddy.Context.Rest, Valid, Page.Context.Valid, Buddy.Context.Valid, PoolModel.Alloc, BuddyModel.Alloc,
        BuddyRep.Framed, SizeOf, Pow2, Page.Owns, BuddyOk, BufsOk, PoolShows;
      ghost var s, m := st, heap.bytes;
      ValidParts();
      InvParts(layout, s);
      DistinctBufs(layout, s);
      buddy.ValidParts();
      p := buddy.Alloc(size);
      buddy.ValidParts();
      MediumAnswer(layout, s, size, p, buddy.St(), buddy);
      BuddyRep.FramedLength(m, heap.bytes, buddy.buffer, BUDDY_ORDER, s.buddy.live.Keys);
      FramedChange(s, m, heap.bytes, s.buddy.live.Keys);
      BuddyChange(s, m, heap.bytes, s.buddy.live.Keys);
      UsersAfterBlocks(layout, s, m, heap.bytes, s.buddy.live.Keys, NULL);
      st := if p == NULL then s else s.(buddy := buddy.St(), user := s.user[p := size]);
      AllocKeepsInv(layout, s, size, p, st);
      AllocKeepsExact(layout, s, size, p, st);
      ValidParts();
    }

    /** A new mapping: no buddy list, pool or user byte is disturbed. */
    method PageAlloc(size: nat, ghost s: State) returns (p: nat)
      requires Placed() && Inv(layout, s) && s.page == page.live && s.buddy == buddy.St() && page.Valid()
      requires BuddyLinked(heap.bytes) && AllPools(s.pools, heap.bytes) && size < WORD
      modifies os, os.heap, page
      ensures page.Valid()
      ensures p == NULL ==> page.live == s.page
      ensures p != NULL ==> p !in s.page && page.live == s.page[p := size] && Apart(page.live)
      ensures BuddyLinked(heap.bytes) && AllPools(s.pools, heap.bytes) && |heap.bytes| == |old(heap.bytes)|
      ensures UsersSame(s.user, old(heap.bytes), heap.bytes, NULL)
      ensures os.refusals == old(os.refusals) + (if p == NULL && size > 0 then 1 else 0)
      ensures size > 0 ==>
                page.AllocCalls(old(os.calls), os.calls, old(page.count == page.capacity), old(page.registryAddr),
                                old(page.capacity), page.registryAddr, page.capacity,
                                Page.RoundUp(size, page.pageSize), p)
      ensures page.Foreign() == old(page.Foreign()) && MapsSame(old(heap.bytes), heap.bytes, old(page.Foreign()))
    {
      hide InnerPlaced, Inv, AllPools, BuddyLinked, Same, UsersSame, Page.Context.Valid, Apart,
        MapsSame, PoolPlaced, Page.Context.Foreign;
      ghost var m, maps := heap.bytes, os.maps - {page.registryAddr};
      PageCovers(page);
      p := page.Alloc(size);
      PageApart(page);
      UsersAfterPages(layout, s, m, heap.bytes, maps, NULL);
      OutsideChange(s, m, heap.bytes);
    }

    method AllocLarge(size: nat) returns (p: nat)
      requires Valid() && MEDIUM_OBJ_LIMIT < size && size < WORD
      modifies this`st, os, os.heap, page
      ensures os.refusals == old(os.refusals) + (if p == NULL then 1 else 0)
      ensures page.AllocCalls(old(os.calls), os.calls, old(page.count == page.capacity), old(page.registryAddr),
                                old(page.capacity), page.registryAddr, page.capacity,
                                Page.RoundUp(size, page.pageSize), p)
      ensures Valid() && AllocNext(layout, old(st), size, p, st)
      ensures page.Foreign() == old(page.Foreign()) && MapsSame(old(heap.bytes), heap.bytes, old(page.Foreign()))
      ensures UsersSame(old(st).user, old(heap.bytes), heap.bytes, NULL)
    {
      hide InnerPlaced, Inv, Exact, AllocNext, PoolBuffer, AllPools, BuddyLinked, Same, UsersSame, PoolIndex,
        Page.Context.Rest, Buddy.Context.Rest, Valid, Page.Context.Valid, Buddy.Context.Valid, Apart, MapsSame,
        Page.Context.InMemory, Page.Context.Foreign;
      ghost var s := st;
      ValidParts();
      InvParts(layout, s);
      page.ValidParts();
      p := PageAlloc(size, s);
      page.ValidParts();
      LargeAnswer(layout, s, size, p);
      st := if p == NULL then s else s.(page := s.page[p := size], user := s.user[p := size]);
      AllocKeepsInv(layout, s, size, p, st);
      AllocKeepsExact(layout, s, size, p, st);
      ValidParts();
    }

    /* ------------------------------------------------------------------- free */

    /** The pools other than number idx, over the memory m. */
    ghost predicate PoolsBut(states: seq<PoolModel.State>, m: seq<Byte>, idx: nat)
      reads pools
    {
      |pools| == |states| == POOL_COUNT && forall i :: 0 <= i < POOL_COUNT && i != idx ==> PoolShows(states, m, i)
    }

    /** A pool takes a slot back: its own list is in order, the other pools have not been called. */
    method PoolFree(idx: nat, p: nat, size: nat, ghost states: seq<PoolModel.State>)
      requires Placed() && idx < POOL_COUNT && AllPools(states, heap.bytes) && pools[idx].LiveAt(p, size) && p != NULL
      modifies pools, heap
      ensures |pools| == |states| == POOL_COUNT && PoolsBut(states, old(heap.bytes), idx)
      ensures PoolShows(states[idx := PoolModel.Free(states[idx], pools[idx].SlotOf(p))], heap.bytes, idx)
      ensures |heap.bytes| == |old(heap.bytes)|
      ensures Same(old(heap.bytes), heap.bytes, 0, p) && Same(old(heap.bytes), heap.bytes, p + 8, |heap.bytes|)
    {
      hide PoolModel.Inv, Pool.Threaded, Same, PoolModel.Free;
      assert PoolPlaced(idx) && PoolShows(states, heap.bytes, idx);
      label before:
      pools[idx].Free(p, size);
      forall i | 0 <= i < POOL_COUNT && i != idx
        ensures PoolShows(states, old(heap.bytes), i)
      {
        assert old@before(PoolShows(states, heap.bytes, i));
      }
    }

    /** The pools around a changed one: together they are all in their new states. */
    lemma JoinPools(s: State, idx: nat, t: PoolModel.State, m': seq<Byte>)
      requires Placed() && Inv(layout, s) && |s.pools| == POOL_COUNT && idx < POOL_COUNT
      requires OtherPools(s.pools, m', layout.bufs[idx]) && PoolShows(s.pools[idx := t], m', idx)
      ensures AllPools(s.pools[idx := t], m')
    {
      InvParts(layout, s);
      DistinctBufs(layout, s);
      hide InnerPlaced, Inv, PartsOk;
      var states' := s.pools[idx := t];
      forall i | 0 <= i < POOL_COUNT
        ensures PoolShows(states', m', i)
      {
        if i != idx {
          assert PoolShows(s.pools, m', i);
        }
      }
    }

    lemma OthersAre(s: State, m: seq<Byte>, idx: nat)
      requires Inv(layout, s) && idx < POOL_COUNT && PoolsBut(s.pools, m, idx)
      ensures |layout.bufs| == POOL_COUNT && OtherPools(s.pools, m, layout.bufs[idx])
    {
      InvParts(layout, s);
    }

    /** The slot goes back to its pool; no other pool, and no buddy list, is disturbed. */
    method FreeSlot(idx: nat, p: nat, size: nat, ghost s: State)
      requires Placed() && Inv(layout, s) && s.buddy == buddy.St() && BuddyLinked(heap.bytes)
      requires AllPools(s.pools, heap.bytes) && idx < POOL_COUNT && p != NULL
      requires pools[idx].blockSize == POOL_SIZES[idx] && Pool.SlotHolds(s.pools[idx], pools[idx].buffer, p, size)
      modifies heap, pools
      ensures BuddyLinked(heap.bytes)
      ensures AllPools(s.pools[idx := PoolModel.Free(s.pools[idx], pools[idx].SlotOf(p))], heap.bytes)
      ensures |heap.bytes| == |old(heap.bytes)|
      ensures Same(old(heap.bytes), heap.bytes, 0, p) &&
              Same(old(heap.bytes), heap.bytes, p + POOL_SIZES[idx], |heap.bytes|)
    {
      hide InnerPlaced, Inv, PoolModel.Inv, PoolBuffer, AllPools, BuddyLinked, PoolModel.Free, Same, OtherPools,
        PoolShows, PoolPlaced, Pool.SlotAt, Pool.SlotNumberOf;
      ghost var m := heap.bytes;
      PoolIs(idx, s.pools);
      PoolBytes(idx);
      PoolFree(idx, p, size, s.pools);
      SameWider(m, heap.bytes, p, POOL_SIZES[idx]);
      OthersAre(s, m, idx);
      SlotChangeElsewhere(s, m, heap.bytes, idx, pools[idx].SlotOf(p));
      JoinPools(s, idx, PoolModel.Free(s.pools[idx], pools[idx].SlotOf(p)), heap.bytes);
    }

    lemma PoolIs(idx: nat, states: seq<PoolModel.State>)
      requires Placed() && idx < POOL_COUNT && AllPools(states, heap.bytes)
      ensures pools[idx].st == states[idx] && states[idx].blockSize == pools[idx].blockSize
      ensures |layout.bufs| == POOL_COUNT && pools[idx].buffer == PoolBuffer(layout, idx)
    {
      assert PoolPlaced(idx) && PoolShows(states, heap.bytes, idx);
    }

    method FreeSmall(p: nat, size: nat)
      requires Valid() && p in st.user && st.user[p] == size && size <= SMALL_OBJ_LIMIT
      modifies this`st, heap, pools
      ensures Valid() && st == FreeNext(layout, old(st), p)
      ensures UsersSame(old(st).user, old(heap.bytes), heap.bytes, p)
      ensures page.Foreign() == old(page.Foreign()) && MapsSame(old(heap.bytes), heap.bytes, old(page.Foreign()))
    {
      hide MapsSame, Page.Context.InMemory, Page.Context.Foreign, InnerPlaced, Inv, Exact, PoolBuffer, FreeNext,
        AllPools, BuddyLinked, PoolModel.Free, Same, UsersSame, PoolIndex, Page.Context.Rest, Buddy.Context.Rest,
        Valid, Pool.SlotNumberOf, Page.Context.Valid, Buddy.Context.Valid, Holds, Pool.SlotHolds, Pow2;
      ghost var s, m := st, heap.bytes;
      var idx := PoolIndex(size);
      ValidParts();
      assert PoolPlaced(idx);
      SmallHeld(layout, s, p);
      FreeSlot(idx, p, size, s);
      SlotInBuffer(layout, s, m, heap.bytes, p);
      BufferChange(s, m, heap.bytes);
      UsersAfterSlot(layout, s, m, heap.bytes, p);
      FreeKeepsInv(layout, s, p);
      FreeKeepsExact(layout, s, p);
      st := FreeNext(layout, s, p);
      ValidParts();
    }

    method FreeMedium(p: nat, size: nat)
      requires Valid() && p in st.user && st.user[p] == size && SMALL_OBJ_LIMIT < size <= MEDIUM_OBJ_LIMIT
      modifies this`st, heap, buddy, buddy.freeLists, buddy.bitset
      ensures Valid() && st == FreeNext(layout, old(st), p)
      ensures UsersSame(old(st).user, old(heap.bytes), heap.bytes, p)
      ensures page.Foreign() == old(page.Foreign()) && MapsSame(old(heap.bytes), heap.bytes, old(page.Foreign()))
    {
      hide MapsSame, Page.Context.InMemory, Page.Context.Foreign, InnerPlaced, Inv, Exact, FreeNext, PoolBuffer,
        AllPools, FreeLists.Linked, BuddyRep.Chains, Same, UsersSame, PoolIndex, Page.Context.Rest,
        Buddy.Context.Rest, Valid, Page.Context.Valid, Buddy.Context.Valid, BuddyModel.Free, BuddyRep.Framed, SizeOf;
      ghost var s, m := st, heap.bytes;
      ValidParts();
      MediumHeld(layout, s, p);
      ghost var b := buddy.BlockOf(p, size);
      buddy.ValidParts();
      buddy.Free(p, size);
      buddy.ValidParts();
      BuddyRep.FramedLength(m, heap.bytes, buddy.buffer, BUDDY_ORDER, s.buddy.live.Keys - {b});
      FramedChange(s, m, heap.bytes, s.buddy.live.Keys - {b});
      BuddyChange(s, m, heap.bytes, s.buddy.live.Keys - {b});
      MediumOthers(layout, s, p);
      UsersAfterBlocks(layout, s, m, heap.bytes, s.buddy.live.Keys - {b}, p);
      FreeKeepsInv(layout, s, p);
      FreeKeepsExact(layout, s, p);
      st := FreeNext(layout, s, p);
      ValidParts();
    }

    /** A mapping goes back: no buddy list, pool or other user byte is disturbed. */
    method PageFree(p: nat, size: nat, ghost s: State)
      requires Placed() && Inv(layout, s) && s.page == page.live && s.buddy == buddy.St() && page.Valid()
      requires BuddyLinked(heap.bytes) && AllPools(s.pools, heap.bytes)
      requires p != NULL && p in s.page && s.page[p] == size && p !in layout.inner && layout.base in layout.inner
      modifies heap, os`maps, os`calls, page`live, page`count, page`entries
      ensures page.Valid() && page.live == s.page - {p}
      ensures os.calls == old(os.calls) + [Unmapped(p, Page.RoundUp(size, page.pageSize))]
      ensures BuddyLinked(heap.bytes) && AllPools(s.pools, heap.bytes) && |heap.bytes| == |old(heap.bytes)|
      ensures UsersSame(s.user, old(heap.bytes), heap.bytes, p)
      ensures page.Foreign() == old(page.Foreign()) && MapsSame(old(heap.bytes), heap.bytes, old(page.Foreign()))
    {
      hide InnerPlaced, Inv, AllPools, BuddyLinked, Same, UsersSame, Page.Context.Valid, Apart,
        MapsSame, PoolPlaced, Page.Context.Foreign;
      ghost var m, maps := heap.bytes, os.maps - {page.registryAddr};
      PageCovers(page);
      page.Free(p, size);
      UsersAfterPages(layout, s, m, heap.bytes, maps, p);
      OutsideChange(s, m, heap.bytes);
    }

    method FreeLarge(p: nat, size: nat)
      requires Valid() && p in st.user && st.user[p] == size && MEDIUM_OBJ_LIMIT < size
      modifies this`st, heap, os`maps, os`calls, page`live, page`count, page`entries
      ensures os.calls == old(os.calls) + [Unmapped(p, Page.RoundUp(size, page.pageSize))]
      ensures Valid() && st == FreeNext(layout, old(st), p)
      ensures UsersSame(old(st).user, old(heap.bytes), heap.bytes, p)
      ensures page.Foreign() == old(page.Foreign()) && MapsSame(old(heap.bytes), heap.bytes, old(page.Foreign()))
    {
      hide InnerPlaced, Inv, Exact, FreeNext, PoolBuffer, AllPools, BuddyLinked, Same, UsersSame, PoolIndex,
        Page.Context.Rest, Buddy.Context.Rest, Valid, Page.Context.Valid, Buddy.Context.Valid, MapsSame,
        Page.Context.InMemory, Page.Context.Foreign;
      ghost var s := st;
      ValidParts();
      LargeHeld(layout, s, p);
      page.ValidParts();
      PageFree(p, size, s);
      page.ValidParts();
      FreeKeepsInv(layout, s, p);
      FreeKeepsExact(layout, s, p);
      st := FreeNext(layout, s, p);
      ValidParts();
    }

    /** gen_alloc_fn */
    method Alloc(size: nat) returns (p: nat)
      requires Valid() && size < WORD
      modifies this`st, os, os.heap, page, buddy, buddy.freeLists, buddy.bitset, buddy.blockOrders, pools
      ensures Valid()
      ensures AllocNext(layout, old(st), size, p, st)
      ensures p != NULL ==> p !in old(st.user)
      ensures st.user == if p == NULL then old(st.user) else old(st.user)[p := size]
      ensures 0 < size <= MEDIUM_OBJ_LIMIT ==> (p == NULL <==> NoRoom(layout, old(st.user), size))
      ensures UsersSame(old(st).user, old(heap.bytes), heap.bytes, NULL)
      ensures os.refusals == old(os.refusals) + (if p == NULL && size > MEDIUM_OBJ_LIMIT then 1 else 0)
      ensures size <= MEDIUM_OBJ_LIMIT ==> os.calls == old(os.calls) && os.maps == old(os.maps)
      ensures size > MEDIUM_OBJ_LIMIT ==>
                page.AllocCalls(old(os.calls), os.calls, old(page.count == page.capacity), old(page.registryAddr),
                                old(page.capacity), page.registryAddr, page.capacity,
                                Page.RoundUp(size, page.pageSize), p)
      ensures page.Foreign() == old(page.Foreign()) && MapsSame(old(heap.bytes), heap.bytes, old(page.Foreign()))
    {
      hide InnerPlaced, Inv, Exact, Valid, PartsOk, MapsSame, Page.Context.Foreign, AllocNext, NoRoom;
      ghost var s := st;
      MapsSameRefl(heap.bytes, page.Foreign());
      ValidBasics();
      NothingAsked(layout, s);
      if size == 0 {
        return NULL;
      }
      if size <= SMALL_OBJ_LIMIT {
        p := AllocSmall(size);
      } else if size <= MEDIUM_OBJ_LIMIT {
        p := AllocMedium(size);
      } else {
        p := AllocLarge(size);
      }
      AllocKeepsInv(layout, s, size, p, st);
      if size <= MEDIUM_OBJ_LIMIT {
        AllocIsComplete(layout, s, size, p, st);
      }
    }

    /** The calls of the system that a free makes: the one munmap of a large allocation. */
    ghost function FreeCalls(p: nat, size: nat): seq<SysCall>
      requires page.pageSize > 0
    {
      if size <= MEDIUM_OBJ_LIMIT then [] else [Unmapped(p, Page.RoundUp(size, page.pageSize))]
    }

    /** gen_free_fn */
    method Free(p: nat, size: nat)
      requires Valid() && (p == NULL || (p in st.user && st.user[p] == size))
      modifies this`st, os`maps, os`calls, heap, page`live, page`count, page`entries, buddy, buddy.freeLists,
        buddy.bitset, pools
      ensures Valid()
      ensures st == if p == NULL then old(st) else FreeNext(layout, old(st), p)
      ensures st.user == old(st.user) - {p}
      ensures os.calls == old(os.calls) + if p == NULL then [] else FreeCalls(p, size)
      ensures UsersSame(old(st).user, old(heap.bytes), heap.bytes, p)
      ensures page.Foreign() == old(page.Foreign()) && MapsSame(old(heap.bytes), heap.bytes, old(page.Foreign()))
    {
      hide InnerPlaced, Inv, Exact, Valid, FreeNext, MapsSame, Page.Context.Foreign;
      MapsSameRefl(heap.bytes, page.Foreign());
      ValidBasics();
      UsersNotNull(layout, st);
      if p == NULL {
        return;
      }
      FreeKeepsInv(layout, st, p);
      if size <= SMALL_OBJ_LIMIT {
        FreeSmall(p, size);
      } else if size <= MEDIUM_OBJ_LIMIT {
        FreeMedium(p, size);
      } else {
        FreeLarge(p, size);
      }
    }

    /* --------------------------------------------------- payload, reallocation */

    /** A change inside a live allocation: it disturbs no list, and no other allocation. */
    lemma UserChange(s: State, m: seq<Byte>, m': seq<Byte>, q: nat)
      requires Placed() && Inv(layout, s) && s.buddy == buddy.St() && BuddyLinked(m) && AllPools(s.pools, m)
      requires q in s.user && |m'| == |m| && Same(m, m', 0, q) && Same(m, m', q + s.user[q], |m|)
      requires s.page == page.live && page.Rest(|m|) && page.InMemory(m)
      ensures BuddyLinked(m') && AllPools(s.pools, m') && UsersSame(s.user, m, m', q)
      ensures page.InMemory(m') && MapsSame(m, m', page.Foreign())
    {
      hide InnerPlaced, Inv, AllPools, BuddyLinked, PoolPlaced, UsersSame, Page.Context.Rest, Page.Context.InMemory,
        MapsSame, Page.Context.Foreign;
      var n := s.user[q];
      OtherUsersSame(layout, s, m, m', q);
      if n <= MEDIUM_OBJ_LIMIT {
        UserInBuffer(layout, s, q);
        Page.SameInside(m, m', q, n, layout.base, Pow2(BUDDY_ORDER));
        BufferChange(s, m, m');
      }
      if n <= SMALL_OBJ_LIMIT {
        SmallChange(s, m, m', q);
      } else if n <= MEDIUM_OBJ_LIMIT {
        MediumChange(s, m, m', q);
      } else {
        UserOutsideBuffer(layout, s, q);
        page.InsideChange(m, m', q);
        OutsideChange(s, m, m');
      }
    }

    lemma SmallChange(s: State, m: seq<Byte>, m': seq<Byte>, q: nat)
      requires Placed() && Inv(layout, s) && s.buddy == buddy.St() && BuddyLinked(m) && AllPools(s.pools, m)
      requires q in s.user && s.user[q] <= SMALL_OBJ_LIMIT
      requires |m'| == |m| && Same(m, m', 0, q) && Same(m, m', q + s.user[q], |m|)
      ensures BuddyLinked(m') && AllPools(s.pools, m')
    {
      hide InnerPlaced, Inv, AllPools, BuddyLinked, PoolPlaced, PoolIndex, PoolBuffer;
      InvParts(layout, s);
      SmallHeld(layout, s, q);
      SmallFits(layout, s, q);
      var i := PoolIndex(s.user[q]);
      SlotChange(s, m, m', i, Pool.SlotNumberOf(PoolBuffer(layout, i), POOL_SIZES[i], q));
    }

    lemma MediumChange(s: State, m: seq<Byte>, m': seq<Byte>, q: nat)
      requires Placed() && Inv(layout, s) && s.buddy == buddy.St() && BuddyLinked(m) && AllPools(s.pools, m)
      requires q in s.user && SMALL_OBJ_LIMIT < s.user[q] <= MEDIUM_OBJ_LIMIT
      requires |m'| == |m| && Same(m, m', 0, q) && Same(m, m', q + s.user[q], |m|)
      ensures BuddyLinked(m') && AllPools(s.pools, m')
    {
      hide InnerPlaced, Inv, PoolShows, BuddyLinked, PartsOk, FreeNext, BuddyModel.Free, PoolPlaced, SizeOf;
      InvParts(layout, s);
      MediumHeld(layout, s, q);
      MediumFits(layout, s, q);
      var b := Buddy.BlockFor(layout.base, BUDDY_ORDER, q, s.user[q]);
      BlockChange(s, m, m', b);
      forall i | 0 <= i < POOL_COUNT
        ensures PoolShows(s.pools, m', i)
      {
        assert layout.bufs[i] in layout.bufs;
      }
    }

    /** The caller stores data in a live allocation. */
    method WriteUser(q: nat, at: nat, data: seq<Byte>)
      requires Valid() && q in st.user && q <= at && at + |data| <= q + st.user[q] && at + |data| <= |heap.bytes|
      modifies heap
      ensures Valid() && heap.bytes == old(heap.bytes)[..at] + data + old(heap.bytes)[at + |data|..]
      ensures UsersSame(st.user, old(heap.bytes), heap.bytes, q)
      ensures page.Foreign() == old(page.Foreign()) && MapsSame(old(heap.bytes), heap.bytes, old(page.Foreign()))
    {
      hide InnerPlaced, Inv, Exact, Valid, BuddyLinked, AllPools, Page.Context.Rest, Buddy.Context.Rest, UsersSame,
        MapsSame, Page.Context.InMemory, Page.Context.Foreign;
      ValidParts();
      heap.Write(at, data);
      UserChange(st, old(heap.bytes), heap.bytes, q);
      ValidParts();
    }

    /** The part of gen_realloc_fn that moves an allocation between tiers: memcpy, then free. */
    method MoveAndFree(p: nat, oldSize: nat, q: nat, newSize: nat)
      requires Valid() && p in st.user && st.user[p] == oldSize && q in st.user && st.user[q] == newSize && p != q
      modifies this`st, os`maps, os`calls, heap, page`live, page`count, page`entries, buddy, buddy.freeLists,
        buddy.bitset, pools
      ensures Valid() && st == FreeNext(layout, old(st), p)
      ensures os.calls == old(os.calls) + FreeCalls(p, oldSize)
      ensures Copied(old(heap.bytes), heap.bytes, p, q, Min(oldSize, newSize))
      ensures UsersSame(old(st).user - {q}, old(heap.bytes), heap.bytes, p)
      ensures page.Foreign() == old(page.Foreign()) && MapsSame(old(heap.bytes), heap.bytes, old(page.Foreign()))
    {
      hide InnerPlaced, Inv, Exact, Valid, BuddyLinked, AllPools, Page.Context.Rest, Buddy.Context.Rest, UsersSame,
        FreeNext, Copied, Same, MapsSame, Page.Context.InMemory, Page.Context.Foreign;
      ghost var s, m := st, heap.bytes;
      ValidParts();
      UserInMemory(p);
      UserInMemory(q);
      UserNotNull(layout, s, p);
      LiveDisjoint(layout, s, p, q);
      var copySize := Min(oldSize, newSize);
      heap.Copy(q, p, copySize);
      ghost var m1 := heap.bytes;
      CopyInside(m, m1, p, q, copySize, newSize);
      UserChange(s, m, m1, q);
      ValidParts();
      Free(p, oldSize);
      MoveSame(s.user, m, m1, heap.bytes, p, q, copySize);
      MapsSameTrans(m, m1, heap.bytes, old(page.Foreign()));
    }

    method ReallocSlot(p: nat, oldSize: nat, newSize: nat) returns (q: nat)
      requires Valid() && p in st.user && st.user[p] == oldSize && oldSize != newSize
      requires oldSize <= SMALL_OBJ_LIMIT && 0 < newSize <= SMALL_OBJ_LIMIT && PoolIndex(oldSize) == PoolIndex(newSize)
      modifies this`st, pools
      ensures Valid() && ReallocNext(layout, old(st), p, newSize, q, st) && q == p
      ensures page.Foreign() == old(page.Foreign())
    {
      hide InnerPlaced, Inv, Exact, AllPools, BuddyLinked, PoolIndex, Page.Context.Rest, ReallocNext,
        Buddy.Context.Rest, Valid, Page.Context.Valid, Buddy.Context.Valid, PoolModel.Realloc, SlotResult,
        Pool.SlotNumberOf, PoolBuffer;
      ghost var s := st;
      ValidParts();
      var idx := PoolIndex(oldSize);
      assert PoolPlaced(idx);
      SmallHeld(layout, s, p);
      SlotAnswer(layout, s, p, newSize);
      q := PoolRealloc(idx, p, oldSize, newSize, s.pools);
      st := SlotResult(layout, s, p, newSize);
      ReallocKeepsInv(layout, s, p, newSize, p, st);
      ReallocKeepsExact(layout, s, p, newSize, p, st);
      ValidParts();
    }

    /** A pool resizes in place: nothing moves, and no other pool is called. */
    method PoolRealloc(idx: nat, p: nat, oldSize: nat, newSize: nat, ghost states: seq<PoolModel.State>)
      returns (q: nat)
      requires Placed() && idx < POOL_COUNT && AllPools(states, heap.bytes) && p != NULL
      requires Pool.SlotHolds(states[idx], pools[idx].buffer, p, oldSize) && newSize <= pools[idx].blockSize
      modifies pools
      ensures q == p && pools[idx].blockSize > 0 && pools[idx].buffer <= p
      ensures AllPools(states[idx := PoolModel.Realloc(states[idx], pools[idx].SlotOf(p), newSize)], heap.bytes)
    {
      hide PoolModel.Inv, Pool.Threaded, PoolModel.Realloc;
      assert PoolPlaced(idx) && PoolShows(states, heap.bytes, idx);
      label before:
      q := pools[idx].Realloc(p, oldSize, newSize);
      ghost var states' := states[idx := PoolModel.Realloc(states[idx], pools[idx].SlotOf(p), newSize)];
      forall i | 0 <= i < POOL_COUNT
        ensures PoolShows(states', heap.bytes, i)
      {
        if i != idx {
          assert old@before(PoolShows(states, heap.bytes, i));
        }
      }
    }

    method ReallocBlock(p: nat, oldSize: nat, newSize: nat) returns (q: nat)
      requires Valid() && p in st.user && st.user[p] == oldSize && oldSize != newSize
      requires SMALL_OBJ_LIMIT < oldSize <= MEDIUM_OBJ_LIMIT && SMALL_OBJ_LIMIT < newSize <= MEDIUM_OBJ_LIMIT
      modifies this`st, heap, buddy, buddy.freeLists, buddy.bitset, buddy.blockOrders
      ensures Valid() && ReallocNext(layout, old(st), p, newSize, q, st)
      ensures q != NULL ==> Copied(old(heap.bytes), heap.bytes, p, q, Min(oldSize, newSize))
      ensures q == NULL ==> heap.bytes == old(heap.bytes)
      ensures UsersSame(old(st).user, old(heap.bytes), heap.bytes, p)
      ensures page.Foreign() == old(page.Foreign()) && MapsSame(old(heap.bytes), heap.bytes, old(page.Foreign()))
    {
      hide MapsSame, Page.Context.InMemory, Page.Context.Foreign, InnerPlaced, Inv, Exact, ReallocNext, PoolBuffer,
        AllPools, FreeLists.Linked, BuddyRep.Chains, Same, UsersSame, PoolIndex, Copied, Page.Context.Rest,
        Buddy.Context.Rest, Valid, Page.Context.Valid, Buddy.Context.Valid, BuddyModel.Free, BuddyModel.Alloc,
        BuddyTheorems.Realloc, BuddyRep.Framed, SizeOf, BlockResult;
      ghost var s, m := st, heap.bytes;
      ValidParts();
      MediumHeld(layout, s, p);
      ghost var b := buddy.BlockOf(p, oldSize);
      buddy.ValidParts();
      q := buddy.Realloc(p, oldSize, newSize);
      buddy.ValidParts();
      BuddyRep.FramedLength(m, heap.bytes, buddy.buffer, BUDDY_ORDER, s.buddy.live.Keys - {b});
      FramedChange(s, m, heap.bytes, s.buddy.live.Keys - {b});
      BuddyChange(s, m, heap.bytes, s.buddy.live.Keys - {b});
      MediumOthers(layout, s, p);
      UsersAfterBlocks(layout, s, m, heap.bytes, s.buddy.live.Keys - {b}, p);
      BlockAnswer(layout, s, p, newSize, q, buddy.St());
      st := BlockResult(s, buddy.St(), p, newSize, q);
      ReallocKeepsInv(layout, s, p, newSize, q, st);
      ReallocKeepsExact(layout, s, p, newSize, q, st);
      ValidParts();
    }

    method ReallocMapping(p: nat, oldSize: nat, newSize: nat) returns (q: nat)
      requires Valid() && p in st.user && st.user[p] == oldSize && oldSize != newSize
      requires MEDIUM_OBJ_LIMIT < oldSize && MEDIUM_OBJ_LIMIT < newSize && newSize < WORD
      modifies this`st, os, os.heap, page
      ensures Valid() && ReallocNext(layout, old(st), p, newSize, q, st)
      ensures os.refusals == old(os.refusals) + (if q == NULL then 1 else 0)
      ensures Page.RoundUp(oldSize, page.pageSize) == Page.RoundUp(newSize, page.pageSize) ==>
                q == p && os.calls == old(os.calls) && os.maps == old(os.maps) && heap.bytes == old(heap.bytes)
      ensures Page.RoundUp(oldSize, page.pageSize) != Page.RoundUp(newSize, page.pageSize) ==>
                os.calls == old(os.calls) + [Remapped(p, Page.RoundUp(oldSize, page.pageSize),
                                                      Page.RoundUp(newSize, page.pageSize), q)]
      ensures q != NULL ==> Copied(old(heap.bytes), heap.bytes, p, q, Min(oldSize, newSize))
      ensures q == NULL ==> heap.bytes == old(heap.bytes)
      ensures UsersSame(old(st).user, old(heap.bytes), heap.bytes, p)
      ensures page.Foreign() == old(page.Foreign()) && MapsSame(old(heap.bytes), heap.bytes, old(page.Foreign()))
    {
      hide MapsSame, Page.Context.InMemory, Page.Context.Foreign, InnerPlaced, Inv, Exact, ReallocNext, PoolBuffer,
        AllPools, BuddyLinked, Same, UsersSame, PoolIndex, Copied, Page.Context.Rest, Buddy.Context.Rest, Valid,
        Page.Context.Valid, Buddy.Context.Valid, Apart;
      ghost var s := st;
      ValidParts();
      LargeHeld(layout, s, p);
      page.ValidParts();
      q := PageRealloc(p, oldSize, newSize, s);
      page.ValidParts();
      MappingAnswer(layout, s, p, newSize, q);
      st := if q == NULL then s else s.(page := (s.page - {p})[q := newSize], user := (s.user - {p})[q := newSize]);
      ReallocKeepsInv(layout, s, p, newSize, q, st);
      ReallocKeepsExact(layout, s, p, newSize, q, st);
      ValidParts();
    }

    /** A mapping is resized or moved: no buddy list, pool or other user byte is disturbed. */
    method PageRealloc(p: nat, oldSize: nat, newSize: nat, ghost s: State) returns (q: nat)
      requires Placed() && Inv(layout, s) && s.page == page.live && s.buddy == buddy.St() && page.Valid()
      requires BuddyLinked(heap.bytes) && AllPools(s.pools, heap.bytes) && newSize < WORD
      requires p != NULL && p in s.page && s.page[p] == oldSize && p !in layout.inner && layout.base in layout.inner
      modifies os, os.heap, page
      ensures page.Valid()
      ensures q == NULL ==> page.live == s.page && heap.bytes == old(heap.bytes)
      ensures q != NULL ==> q !in s.page - {p} && page.live == (s.page - {p})[q := newSize] && Apart(page.live)
      ensures q != NULL ==> Copied(old(heap.bytes), heap.bytes, p, q, Min(oldSize, newSize))
      ensures BuddyLinked(heap.bytes) && AllPools(s.pools, heap.bytes) && |heap.bytes| == |old(heap.bytes)|
      ensures UsersSame(s.user, old(heap.bytes), heap.bytes, p)
      ensures os.refusals == old(os.refusals) + (if q == NULL then 1 else 0)
      ensures Page.RoundUp(oldSize, page.pageSize) == Page.RoundUp(newSize, page.pageSize) ==>
                q == p && os.calls == old(os.calls) && os.maps == old(os.maps) && heap.bytes == old(heap.bytes)
      ensures Page.RoundUp(oldSize, page.pageSize) != Page.RoundUp(newSize, page.pageSize) ==>
                os.calls == old(os.calls) + [Remapped(p, Page.RoundUp(oldSize, page.pageSize),
                                                      Page.RoundUp(newSize, page.pageSize), q)]
      ensures page.Foreign() == old(page.Foreign()) && MapsSame(old(heap.bytes), heap.bytes, old(page.Foreign()))
    {
      hide InnerPlaced, Inv, AllPools, BuddyLinked, Same, UsersSame, Page.Context.Valid, Apart,
        MapsSame, PoolPlaced, Copied, Page.Context.Foreign;
      ghost var m, maps := heap.bytes, os.maps - {page.registryAddr, p};
      PageCovers(page);
      ghost var foreign := page.Foreign();
      q := page.Realloc(p, oldSize, newSize);
      MapsSameAmong(m, heap.bytes, maps, foreign);
      PageApart(page);
      UsersAfterPages(layout, s, m, heap.bytes, maps, p);
      OutsideChange(s, m, heap.bytes);
    }

    /** gen_realloc_fn across tiers or pools: allocate, copy, free. */
    method MoveAcross(p: nat, oldSize: nat, newSize: nat) returns (q: nat)
      requires Valid() && p in st.user && st.user[p] == oldSize && newSize > 0 && newSize < WORD
      modifies this`st, os, os.heap, page, buddy, buddy.freeLists, buddy.bitset, buddy.blockOrders, pools
      ensures Valid()
      ensures Inv(layout, old(st)) && Moves(layout, old(st), p, newSize, q, st)
      ensures q != NULL ==> Copied(old(heap.bytes), heap.bytes, p, q, Min(oldSize, newSize))
      ensures UsersSame(old(st).user, old(heap.bytes), heap.bytes, if q == NULL then NULL else p)
      ensures os.refusals == old(os.refusals) + (if q == NULL && newSize > MEDIUM_OBJ_LIMIT then 1 else 0)
      ensures newSize <= MEDIUM_OBJ_LIMIT ==>
                os.calls == old(os.calls) + if q == NULL then [] else FreeCalls(p, oldSize)
      ensures oldSize <= MEDIUM_OBJ_LIMIT < newSize ==>
                page.AllocCalls(old(os.calls), os.calls, old(page.count == page.capacity), old(page.registryAddr),
                                old(page.capacity), page.registryAddr, page.capacity,
                                Page.RoundUp(newSize, page.pageSize), q)
      ensures page.Foreign() == old(page.Foreign()) && MapsSame(old(heap.bytes), heap.bytes, old(page.Foreign()))
    {
      hide InnerPlaced, Inv, Exact, Valid, UsersSame, FreeNext, Copied, Same, AllocNext, MapsSame,
        Page.Context.Foreign;
      ghost var s, m := st, heap.bytes;
      ValidBasics();
      q := Alloc(newSize);
      ghost var s1, m1 := st, heap.bytes;
      AllocKeepsInv(layout, s, newSize, q, s1);
      if q == NULL {
        return NULL;
      }
      UserNotNull(layout, s, p);
      UsersNotNull(layout, s);
      MoveAndFree(p, oldSize, q, newSize);
      assert s1.user - {q} == s.user;
      MovedBytes(s.user, m, m1, heap.bytes, p, q, Min(oldSize, newSize));
      MapsSameTrans(m, m1, heap.bytes, old(page.Foreign()));
    }

    lemma ValidBasics()
      requires Valid()
      ensures heap == os.heap && Inv(layout, st) && Exact(layout, st) && layout.base > 0
      ensures |layout.bufs| == POOL_COUNT && page.pageSize > 0
    {
      hide Valid, AllPools, BuddyLinked, Page.Context.Valid, Page.Context.Rest, Buddy.Context.Rest;
      ValidParts();
      page.ValidParts();
      PageSizeKnown();
    }

    /** A resize that neither moves an allocation nor asks anybody: to the same size, within one pool's
        slots, or within the same pages. */
    ghost predicate StaysPut(oldSize: nat, newSize: nat)
      requires page.pageSize > 0
    {
      || oldSize == newSize
      || (oldSize <= SMALL_OBJ_LIMIT && newSize <= SMALL_OBJ_LIMIT && PoolIndex(oldSize) == PoolIndex(newSize))
      || (oldSize > MEDIUM_OBJ_LIMIT && newSize > MEDIUM_OBJ_LIMIT &&
          Page.RoundUp(oldSize, page.pageSize) == Page.RoundUp(newSize, page.pageSize))
    }

    /** gen_realloc_fn */
    method Realloc(p: nat, oldSize: nat, newSize: nat) returns (q: nat)
      requires Valid() && (p == NULL || (p in st.user && st.user[p] == oldSize)) && newSize < WORD
      modifies this`st, os, os.heap, page, buddy, buddy.freeLists, buddy.bitset, buddy.blockOrders, pools
      ensures Valid() && Inv(layout, old(st))
      ensures p == NULL ==> AllocNext(layout, old(st), newSize, q, st)
      ensures p != NULL && newSize == 0 ==> q == NULL && st == FreeNext(layout, old(st), p)
      ensures p != NULL && newSize > 0 ==> ReallocNext(layout, old(st), p, newSize, q, st)
      ensures q != NULL ==> q !in old(st.user) - {p} && st.user == (old(st.user) - {p})[q := newSize]
      ensures q == NULL ==> st.user == if newSize > 0 then old(st.user) else old(st.user) - {p}
      ensures 0 < newSize <= MEDIUM_OBJ_LIMIT && (p == NULL || !StaysPut(oldSize, newSize)) ==>
                (q == NULL <==> NoRoom(layout, old(st.user), newSize))
      ensures p != NULL && q != NULL ==> Copied(old(heap.bytes), heap.bytes, p, q, Min(oldSize, newSize))
      ensures UsersSame(old(st).user, old(heap.bytes), heap.bytes, if q == NULL && newSize > 0 then NULL else p)
      ensures os.refusals == old(os.refusals) + (if q == NULL && newSize > MEDIUM_OBJ_LIMIT then 1 else 0)
      ensures p != NULL && newSize > 0 && StaysPut(oldSize, newSize) ==>
                q == p && os.calls == old(os.calls) && os.maps == old(os.maps) && heap.bytes == old(heap.bytes)
      ensures p != NULL && oldSize > MEDIUM_OBJ_LIMIT && newSize > MEDIUM_OBJ_LIMIT && !StaysPut(oldSize, newSize) ==>
                os.calls == old(os.calls) + [Remapped(p, Page.RoundUp(oldSize, page.pageSize),
                                                      Page.RoundUp(newSize, page.pageSize), q)]
      ensures p != NULL && 0 < newSize <= MEDIUM_OBJ_LIMIT && !StaysPut(oldSize, newSize) ==>
                os.calls == old(os.calls) + if q == NULL then [] else FreeCalls(p, oldSize)
      ensures p != NULL && oldSize <= MEDIUM_OBJ_LIMIT < newSize ==>
                page.AllocCalls(old(os.calls), os.calls, old(page.count == page.capacity), old(page.registryAddr),
                                old(page.capacity), page.registryAddr, page.capacity,
                                Page.RoundUp(newSize, page.pageSize), q)
      ensures page.Foreign() == old(page.Foreign()) && MapsSame(old(heap.bytes), heap.bytes, old(page.Foreign()))
    {
      hide InnerPlaced, Inv, Exact, Valid, UsersSame, FreeNext, Copied, Same, AllocNext, Moves, ReallocNext, PartsOk,
        Holds, MapsSame, Page.Context.Foreign, NoRoom, PoolIndex;
      ghost var s := st;
      ValidBasics();
      MapsSameRefl(heap.bytes, page.Foreign());
      UsersNotNull(layout, s);
      if p == NULL {
        q := Alloc(newSize);
        return;
      }
      if newSize == 0 {
        Free(p, oldSize);
        return NULL;
      }
      UsersRefl(st.user, heap.bytes);
      UserIsHeld(layout, st, p);
      InPlace(p, oldSize, newSize);
      if oldSize == newSize {
        SameSize(layout, st, p);
        return p;
      }
      if oldSize <= SMALL_OBJ_LIMIT && newSize <= SMALL_OBJ_LIMIT && PoolIndex(oldSize) == PoolIndex(newSize) {
        q := ReallocSlot(p, oldSize, newSize);
      } else if SMALL_OBJ_LIMIT < oldSize <= MEDIUM_OBJ_LIMIT && SMALL_OBJ_LIMIT < newSize <= MEDIUM_OBJ_LIMIT {
        q := ReallocBlock(p, oldSize, newSize);
      } else if MEDIUM_OBJ_LIMIT < oldSize && MEDIUM_OBJ_LIMIT < newSize {
        q := ReallocMapping(p, oldSize, newSize);
      } else {
        q := MoveAcross(p, oldSize, newSize);
        MoveIsRealloc(layout, s, p, newSize, q, st);
      }
      ReallocKeepsInv(layout, s, p, newSize, q, st);
      if newSize <= MEDIUM_OBJ_LIMIT && !StaysPut(oldSize, newSize) {
        ReallocIsComplete(layout, s, p, newSize, q, st);
      }
    }

    lemma InPlace(p: nat, oldSize: nat, newSize: nat)
      requires Valid() && p in st.user && st.user[p] == oldSize
      ensures Copied(heap.bytes, heap.bytes, p, p, Min(oldSize, newSize))
    {
      hide Valid;
      UserInMemory(p);
    }

    /* ----------------------------------------------------- containment, destroy */

    /** gen_contains_fn: from the smallest tier to the largest. */
    method Contains(p: nat) returns (yes: bool)
      requires Valid()
      ensures page.pageSize > 0 && (yes <==> InMapping(page.live, page.pageSize, p))
      ensures (exists u :: u in st.user && u <= p < u + st.user[u]) ==> yes
    {
      hide InnerPlaced, Valid, Inv, Exact, AllPools, BuddyLinked, Page.Context.Valid, Page.Context.Rest,
        Buddy.Context.Rest, PoolPlaced, InMapping;
      ContainsBasics(p);
      for i := 0 to POOL_COUNT
      {
        if pools[i].Contains(p) {
          BufIsBlock(st, i);
          BufferInMapping(p);
          return true;
        }
      }
      if buddy.Contains(p) {
        BufferInMapping(p);
        return true;
      }
      yes := page.Contains(p);
      PagesShow(p, yes);
    }

    lemma PagesShow(p: nat, yes: bool)
      requires page.pageSize > 0
      requires yes <==> exists a :: a in page.live && a <= p < a + Page.RoundUp(page.live[a], page.pageSize)
      ensures yes <==> InMapping(page.live, page.pageSize, p)
    {
    }

    lemma ContainsBasics(p: nat)
      requires Valid()
      ensures Placed() && Inv(layout, st) && st.page == page.live && page.pageSize > 0 && page.Valid()
      ensures buddy.totalSize == Pow2(BUDDY_ORDER)
      ensures (exists u :: u in st.user && u <= p < u + st.user[u]) ==> InMapping(page.live, page.pageSize, p)
    {
      hide InnerPlaced, Valid, Inv, Exact, AllPools, BuddyLinked, Page.Context.Valid, Page.Context.Rest,
        Buddy.Context.Rest, PoolPlaced, InMapping;
      ValidParts();
      page.ValidParts();
      PageSizeKnown();
      BufferSize();
      if exists u :: u in st.user && u <= p < u + st.user[u] {
        UsersInMappings(p);
      }
    }

    lemma PageSizeKnown()
      requires page.Valid()
      ensures page.pageSize > 0
    {
    }

    lemma BufferSize()
      requires InnerPlaced()
      ensures buddy.totalSize == Pow2(BUDDY_ORDER)
    {
    }

    lemma UsersInMappings(p: nat)
      requires Placed() && Inv(layout, st) && st.page == page.live && page.Valid() && page.pageSize > 0
      requires exists u :: u in st.user && u <= p < u + st.user[u]
      ensures InMapping(page.live, page.pageSize, p)
    {
      hide InnerPlaced, Inv, PoolPlaced, Page.Context.Valid, Page.RoundUp, Page.Context.Foreign, InMapping;
      var u :| u in st.user && u <= p < u + st.user[u];
      if st.user[u] <= MEDIUM_OBJ_LIMIT {
        UserInBuffer(layout, st, u);
        BufferInMapping(p);
      } else {
        UserOutsideBuffer(layout, st, u);
        PageCovers(page);
        AllocationInMapping(page.live, page.pageSize, u, p);
      }
    }

    /** The buddy buffer lies in its mapping. */
    lemma BufferInMapping(p: nat)
      requires Placed() && Inv(layout, st) && st.page == page.live && page.Valid() && page.pageSize > 0
      requires layout.base <= p < layout.base + Pow2(BUDDY_ORDER)
      ensures InMapping(page.live, page.pageSize, p)
    {
      hide PoolsOk, BuddyOk, Routed, PoolPlaced, Page.Context.Valid, Page.RoundUp, Page.Context.Foreign, InMapping,
        Apart;
      PageCovers(page);
      AllocationInMapping(page.live, page.pageSize, layout.base, p);
    }

    /** Pool i's buffer is the live block that holds it. */
    lemma BufLive(live: map<Block, nat>, i: nat)
      requires Placed() && BufsOk(layout.bufs, live) && i < POOL_COUNT
      ensures pools[i].blockSize * pools[i].totalBlocks == POOL_BUFFER
      ensures Buddy.BlockHolds(live, layout.base, BUDDY_ORDER, pools[i].buffer, POOL_BUFFER)
      ensures Buddy.BlockFor(layout.base, BUDDY_ORDER, pools[i].buffer, POOL_BUFFER) == layout.bufs[i]
    {
      assert PoolPlaced(i);
      PoolBytes(i);
      PoolBufferLevel();
      assert layout.bufs[i] == Block(POOL_LEVEL, layout.bufs[i].index);
      hide SizeOf, PoolPlaced, BuddyModel.LevelOf;
      Buddy.OffsetToIndex(BUDDY_ORDER, layout.bufs[i]);
    }

    /** What a free of the buddy allocator keeps when nothing is known of the users any more. */
    lemma FreedBuffer(m: seq<Byte>, keep: set<Block>)
      requires Placed() && PageOk(layout, page.live) && page.Rest(|m|) && page.InMemory(m)
      requires BuddyRep.Framed(m, heap.bytes, buddy.buffer, BUDDY_ORDER, keep)
      ensures page.InMemory(heap.bytes) && MapsSame(m, heap.bytes, page.Foreign())
    {
      hide Page.Context.Rest, Page.Context.InMemory, MapsSame, PoolPlaced, Page.Context.Foreign;
      page.InsideChange(m, heap.bytes, layout.base);
    }

    /** The pools give their buffers back to the buddy allocator. */
    method DestroyPools()
      requires Placed() && buddy.Valid() && BufsOk(layout.bufs, buddy.live) && page.Valid() && PageOk(layout, page.live)
      modifies heap, buddy, buddy.freeLists, buddy.bitset
      ensures buddy.Valid() && page.Valid() && MapsSame(old(heap.bytes), heap.bytes, page.Foreign())
      ensures buddy.live == old(buddy.live) - set b | b in layout.bufs
    {
      hide Buddy.Context.Valid, BuddyRep.Framed, SizeOf, PoolPlaced, BuddyModel.Merge, Buddy.BlockHolds,
        Page.Context.Valid, MapsSame, Page.Context.Foreign, Page.Context.Rest, Page.Context.InMemory, PageOk;
      ghost var live := buddy.live;
      MapsSameRefl(heap.bytes, page.Foreign());
      for i := 0 to POOL_COUNT
        invariant buddy.Valid() && page.Valid() && MapsSame(old(heap.bytes), heap.bytes, page.Foreign())
        invariant buddy.live == live - Taken(layout.bufs, i)
      {
        BufLive(live, i);
        BufStillLive(layout.bufs, live, i, pools[i].buffer, layout.base);
        ghost var m := heap.bytes;
        page.ValidParts();
        buddy.Free(pools[i].buffer, pools[i].blockSize * pools[i].totalBlocks);
        BuddyRep.FramedLength(m, heap.bytes, buddy.buffer, BUDDY_ORDER, buddy.live.Keys);
        FreedBuffer(m, buddy.live.Keys);
        page.ValidParts();
        MapsSameTrans(old(heap.bytes), m, heap.bytes, page.Foreign());
      }
    }

    /** One allocation goes back to the page allocator. */
    method GiveBack(p: nat, size: nat, ghost m: seq<Byte>)
      requires heap == os.heap && page.os == os && page.Valid() && page.LiveAt(p, size)
      requires MapsSame(m, heap.bytes, page.Foreign())
      modifies heap, os`maps, os`calls, page`live, page`count, page`entries
      ensures page.Valid() && page.live == old(page.live) - {p}
      ensures page.Foreign() == old(page.Foreign()) && MapsSame(m, heap.bytes, page.Foreign())
    {
      hide Page.Context.Valid, MapsSame, Page.Context.Foreign, Page.RoundUp, Among;
      PageCovers(page);
      ghost var m1 := heap.bytes;
      page.Free(p, size);
      MapsSameTrans(m, m1, heap.bytes, page.Foreign());
    }

    /** The buddy allocator gives its buffer, list heads, bitset and levels back to the page allocator. */
    method DestroyBuddy()
      requires Placed() && InnerPlaced() && page.Valid() && forall a :: a in layout.inner ==>
                 page.LiveAt(a, layout.inner[a])
      modifies heap, os`maps, os`calls, page`live, page`count, page`entries
      ensures page.Valid() && page.Foreign() == old(page.Foreign())
      ensures MapsSame(old(heap.bytes), heap.bytes, page.Foreign())
    {
      hide Page.Context.Valid, PoolPlaced, Page.Others, InnerPlaced, MapsSame, Page.Context.Foreign;
      InnerEntries();
      MapsSameRefl(heap.bytes, page.Foreign());
      GiveBack(buddy.buffer, buddy.totalSize, old(heap.bytes));
      GiveBack(headsAddr, Buddy.HeadsBytes(buddy.totalSize), old(heap.bytes));
      GiveBack(bitsetAddr, Buddy.BitsetBytes(buddy.totalSize), old(heap.bytes));
      GiveBack(ordersAddr, Buddy.OrdersBytes(buddy.totalSize), old(heap.bytes));
    }

    /** The four addresses of the buddy allocator's memory, and their sizes. */
    lemma InnerEntries()
      requires InnerPlaced()
      ensures GetOrder(buddy.totalSize) == BUDDY_ORDER && GetOrder(32) == 5
      ensures buddy.buffer in layout.inner && layout.inner[buddy.buffer] == buddy.totalSize
      ensures headsAddr in layout.inner && layout.inner[headsAddr] == Buddy.HeadsBytes(buddy.totalSize)
      ensures bitsetAddr in layout.inner && layout.inner[bitsetAddr] == Buddy.BitsetBytes(buddy.totalSize)
      ensures ordersAddr in layout.inner && layout.inner[ordersAddr] == Buddy.OrdersBytes(buddy.totalSize)
      ensures buddy.buffer != headsAddr && buddy.buffer != bitsetAddr && buddy.buffer != ordersAddr
      ensures headsAddr != bitsetAddr && headsAddr != ordersAddr && bitsetAddr != ordersAddr
    {
      var s := [stateAddr, buddy.buffer, headsAddr, bitsetAddr, ordersAddr];
      assert s[1] != s[2] && s[1] != s[3] && s[1] != s[4] && s[2] != s[3] && s[2] != s[4] && s[3] != s[4];
      assert s[0] != s[1] && s[0] != s[2] && s[0] != s[3] && s[0] != s[4];
    }

    /** gen_destroy_fn: no mapping this allocator made is left. */
    method Destroy()
      requires Valid()
      modifies heap, os`maps, os`calls, page`live, page`count, page`entries, buddy, buddy.freeLists, buddy.bitset
      ensures os.Valid() && os.maps == old(page.Foreign()) && MapsSame(old(heap.bytes), heap.bytes, old(page.Foreign()))
    {
      hide InnerPlaced, Valid, Inv, Exact, AllPools, BuddyLinked, Page.Context.Rest, Buddy.Context.Rest, PoolPlaced,
        Page.Context.Valid, Buddy.Context.Valid, Page.Others, MapsSame, Page.Context.Foreign;
      ValidParts();
      page.ValidParts();
      BuddyValid();
      InnerLive();
      DestroyPools();
      ghost var m1 := heap.bytes;
      DestroyBuddy();
      MapsSameTrans(old(heap.bytes), m1, heap.bytes, old(page.Foreign()));
      page.Destroy();
    }

    lemma BuddyValid()
      requires Valid()
      ensures buddy.Valid() && BufsOk(layout.bufs, buddy.live)
    {
      hide PoolsOk, PageOk, AllPools;
    }

    lemma InnerLive()
      requires Inv(layout, st) && st.page == page.live
      ensures PageOk(layout, page.live) && forall a :: a in layout.inner ==> page.LiveAt(a, layout.inner[a])
    {
      hide PoolsOk, BuddyOk, Routed;
    }

    lemma UserInMemory(p: nat)
      requires Valid() && p in st.user
      ensures p + st.user[p] <= |heap.bytes|
    {
      hide PoolsOk, BuddyOk, AllPools, Holds;
      if st.user[p] <= MEDIUM_OBJ_LIMIT {
        UserInBuffer(layout, st, p);
      } else {
        UserOutsideBuffer(layout, st, p);
        PageCovers(page);
      }
    }
  }
}
