/** Building a general allocator: the success path, and the clean-up of a failed buddy construction. */
module GenMake {
  import opened Order
  import opened Memory
  import opened Sequences
  import opened BuddyTree
  import opened GenRouting
  import opened Os
  import opened GenModel
  import BuddyModel
  import BuddyTheorems
  import BuddyRep
  import FreeLists
  import Buddy
  import opened BuddyLife
  import Pool
  import PoolModel
  import Page
  import opened GenFacts
  import opened GenExact
  import Gen

  /** The last two allocations of make_buddy_allocator: both, or neither is left. */
  method MakeMaps(page: Page.Context, totalSize: nat) returns (ok: bool, bitset: nat, orders: nat)
    requires page.Valid() && totalSize >= 32 && Buddy.BitsetBytes(totalSize) < WORD
    requires Buddy.OrdersBytes(totalSize) < WORD
    modifies page, page.os, page.os.heap
    ensures page.Valid()
    ensures !ok ==> page.live == old(page.live)
    ensures ok ==> bitset !in old(page.live) && orders !in old(page.live) && bitset != orders &&
                   page.live ==
                   old(page.live)[bitset := Buddy.BitsetBytes(totalSize)][orders := Buddy.OrdersBytes(totalSize)]
    ensures page.Foreign() == old(page.Foreign()) &&
            MapsSame(old(page.os.heap.bytes), page.os.heap.bytes, old(page.Foreign()))
    ensures page.os.refusals == old(page.os.refusals) + (if ok then 0 else 1)
  {
    hide Page.Context.Valid, Page.Context.Foreign, Buddy.BitsetBytes, Buddy.OrdersBytes, MapsSame;
    ghost var live, m, foreign := page.live, page.os.heap.bytes, page.Foreign();
    SizesSmall(totalSize);
    ok, bitset, orders := false, NULL, NULL;
    bitset := page.Alloc(Buddy.BitsetBytes(totalSize));
    if bitset == NULL {
      return;
    }
    ghost var m1 := page.os.heap.bytes;
    orders := page.Alloc(Buddy.OrdersBytes(totalSize));
    MapsSameTrans(m, m1, page.os.heap.bytes, foreign);
    if orders == NULL {
      ghost var m2 := page.os.heap.bytes;
      page.Free(bitset, Buddy.BitsetBytes(totalSize));
      MapsSameTrans(m, m2, page.os.heap.bytes, foreign);
      assert page.live == live;
      return;
    }
    ok := true;
  }

  /** The child's part of make_buddy_allocator: all four allocations, or none of them is left. */
  method MakeBuddyMemory(page: Page.Context, totalSize: nat) returns (ok: bool, mem: BuddyMemory)
    requires page.Valid() && GetOrder(totalSize) + 1 >= GetOrder(32) && totalSize >= 32
    requires totalSize < WORD && Buddy.HeadsBytes(totalSize) < WORD
    modifies page, page.os, page.os.heap
    ensures page.Valid()
    ensures !ok ==> page.live == old(page.live)
    ensures ok ==> Distinct([mem.buffer, mem.heads, mem.bitset, mem.orders]) &&
                   mem.buffer !in old(page.live) && mem.heads !in old(page.live) &&
                   mem.bitset !in old(page.live) && mem.orders !in old(page.live) && mem.buffer != NULL &&
                   page.live == old(page.live) + Pieces(mem, totalSize)
    ensures page.Foreign() == old(page.Foreign()) &&
            MapsSame(old(page.os.heap.bytes), page.os.heap.bytes, old(page.Foreign()))
    ensures page.os.refusals == old(page.os.refusals) + (if ok then 0 else 1)
  {
    hide Page.Context.Valid, Page.Others, GetOrder, Buddy.HeadsBytes, Buddy.BitsetBytes, Buddy.OrdersBytes, MapsSame,
      Distinct,
      Pieces, Page.Context.Foreign;
    ghost var live, m, foreign := page.live, page.os.heap.bytes, page.Foreign();
    SizesSmall(totalSize);
    ok, mem := false, BuddyMemory(NULL, NULL, NULL, NULL);
    var buffer := page.Alloc(totalSize);
    if buffer == NULL {
      return;
    }
    ghost var m1 := page.os.heap.bytes;
    var heads := page.Alloc(Buddy.HeadsBytes(totalSize));
    ghost var m2 := page.os.heap.bytes;
    MapsSameTrans(m, m1, m2, foreign);
    if heads == NULL {
      page.Free(buffer, totalSize);
      MapsSameTrans(m, m2, page.os.heap.bytes, foreign);
      assert page.live == live;
      return;
    }
    var mapped, bitset, orders := MakeMaps(page, totalSize);
    ghost var m3 := page.os.heap.bytes;
    MapsSameTrans(m, m2, m3, foreign);
    if !mapped {
      page.Free(heads, Buddy.HeadsBytes(totalSize));
      ghost var m4 := page.os.heap.bytes;
      MapsSameTrans(m, m3, m4, foreign);
      page.Free(buffer, totalSize);
      MapsSameTrans(m, m4, page.os.heap.bytes, foreign);
      assert page.live == live;
      return;
    }
    ok, mem := true, BuddyMemory(buffer, heads, bitset, orders);
    Collected(live, mem, totalSize);
  }

  /* ------------------------------------------------------- the pools' buffers */

  /** The blocks handed out so far are all that is live in the buddy allocator. */
  ghost predicate OnlyBufs(bufs: seq<Block>, live: map<Block, nat>)
  {
    && (forall i :: 0 <= i < |bufs| ==> bufs[i] in live)
    && (forall i, j :: 0 <= i < j < |bufs| ==> bufs[i] != bufs[j])
    && (forall b :: b in live ==> b in bufs && b.level == POOL_LEVEL && live[b] == POOL_BUFFER)
  }

  /** A number below n that is not listed. */
  lemma {:induction false} Unused(s: seq<nat>, n: nat) returns (j: nat)
    requires |s| < n
    ensures j < n && j !in s
    decreases n
  {
    j := n - 1;
    if n - 1 in s {
      var k :| 0 <= k < |s| && s[k] == n - 1;
      j := Unused(s[..k] + s[k + 1..], n - 1);
      forall i | 0 <= i < |s|
        ensures s[i] != j
      {
        if i != k {
          assert (s[..k] + s[k + 1..])[if i < k then i else i - 1] == s[i];
        }
      }
    }
  }

  /** While fewer than eight buffers are out, the next one cannot fail. */
  lemma NextBufferFits(st: BuddyModel.State, bufs: seq<Block>)
    requires BuddyModel.Inv(st) && BuddyModel.MaxOrder(st.lists) == BUDDY_ORDER
    requires OnlyBufs(bufs, st.live) && |bufs| < POOL_COUNT
    ensures BuddyModel.Alloc(st, POOL_BUFFER).block.Some?
  {
    PoolBufferLevel();
    var j := Unused(seq(|bufs|, i requires 0 <= i < |bufs| => bufs[i].index), POOL_COUNT);
    IndexUnused(bufs, j);
    Pow2Values();
    forall b | b in st.live && b.level <= BUDDY_ORDER
      ensures DisjointBytes(BUDDY_ORDER, Block(POOL_LEVEL, j), b)
    {
      SameLevelDisjoint(j, b.index, SizeOf(BUDDY_ORDER, POOL_LEVEL));
    }
    assert !BuddyTheorems.RegionInUse(st, POOL_LEVEL, j);
    BuddyTheorems.AllocIsComplete(st, POOL_BUFFER);
  }

  lemma IndexUnused(bufs: seq<Block>, j: nat)
    requires j !in seq(|bufs|, i requires 0 <= i < |bufs| => bufs[i].index)
    ensures forall b :: b in bufs ==> b.index != j
  {
    var s := seq(|bufs|, i requires 0 <= i < |bufs| => bufs[i].index);
    forall b | b in bufs
      ensures b.index != j
    {
      var i :| 0 <= i < |bufs| && bufs[i] == b;
      assert s[i] == b.index;
    }
  }

  /** make_pool_allocator with the buddy allocator as its child: never out of memory here. */
  method AddPool(buddy: Buddy.Context, i: nat, ghost bufs: seq<Block>) returns (pool: Pool.Context, ghost b: Block)
    requires buddy.Valid() && buddy.maxOrder == BUDDY_ORDER && OnlyBufs(bufs, buddy.live) && |bufs| == i < POOL_COUNT
    modifies buddy.heap, buddy, buddy.freeLists, buddy.bitset, buddy.blockOrders
    ensures buddy.Valid() && OnlyBufs(bufs + [b], buddy.live) && b.level == POOL_LEVEL
    ensures fresh(pool) && pool.Valid() && pool.heap == buddy.heap
    ensures pool.buffer == buddy.buffer + Lo(BUDDY_ORDER, Block(POOL_LEVEL, b.index))
    ensures pool.blockSize == POOL_SIZES[i] && pool.totalBlocks == POOL_BLOCKS[i]
    ensures pool.st == PoolModel.Initial(POOL_BLOCKS[i], POOL_SIZES[i])
    ensures BuddyRep.Framed(old(buddy.heap.bytes), buddy.heap.bytes, buddy.buffer, BUDDY_ORDER, old(buddy.live.Keys))
  {
    hide Buddy.Context.Valid, BuddyRep.Framed, Pool.Context.Valid, PoolModel.Initial, SizeOf, OnlyBufs;
    ghost var live, m := buddy.live.Keys, buddy.heap.bytes;
    var buffer;
    buffer, b := AddBuffer(buddy, i, bufs);
    ghost var m1 := buddy.heap.bytes;
    pool := BuildPool(buddy, i, buffer, b);
    BuddyRep.FramedSubset(m1, buddy.heap.bytes, buddy.buffer, BUDDY_ORDER, buddy.live.Keys - {b}, live);
    BuddyRep.FramedTrans(m, m1, buddy.heap.bytes, buddy.buffer, BUDDY_ORDER, live);
  }

  /** The pool's buffer: a live block of its own. */
  method AddBuffer(buddy: Buddy.Context, i: nat, ghost bufs: seq<Block>) returns (buffer: nat, ghost b: Block)
    requires buddy.Valid() && buddy.maxOrder == BUDDY_ORDER && OnlyBufs(bufs, buddy.live) && |bufs| == i < POOL_COUNT
    modifies buddy.heap, buddy, buddy.freeLists, buddy.bitset, buddy.blockOrders
    ensures buddy.Valid() && OnlyBufs(bufs + [b], buddy.live) && b.level == POOL_LEVEL
    ensures b in buddy.live && b !in old(buddy.live) && old(buddy.live.Keys) <= buddy.live.Keys
    ensures buffer == buddy.buffer + Lo(BUDDY_ORDER, b) && buffer + POOL_BUFFER == buddy.buffer + Hi(BUDDY_ORDER, b)
    ensures BuddyRep.Framed(old(buddy.heap.bytes), buddy.heap.bytes, buddy.buffer, BUDDY_ORDER, old(buddy.live.Keys))
  {
    hide Buddy.Context.Valid, BuddyRep.Framed, SizeOf, BuddyModel.Alloc, OnlyBufs, Buddy.Context.AllocDone;
    ghost var st := buddy.St();
    BuddyInv(buddy);
    NextBufferFits(st, bufs);
    PoolBytes(i);
    buffer := buddy.Alloc(POOL_SIZES[i] * POOL_BLOCKS[i]);
    b := Granted(buddy, st, bufs, buffer);
  }

  /** The pool's slots are linked inside its block. */
  method BuildPool(buddy: Buddy.Context, i: nat, buffer: nat, ghost b: Block) returns (pool: Pool.Context)
    requires buddy.Valid() && buddy.maxOrder == BUDDY_ORDER && i < POOL_COUNT && b in buddy.live &&
             b.level == POOL_LEVEL
    requires buffer == buddy.buffer + Lo(BUDDY_ORDER, b) && buffer + POOL_BUFFER == buddy.buffer + Hi(BUDDY_ORDER, b)
    modifies buddy.heap
    ensures buddy.Valid() && fresh(pool) && pool.Valid() && pool.heap == buddy.heap && pool.buffer == buffer
    ensures pool.blockSize == POOL_SIZES[i] && pool.totalBlocks == POOL_BLOCKS[i]
    ensures pool.st == PoolModel.Initial(POOL_BLOCKS[i], POOL_SIZES[i])
    ensures BuddyRep.Framed(old(buddy.heap.bytes), buddy.heap.bytes, buddy.buffer, BUDDY_ORDER, buddy.live.Keys - {b})
  {
    hide Buddy.Context.Valid, BuddyRep.Framed, Pool.Context.Valid, PoolModel.Initial, SizeOf, FreeLists.Linked,
      BuddyRep.Chains,
      Lo, Hi, AlignUp8, BuddyRep.BitsAgree, BuddyModel.Inv, Buddy.OrdersAgree;
    ghost var m := buddy.heap.bytes;
    buddy.ValidParts();
    BuddyInv(buddy);
    BufferInMemory(buddy, b);
    PoolBytes(i);
    PoolAligned(i);
    pool := new Pool.Context(buddy.heap, buffer, POOL_SIZES[i], POOL_BLOCKS[i]);
    PoolBuilt(buddy, m, b);
    buddy.ValidParts();
  }

  lemma PoolAligned(i: nat)
    requires i < POOL_COUNT
    ensures AlignUp8(POOL_SIZES[i]) == POOL_SIZES[i] && POOL_SIZES[i] >= 8
  {
    PoolBytes(i);
  }

  lemma BuddyInv(buddy: Buddy.Context)
    requires buddy.Valid()
    ensures BuddyModel.Inv(buddy.St()) && BuddyModel.MaxOrder(buddy.lists) == buddy.maxOrder && buddy.buffer > 0
  {
    hide BuddyModel.Inv;
  }

  /** The block that was granted for a pool's buffer. */
  lemma Granted(buddy: Buddy.Context, st: BuddyModel.State, bufs: seq<Block>, buffer: nat) returns (b: Block)
    requires BuddyModel.Inv(st) && BuddyModel.MaxOrder(st.lists) == BUDDY_ORDER == buddy.maxOrder && buddy.buffer > 0
    requires OnlyBufs(bufs, st.live) && buddy.AllocDone(st, POOL_BUFFER, buddy.St(), buffer)
    requires BuddyModel.Alloc(st, POOL_BUFFER).block.Some?
    ensures b !in st.live && buddy.live == st.live[b := POOL_BUFFER] && b.level == POOL_LEVEL
    ensures OnlyBufs(bufs + [b], buddy.live)
    ensures buffer == buddy.buffer + Lo(BUDDY_ORDER, b) && buffer + POOL_BUFFER == buddy.buffer + Hi(BUDDY_ORDER, b)
  {
    hide BuddyModel.Inv, SizeOf, BuddyModel.Alloc;
    BuddyModel.AllocKeepsInv(st, POOL_BUFFER);
    PoolBufferLevel();
    b := BuddyModel.Alloc(st, POOL_BUFFER).block.value;
    assert forall x :: x in bufs ==> x in st.live;
  }

  lemma BufferInMemory(buddy: Buddy.Context, b: Block)
    requires buddy.Valid() && buddy.maxOrder == BUDDY_ORDER && b in buddy.live
    ensures b.level <= BUDDY_ORDER && buddy.buffer + Hi(BUDDY_ORDER, b) <= |buddy.heap.bytes| <= WORD
  {
    hide BuddyRep.BitsAgree, FreeLists.Linked;
    assert b in BuddyModel.FreeSet(buddy.lists) + buddy.live.Keys;
    InTreeBytes(BUDDY_ORDER, b, |buddy.lists| - 1);
  }

  /** The pool's own writes stay inside its block. */
  lemma PoolBuilt(buddy: Buddy.Context, m: seq<Byte>, b: Block)
    requires |m| == |buddy.heap.bytes| && b.level <= BUDDY_ORDER == buddy.maxOrder && |buddy.lists| > 0
    requires BuddyModel.Inv(buddy.St()) && BuddyModel.MaxOrder(buddy.lists) == BUDDY_ORDER && b in buddy.live
    requires FreeLists.Linked(m, buddy.freeLists[..], BuddyRep.Chains(buddy.buffer, buddy.lists))
    requires Same(m, buddy.heap.bytes, 0, buddy.buffer + Lo(BUDDY_ORDER, b))
    requires Same(m, buddy.heap.bytes, buddy.buffer + Hi(BUDDY_ORDER, b), |m|)
    ensures FreeLists.Linked(buddy.heap.bytes, buddy.freeLists[..], BuddyRep.Chains(buddy.buffer, buddy.lists))
    ensures BuddyRep.Framed(m, buddy.heap.bytes, buddy.buffer, BUDDY_ORDER, buddy.live.Keys - {b})
  {
    hide BuddyModel.Inv, FreeLists.Linked, BuddyRep.Chains, SizeOf, BuddyRep.Framed;
    Buddy.PayloadKeepsLinks(m, buddy.heap.bytes, buddy.freeLists[..], buddy.buffer, buddy.St(), b);
    Buddy.PayloadFramed(m, buddy.heap.bytes, buddy.buffer, buddy.St(), b);
  }

  /* ------------------------------------------------------------ the eight pools */

  /** A pool just built in block b, over the memory m. */
  ghost predicate Built(buddy: Buddy.Context, pool: Pool.Context, b: Block, i: nat, m: seq<Byte>)
    requires i < POOL_COUNT
    reads pool
  {
    && pool.heap == buddy.heap && pool.buffer == buddy.buffer + Lo(BUDDY_ORDER, Block(POOL_LEVEL, b.index))
    && b.level == POOL_LEVEL && pool.blockSize == POOL_SIZES[i] && pool.totalBlocks == POOL_BLOCKS[i]
    && pool.st == PoolModel.Initial(POOL_BLOCKS[i], POOL_SIZES[i])
    && pool.Shape() && pool.Links(m)
  }
  lemma StillBuilt(buddy: Buddy.Context, pool: Pool.Context, b: Block, i: nat, m: seq<Byte>, m': seq<Byte>,
                   keep: set<Block>)
    requires i < POOL_COUNT && Built(buddy, pool, b, i, m) && b in keep
    requires BuddyRep.Framed(m, m', buddy.buffer, BUDDY_ORDER, keep)
    ensures Built(buddy, pool, b, i, m')
  {
    hide PoolModel.Inv, PoolModel.Initial;
    assert BuddyRep.BlockSame(m, m', buddy.buffer, BUDDY_ORDER, b);
    PoolBytes(i);
    PoolBufferLevel();
    assert b == Block(POOL_LEVEL, b.index);
    pool.LinksFrame(m, m');
  }

  ghost predicate AllBuilt(buddy: Buddy.Context, pools: seq<Pool.Context>, bufs: seq<Block>, m: seq<Byte>)
    reads pools
  {
    && |pools| == |bufs| <= POOL_COUNT
    && forall k :: 0 <= k < |pools| ==> Built(buddy, pools[k], bufs[k], k, m)
  }

  /** The loop of make_gen_allocator: every pool gets a block of its own. */
  method MakePools(buddy: Buddy.Context) returns (pools: seq<Pool.Context>, ghost bufs: seq<Block>)
    requires buddy.Valid() && buddy.maxOrder == BUDDY_ORDER && buddy.live == map[]
    modifies buddy.heap, buddy, buddy.freeLists, buddy.bitset, buddy.blockOrders
    ensures buddy.Valid() && |pools| == POOL_COUNT && AllBuilt(buddy, pools, bufs, buddy.heap.bytes)
    ensures OnlyBufs(bufs, buddy.live)
    ensures forall i, j :: 0 <= i < j < POOL_COUNT ==> pools[i] != pools[j]
    ensures forall pool :: pool in pools ==> fresh(pool)
    ensures BuddyRep.Framed(old(buddy.heap.bytes), buddy.heap.bytes, buddy.buffer, BUDDY_ORDER, {})
  {
    hide Buddy.Context.Valid, BuddyRep.Framed, Built, SizeOf;
    pools, bufs := [], [];
    FramedRefl(buddy.heap.bytes, buddy);
    for i := 0 to POOL_COUNT
      invariant buddy.Valid() && |pools| == i && AllBuilt(buddy, pools, bufs, buddy.heap.bytes)
      invariant OnlyBufs(bufs, buddy.live)
      invariant forall j, k :: 0 <= j < k < i ==> pools[j] != pools[k]
      invariant forall pool :: pool in pools ==> fresh(pool)
      invariant BuddyRep.Framed(old(buddy.heap.bytes), buddy.heap.bytes, buddy.buffer, BUDDY_ORDER, {})
    {
      var pool;
      ghost var b;
      ghost var m := buddy.heap.bytes;
      pool, b := NextPool(buddy, i, pools, bufs);
      BuddyRep.FramedTrans(old(buddy.heap.bytes), m, buddy.heap.bytes, buddy.buffer, BUDDY_ORDER, {});
      assert pool !in pools;
      pools, bufs := pools + [pool], bufs + [b];
    }
  }

  /** One round of the loop: the pools built before are not disturbed. */
  method NextPool(buddy: Buddy.Context, i: nat, pools: seq<Pool.Context>, ghost bufs: seq<Block>)
    returns (pool: Pool.Context, ghost b: Block)
    requires buddy.Valid() && buddy.maxOrder == BUDDY_ORDER && OnlyBufs(bufs, buddy.live)
    requires |pools| == i < POOL_COUNT && AllBuilt(buddy, pools, bufs, buddy.heap.bytes)
    modifies buddy.heap, buddy, buddy.freeLists, buddy.bitset, buddy.blockOrders
    ensures buddy.Valid() && fresh(pool) && OnlyBufs(bufs + [b], buddy.live)
    ensures AllBuilt(buddy, pools + [pool], bufs + [b], buddy.heap.bytes)
    ensures BuddyRep.Framed(old(buddy.heap.bytes), buddy.heap.bytes, buddy.buffer, BUDDY_ORDER, {})
  {
    hide Buddy.Context.Valid, BuddyRep.Framed, SizeOf, PoolModel.Inv, PoolModel.Initial;
    ghost var m, keep := buddy.heap.bytes, buddy.live.Keys;
    assert forall k :: 0 <= k < |bufs| ==> bufs[k] in keep;
    pool, b := AddPool(buddy, i, bufs);
    ghost var m', pools', bufs' := buddy.heap.bytes, pools + [pool], bufs + [b];
    forall k | 0 <= k < |pools'|
      ensures Built(buddy, pools'[k], bufs'[k], k, m')
    {
      if k < i {
        assert Built(buddy, pools[k], bufs[k], k, m);
        StillBuilt(buddy, pools[k], bufs[k], k, m, m', keep);
      }
    }
    BuddyRep.FramedSubset(m, m', buddy.buffer, BUDDY_ORDER, keep, {});
  }

  lemma FramedRefl(m: seq<Byte>, buddy: Buddy.Context)
    requires buddy.Valid() && buddy.maxOrder == BUDDY_ORDER && m == buddy.heap.bytes
    ensures BuddyRep.Framed(m, m, buddy.buffer, BUDDY_ORDER, {})
  {
    hide BuddyRep.BitsAgree, FreeLists.Linked, BuddyModel.Inv;
  }

  /* ---------------------------------------------------------- make_gen_allocator */

  ghost function LayoutOf(mem: BuddyMemory, stateAddr: nat, bufs: seq<Block>): Layout
  {
    Layout(mem.buffer, bufs, map[stateAddr := GEN_STATE_BYTES] + Pieces(mem, Pow2(BUDDY_ORDER)))
  }

  ghost function InitialPools(): seq<PoolModel.State>
  {
    seq(POOL_COUNT, i requires 0 <= i < POOL_COUNT => PoolModel.Initial(POOL_BLOCKS[i], POOL_SIZES[i]))
  }

  /** The addresses of the allocator's own memory, and nothing else, are live in the page allocator. */
  ghost predicate OwnMemory(page: Page.Context, stateAddr: nat, mem: BuddyMemory)
    reads page
  {
    && GetOrder(Pow2(BUDDY_ORDER)) == BUDDY_ORDER && GetOrder(32) == 5 && mem.buffer != NULL
    && Distinct([stateAddr, mem.buffer, mem.heads, mem.bitset, mem.orders])
    && page.live == map[stateAddr := GEN_STATE_BYTES] + Pieces(mem, Pow2(BUDDY_ORDER))
  }

  lemma Orders()
    ensures GetOrder(Pow2(BUDDY_ORDER)) == BUDDY_ORDER && GetOrder(32) == 5 && Pow2(BUDDY_ORDER) == 16 * 1024 * 1024
  {
    Pow2Values();
    GetOrderOfPow2(BUDDY_ORDER);
    GetOrderOfPow2(5);
  }

  lemma MemoryFits(os: Kernel, page: Page.Context, stateAddr: nat, mem: BuddyMemory)
    requires page.Valid() && page.os == os && OwnMemory(page, stateAddr, mem)
    ensures 0 < mem.buffer && mem.buffer + Pow2(BUDDY_ORDER) <= |os.heap.bytes| <= WORD
  {
    OwnEntries(page, stateAddr, mem);
    PageCovers(page);
    hide OwnMemory;
  }

  /** Writes inside the buffer, where no block is live yet. */
  lemma BufferFramed(m: seq<Byte>, m': seq<Byte>, buffer: nat)
    requires |m'| == |m| && Same(m, m', 0, buffer) && Same(m, m', buffer + Pow2(BUDDY_ORDER), |m|)
    ensures BuddyRep.Framed(m, m', buffer, BUDDY_ORDER, {})
  {
  }

  lemma OwnEntries(page: Page.Context, stateAddr: nat, mem: BuddyMemory)
    requires OwnMemory(page, stateAddr, mem)
    ensures mem.buffer in page.live && page.live[mem.buffer] == Pow2(BUDDY_ORDER)
  {
    var s := [stateAddr, mem.buffer, mem.heads, mem.bitset, mem.orders];
    assert s[1] != s[2] && s[1] != s[3] && s[1] != s[4] && s[0] != s[1];
  }

  /** Everything past the four buddy allocations: no step can fail. */
  method MakeFrom(os: Kernel, page: Page.Context, stateAddr: nat, mem: BuddyMemory) returns (g: Gen.Context)
    requires page.Valid() && page.os == os && OwnMemory(page, stateAddr, mem)
    modifies os.heap
    ensures fresh(g) && g.Valid() && g.os == os && g.page == page && g.st.user == map[]
    ensures fresh(g.buddy) && fresh(g.buddy.freeLists) && fresh(g.buddy.bitset) && fresh(g.buddy.blockOrders)
    ensures forall pool :: pool in g.pools ==> fresh(pool)
    ensures MapsSame(old(os.heap.bytes), os.heap.bytes, page.Foreign())
  {
    hide Page.Context.Valid, Buddy.Context.Valid, OwnMemory, Gen.Context.Valid, AllBuilt, Page.Context.Rest,
      OnlyBufs, InitialPools,
      Pieces, Pow2, GetOrder, Page.Context.InMemory, Page.Context.Foreign, MapsSame, BuddyRep.Framed;
    ghost var m := os.heap.bytes;
    page.ValidParts();
    Orders();
    MemoryFits(os, page, stateAddr, mem);
    var buddy := MakeBuddy(os.heap, mem.buffer, 16 * 1024 * 1024);
    BufferFramed(m, os.heap.bytes, mem.buffer);
    var pools;
    ghost var bufs;
    ghost var m1 := os.heap.bytes;
    pools, bufs := MakePools(buddy);
    BuddyRep.FramedTrans(m, m1, os.heap.bytes, mem.buffer, BUDDY_ORDER, {});
    BufferBuilt(page, stateAddr, mem, m, os.heap.bytes);
    page.ValidParts();
    ghost var layout := LayoutOf(mem, stateAddr, bufs);
    ghost var st := State(InitialPools(), buddy.St(), page.live, map[]);
    g := new Gen.Context(os, page, buddy, pools, stateAddr, mem.heads, mem.bitset, mem.orders, layout, st);
    Assembled(g, mem, bufs);
  }

  /** The page allocator under the writes of construction. */
  lemma BufferBuilt(page: Page.Context, stateAddr: nat, mem: BuddyMemory, m: seq<Byte>, m': seq<Byte>)
    requires page.Rest(|m|) && page.InMemory(m) && OwnMemory(page, stateAddr, mem)
    requires BuddyRep.Framed(m, m', mem.buffer, BUDDY_ORDER, {})
    ensures |m'| == |m| && page.InMemory(m') && MapsSame(m, m', page.Foreign())
  {
    hide Page.Context.Rest, Page.Context.InMemory, Page.Context.Foreign, MapsSame;
    OwnEntries(page, stateAddr, mem);
    hide OwnMemory;
    page.InsideChange(m, m', mem.buffer);
  }

  lemma Assembled(g: Gen.Context, mem: BuddyMemory, bufs: seq<Block>)
    requires g.page.Valid() && g.buddy.Valid() && g.page.os == g.os && g.heap == g.os.heap == g.buddy.heap
    requires OwnMemory(g.page, g.stateAddr, mem) && g.buddy.buffer == mem.buffer && g.buddy.maxOrder == BUDDY_ORDER
    requires g.headsAddr == mem.heads && g.bitsetAddr == mem.bitset && g.ordersAddr == mem.orders
    requires g.buddy.totalSize == Pow2(BUDDY_ORDER) && |g.pools| == POOL_COUNT
    requires AllBuilt(g.buddy, g.pools, bufs, g.heap.bytes) && OnlyBufs(bufs, g.buddy.live)
    requires forall i, j :: 0 <= i < j < POOL_COUNT ==> g.pools[i] != g.pools[j]
    requires g.layout == LayoutOf(mem, g.stateAddr, bufs)
    requires g.st == State(InitialPools(), g.buddy.St(), g.page.live, map[])
    ensures g.Valid()
  {
    hide OwnMemory, AllBuilt, OnlyBufs, Gen.Context.Placed, Gen.Context.InnerPlaced, GenModel.Inv, Exact,
      Page.Context.Valid, Buddy.Context.Valid, Gen.Context.AllPools, InitialPools, Pieces, Pow2;
    OwnPlaced(g, mem);
    PoolsPlaced(g, mem, bufs);
    PoolsShown(g, bufs);
    FirstInv(g, mem, bufs);
    FirstExact(g.layout, g.st);
  }

  lemma OwnPlaced(g: Gen.Context, mem: BuddyMemory)
    requires OwnMemory(g.page, g.stateAddr, mem) && g.buddy.buffer == mem.buffer
    requires g.headsAddr == mem.heads && g.bitsetAddr == mem.bitset && g.ordersAddr == mem.orders
    requires g.buddy.totalSize == Pow2(BUDDY_ORDER)
    requires g.layout.inner == map[g.stateAddr := GEN_STATE_BYTES] + Pieces(mem, Pow2(BUDDY_ORDER))
    ensures g.InnerPlaced() && g.layout.inner == g.page.live && mem.buffer != NULL
    ensures mem.buffer in g.page.live && g.page.live[mem.buffer] == Pow2(BUDDY_ORDER)
  {
    hide Buddy.HeadsBytes, Buddy.BitsetBytes, Buddy.OrdersBytes, Distinct, Pow2, GetOrder;
    OwnEntries(g.page, g.stateAddr, mem);
  }

  lemma PoolsPlaced(g: Gen.Context, mem: BuddyMemory, bufs: seq<Block>)
    requires g.page.os == g.os && g.heap == g.os.heap == g.buddy.heap && mem.buffer != NULL
    requires g.buddy.buffer == mem.buffer && g.buddy.maxOrder == BUDDY_ORDER && |g.pools| == POOL_COUNT
    requires AllBuilt(g.buddy, g.pools, bufs, g.heap.bytes)
    requires forall i, j :: 0 <= i < j < POOL_COUNT ==> g.pools[i] != g.pools[j]
    requires g.layout.base == mem.buffer && g.layout.bufs == bufs
    ensures g.Placed()
  {
    hide Lo, PoolModel.Inv, PoolModel.Initial;
    forall i | 0 <= i < POOL_COUNT
      ensures g.PoolPlaced(i)
    {
      assert Built(g.buddy, g.pools[i], bufs[i], i, g.heap.bytes);
    }
  }

  lemma PoolsShown(g: Gen.Context, bufs: seq<Block>)
    requires |g.pools| == POOL_COUNT && AllBuilt(g.buddy, g.pools, bufs, g.heap.bytes)
    ensures g.AllPools(InitialPools(), g.heap.bytes) && |bufs| == POOL_COUNT
  {
    hide Lo, PoolModel.Inv, PoolModel.Initial;
    forall i | 0 <= i < POOL_COUNT
      ensures g.PoolShows(InitialPools(), g.heap.bytes, i)
    {
      assert Built(g.buddy, g.pools[i], bufs[i], i, g.heap.bytes);
    }
  }

  /** The first state of the model satisfies its invariant. */
  lemma FirstInv(g: Gen.Context, mem: BuddyMemory, bufs: seq<Block>)
    requires g.page.Valid() && g.buddy.Valid() && g.buddy.maxOrder == BUDDY_ORDER && g.buddy.buffer == mem.buffer
    requires g.layout == LayoutOf(mem, g.stateAddr, bufs) && g.layout.inner == g.page.live
    requires mem.buffer in g.page.live && g.page.live[mem.buffer] == Pow2(BUDDY_ORDER)
    requires OnlyBufs(bufs, g.buddy.live) && AllBuilt(g.buddy, g.pools, bufs, g.heap.bytes) && |g.pools| == POOL_COUNT
    requires g.st == State(InitialPools(), g.buddy.St(), g.page.live, map[])
    ensures GenModel.Inv(g.layout, g.st)
  {
    hide Page.Context.Valid, Buddy.Context.Valid, BuddyModel.Inv, Apart;
    BuddyInv(g.buddy);
    PageApart(g.page);
    FirstPools();
    assert |bufs| == POOL_COUNT;
    FirstBufs(bufs, g.buddy.live);
  }

  lemma FirstBufs(bufs: seq<Block>, live: map<Block, nat>)
    requires OnlyBufs(bufs, live) && |bufs| == POOL_COUNT
    ensures BufsOk(bufs, live)
  {
  }

  /** Nothing is held but the pools' buffers and the allocator's own memory. */
  lemma FirstExact(l: Layout, s: State)
    requires s.pools == InitialPools() && |l.bufs| == POOL_COUNT && OnlyBufs(l.bufs, s.buddy.live) && s.page == l.inner
    ensures Exact(l, s)
  {
    hide SlotUsed, BlockUsed, PageUsed;
  }

  lemma FirstPools()
    ensures PoolsOk(InitialPools())
  {
    forall i | 0 <= i < POOL_COUNT
      ensures PoolOk(InitialPools()[i], i)
    {
      PoolModel.InitialInv(POOL_BLOCKS[i], POOL_SIZES[i]);
    }
  }

  /** make_gen_allocator: a general allocator with nothing allocated, or out of memory. Past the buddy
      allocator's own memory nothing can fail. When that memory is refused, left is the page allocator
      as it is before the clean-up of that case: only the general allocator's state is live in it. */
  method Make(os: Kernel) returns (g: Gen.Context?, left: Page.Context?)
    requires os.Valid()
    modifies os, os.heap
    ensures os.refusals == old(os.refusals) + (if g == null then 1 else 0)
    ensures MapsSame(old(os.heap.bytes), os.heap.bytes, old(os.maps))
    ensures g == null && left == null ==> os.Valid() && os.maps == old(os.maps)
    ensures g == null && left != null ==>
              fresh(left) && left.os == os && left.Valid() && left.Foreign() == old(os.maps) &&
                                          exists a :: left.live == map[a := GEN_STATE_BYTES]
    ensures g != null ==> left == null && fresh(g) && g.Valid() && g.os == os && g.st.user == map[] &&
                          g.page.Foreign() == old(os.maps)
    ensures g != null ==> fresh(g.page) && fresh(g.buddy) && fresh(g.buddy.freeLists) &&
                          fresh(g.buddy.bitset) && fresh(g.buddy.blockOrders) &&
                          forall pool :: pool in g.pools ==> fresh(pool)
  {
    hide Page.Context.Valid, Gen.Context.Valid, Buddy.HeadsBytes, Buddy.BitsetBytes, Buddy.OrdersBytes, MapsSame,
      Page.Others, Pow2,
      Page.Context.Foreign, MapsOk;
    ghost var m, maps := os.heap.bytes, os.maps;
    Orders();
    Sizes();
    Pow2Word();
    left := null;
    var page := Page.Context.Make(os);
    if page == null {
      return null, null;
    }
    ghost var m1 := os.heap.bytes;
    var stateAddr := page.Alloc(GEN_STATE_BYTES);
    ghost var m2 := os.heap.bytes;
    MapsSameTrans(m, m1, m2, maps);
    if stateAddr == NULL {
      page.Destroy();
      return null, null;
    }
    assert page.live == map[stateAddr := GEN_STATE_BYTES];
    var totalSize := Buddy.RoundUpSize(16 * 1024 * 1024);
    var ok, mem := MakeBuddyMemory(page, totalSize);
    ghost var m3 := os.heap.bytes;
    MapsSameTrans(m, m2, m3, maps);
    if !ok {
      return null, page;
    }
    AllDistinct(stateAddr, mem);
    g := MakeFrom(os, page, stateAddr, mem);
    MapsSameTrans(m, m3, os.heap.bytes, maps);
  }

  lemma Sizes()
    ensures GetOrder(16 * 1024 * 1024) == BUDDY_ORDER && GetOrder(32) == 5
    ensures 16 * 1024 * 1024 < WORD && GEN_STATE_BYTES < WORD
    ensures Buddy.HeadsBytes(16 * 1024 * 1024) < WORD
  {
    Orders();
    Pow2Values();
    Pow2Word();
  }

  lemma AllDistinct(stateAddr: nat, mem: BuddyMemory)
    requires Distinct([mem.buffer, mem.heads, mem.bitset, mem.orders])
    requires stateAddr != mem.buffer && stateAddr != mem.heads && stateAddr != mem.bitset && stateAddr != mem.orders
    ensures Distinct([stateAddr, mem.buffer, mem.heads, mem.bitset, mem.orders])
  {
    var t := [mem.buffer, mem.heads, mem.bitset, mem.orders];
    var s := [stateAddr, mem.buffer, mem.heads, mem.bitset, mem.orders];
    forall i, j | 0 <= i < j < 5
      ensures s[i] != s[j]
    {
      if i > 0 {
        assert t[i - 1] != t[j - 1];
      }
    }
  }
}
