/** The general allocator on values: eight pools inside live blocks of a buddy allocator,
    whose buffer is itself a live mapping of a page allocator. */
module GenModel {
  import opened Order
  import opened Memory
  import opened BuddyTree
  import opened GenRouting
  import opened Os
  import BuddyModel
  import BuddyTheorems
  import Buddy
  import PoolModel
  import Pool

  const BUDDY_ORDER: nat := 24
  const POOL_BUFFER: nat := 0x1_0000
  const POOL_LEVEL: nat := 8

  /** base is the address of the buddy buffer, bufs are the blocks that hold the pools' buffers,
      and inner the page allocations the allocator made for itself, with their sizes, base among them. */
  datatype Layout = Layout(base: nat, bufs: seq<Block>, inner: map<nat, nat>)

  /** user maps the address of each live allocation to its size. */
  datatype State = State(pools: seq<PoolModel.State>, buddy: BuddyModel.State, page: map<nat, nat>, user: map<nat, nat>)

  /* -------------------------------------------------------------- invariant */

  ghost predicate PoolsOk(pools: seq<PoolModel.State>)
  {
    && |pools| == POOL_COUNT
    && forall i :: 0 <= i < POOL_COUNT ==> PoolOk(pools[i], i)
  }

  ghost predicate PoolOk(st: PoolModel.State, i: int)
    requires 0 <= i < POOL_COUNT
  {
    PoolModel.Inv(st) && st.blockSize == POOL_SIZES[i] && st.total == POOL_BLOCKS[i]
  }

  /** Every pool buffer is a live buddy block of its own. */
  ghost predicate BufsOk(bufs: seq<Block>, live: map<Block, nat>)
  {
    && |bufs| == POOL_COUNT
    && (forall i :: 0 <= i < POOL_COUNT ==>
          bufs[i] in live && live[bufs[i]] == POOL_BUFFER && bufs[i].level == POOL_LEVEL)
    && (forall i, j :: 0 <= i < j < POOL_COUNT ==> bufs[i] != bufs[j])
  }

  ghost predicate BuddyOk(l: Layout, st: BuddyModel.State)
  {
    && BuddyModel.Inv(st) && BuddyModel.MaxOrder(st.lists) == BUDDY_ORDER
    && BufsOk(l.bufs, st.live)
  }

  /** Page allocations that share no byte. */
  ghost predicate Apart(page: map<nat, nat>)
  {
    && (forall a :: a in page ==> 0 < a && 0 < page[a])
    && (forall a, b :: a in page && b in page && a != b ==> Disjoint(a, page[a], b, page[b]))
  }

  /** The page allocations share no byte, and the allocator's own are live. */
  ghost predicate PageOk(l: Layout, page: map<nat, nat>)
  {
    && Apart(page)
    && (forall a :: a in l.inner ==> a in page && page[a] == l.inner[a])
    && l.base in l.inner && l.inner[l.base] == Pow2(BUDDY_ORDER)
  }

  ghost predicate PartsOk(l: Layout, s: State)
  {
    |l.bufs| == POOL_COUNT && PoolsOk(s.pools) && BuddyOk(l, s.buddy) && PageOk(l, s.page)
  }

  function PoolBuffer(l: Layout, i: nat): nat
    requires i < |l.bufs|
  {
    l.base + Lo(BUDDY_ORDER, Block(POOL_LEVEL, l.bufs[i].index))
  }

  /** The allocation at p is held by the tier, and the pool, that the size n routes to. */
  ghost predicate Holds(l: Layout, s: State, p: nat, n: nat)
  {
    if n <= SMALL_OBJ_LIMIT then
      var i := PoolIndex(n);
      i < |l.bufs| && i < |s.pools| && Pool.SlotHolds(s.pools[i], PoolBuffer(l, i), p, n)
    else if n <= MEDIUM_OBJ_LIMIT then
      Buddy.BlockHolds(s.buddy.live, l.base, BUDDY_ORDER, p, n) &&
      Buddy.BlockFor(l.base, BUDDY_ORDER, p, n) !in l.bufs
    else
      p in s.page && s.page[p] == n && p !in l.inner
  }

  ghost predicate Routed(l: Layout, s: State)
  {
    forall p :: p in s.user ==> 0 < s.user[p] && Holds(l, s, p, s.user[p])
  }

  ghost predicate Inv(l: Layout, s: State)
  {
    PartsOk(l, s) && Routed(l, s)
  }

  /* ---------------------------------------------------------------- regions */

  /** The buddy block that a small or medium allocation lies in. */
  ghost function Home(l: Layout, p: nat, n: nat): Block
    requires n <= SMALL_OBJ_LIMIT ==> |l.bufs| == POOL_COUNT
    requires n > SMALL_OBJ_LIMIT ==> l.base <= p && 0 <= BuddyModel.LevelOf(BUDDY_ORDER, n)
  {
    if n <= SMALL_OBJ_LIMIT then l.bufs[PoolIndex(n)] else Buddy.BlockFor(l.base, BUDDY_ORDER, p, n)
  }

  ghost predicate InBlock(l: Layout, b: Block, p: nat, n: nat)
  {
    && b.level <= BUDDY_ORDER
    && l.base + Lo(BUDDY_ORDER, b) <= p && p + n <= l.base + Hi(BUDDY_ORDER, b)
  }

  lemma BuddyBlock(l: Layout, st: BuddyModel.State, b: Block)
    requires BuddyOk(l, st) && b in st.live
    ensures b.level <= BUDDY_ORDER && Hi(BUDDY_ORDER, b) <= Pow2(BUDDY_ORDER)
    ensures 0 < st.live[b] <= SizeOf(BUDDY_ORDER, b.level)
  {
    assert b in BuddyModel.FreeSet(st.lists) + st.live.Keys;
    InTreeBytes(BUDDY_ORDER, b, |st.lists| - 1);
    BuddyTheorems.BlockFits(BUDDY_ORDER, st.live[b]);
  }

  lemma BuddyBlocksApart(l: Layout, st: BuddyModel.State, a: Block, b: Block)
    requires BuddyOk(l, st) && a in st.live && b in st.live && a != b
    ensures a.level <= BUDDY_ORDER && b.level <= BUDDY_ORDER && DisjointBytes(BUDDY_ORDER, a, b)
  {
    var t := BuddyModel.FreeSet(st.lists) + st.live.Keys;
    assert a in t && b in t;
    DisjointBlocks(BUDDY_ORDER, a, b);
  }

  lemma PoolBufferSize()
    ensures SizeOf(BUDDY_ORDER, POOL_LEVEL) == POOL_BUFFER
  {
    Pow2Values();
  }

  /** A small allocation lies in its slot, and the slot in its pool's buffer block. */
  lemma SlotInBlock(l: Layout, s: State, i: nat, k: nat)
    requires PartsOk(l, s) && i < POOL_COUNT && k < POOL_BLOCKS[i]
    ensures InBlock(l, l.bufs[i], Pool.SlotAt(PoolBuffer(l, i), POOL_SIZES[i], k), POOL_SIZES[i])
  {
    hide PoolsOk, PageOk, BuddyModel.Inv;
    PoolBytes(i);
    PoolBufferSize();
    Pool.SlotInside(PoolBuffer(l, i), POOL_SIZES[i], POOL_BLOCKS[i], k);
    assert l.bufs[i] == Block(POOL_LEVEL, l.bufs[i].index);
  }

  lemma HomeFacts(l: Layout, s: State, p: nat, n: nat)
    requires PartsOk(l, s) && 0 < n <= MEDIUM_OBJ_LIMIT && Holds(l, s, p, n)
    ensures n > SMALL_OBJ_LIMIT ==> l.base <= p && 0 <= BuddyModel.LevelOf(BUDDY_ORDER, n)
    ensures Home(l, p, n) in s.buddy.live && InBlock(l, Home(l, p, n), p, n)
    ensures Home(l, p, n) in l.bufs <==> n <= SMALL_OBJ_LIMIT
  {
    hide PageOk, BuddyModel.Inv, SizeOf;
    if n <= SMALL_OBJ_LIMIT {
      var i := PoolIndex(n);
      PoolIndexIsBestFit(n);
      assert PoolOk(s.pools[i], i);
      SlotInBlock(l, s, i, Pool.SlotNumberOf(PoolBuffer(l, i), POOL_SIZES[i], p));
    } else {
      BuddyBlock(l, s.buddy, Home(l, p, n));
    }
  }

  /** Live allocations share no byte: pools with pools, pools with blocks, and both with mappings. */
  lemma LiveDisjoint(l: Layout, s: State, p: nat, q: nat)
    requires Inv(l, s) && p in s.user && q in s.user && p != q
    ensures Disjoint(p, s.user[p], q, s.user[q])
  {
    hide Holds, PoolsOk, BuddyOk;
    var n, k := s.user[p], s.user[q];
    assert Holds(l, s, p, n) && Holds(l, s, q, k);
    if n <= MEDIUM_OBJ_LIMIT && k <= MEDIUM_OBJ_LIMIT {
      BlockAllocationsDisjoint(l, s, p, q);
    } else if n <= MEDIUM_OBJ_LIMIT {
      BlockAndMappingDisjoint(l, s, p, n, q, k);
    } else if k <= MEDIUM_OBJ_LIMIT {
      BlockAndMappingDisjoint(l, s, q, k, p, n);
    } else {
      MappingHeld(l, s, p, n);
      MappingHeld(l, s, q, k);
    }
  }

  lemma MappingHeld(l: Layout, s: State, p: nat, n: nat)
    requires Holds(l, s, p, n) && n > MEDIUM_OBJ_LIMIT
    ensures p in s.page && s.page[p] == n && p !in l.inner
  {
  }

  lemma BlockAndMappingDisjoint(l: Layout, s: State, p: nat, n: nat, q: nat, k: nat)
    requires PartsOk(l, s) && 0 < n <= MEDIUM_OBJ_LIMIT < k && Holds(l, s, p, n) && Holds(l, s, q, k)
    ensures Disjoint(p, n, q, k) && p != q
  {
    HomeFacts(l, s, p, n);
    MappingHeld(l, s, q, k);
    hide Holds, PoolsOk;
    BuddyBlock(l, s.buddy, Home(l, p, n));
    assert Disjoint(l.base, s.page[l.base], q, s.page[q]);
  }

  lemma BlockAllocationsDisjoint(l: Layout, s: State, p: nat, q: nat)
    requires Inv(l, s) && p in s.user && q in s.user && p != q
    requires s.user[p] <= MEDIUM_OBJ_LIMIT && s.user[q] <= MEDIUM_OBJ_LIMIT
    ensures Disjoint(p, s.user[p], q, s.user[q])
  {
    var n, k := s.user[p], s.user[q];
    assert Holds(l, s, p, n) && Holds(l, s, q, k);
    HomeFacts(l, s, p, n);
    HomeFacts(l, s, q, k);
    if Home(l, p, n) != Home(l, q, k) {
      hide Holds, PoolsOk, PageOk, Home, BuddyOk;
      BuddyBlocksApart(l, s.buddy, Home(l, p, n), Home(l, q, k));
    } else {
      SameHome(l, s, p, n, q, k);
    }
  }

  /** Two allocations of one block: they are in one pool, and in slots of their own. */
  lemma SameHome(l: Layout, s: State, p: nat, n: nat, q: nat, k: nat)
    requires PartsOk(l, s) && 0 < n <= MEDIUM_OBJ_LIMIT && 0 < k <= MEDIUM_OBJ_LIMIT && p != q
    requires Holds(l, s, p, n) && Holds(l, s, q, k)
    requires n > SMALL_OBJ_LIMIT ==> l.base <= p && 0 <= BuddyModel.LevelOf(BUDDY_ORDER, n)
    requires k > SMALL_OBJ_LIMIT ==> l.base <= q && 0 <= BuddyModel.LevelOf(BUDDY_ORDER, k)
    requires Home(l, p, n) == Home(l, q, k) && (n <= SMALL_OBJ_LIMIT <==> k <= SMALL_OBJ_LIMIT)
    ensures n <= SMALL_OBJ_LIMIT && PoolIndex(n) == PoolIndex(k) && Disjoint(p, n, q, k)
  {
    hide PageOk, BuddyModel.Inv, SizeOf;
    if n <= SMALL_OBJ_LIMIT {
      var i := PoolIndex(n);
      assert i == PoolIndex(k);
      PoolIndexIsBestFit(n);
      PoolIndexIsBestFit(k);
      assert PoolOk(s.pools[i], i);
      var buffer := PoolBuffer(l, i);
      Pool.SlotsApart(buffer, POOL_SIZES[i], POOL_BLOCKS[i],
                      Pool.SlotNumberOf(buffer, POOL_SIZES[i], p), Pool.SlotNumberOf(buffer, POOL_SIZES[i], q));
    }
  }

  /* --------------------------------------------------- what a call may change */

  /** Two sizes held at one address are the same size. */
  lemma HeldOnce(l: Layout, s: State, p: nat, n: nat, k: nat)
    requires PartsOk(l, s) && 0 < n && 0 < k && Holds(l, s, p, n) && Holds(l, s, p, k)
    ensures n == k
  {
    if n <= MEDIUM_OBJ_LIMIT && k <= MEDIUM_OBJ_LIMIT {
      HomeFacts(l, s, p, n);
      HomeFacts(l, s, p, k);
      OneHome(l, s.buddy, Home(l, p, n), Home(l, p, k), p, n, k);
      hide PageOk, PoolsOk, BuddyOk, SizeOf;
    } else if n <= MEDIUM_OBJ_LIMIT {
      BlockAndMappingDisjoint(l, s, p, n, p, k);
    } else if k <= MEDIUM_OBJ_LIMIT {
      BlockAndMappingDisjoint(l, s, p, k, p, n);
    }
  }

  lemma OneHome(l: Layout, st: BuddyModel.State, a: Block, b: Block, p: nat, n: nat, k: nat)
    requires BuddyOk(l, st) && a in st.live && b in st.live
    requires InBlock(l, a, p, n) && InBlock(l, b, p, k) && n > 0 && k > 0
    ensures a == b
  {
    if a != b {
      BuddyBlocksApart(l, st, a, b);
    }
  }

  /** Whatever s holds at an address other than p, s' holds too. */
  ghost predicate Keeps(l: Layout, s: State, s': State, p: nat)
  {
    forall q, n :: q != p && Holds(l, s, q, n) ==> Holds(l, s', q, n)
  }

  ghost predicate Grows(l: Layout, s: State, s': State)
  {
    forall q, n :: Holds(l, s, q, n) ==> Holds(l, s', q, n)
  }

  /** A tier that starts to hold (p, size) and goes on holding the rest serves a new allocation. */
  lemma AddUser(l: Layout, s: State, s': State, p: nat, size: nat)
    requires Inv(l, s) && PartsOk(l, s') && s'.user == s.user && Grows(l, s, s')
    requires 0 < size && Holds(l, s', p, size) && !Holds(l, s, p, size)
    ensures p !in s.user && Inv(l, s'.(user := s.user[p := size]))
  {
    hide PartsOk, Holds;
    SameParts(l, s', s'.(user := s.user[p := size]));
    if p in s.user {
      HeldOnce(l, s', p, s.user[p], size);
    }
  }

  lemma DropUser(l: Layout, s: State, s': State, p: nat)
    requires Inv(l, s) && PartsOk(l, s') && s'.user == s.user && Keeps(l, s, s', p)
    ensures Inv(l, s'.(user := s.user - {p}))
  {
    hide PartsOk;
    SameParts(l, s', s'.(user := s.user - {p}));
  }

  /** Holding does not depend on the user map. */
  lemma SameParts(l: Layout, s: State, s': State)
    requires s'.pools == s.pools && s'.buddy == s.buddy && s'.page == s.page
    ensures PartsOk(l, s) <==> PartsOk(l, s')
    ensures forall p, n :: Holds(l, s', p, n) <==> Holds(l, s, p, n)
  {
  }

  /* ------------------------------------------------------------- pool steps */

  ghost function SetPool(s: State, i: nat, st: PoolModel.State): State
    requires i < |s.pools|
  {
    s.(pools := s.pools[i := st])
  }

  lemma PoolAllocStep(l: Layout, s: State, size: nat)
    requires PartsOk(l, s) && 0 < size <= SMALL_OBJ_LIMIT
    requires PoolModel.Alloc(s.pools[PoolIndex(size)], size).1.Slot?
    ensures var i := PoolIndex(size);
            var (st, r) := PoolModel.Alloc(s.pools[i], size);
            var s', p := SetPool(s, i, st), Pool.SlotAt(PoolBuffer(l, i), POOL_SIZES[i], r.k);
            PartsOk(l, s') && Grows(l, s, s') && Holds(l, s', p, size) && !Holds(l, s, p, size)
  {
    hide BuddyOk, PageOk, PoolModel.Inv, PoolBuffer;
    var i := PoolIndex(size);
    assert PoolOk(s.pools[i], i);
    PoolModel.AllocKeepsInv(s.pools[i], size);
    PoolBytes(i);
    Pool.SlotNumber(PoolBuffer(l, i), POOL_SIZES[i], PoolModel.Alloc(s.pools[i], size).1.k);
  }

  lemma PoolFreeStep(l: Layout, s: State, p: nat, n: nat)
    requires PartsOk(l, s) && 0 < n <= SMALL_OBJ_LIMIT && Holds(l, s, p, n)
    ensures var i := PoolIndex(n);
            var s' := SetPool(s, i, PoolModel.Free(s.pools[i], Pool.SlotNumberOf(PoolBuffer(l, i), POOL_SIZES[i], p)));
            PartsOk(l, s') && Keeps(l, s, s', p)
  {
    hide BuddyOk, PageOk, PoolModel.Inv, PoolBuffer;
    var i := PoolIndex(n);
    assert PoolOk(s.pools[i], i);
    PoolModel.FreeKeepsInv(s.pools[i], Pool.SlotNumberOf(PoolBuffer(l, i), POOL_SIZES[i], p));
  }

  /** A pool's own realloc never fails here: both sizes route to it, so the new one fits. */
  lemma PoolReallocStep(l: Layout, s: State, p: nat, n: nat, newSize: nat)
    requires PartsOk(l, s) && 0 < n <= SMALL_OBJ_LIMIT && Holds(l, s, p, n)
    requires 0 < newSize <= SMALL_OBJ_LIMIT && PoolIndex(newSize) == PoolIndex(n)
    ensures var i := PoolIndex(n);
            var k := Pool.SlotNumberOf(PoolBuffer(l, i), POOL_SIZES[i], p);
            var s' := SetPool(s, i, PoolModel.Realloc(s.pools[i], k, newSize));
            newSize <= POOL_SIZES[i] && PartsOk(l, s') && Keeps(l, s, s', p) && Holds(l, s', p, newSize)
  {
    hide BuddyOk, PageOk, PoolModel.Inv, PoolBuffer;
    var i := PoolIndex(n);
    assert PoolOk(s.pools[i], i);
    PoolIndexIsBestFit(newSize);
    PoolModel.ReallocKeepsInv(s.pools[i], Pool.SlotNumberOf(PoolBuffer(l, i), POOL_SIZES[i], p), newSize);
  }

  /* ------------------------------------------------------------ buddy steps */

  lemma BuddyAllocStep(l: Layout, s: State, size: nat)
    requires PartsOk(l, s) && SMALL_OBJ_LIMIT < size <= MEDIUM_OBJ_LIMIT
    requires BuddyModel.Alloc(s.buddy, size).block.Some?
    ensures var r := BuddyModel.Alloc(s.buddy, size);
            var b, s' := r.block.value, s.(buddy := r.st);
            b.level <= BUDDY_ORDER && PartsOk(l, s') && Grows(l, s, s') &&
            Holds(l, s', l.base + Lo(BUDDY_ORDER, b), size) && !Holds(l, s, l.base + Lo(BUDDY_ORDER, b), size)
  {
    hide PoolsOk, PageOk, BuddyModel.Inv, SizeOf, BuddyModel.Alloc;
    var r := BuddyModel.Alloc(s.buddy, size);
    var b := r.block.value;
    BuddyModel.AllocKeepsInv(s.buddy, size);
    LevelInOrder(size);
    Buddy.OffsetToIndex(BUDDY_ORDER, b);
  }

  lemma LevelInOrder(size: nat)
    ensures BuddyModel.LevelOf(BUDDY_ORDER, size) <= BUDDY_ORDER
  {
  }

  lemma BuddyFreeStep(l: Layout, s: State, p: nat, n: nat)
    requires PartsOk(l, s) && SMALL_OBJ_LIMIT < n <= MEDIUM_OBJ_LIMIT && Holds(l, s, p, n)
    ensures var b := Buddy.BlockFor(l.base, BUDDY_ORDER, p, n);
            b.level < |s.buddy.lists| && b.level <= BUDDY_ORDER &&
            var s' := s.(buddy := BuddyModel.Free(s.buddy, b));
            PartsOk(l, s') && Keeps(l, s, s', p)
  {
    hide PoolsOk, PageOk, BuddyModel.Inv, SizeOf, BuddyModel.Merge;
    BuddyModel.FreeKeepsInv(s.buddy, Buddy.BlockFor(l.base, BUDDY_ORDER, p, n));
  }

  /* ------------------------------------------------------------- page steps */

  lemma PageAllocStep(l: Layout, s: State, p: nat, size: nat)
    requires PartsOk(l, s) && MEDIUM_OBJ_LIMIT < size && p !in s.page && Apart(s.page[p := size])
    ensures var s' := s.(page := s.page[p := size]);
            PartsOk(l, s') && Grows(l, s, s') && Holds(l, s', p, size) && !Holds(l, s, p, size)
  {
    hide PoolsOk, BuddyOk;
  }

  lemma PageFreeStep(l: Layout, s: State, p: nat, n: nat)
    requires PartsOk(l, s) && MEDIUM_OBJ_LIMIT < n && Holds(l, s, p, n)
    ensures var s' := s.(page := s.page - {p});
            PartsOk(l, s') && Keeps(l, s, s', p)
  {
    hide PoolsOk, BuddyOk;
  }

  /* ------------------------------------------------------------- operations */

  /** gen_alloc_fn: the size picks the tier, and the tier answers. */
  ghost predicate AllocNext(l: Layout, s: State, size: nat, p: nat, s': State)
    requires PartsOk(l, s)
  {
    if size == 0 then
      p == NULL && s' == s
    else if size <= SMALL_OBJ_LIMIT then
      var i := PoolIndex(size);
      var (st, r) := PoolModel.Alloc(s.pools[i], size);
      match r {
        case Failed => p == NULL && s' == s
        case Slot(k) =>
          p == Pool.SlotAt(PoolBuffer(l, i), POOL_SIZES[i], k) &&
          s' == SetPool(s, i, st).(user := s.user[p := size])
      }
    else if size <= MEDIUM_OBJ_LIMIT then
      var r := BuddyModel.Alloc(s.buddy, size);
      match r.block {
        case None => p == NULL && s' == s
        case Some(b) =>
          b.level <= BUDDY_ORDER && p == l.base + Lo(BUDDY_ORDER, b) &&
          s' == s.(buddy := r.st, user := s.user[p := size])
      }
    else
      || (p == NULL && s' == s)
      || (p != NULL && p !in s.page && Apart(s.page[p := size]) &&
          s' == s.(page := s.page[p := size], user := s.user[p := size]))
  }

  /** gen_free_fn: the size leads back to the tier that holds the allocation. */
  ghost function FreeNext(l: Layout, s: State, p: nat): State
    requires Inv(l, s) && p in s.user
  {
    var n := s.user[p];
    assert Holds(l, s, p, n);
    if n <= SMALL_OBJ_LIMIT then
      var i := PoolIndex(n);
      assert PoolOk(s.pools[i], i);
      var k := Pool.SlotNumberOf(PoolBuffer(l, i), POOL_SIZES[i], p);
      SetPool(s, i, PoolModel.Free(s.pools[i], k)).(user := s.user - {p})
    else if n <= MEDIUM_OBJ_LIMIT then
      BuddyFreeStep(l, s, p, n);
      s.(buddy := BuddyModel.Free(s.buddy, Buddy.BlockFor(l.base, BUDDY_ORDER, p, n)), user := s.user - {p})
    else
      s.(page := s.page - {p}, user := s.user - {p})
  }

  /** gen_realloc_fn for a live allocation and a new size that is not zero. */
  ghost predicate ReallocNext(l: Layout, s: State, p: nat, newSize: nat, q: nat, s': State)
    requires Inv(l, s) && p in s.user && newSize > 0
  {
    var n := s.user[p];
    assert Holds(l, s, p, n);
    if n == newSize then
      q == p && s' == s
    else if n <= SMALL_OBJ_LIMIT && newSize <= SMALL_OBJ_LIMIT && PoolIndex(n) == PoolIndex(newSize) then
      var i := PoolIndex(n);
      assert PoolOk(s.pools[i], i);
      var k := Pool.SlotNumberOf(PoolBuffer(l, i), POOL_SIZES[i], p);
      q == p && s' == SetPool(s, i, PoolModel.Realloc(s.pools[i], k, newSize)).(user := s.user[p := newSize])
    else if n > MEDIUM_OBJ_LIMIT && newSize > MEDIUM_OBJ_LIMIT then
      || (q == NULL && s' == s)
      || (q != NULL && q !in s.page - {p} && Apart((s.page - {p})[q := newSize]) &&
          s' == s.(page := (s.page - {p})[q := newSize], user := (s.user - {p})[q := newSize]))
    else
      Moves(l, s, p, newSize, q, s')
  }

  /** A new allocation, and then the free of the old one; or failure, and nothing has changed. */
  ghost predicate Moves(l: Layout, s: State, p: nat, newSize: nat, q: nat, s': State)
    requires Inv(l, s) && p in s.user
  {
    if q == NULL then AllocNext(l, s, newSize, NULL, s) && s' == s
    else
      exists s1 :: AllocNext(l, s, newSize, q, s1) && Inv(l, s1) && p in s1.user && s' == FreeNext(l, s1, p)
  }

  lemma PartsBasics(l: Layout, s: State)
    requires PartsOk(l, s)
    ensures |s.pools| == POOL_COUNT && |s.buddy.lists| > 0
  {
  }

  lemma SmallAllocKeepsInv(l: Layout, s: State, size: nat, p: nat, s': State)
    requires Inv(l, s) && 0 < size <= SMALL_OBJ_LIMIT && AllocNext(l, s, size, p, s')
    requires PoolModel.Alloc(s.pools[PoolIndex(size)], size).1.Slot?
    ensures Inv(l, s') && p !in s.user && s'.user == s.user[p := size]
  {
    hide PartsOk, Routed, Holds, PoolModel.Alloc;
    PartsBasics(l, s);
    var i := PoolIndex(size);
    var (st, r) := PoolModel.Alloc(s.pools[i], size);
    PoolAllocStep(l, s, size);
    AddUser(l, s, SetPool(s, i, st), p, size);
  }

  lemma MediumAllocKeepsInv(l: Layout, s: State, size: nat, p: nat, s': State)
    requires Inv(l, s) && SMALL_OBJ_LIMIT < size <= MEDIUM_OBJ_LIMIT && AllocNext(l, s, size, p, s')
    requires BuddyModel.Alloc(s.buddy, size).block.Some?
    ensures Inv(l, s') && p !in s.user && s'.user == s.user[p := size]
  {
    hide PartsOk, Routed, Holds, BuddyModel.Alloc;
    PartsBasics(l, s);
    BuddyAllocStep(l, s, size);
    AddUser(l, s, s.(buddy := BuddyModel.Alloc(s.buddy, size).st), p, size);
  }

  lemma LargeAllocKeepsInv(l: Layout, s: State, size: nat, p: nat)
    requires Inv(l, s) && MEDIUM_OBJ_LIMIT < size && p !in s.page && Apart(s.page[p := size])
    ensures Inv(l, s.(page := s.page[p := size], user := s.user[p := size])) && p !in s.user
  {
    hide PartsOk, Routed, Holds, Apart;
    PageAllocStep(l, s, p, size);
    AddUser(l, s, s.(page := s.page[p := size]), p, size);
  }

  /** Every allocation keeps the invariant: a success adds one allocation at an address of its own. */
  lemma AllocKeepsInv(l: Layout, s: State, size: nat, p: nat, s': State)
    requires Inv(l, s) && l.base > 0 && AllocNext(l, s, size, p, s')
    ensures Inv(l, s')
    ensures p == NULL ==> s' == s
    ensures p != NULL ==> size > 0 && p !in s.user && s'.user == s.user[p := size]
  {
    hide PartsOk, Routed, Holds, Apart, BuddyModel.Alloc, PoolModel.Alloc, SizeOf;
    PartsBasics(l, s);
    if 0 < size <= SMALL_OBJ_LIMIT {
      if PoolModel.Alloc(s.pools[PoolIndex(size)], size).1.Slot? {
        SmallAllocKeepsInv(l, s, size, p, s');
      }
    } else if SMALL_OBJ_LIMIT < size <= MEDIUM_OBJ_LIMIT {
      if BuddyModel.Alloc(s.buddy, size).block.Some? {
        MediumAllocKeepsInv(l, s, size, p, s');
      }
    } else if size > 0 && p != NULL {
      LargeAllocKeepsInv(l, s, size, p);
    }
  }

  /** Every free keeps the invariant and removes just its allocation. */
  lemma FreeKeepsInv(l: Layout, s: State, p: nat)
    requires Inv(l, s) && p in s.user
    ensures Inv(l, FreeNext(l, s, p)) && FreeNext(l, s, p).user == s.user - {p}
  {
    hide PoolsOk, BuddyOk, PageOk, SizeOf;
    var n := s.user[p];
    assert Holds(l, s, p, n);
    if n <= SMALL_OBJ_LIMIT {
      var i := PoolIndex(n);
      PoolFreeStep(l, s, p, n);
      var k := Pool.SlotNumberOf(PoolBuffer(l, i), POOL_SIZES[i], p);
      DropUser(l, s, SetPool(s, i, PoolModel.Free(s.pools[i], k)), p);
    } else if n <= MEDIUM_OBJ_LIMIT {
      BuddyFreeStep(l, s, p, n);
      DropUser(l, s, s.(buddy := BuddyModel.Free(s.buddy, Buddy.BlockFor(l.base, BUDDY_ORDER, p, n))), p);
    } else {
      PageFreeStep(l, s, p, n);
      DropUser(l, s, s.(page := s.page - {p}), p);
    }
  }

  /** Every realloc keeps the invariant: the allocation has its new size, at p or at a fresh address. */
  lemma ReallocKeepsInv(l: Layout, s: State, p: nat, newSize: nat, q: nat, s': State)
    requires Inv(l, s) && l.base > 0 && p in s.user && newSize > 0 && ReallocNext(l, s, p, newSize, q, s')
    ensures Inv(l, s')
    ensures q == NULL ==> s' == s
    ensures q != NULL ==> q !in s.user - {p} && s'.user == (s.user - {p})[q := newSize]
  {
    var n := s.user[p];
    assert Holds(l, s, p, n);
    HeldNotNull(l, s, p, n);
    hide PartsOk, Routed, Holds, Apart, AllocNext, FreeNext, Moves, PoolModel.Realloc, PoolBuffer, PoolOk, PoolIndex;
    PartsBasics(l, s);
    MapReplace(s.user, p, newSize);
    if n == newSize {
    } else if n <= SMALL_OBJ_LIMIT && newSize <= SMALL_OBJ_LIMIT && PoolIndex(n) == PoolIndex(newSize) {
      SlotReallocKeepsInv(l, s, p, newSize);
    } else if n > MEDIUM_OBJ_LIMIT && newSize > MEDIUM_OBJ_LIMIT {
      if q != NULL {
        PageMoveKeepsInv(l, s, p, newSize, q);
      }
    } else if q != NULL {
      MoveKeepsInv(l, s, p, newSize, q, s');
    }
  }

  lemma MapReplace(m: map<nat, nat>, p: nat, v: nat)
    ensures m[p := v] == (m - {p})[p := v]
    ensures p in m && m[p] == v ==> m == (m - {p})[p := v]
  {
  }

  lemma HeldNotNull(l: Layout, s: State, p: nat, n: nat)
    requires PartsOk(l, s) && l.base > 0 && Holds(l, s, p, n)
    ensures p != NULL
  {
  }

  lemma SlotReallocKeepsInv(l: Layout, s: State, p: nat, newSize: nat)
    requires Inv(l, s) && p in s.user && 0 < newSize <= SMALL_OBJ_LIMIT
    requires s.user[p] <= SMALL_OBJ_LIMIT && PoolIndex(newSize) == PoolIndex(s.user[p])
    ensures var i := PoolIndex(newSize);
            var k := Pool.SlotNumberOf(PoolBuffer(l, i), POOL_SIZES[i], p);
            Inv(l, SetPool(s, i, PoolModel.Realloc(s.pools[i], k, newSize)).(user := s.user[p := newSize]))
  {
    var n := s.user[p];
    assert Holds(l, s, p, n);
    PoolReallocStep(l, s, p, n, newSize);
    hide PartsOk, Holds;
    PartsBasics(l, s);
    var i := PoolIndex(newSize);
    var k := Pool.SlotNumberOf(PoolBuffer(l, i), POOL_SIZES[i], p);
    var s1 := SetPool(s, i, PoolModel.Realloc(s.pools[i], k, newSize));
    SameParts(l, s1, s1.(user := s.user[p := newSize]));
  }

  lemma PageMoveKeepsInv(l: Layout, s: State, p: nat, newSize: nat, q: nat)
    requires Inv(l, s) && p in s.user && s.user[p] > MEDIUM_OBJ_LIMIT && newSize > MEDIUM_OBJ_LIMIT
    requires q !in s.page - {p} && Apart((s.page - {p})[q := newSize])
    ensures q !in s.user - {p}
    ensures Inv(l, s.(page := (s.page - {p})[q := newSize], user := (s.user - {p})[q := newSize]))
  {
    assert Holds(l, s, p, s.user[p]);
    hide PartsOk, Routed, Holds, Apart;
    PageFreeStep(l, s, p, s.user[p]);
    var s1 := s.(page := s.page - {p}, user := s.user - {p});
    DropUser(l, s, s.(page := s.page - {p}), p);
    LargeAllocKeepsInv(l, s1, newSize, q);
  }

  lemma MoveKeepsInv(l: Layout, s: State, p: nat, newSize: nat, q: nat, s': State)
    requires Inv(l, s) && l.base > 0 && p in s.user && q != NULL && Moves(l, s, p, newSize, q, s')
    ensures Inv(l, s') && q !in s.user && s'.user == (s.user - {p})[q := newSize]
  {
    hide PartsOk, Routed, Holds, AllocNext, FreeNext;
    var s1 :| AllocNext(l, s, newSize, q, s1) && Inv(l, s1) && p in s1.user && s' == FreeNext(l, s1, p);
    AllocKeepsInv(l, s, newSize, q, s1);
    FreeKeepsInv(l, s1, p);
    assert s.user[q := newSize] - {p} == (s.user - {p})[q := newSize];
  }

  /* ------------------------------------------------------------------- runs */

  datatype Op = DoAlloc(size: nat) | DoFree(p: nat) | DoRealloc(p: nat, newSize: nat)

  /** One call and its answer; callers only free and reallocate live allocations. */
  ghost predicate Next(l: Layout, s: State, op: Op, q: nat, s': State)
    requires Inv(l, s)
  {
    match op
    case DoAlloc(size) => AllocNext(l, s, size, q, s')
    case DoFree(p) => p in s.user && q == NULL && s' == FreeNext(l, s, p)
    case DoRealloc(p, newSize) =>
      && p in s.user
      && if newSize == 0 then q == NULL && s' == FreeNext(l, s, p) else ReallocNext(l, s, p, newSize, q, s')
  }

  /** The calls ops with the answers qs lead from s to s'. (Next is defined on states with Inv, which is
      no restriction: NextKeepsInv.) */
  ghost predicate Runs(l: Layout, s: State, ops: seq<Op>, qs: seq<nat>, s': State)
    requires |qs| == |ops|
    decreases |ops|
  {
    if ops == [] then s' == s
    else exists s1 :: Inv(l, s) && Next(l, s, ops[0], qs[0], s1) && Runs(l, s1, ops[1..], qs[1..], s')
  }

  /** Over any run, whatever the operating system answers: live allocations are pairwise disjoint,
      and each is held by the tier and pool that its size routes to. */
  lemma {:induction false} RunsKeepDisjoint(l: Layout, s: State, ops: seq<Op>, qs: seq<nat>, s': State)
    requires |qs| == |ops| && l.base > 0 && Inv(l, s) && Runs(l, s, ops, qs, s')
    ensures Inv(l, s')
    ensures forall p :: p in s'.user ==> Holds(l, s', p, s'.user[p])
    ensures forall p, q :: p in s'.user && q in s'.user && p != q ==> Disjoint(p, s'.user[p], q, s'.user[q])
    decreases |ops|
  {
    if ops == [] {
      forall p, q | p in s'.user && q in s'.user && p != q
        ensures Disjoint(p, s'.user[p], q, s'.user[q])
      {
        LiveDisjoint(l, s', p, q);
      }
    } else {
      hide PartsOk, Routed, Holds, AllocNext, FreeNext, ReallocNext;
      var s1 :| Next(l, s, ops[0], qs[0], s1) && Runs(l, s1, ops[1..], qs[1..], s');
      NextKeepsInv(l, s, ops[0], qs[0], s1);
      RunsKeepDisjoint(l, s1, ops[1..], qs[1..], s');
    }
  }

  lemma NextKeepsInv(l: Layout, s: State, op: Op, q: nat, s': State)
    requires Inv(l, s) && l.base > 0 && Next(l, s, op, q, s')
    ensures Inv(l, s')
  {
    hide PartsOk, Routed, Holds, AllocNext, FreeNext, ReallocNext;
    match op
    case DoAlloc(size) => AllocKeepsInv(l, s, size, q, s');
    case DoFree(p) => FreeKeepsInv(l, s, p);
    case DoRealloc(p, newSize) =>
      if newSize == 0 {
        FreeKeepsInv(l, s, p);
      } else {
        ReallocKeepsInv(l, s, p, newSize, q, s');
      }
  }
}
