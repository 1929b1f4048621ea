/** What the running general allocator needs to know of its model: where allocations lie, and what
    changes of memory keep. */
module GenFacts {
  import opened Order
  import opened Memory
  import opened BuddyTree
  import opened GenRouting
  import opened Os
  import opened GenModel
  import BuddyModel
  import BuddyTheorems
  import BuddyRep
  import FreeLists
  import Buddy
  import Pool
  import PoolModel
  import Page

  /** sizeof(gen_state_t): ten allo_t of 168 bytes each. */
  const GEN_STATE_BYTES: nat := 1680

  /** No byte of a user allocation has changed, except of the one at skip. */
  ghost predicate UsersSame(user: map<nat, nat>, m: seq<Byte>, m': seq<Byte>, skip: nat)
  {
    && |m'| == |m|
    && forall u :: u in user && u != skip ==> Same(m, m', u, u + user[u])
  }

  /** A small or medium allocation lies in the buddy buffer. */
  lemma UserInBuffer(l: Layout, s: State, u: nat)
    requires Inv(l, s) && u in s.user && s.user[u] <= MEDIUM_OBJ_LIMIT
    ensures l.base <= u && u + s.user[u] <= l.base + Pow2(BUDDY_ORDER)
  {
    assert Holds(l, s, u, s.user[u]);
    HomeFacts(l, s, u, s.user[u]);
    hide Holds, Home, PoolsOk, PageOk;
    BuddyBlock(l, s.buddy, Home(l, u, s.user[u]));
  }

  /** A large allocation is a mapping of its own, and lies outside the buddy buffer. */
  lemma UserOutsideBuffer(l: Layout, s: State, u: nat)
    requires Inv(l, s) && u in s.user && s.user[u] > MEDIUM_OBJ_LIMIT
    ensures u in s.page && s.page[u] == s.user[u] && u !in l.inner
    ensures Disjoint(l.base, Pow2(BUDDY_ORDER), u, s.user[u])
  {
    assert Holds(l, s, u, s.user[u]);
    MappingHeld(l, s, u, s.user[u]);
    hide Holds, PoolsOk, BuddyOk;
  }

  /** A buddy operation that frames the live blocks but dead, which holds no pool, keeps all user bytes
      but those of the allocation in dead. */
  lemma UsersAfterBlocks(l: Layout, s: State, m: seq<Byte>, m': seq<Byte>, keep: set<Block>, skip: nat)
    requires Inv(l, s) && BuddyRep.Framed(m, m', l.base, BUDDY_ORDER, keep)
    requires (forall b :: b in l.bufs ==> b in keep)
    requires forall u :: u in s.user && u != skip && SMALL_OBJ_LIMIT < s.user[u] <= MEDIUM_OBJ_LIMIT ==>
               Buddy.BlockHolds(s.buddy.live, l.base, BUDDY_ORDER, u, s.user[u]) ==>
               Buddy.BlockFor(l.base, BUDDY_ORDER, u, s.user[u]) in keep
    ensures UsersSame(s.user, m, m', skip)
  {
    forall u | u in s.user && u != skip
      ensures Same(m, m', u, u + s.user[u])
    {
      var n := s.user[u];
      assert Holds(l, s, u, n);
      if n <= MEDIUM_OBJ_LIMIT {
        HomeFacts(l, s, u, n);
        hide PartsOk;
        assert Home(l, u, n) in keep;
        assert BuddyRep.BlockSame(m, m', l.base, BUDDY_ORDER, Home(l, u, n));
      } else {
        UserOutsideBuffer(l, s, u);
      }
    }
  }

  /** A change inside a slot of pool i keeps all user bytes but those of the allocation in it. */
  lemma UsersAfterSlot(l: Layout, s: State, m: seq<Byte>, m': seq<Byte>, p: nat)
    requires Inv(l, s) && p in s.user && s.user[p] <= SMALL_OBJ_LIMIT && |m'| == |m|
    requires Same(m, m', 0, p) && Same(m, m', p + POOL_SIZES[PoolIndex(s.user[p])], |m|)
    ensures UsersSame(s.user, m, m', p)
  {
    hide Inv, PoolIndex, Disjoint;
    forall u | u in s.user && u != p
      ensures Same(m, m', u, u + s.user[u])
    {
      SlotClear(l, s, p, u);
      SameApart(m, m', p, POOL_SIZES[PoolIndex(s.user[p])], u, s.user[u]);
    }
  }

  lemma SameApart(m: seq<Byte>, m': seq<Byte>, p: nat, n: nat, u: nat, k: nat)
    requires |m'| == |m| && Same(m, m', 0, p) && Same(m, m', p + n, |m|) && Disjoint(p, n, u, k)
    ensures Same(m, m', u, u + k)
  {
  }

  /** A change inside a slot is one inside the buddy buffer. */
  lemma SlotInBuffer(l: Layout, s: State, m: seq<Byte>, m': seq<Byte>, p: nat)
    requires Inv(l, s) && p in s.user && s.user[p] <= SMALL_OBJ_LIMIT && |m'| == |m|
    requires Same(m, m', 0, p) && Same(m, m', p + POOL_SIZES[PoolIndex(s.user[p])], |m|)
    ensures Same(m, m', 0, l.base) && Same(m, m', l.base + Pow2(BUDDY_ORDER), |m|)
  {
    hide Inv, PoolIndex, InBlock;
    SlotRange(l, s, p);
  }

  /** No other allocation touches the slot of p. */
  lemma SlotClear(l: Layout, s: State, p: nat, u: nat)
    requires Inv(l, s) && p in s.user && u in s.user && u != p && s.user[p] <= SMALL_OBJ_LIMIT
    ensures Disjoint(p, POOL_SIZES[PoolIndex(s.user[p])], u, s.user[u])
  {
    hide Inv, PartsOk, Holds, Home, PoolIndex, SizeOf, BuddyOk, PoolBuffer, InBlock, DisjointBytes, BuddyModel.Inv,
      Pow2, BuddyModel.LevelOf;
    var n, k := s.user[p], s.user[u];
    var i := PoolIndex(n);
    UserIsHeld(l, s, p);
    UserIsHeld(l, s, u);
    InvParts(l, s);
    BuddyFacts(l, s);
    SlotRange(l, s, p);
    if k > MEDIUM_OBJ_LIMIT {
      UserOutsideBuffer(l, s, u);
    } else {
      HomeFacts(l, s, u, k);
      if Home(l, u, k) != l.bufs[i] {
        BuddyBlocksApart(l, s.buddy, Home(l, u, k), l.bufs[i]);
        ApartBlocks(l, Home(l, u, k), l.bufs[i], p, POOL_SIZES[i], u, k);
      } else {
        SameHomeIndex(l, s, i, u, k);
        SamePoolSlots(l, s, p, n, u, k);
      }
    }
  }

  lemma ApartBlocks(l: Layout, a: Block, b: Block, p: nat, n: nat, u: nat, k: nat)
    requires a.level <= BUDDY_ORDER && b.level <= BUDDY_ORDER && DisjointBytes(BUDDY_ORDER, a, b)
    requires InBlock(l, a, u, k) && InBlock(l, b, p, n)
    ensures Disjoint(p, n, u, k)
  {
  }

  /** The slot of a small allocation lies in its pool's block, and so in the buddy buffer. */
  lemma SlotRange(l: Layout, s: State, p: nat)
    requires Inv(l, s) && p in s.user && s.user[p] <= SMALL_OBJ_LIMIT
    ensures |l.bufs| == POOL_COUNT
    ensures var i := PoolIndex(s.user[p]);
            l.bufs[i] in s.buddy.live && InBlock(l, l.bufs[i], p, POOL_SIZES[i]) &&
            l.base <= p && p + POOL_SIZES[i] <= l.base + Pow2(BUDDY_ORDER)
  {
    var n := s.user[p];
    var i := PoolIndex(n);
    assert Holds(l, s, p, n);
    assert PoolOk(s.pools[i], i);
    hide PageOk, BuddyModel.Inv, SizeOf, Routed;
    SlotInBlock(l, s, i, Pool.SlotNumberOf(PoolBuffer(l, i), POOL_SIZES[i], p));
    BuddyBlock(l, s.buddy, l.bufs[i]);
  }

  lemma SameHomeIndex(l: Layout, s: State, i: nat, u: nat, k: nat)
    requires PartsOk(l, s) && i < POOL_COUNT && k > 0
    requires k > SMALL_OBJ_LIMIT ==> l.base <= u && 0 <= BuddyModel.LevelOf(BUDDY_ORDER, k)
    requires Home(l, u, k) == l.bufs[i] && (Home(l, u, k) in l.bufs <==> k <= SMALL_OBJ_LIMIT)
    ensures k <= SMALL_OBJ_LIMIT && PoolIndex(k) == i
  {
    hide PoolsOk, PageOk, BuddyModel.Inv, PoolIndex;
    assert l.bufs[i] in l.bufs;
  }

  lemma SamePoolSlots(l: Layout, s: State, p: nat, n: nat, u: nat, k: nat)
    requires PartsOk(l, s) && 0 < n <= SMALL_OBJ_LIMIT && 0 < k <= SMALL_OBJ_LIMIT && p != u
    requires Holds(l, s, p, n) && Holds(l, s, u, k) && PoolIndex(n) == PoolIndex(k)
    ensures Disjoint(p, POOL_SIZES[PoolIndex(n)], u, k)
  {
    var i := PoolIndex(n);
    PoolIndexIsBestFit(k);
    assert PoolOk(s.pools[i], i);
    var buffer := PoolBuffer(l, i);
    Pool.SlotsApart(buffer, POOL_SIZES[i], POOL_BLOCKS[i],
                    Pool.SlotNumberOf(buffer, POOL_SIZES[i], p), Pool.SlotNumberOf(buffer, POOL_SIZES[i], u));
  }

  /** A page operation keeps all user bytes but those of the mapping at skip. */
  lemma UsersAfterPages(l: Layout, s: State, m: seq<Byte>, m': seq<Byte>, maps: map<nat, nat>, skip: nat)
    requires Inv(l, s) && MapsSame(m, m', maps) && skip != l.base
    requires forall a :: a in s.page && a != skip ==> a in maps && s.page[a] <= maps[a]
    ensures UsersSame(s.user, m, m', skip)
    ensures Same(m, m', l.base, l.base + Pow2(BUDDY_ORDER))
  {
    assert Same(m, m', l.base, l.base + maps[l.base]);
    forall u | u in s.user && u != skip
      ensures Same(m, m', u, u + s.user[u])
    {
      if s.user[u] <= MEDIUM_OBJ_LIMIT {
        UserInBuffer(l, s, u);
      } else {
        UserOutsideBuffer(l, s, u);
        assert Same(m, m', u, u + maps[u]);
      }
    }
  }

  /** p lies in the mapping of a live page allocation. */
  ghost predicate InMapping(live: map<nat, nat>, pageSize: nat, p: nat)
    requires pageSize > 0
  {
    exists a :: a in live && a <= p < a + Page.RoundUp(live[a], pageSize)
  }

  lemma AllocationInMapping(live: map<nat, nat>, pageSize: nat, a: nat, p: nat)
    requires pageSize > 0 && a in live && a <= p < a + live[a] && live[a] <= Page.RoundUp(live[a], pageSize)
    ensures InMapping(live, pageSize, p)
  {
  }

  lemma PoolBufferLevel()
    ensures BuddyModel.LevelOf(BUDDY_ORDER, POOL_BUFFER) == POOL_LEVEL && SizeOf(BUDDY_ORDER, POOL_LEVEL) == POOL_BUFFER
  {
    Pow2Values();
    GetOrderOfPow2(16);
  }

  ghost function Taken(bufs: seq<Block>, i: nat): set<Block>
    requires i <= |bufs|
  {
    set k | 0 <= k < i :: bufs[k]
  }

  /** The buffers not yet given back are live. */
  lemma BufStillLive(bufs: seq<Block>, live: map<Block, nat>, i: nat, p: nat, base: nat)
    requires BufsOk(bufs, live) && i < POOL_COUNT
    requires Buddy.BlockHolds(live, base, BUDDY_ORDER, p, POOL_BUFFER) &&
             Buddy.BlockFor(base, BUDDY_ORDER, p, POOL_BUFFER) == bufs[i]
    ensures Buddy.BlockHolds(live - Taken(bufs, i), base, BUDDY_ORDER, p, POOL_BUFFER)
    ensures live - Taken(bufs, i) - {bufs[i]} == live - Taken(bufs, i + 1)
  {
  }

  lemma UsersRefl(user: map<nat, nat>, m: seq<Byte>)
    ensures forall skip :: UsersSame(user, m, m, skip)
  {
  }

  lemma SameSize(l: Layout, s: State, p: nat)
    requires Inv(l, s) && p in s.user && s.user[p] > 0
    ensures ReallocNext(l, s, p, s.user[p], p, s)
  {
  }

  /** An allocation that keeps the bytes at p, and then a move from p. */
  lemma MovedBytes(user: map<nat, nat>, m: seq<Byte>, m1: seq<Byte>, m2: seq<Byte>, p: nat, q: nat, n: nat)
    requires UsersSame(user, m, m1, NULL) && UsersSame(user, m1, m2, p) && Copied(m1, m2, p, q, n)
    requires p in user && NULL !in user && n <= user[p]
    ensures Copied(m, m2, p, q, n) && UsersSame(user, m, m2, p)
  {
    assert Same(m, m1, p, p + user[p]);
    assert m1[p..p + n] == m[p..p + n];
    forall u | u in user && u != p
      ensures Same(m, m2, u, u + user[u])
    {
      assert Same(m, m1, u, u + user[u]) && Same(m1, m2, u, u + user[u]);
    }
  }

  ghost function BlockResult(s: State, st: BuddyModel.State, p: nat, newSize: nat, q: nat): State
  {
    if q == NULL then s else s.(buddy := st, user := (s.user - {p})[q := newSize])
  }

  lemma UserIsHeld(l: Layout, s: State, p: nat)
    requires Inv(l, s) && p in s.user
    ensures 0 < s.user[p] && Holds(l, s, p, s.user[p])
  {
  }

  /** Between tiers, between pools, and inside the buddy tier, realloc is a move. */
  lemma MoveIsRealloc(l: Layout, s: State, p: nat, newSize: nat, q: nat, s': State)
    requires Inv(l, s) && p in s.user && 0 < newSize != s.user[p] && Moves(l, s, p, newSize, q, s')
    requires !(s.user[p] <= SMALL_OBJ_LIMIT && newSize <= SMALL_OBJ_LIMIT && PoolIndex(s.user[p]) == PoolIndex(newSize))
    requires !(s.user[p] > MEDIUM_OBJ_LIMIT && newSize > MEDIUM_OBJ_LIMIT)
    ensures ReallocNext(l, s, p, newSize, q, s')
  {
    hide Inv, Moves, PoolIndex, Holds;
    UserIsHeld(l, s, p);
  }

  /** The buddy allocator's realloc is a move: allocate, copy, free. */
  lemma BlockAnswer(l: Layout, s: State, p: nat, newSize: nat, q: nat, st: BuddyModel.State)
    requires Inv(l, s) && l.base > 0 && p in s.user && SMALL_OBJ_LIMIT < s.user[p] <= MEDIUM_OBJ_LIMIT
    requires SMALL_OBJ_LIMIT < newSize <= MEDIUM_OBJ_LIMIT && newSize != s.user[p] && |s.buddy.lists| > 0
    requires Buddy.BlockHolds(s.buddy.live, l.base, BUDDY_ORDER, p, s.user[p])
    requires var b := Buddy.BlockFor(l.base, BUDDY_ORDER, p, s.user[p]);
             b.level < |s.buddy.lists| && st == BuddyTheorems.Realloc(s.buddy, b, newSize)
    requires q == NULL <==> BuddyModel.Alloc(s.buddy, newSize).block.None?
    requires q != NULL ==> Buddy.BlockHolds(st.live, l.base, BUDDY_ORDER, q, newSize)
    requires q != NULL ==>
               BuddyModel.Alloc(s.buddy, newSize).block ==
               BuddyModel.Some(Buddy.BlockFor(l.base, BUDDY_ORDER, q, newSize))
    ensures var s' := BlockResult(s, st, p, newSize, q);
            ReallocNext(l, s, p, newSize, q, s') && s'.buddy == st && s'.pools == s.pools && s'.page == s.page
  {
    hide Inv, PartsOk, SizeOf, BuddyModel.Alloc, BuddyModel.Free, FreeNext, AllocNext, ReallocNext, PoolIndex,
      BuddyModel.LevelOf;
    InvParts(l, s);
    BuddyAllocInv(l, s, newSize);
    var s' := BlockResult(s, st, p, newSize, q);
    MediumAllocNext(l, s, newSize, q);
    if q != NULL {
      var s1 := s.(buddy := BuddyModel.Alloc(s.buddy, newSize).st, user := s.user[q := newSize]);
      AllocKeepsInv(l, s, newSize, q, s1);
      MediumHeld(l, s1, p);
      assert s.user[q := newSize] - {p} == (s.user - {p})[q := newSize];
      assert FreeNext(l, s1, p) == s';
    }
    MoveIsRealloc(l, s, p, newSize, q, s');
  }

  lemma MediumAllocNext(l: Layout, s: State, size: nat, q: nat)
    requires PartsOk(l, s) && l.base > 0 && SMALL_OBJ_LIMIT < size <= MEDIUM_OBJ_LIMIT && |s.buddy.lists| > 0
    requires q == NULL <==> BuddyModel.Alloc(s.buddy, size).block.None?
    requires q != NULL ==>
               l.base <= q && 0 <= BuddyModel.LevelOf(BUDDY_ORDER, size) &&
               q == l.base + Lo(BUDDY_ORDER, Buddy.BlockFor(l.base, BUDDY_ORDER, q, size)) &&
               BuddyModel.Alloc(s.buddy, size).block == BuddyModel.Some(Buddy.BlockFor(l.base, BUDDY_ORDER, q, size))
    ensures AllocNext(l, s, size, q,
              if q == NULL then s else s.(buddy := BuddyModel.Alloc(s.buddy, size).st, user := s.user[q := size]))
  {
    hide PartsOk, BuddyModel.Alloc, SizeOf, PoolIndex;
  }

  lemma BuddyAllocInv(l: Layout, s: State, size: nat)
    requires PartsOk(l, s)
    ensures BuddyModel.Alloc(s.buddy, size).block.None? ==> BuddyModel.Alloc(s.buddy, size).st == s.buddy
  {
    BuddyModel.AllocKeepsInv(s.buddy, size);
  }

  lemma MappingAnswer(l: Layout, s: State, p: nat, newSize: nat, q: nat)
    requires Inv(l, s) && p in s.user && MEDIUM_OBJ_LIMIT < s.user[p] && MEDIUM_OBJ_LIMIT < newSize != s.user[p]
    requires q != NULL ==> q !in s.page - {p} && Apart((s.page - {p})[q := newSize])
    ensures ReallocNext(l, s, p, newSize, q,
              if q == NULL then s else s.(page := (s.page - {p})[q := newSize], user := (s.user - {p})[q := newSize]))
  {
    hide PartsOk, Apart;
    assert Holds(l, s, p, s.user[p]);
  }

  ghost function SlotResult(l: Layout, s: State, p: nat, newSize: nat): State
    requires Inv(l, s) && l.base > 0 && p in s.user && s.user[p] <= SMALL_OBJ_LIMIT
  {
    SmallHeld(l, s, p);
    var i := PoolIndex(s.user[p]);
    var k := Pool.SlotNumberOf(PoolBuffer(l, i), POOL_SIZES[i], p);
    SetPool(s, i, PoolModel.Realloc(s.pools[i], k, newSize)).(user := s.user[p := newSize])
  }

  lemma SlotAnswer(l: Layout, s: State, p: nat, newSize: nat)
    requires Inv(l, s) && l.base > 0 && p in s.user && s.user[p] <= SMALL_OBJ_LIMIT && s.user[p] != newSize
    requires 0 < newSize <= SMALL_OBJ_LIMIT && PoolIndex(s.user[p]) == PoolIndex(newSize)
    ensures ReallocNext(l, s, p, newSize, p, SlotResult(l, s, p, newSize))
    ensures newSize <= POOL_SIZES[PoolIndex(newSize)]
    ensures var s', i := SlotResult(l, s, p, newSize), PoolIndex(s.user[p]);
            i < |s.pools| && i < |l.bufs| && PoolBuffer(l, i) <= p &&
            s'.page == s.page && s'.buddy == s.buddy &&
            var k := Pool.SlotNumberOf(PoolBuffer(l, i), POOL_SIZES[i], p);
            s'.pools == s.pools[i := PoolModel.Realloc(s.pools[i], k, newSize)]
  {
    SmallHeld(l, s, p);
    PoolIndexIsBestFit(newSize);
    hide Inv, PoolIndex, PoolModel.Realloc;
  }

  lemma UserNotNull(l: Layout, s: State, p: nat)
    requires Inv(l, s) && l.base > 0 && p in s.user
    ensures p != NULL
  {
    assert Holds(l, s, p, s.user[p]);
    HeldNotNull(l, s, p, s.user[p]);
  }

  lemma UsersNotNull(l: Layout, s: State)
    requires Inv(l, s) && l.base > 0
    ensures NULL !in s.user
  {
    hide Inv;
    if NULL in s.user {
      UserNotNull(l, s, NULL);
    }
  }

  lemma CopyInside(m: seq<Byte>, m1: seq<Byte>, p: nat, q: nat, n: nat, size: nat)
    requires |m1| == |m| && p + n <= |m| && q + n <= |m| && m1[q..q + n] == m[p..p + n]
    requires Same(m, m1, 0, q) && Same(m, m1, q + n, |m|) && n <= size
    ensures Copied(m, m1, p, q, n) && Same(m, m1, q + size, |m|)
  {
  }

  lemma OtherUsersSame(l: Layout, s: State, m: seq<Byte>, m': seq<Byte>, q: nat)
    requires Inv(l, s) && q in s.user && |m'| == |m| && Same(m, m', 0, q) && Same(m, m', q + s.user[q], |m|)
    ensures UsersSame(s.user, m, m', q)
  {
    hide Inv;
    forall u | u in s.user && u != q
      ensures Same(m, m', u, u + s.user[u])
    {
      LiveDisjoint(l, s, q, u);
    }
  }

  /** What the copy and the free together keep. */
  lemma MoveSame(user: map<nat, nat>, m: seq<Byte>, m1: seq<Byte>, m2: seq<Byte>, p: nat, q: nat, n: nat)
    requires UsersSame(user, m, m1, q) && UsersSame(user, m1, m2, p) && Copied(m, m1, p, q, n)
    requires q in user && p != q && n <= user[q]
    ensures UsersSame(user - {q}, m, m2, p) && Copied(m, m2, p, q, n)
  {
    assert Same(m1, m2, q, q + user[q]);
    assert m2[q..q + n] == m1[q..q + n];
    forall u | u in user - {q} && u != p
      ensures Same(m, m2, u, u + user[u])
    {
      assert Same(m, m1, u, u + user[u]) && Same(m1, m2, u, u + user[u]);
    }
  }

  /** A small allocation fits its slot. */
  lemma SmallFits(l: Layout, s: State, p: nat)
    requires Inv(l, s) && p in s.user && s.user[p] <= SMALL_OBJ_LIMIT
    ensures 0 < s.user[p] <= POOL_SIZES[PoolIndex(s.user[p])]
  {
    PoolIndexIsBestFit(s.user[p]);
  }

  /** A medium allocation fits its block. */
  lemma MediumFits(l: Layout, s: State, p: nat)
    requires Inv(l, s) && p in s.user && SMALL_OBJ_LIMIT < s.user[p] <= MEDIUM_OBJ_LIMIT
    requires Buddy.BlockHolds(s.buddy.live, l.base, BUDDY_ORDER, p, s.user[p])
    ensures var b := Buddy.BlockFor(l.base, BUDDY_ORDER, p, s.user[p]);
            b.level <= BUDDY_ORDER && p == l.base + Lo(BUDDY_ORDER, b) && p + s.user[p] <= l.base + Hi(BUDDY_ORDER, b)
  {
    hide PoolsOk, PageOk, SizeOf;
    BuddyBlock(l, s.buddy, Buddy.BlockFor(l.base, BUDDY_ORDER, p, s.user[p]));
  }

  /** What the routing knows of a medium live allocation. */
  lemma MediumHeld(l: Layout, s: State, p: nat)
    requires Inv(l, s) && l.base > 0 && p in s.user && SMALL_OBJ_LIMIT < s.user[p] <= MEDIUM_OBJ_LIMIT
    ensures Buddy.BlockHolds(s.buddy.live, l.base, BUDDY_ORDER, p, s.user[p]) && p != NULL
    ensures var b := Buddy.BlockFor(l.base, BUDDY_ORDER, p, s.user[p]);
            b !in l.bufs && b.level < |s.buddy.lists| && (forall c :: c in l.bufs ==> c in s.buddy.live.Keys - {b}) &&
            BuddyModel.Free(s.buddy, b).live.Keys == s.buddy.live.Keys - {b} &&
            FreeNext(l, s, p) == s.(buddy := BuddyModel.Free(s.buddy, b), user := s.user - {p})
  {
    var n := s.user[p];
    assert Holds(l, s, p, n);
    hide PoolsOk, PageOk, SizeOf, BuddyModel.Merge;
    BuddyFreeStep(l, s, p, n);
    DistinctBufs(l, s);
  }

  /** The other medium allocations are in other blocks. */
  lemma MediumOthers(l: Layout, s: State, p: nat)
    requires Inv(l, s) && p in s.user && SMALL_OBJ_LIMIT < s.user[p] <= MEDIUM_OBJ_LIMIT
    requires Buddy.BlockHolds(s.buddy.live, l.base, BUDDY_ORDER, p, s.user[p])
    ensures forall u :: u in s.user && u != p && SMALL_OBJ_LIMIT < s.user[u] <= MEDIUM_OBJ_LIMIT ==>
              Buddy.BlockHolds(s.buddy.live, l.base, BUDDY_ORDER, u, s.user[u]) ==>
              Buddy.BlockFor(l.base, BUDDY_ORDER, u, s.user[u])
              in s.buddy.live.Keys - {Buddy.BlockFor(l.base, BUDDY_ORDER, p, s.user[p])}
  {
  }

  /** What the routing knows of a large live allocation. */
  lemma LargeHeld(l: Layout, s: State, p: nat)
    requires Inv(l, s) && p in s.user && MEDIUM_OBJ_LIMIT < s.user[p]
    ensures p in s.page && s.page[p] == s.user[p] && p != NULL && p !in l.inner && l.base in l.inner
    ensures FreeNext(l, s, p) == s.(page := s.page - {p}, user := s.user - {p})
  {
    assert Holds(l, s, p, s.user[p]);
    hide PoolsOk, BuddyOk;
  }

  lemma SameWider(m: seq<Byte>, m': seq<Byte>, p: nat, n: nat)
    requires |m'| == |m| && Same(m, m', 0, p) && Same(m, m', p + 8, |m|) && n >= 8
    ensures Same(m, m', p + n, |m|)
  {
  }

  /** What the routing knows of a small live allocation. */
  lemma SmallHeld(l: Layout, s: State, p: nat)
    requires Inv(l, s) && l.base > 0 && p in s.user && s.user[p] <= SMALL_OBJ_LIMIT
    ensures var i := PoolIndex(s.user[p]);
            i < |l.bufs| && i < |s.pools| && Pool.SlotHolds(s.pools[i], PoolBuffer(l, i), p, s.user[p]) &&
            s.pools[i].blockSize == POOL_SIZES[i] && p != NULL &&
            var k := Pool.SlotNumberOf(PoolBuffer(l, i), POOL_SIZES[i], p);
            FreeNext(l, s, p) == SetPool(s, i, PoolModel.Free(s.pools[i], k)).(user := s.user - {p}) &&
            p == Pool.SlotAt(PoolBuffer(l, i), POOL_SIZES[i], k) && k in s.pools[i].live
  {
    var i := PoolIndex(s.user[p]);
    assert Holds(l, s, p, s.user[p]);
    assert PoolOk(s.pools[i], i);
    hide BuddyOk, PageOk, Routed;
  }

  /** Every live page allocation fits its mapping, which is not the registry's. */
  lemma PageCovers(page: Page.Context)
    requires page.Valid()
    ensures forall a :: a in page.live ==>
              a in page.os.maps - {page.registryAddr} && a != NULL && 0 < page.live[a] <= page.os.maps[a] &&
              page.os.maps[a] == Page.RoundUp(page.live[a], page.pageSize)
    ensures Among(page.Foreign(), page.os.maps - {page.registryAddr}) && page.live.Keys !! page.Foreign().Keys
  {
    forall a | a in page.live
      ensures a != NULL && 0 < page.live[a] <= page.os.maps[a]
    {
      Page.LiveFits(page.os.maps, page.registryAddr, page.capacity, page.live, page.pageSize, |page.os.heap.bytes|, a);
    }
  }

  /** The live page allocations share no byte. */
  lemma PageApart(page: Page.Context)
    requires page.Valid()
    ensures Apart(page.live)
  {
    PageCovers(page);
    hide Page.Shows, Page.Owns;
    forall a, b | a in page.live && b in page.live && a != b
      ensures Disjoint(a, page.live[a], b, page.live[b])
    {
      assert Disjoint(a, page.os.maps[a], b, page.os.maps[b]);
    }
  }

  lemma LargeAnswer(l: Layout, s: State, size: nat, p: nat)
    requires PartsOk(l, s) && MEDIUM_OBJ_LIMIT < size
    requires p != NULL ==> p !in s.page && Apart(s.page[p := size])
    ensures AllocNext(l, s, size, p, if p == NULL then s else s.(page := s.page[p := size], user := s.user[p := size]))
  {
    hide PartsOk, Apart;
  }

  lemma MediumAnswer(l: Layout, s: State, size: nat, p: nat, st: BuddyModel.State, buddy: Buddy.Context)
    requires PartsOk(l, s) && SMALL_OBJ_LIMIT < size <= MEDIUM_OBJ_LIMIT && l.base > 0
    requires buddy.maxOrder == BUDDY_ORDER && buddy.buffer == l.base && buddy.AllocDone(s.buddy, size, st, p)
    ensures AllocNext(l, s, size, p, if p == NULL then s else s.(buddy := st, user := s.user[p := size]))
    ensures p == NULL ==> st == s.buddy
  {
    hide PoolsOk, BufsOk, PageOk, BuddyModel.Alloc, BuddyModel.Inv, SizeOf;
    BuddyModel.AllocKeepsInv(s.buddy, size);
  }

  lemma BuddyFacts(l: Layout, s: State)
    requires Inv(l, s)
    ensures BuddyOk(l, s.buddy) && BuddyModel.Inv(s.buddy) && BuddyModel.MaxOrder(s.buddy.lists) == BUDDY_ORDER
  {
  }

  lemma SlotExists(l: Layout, s: State, i: nat, k: nat)
    requires PartsOk(l, s) && i < POOL_COUNT && k in s.pools[i].live
    ensures k < POOL_BLOCKS[i]
  {
    assert PoolOk(s.pools[i], i);
  }

  lemma DistinctBufs(l: Layout, s: State)
    requires PartsOk(l, s)
    ensures forall i, j :: 0 <= i < POOL_COUNT && 0 <= j < POOL_COUNT && i != j ==> l.bufs[i] != l.bufs[j]
    ensures forall b :: b in l.bufs ==> b in s.buddy.live
  {
  }

  lemma InvParts(l: Layout, s: State)
    requires Inv(l, s)
    ensures PartsOk(l, s) && |s.pools| == POOL_COUNT && |l.bufs| == POOL_COUNT
  {
  }

  ghost function SmallResult(s: State, i: nat, st: PoolModel.State, p: nat, size: nat): State
    requires i < |s.pools|
  {
    if p == NULL then s else SetPool(s, i, st).(user := s.user[p := size])
  }

  lemma SmallAnswer(l: Layout, s: State, size: nat, p: nat)
    requires PartsOk(l, s) && 0 < size <= SMALL_OBJ_LIMIT && l.base > 0
    requires p == Pool.Answer(PoolBuffer(l, PoolIndex(size)), POOL_SIZES[PoolIndex(size)],
                              PoolModel.Alloc(s.pools[PoolIndex(size)], size).1)
    ensures var i := PoolIndex(size);
            var st := PoolModel.Alloc(s.pools[i], size).0;
            var s' := SmallResult(s, i, st, p, size);
            AllocNext(l, s, size, p, s') && s'.pools == s.pools[i := st] && s'.page == s.page && s'.buddy == s.buddy
  {
    hide PoolIndex, BuddyOk, PageOk, PoolModel.Inv;
    var i := PoolIndex(size);
    AnswerPositive(l, i, PoolModel.Alloc(s.pools[i], size).1);
    hide PoolBuffer;
    if p == NULL {
      assert s.pools[i := s.pools[i]] == s.pools;
    }
  }

  lemma AnswerPositive(l: Layout, i: nat, r: PoolModel.AllocResult)
    requires i < |l.bufs| && i < POOL_COUNT && l.base > 0
    ensures Pool.Answer(PoolBuffer(l, i), POOL_SIZES[i], r) == NULL <==> r.Failed?
  {
  }

  /** A request of zero bytes is answered with NULL. */
  lemma NothingAsked(l: Layout, s: State)
    requires Inv(l, s)
    ensures PartsOk(l, s) && AllocNext(l, s, 0, NULL, s)
  {
  }
}
