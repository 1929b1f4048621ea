/** What the tiers of the general allocator hold is exactly what the users hold, beside the allocator's own
    memory: nothing is ever left behind. */
module GenExact {
  import opened Order
  import opened Memory
  import opened Sequences
  import opened BuddyTree
  import opened GenRouting
  import opened Os
  import opened GenModel
  import opened GenFacts
  import BuddyModel
  import BuddyTheorems
  import Buddy
  import Pool
  import PoolModel

  function SlotAddr(l: Layout, i: nat, k: nat): nat
    requires i < |l.bufs| && i < POOL_COUNT
  {
    Pool.SlotAt(PoolBuffer(l, i), POOL_SIZES[i], k)
  }

  /** A user of pool i is in slot k. */
  ghost predicate SlotUsed(l: Layout, user: map<nat, nat>, i: nat, k: nat)
    requires i < |l.bufs| && i < POOL_COUNT
  {
    var p := SlotAddr(l, i, k);
    p in user && user[p] <= SMALL_OBJ_LIMIT && PoolIndex(user[p]) == i
  }

  /** A medium user is in block b. */
  ghost predicate BlockUsed(l: Layout, user: map<nat, nat>, b: Block)
  {
    && b.level <= BUDDY_ORDER
    && var p := l.base + Lo(BUDDY_ORDER, b);
       p in user && SMALL_OBJ_LIMIT < user[p] <= MEDIUM_OBJ_LIMIT && BuddyModel.LevelOf(BUDDY_ORDER, user[p]) == b.level
  }

  /** A large user is at a. */
  ghost predicate PageUsed(user: map<nat, nat>, a: nat)
  {
    a in user && user[a] > MEDIUM_OBJ_LIMIT
  }

  /** Whatever a tier holds has its user, or is the allocator's own. */
  ghost predicate Exact(l: Layout, s: State)
  {
    SlotsExact(l, s) && BlocksExact(l, s) && PagesExact(l, s)
  }

  ghost predicate SlotsExact(l: Layout, s: State)
  {
    && |l.bufs| == |s.pools| == POOL_COUNT
    && forall i: nat, k: nat :: i < POOL_COUNT && k in s.pools[i].live ==> SlotUsed(l, s.user, i, k)
  }

  ghost predicate BlocksExact(l: Layout, s: State)
  {
    forall b :: b in s.buddy.live && b !in l.bufs ==> BlockUsed(l, s.user, b)
  }

  ghost predicate PagesExact(l: Layout, s: State)
  {
    forall a :: a in s.page && a !in l.inner ==> PageUsed(s.user, a)
  }

  /* ------------------------------------------------------- both directions */

  lemma SlotOfUser(l: Layout, s: State, i: nat, k: nat)
    requires Inv(l, s) && |l.bufs| == |s.pools| == POOL_COUNT && i < POOL_COUNT && SlotUsed(l, s.user, i, k)
    ensures k in s.pools[i].live && s.pools[i].live[k] == s.user[SlotAddr(l, i, k)]
  {
    var p := SlotAddr(l, i, k);
    assert Holds(l, s, p, s.user[p]);
    assert PoolOk(s.pools[i], i) by { InvParts(l, s); }
    hide Inv, PoolIndex, PoolBuffer;
    PoolBytes(i);
    Pool.SlotNumber(PoolBuffer(l, i), POOL_SIZES[i], k);
  }

  lemma BlockOfUser(l: Layout, s: State, b: Block, p: nat)
    requires Inv(l, s) && BlockUsed(l, s.user, b) && b.level <= BUDDY_ORDER && p == l.base + Lo(BUDDY_ORDER, b)
    ensures p in s.user && b in s.buddy.live && s.buddy.live[b] == s.user[p] && b !in l.bufs
  {
    hide Inv, SizeOf, Lo, BuddyModel.LevelOf, GetOrder;
    UserIsHeld(l, s, p);
    BlockIsFor(l, b, s.user[p]);
    MediumIsHeld(l, s, p, s.user[p]);
  }

  lemma MediumIsHeld(l: Layout, s: State, p: nat, n: nat)
    requires SMALL_OBJ_LIMIT < n <= MEDIUM_OBJ_LIMIT && Holds(l, s, p, n)
    ensures Buddy.BlockHolds(s.buddy.live, l.base, BUDDY_ORDER, p, n)
    ensures Buddy.BlockFor(l.base, BUDDY_ORDER, p, n) !in l.bufs
  {
    hide SizeOf, Lo, BuddyModel.LevelOf;
  }

  /** The address and the size of a medium user lead back to its block. */
  lemma BlockIsFor(l: Layout, b: Block, size: nat)
    requires b.level <= BUDDY_ORDER && BuddyModel.LevelOf(BUDDY_ORDER, size) == b.level
    ensures Buddy.BlockFor(l.base, BUDDY_ORDER, l.base + Lo(BUDDY_ORDER, b), size) == b
  {
    hide SizeOf, Lo, BuddyModel.LevelOf;
    OffsetIsIndex(b);
  }

  lemma OffsetIsIndex(b: Block)
    requires b.level <= BUDDY_ORDER
    ensures Lo(BUDDY_ORDER, b) / SizeOf(BUDDY_ORDER, b.level) == b.index
  {
    Buddy.OffsetToIndex(BUDDY_ORDER, b);
  }

  /** The tiers hold exactly: in pool i, the slots of the users routed to it; in the buddy allocator, the
      pools' buffers and the blocks of the medium users; in the page allocator, the allocator's own memory
      and the large users. */
  lemma TiersAreUsers(l: Layout, s: State)
    requires Inv(l, s) && Exact(l, s)
    ensures |l.bufs| == |s.pools| == POOL_COUNT
    ensures forall i: nat, k: nat :: i < POOL_COUNT ==> (k in s.pools[i].live <==> SlotUsed(l, s.user, i, k))
    ensures forall b :: b in s.buddy.live <==> b in l.bufs || BlockUsed(l, s.user, b)
    ensures forall a :: a in s.page <==> a in l.inner || PageUsed(s.user, a)
  {
    InvParts(l, s);
    DistinctBufs(l, s);
    forall i: nat, k: nat | i < POOL_COUNT && SlotUsed(l, s.user, i, k)
      ensures k in s.pools[i].live
    {
      SlotOfUser(l, s, i, k);
    }
    forall b | BlockUsed(l, s.user, b)
      ensures b in s.buddy.live
    {
      BlockOfUser(l, s, b, l.base + Lo(BUDDY_ORDER, b));
    }
    forall a | PageUsed(s.user, a)
      ensures a in s.page
    {
      assert Holds(l, s, a, s.user[a]);
    }
    hide PoolsOk, BuddyOk, Routed, SlotUsed, BlockUsed, PageUsed;
  }

  /* -------------------------------------------------- a user more, a user less */

  ghost predicate SameBut(user: map<nat, nat>, user': map<nat, nat>, p: nat)
  {
    forall a :: a in user && a != p ==> a in user' && user'[a] == user[a]
  }

  /** A tier that p is no user of is not concerned. */
  lemma OtherSlots(l: Layout, s: State, s': State, p: nat)
    requires SlotsExact(l, s) && s'.pools == s.pools && SameBut(s.user, s'.user, p)
    requires p in s.user ==> s.user[p] > SMALL_OBJ_LIMIT
    ensures SlotsExact(l, s')
  {
    hide PoolIndex, PoolBuffer, Pool.SlotAt;
    forall i: nat, k: nat | i < POOL_COUNT && k in s'.pools[i].live
      ensures SlotUsed(l, s'.user, i, k)
    {
      assert SlotUsed(l, s.user, i, k);
    }
  }

  lemma OtherBlocks(l: Layout, s: State, s': State, p: nat)
    requires BlocksExact(l, s) && s'.buddy == s.buddy && SameBut(s.user, s'.user, p)
    requires p in s.user ==> !(SMALL_OBJ_LIMIT < s.user[p] <= MEDIUM_OBJ_LIMIT)
    ensures BlocksExact(l, s')
  {
    hide SizeOf, Lo, BuddyModel.LevelOf, GetOrder;
    forall b | b in s'.buddy.live && b !in l.bufs
      ensures BlockUsed(l, s'.user, b)
    {
      assert BlockUsed(l, s.user, b);
    }
  }

  lemma OtherPages(l: Layout, s: State, s': State, p: nat)
    requires PagesExact(l, s) && s'.page == s.page && SameBut(s.user, s'.user, p)
    requires p in s.user ==> s.user[p] <= MEDIUM_OBJ_LIMIT
    ensures PagesExact(l, s')
  {
    forall a | a in s'.page && a !in l.inner
      ensures PageUsed(s'.user, a)
    {
      assert PageUsed(s.user, a);
    }
  }

  /** A slot that is served has its user. */
  lemma SlotServed(l: Layout, s: State, s': State, i: nat, k: nat, st: PoolModel.State, size: nat)
    requires SlotsExact(l, s) && i < POOL_COUNT && i == PoolIndex(size) && size <= SMALL_OBJ_LIMIT
    requires st.live == s.pools[i].live[k := size] && SlotAddr(l, i, k) !in s.user
    requires s'.pools == s.pools[i := st] && s'.user == s.user[SlotAddr(l, i, k) := size]
    ensures SlotsExact(l, s')
  {
    hide PoolIndex, PoolBuffer, Pool.SlotAt;
    forall j: nat, x: nat | j < POOL_COUNT && x in s'.pools[j].live
      ensures SlotUsed(l, s'.user, j, x)
    {
      assert (j == i && x == k) || SlotUsed(l, s.user, j, x);
    }
  }

  /** The slot whose user goes is given back. */
  lemma SlotReturned(l: Layout, s: State, s': State, i: nat, p: nat, st: PoolModel.State)
    requires SlotsExact(l, s) && i < POOL_COUNT && p in s.user && i == PoolIndex(s.user[p]) && PoolBuffer(l, i) <= p
    requires st.live == s.pools[i].live - {Pool.SlotNumberOf(PoolBuffer(l, i), POOL_SIZES[i], p)}
    requires s'.pools == s.pools[i := st] && s'.user == s.user - {p}
    ensures SlotsExact(l, s')
  {
    hide PoolIndex, PoolBuffer, Pool.SlotAt;
    PoolBytes(i);
    forall j: nat, x: nat | j < POOL_COUNT && x in s'.pools[j].live
      ensures SlotUsed(l, s'.user, j, x)
    {
      assert SlotUsed(l, s.user, j, x);
      Pool.SlotNumber(PoolBuffer(l, j), POOL_SIZES[j], x);
    }
  }

  /** A slot whose user asks for another size of the same pool keeps its user. */
  lemma SlotResized(l: Layout, s: State, s': State, i: nat, p: nat, newSize: nat, st: PoolModel.State)
    requires SlotsExact(l, s) && i < POOL_COUNT && p in s.user && i == PoolIndex(s.user[p]) == PoolIndex(newSize)
    requires newSize <= SMALL_OBJ_LIMIT && st.live.Keys == s.pools[i].live.Keys
    requires s'.pools == s.pools[i := st] && s'.user == s.user[p := newSize]
    ensures SlotsExact(l, s')
  {
    hide PoolIndex, PoolBuffer, Pool.SlotAt;
    forall j: nat, x: nat | j < POOL_COUNT && x in s'.pools[j].live
      ensures SlotUsed(l, s'.user, j, x)
    {
      assert SlotUsed(l, s.user, j, x);
    }
  }

  /** A block that is served has its user. */
  lemma BlockServed(l: Layout, s: State, s': State, b: Block, size: nat)
    requires BlocksExact(l, s) && SMALL_OBJ_LIMIT < size <= MEDIUM_OBJ_LIMIT && b.level <= BUDDY_ORDER
    requires BuddyModel.LevelOf(BUDDY_ORDER, size) == b.level && s'.buddy.live == s.buddy.live[b := size]
    requires l.base + Lo(BUDDY_ORDER, b) !in s.user && s'.user == s.user[l.base + Lo(BUDDY_ORDER, b) := size]
    ensures BlocksExact(l, s')
  {
    hide SizeOf, Lo, BuddyModel.LevelOf, GetOrder;
    forall x | x in s'.buddy.live && x !in l.bufs
      ensures BlockUsed(l, s'.user, x)
    {
      assert x == b || BlockUsed(l, s.user, x);
    }
  }

  /** The block whose user goes is given back. */
  lemma BlockReturned(l: Layout, s: State, s': State, p: nat)
    requires BlocksExact(l, s) && p in s.user && l.base <= p && 0 <= BuddyModel.LevelOf(BUDDY_ORDER, s.user[p])
    requires s'.buddy.live == s.buddy.live - {Buddy.BlockFor(l.base, BUDDY_ORDER, p, s.user[p])}
    requires s'.user == s.user - {p}
    ensures BlocksExact(l, s')
  {
    hide SizeOf, Lo, BuddyModel.LevelOf, GetOrder, Buddy.BlockFor;
    forall x | x in s'.buddy.live && x !in l.bufs
      ensures BlockUsed(l, s'.user, x)
    {
      assert BlockUsed(l, s.user, x);
      if l.base + Lo(BUDDY_ORDER, x) == p {
        BlockIsFor(l, x, s.user[p]);
      }
    }
  }

  /* ------------------------------------------------------------------ every call */

  lemma SmallAllocKeepsExact(l: Layout, s: State, size: nat, p: nat, s': State)
    requires Inv(l, s) && Exact(l, s) && 0 < size <= SMALL_OBJ_LIMIT && AllocNext(l, s, size, p, s')
    requires PoolModel.Alloc(s.pools[PoolIndex(size)], size).1.Slot? && p !in s.user
    ensures Exact(l, s')
  {
    hide Inv, PartsOk, Holds, PoolIndex, PoolBuffer, Pool.SlotAt, SlotsExact, BlocksExact, PagesExact;
    InvParts(l, s);
    var i := PoolIndex(size);
    var (st, r) := PoolModel.Alloc(s.pools[i], size);
    SlotServed(l, s, s', i, r.k, st, size);
    OtherBlocks(l, s, s', p);
    OtherPages(l, s, s', p);
  }

  lemma MediumAllocKeepsExact(l: Layout, s: State, size: nat, p: nat, s': State)
    requires Inv(l, s) && Exact(l, s) && SMALL_OBJ_LIMIT < size <= MEDIUM_OBJ_LIMIT && AllocNext(l, s, size, p, s')
    requires BuddyModel.Alloc(s.buddy, size).block.Some? && p !in s.user
    ensures Exact(l, s')
  {
    hide Inv, PartsOk, Holds, BuddyModel.Alloc, SizeOf, Lo, BuddyModel.LevelOf, SlotsExact, BlocksExact, PagesExact;
    BuddyFacts(l, s);
    BuddyModel.AllocKeepsInv(s.buddy, size);
    BlockServed(l, s, s', BuddyModel.Alloc(s.buddy, size).block.value, size);
    OtherSlots(l, s, s', p);
    OtherPages(l, s, s', p);
  }

  lemma LargeAllocKeepsExact(l: Layout, s: State, size: nat, p: nat, s': State)
    requires Exact(l, s) && size > MEDIUM_OBJ_LIMIT && p !in s.user
    requires s' == s.(page := s.page[p := size], user := s.user[p := size])
    ensures Exact(l, s')
  {
    hide SlotsExact, BlocksExact;
    OtherSlots(l, s, s', p);
    OtherBlocks(l, s, s', p);
    forall a | a in s'.page && a !in l.inner
      ensures PageUsed(s'.user, a)
    {
      assert a == p || PageUsed(s.user, a);
    }
  }

  /** alloc: what the tier now holds beside what it held is the new user. */
  lemma AllocKeepsExact(l: Layout, s: State, size: nat, p: nat, s': State)
    requires Inv(l, s) && l.base > 0 && Exact(l, s) && AllocNext(l, s, size, p, s')
    ensures Exact(l, s')
  {
    hide Inv, PartsOk, Exact, PoolModel.Alloc, BuddyModel.Alloc, SizeOf, Lo, Pool.SlotAt, PoolBuffer, PoolIndex;
    AllocKeepsInv(l, s, size, p, s');
    InvParts(l, s);
    PartsBasics(l, s);
    if p == NULL {
    } else if size <= SMALL_OBJ_LIMIT {
      SmallAllocKeepsExact(l, s, size, p, s');
    } else if size <= MEDIUM_OBJ_LIMIT {
      MediumAllocKeepsExact(l, s, size, p, s');
    } else {
      LargeAllocKeepsExact(l, s, size, p, s');
    }
  }

  lemma SmallFreeKeepsExact(l: Layout, s: State, p: nat)
    requires Inv(l, s) && l.base > 0 && Exact(l, s) && p in s.user && s.user[p] <= SMALL_OBJ_LIMIT
    ensures Exact(l, FreeNext(l, s, p))
  {
    hide Inv, Holds, FreeNext, Pool.SlotAt, PoolBuffer, PoolIndex, SlotsExact, BlocksExact, PagesExact,
      Pool.SlotNumberOf;
    var s', i := FreeNext(l, s, p), PoolIndex(s.user[p]);
    SmallHeld(l, s, p);
    var st := PoolModel.Free(s.pools[i], Pool.SlotNumberOf(PoolBuffer(l, i), POOL_SIZES[i], p));
    SlotReturned(l, s, s', i, p, st);
    OtherBlocks(l, s, s', p);
    OtherPages(l, s, s', p);
  }

  lemma MediumFreeKeepsExact(l: Layout, s: State, p: nat)
    requires Inv(l, s) && l.base > 0 && Exact(l, s) && p in s.user
    requires SMALL_OBJ_LIMIT < s.user[p] <= MEDIUM_OBJ_LIMIT
    ensures Exact(l, FreeNext(l, s, p))
  {
    hide Inv, Holds, FreeNext, SizeOf, Lo, SlotsExact, BlocksExact, PagesExact, BuddyModel.Merge, BuddyModel.LevelOf,
      Buddy.BlockFor;
    var s' := FreeNext(l, s, p);
    MediumHeld(l, s, p);
    BlockReturned(l, s, s', p);
    OtherSlots(l, s, s', p);
    OtherPages(l, s, s', p);
  }

  lemma LargeFreeKeepsExact(l: Layout, s: State, p: nat)
    requires Inv(l, s) && l.base > 0 && Exact(l, s) && p in s.user && s.user[p] > MEDIUM_OBJ_LIMIT
    ensures Exact(l, FreeNext(l, s, p))
  {
    hide Inv, Holds, FreeNext, SlotsExact, BlocksExact, PagesExact;
    var s' := FreeNext(l, s, p);
    LargeHeld(l, s, p);
    OtherSlots(l, s, s', p);
    OtherBlocks(l, s, s', p);
    LargeGone(l, s, s', p);
  }

  /** free: the tier lets go of what the user held. */
  lemma FreeKeepsExact(l: Layout, s: State, p: nat)
    requires Inv(l, s) && l.base > 0 && Exact(l, s) && p in s.user
    ensures Exact(l, FreeNext(l, s, p))
  {
    hide Inv, Exact, FreeNext;
    if s.user[p] <= SMALL_OBJ_LIMIT {
      SmallFreeKeepsExact(l, s, p);
    } else if s.user[p] <= MEDIUM_OBJ_LIMIT {
      MediumFreeKeepsExact(l, s, p);
    } else {
      LargeFreeKeepsExact(l, s, p);
    }
  }

  lemma LargeGone(l: Layout, s: State, s': State, p: nat)
    requires PagesExact(l, s) && s'.page == s.page - {p} && s'.user == s.user - {p}
    ensures PagesExact(l, s')
  {
    forall a | a in s'.page && a !in l.inner
      ensures PageUsed(s'.user, a)
    {
      assert PageUsed(s.user, a);
    }
  }

  lemma SlotReallocKeepsExact(l: Layout, s: State, p: nat, newSize: nat, s': State)
    requires Inv(l, s) && l.base > 0 && Exact(l, s) && p in s.user && s.user[p] <= SMALL_OBJ_LIMIT
    requires 0 < newSize <= SMALL_OBJ_LIMIT && PoolIndex(newSize) == PoolIndex(s.user[p])
    requires s' == SlotResult(l, s, p, newSize)
    ensures Exact(l, s')
  {
    hide Inv, Holds, FreeNext, Pool.SlotAt, PoolBuffer, PoolIndex, SlotsExact, BlocksExact, PagesExact,
      Pool.SlotNumberOf;
    SmallHeld(l, s, p);
    var i := PoolIndex(newSize);
    var k := Pool.SlotNumberOf(PoolBuffer(l, i), POOL_SIZES[i], p);
    var st := PoolModel.Realloc(s.pools[i], k, newSize);
    assert st.live.Keys == s.pools[i].live.Keys;
    SlotResized(l, s, s', i, p, newSize, st);
    OtherBlocks(l, s, s', p);
    OtherPages(l, s, s', p);
  }

  lemma PageMoveKeepsExact(l: Layout, s: State, p: nat, newSize: nat, q: nat, s': State)
    requires Inv(l, s) && l.base > 0 && Exact(l, s) && p in s.user
    requires s.user[p] > MEDIUM_OBJ_LIMIT && newSize > MEDIUM_OBJ_LIMIT && q !in s.user - {p}
    requires s' == s.(page := (s.page - {p})[q := newSize], user := (s.user - {p})[q := newSize])
    ensures Exact(l, s')
  {
    hide Inv, Exact, FreeNext, Holds;
    LargeHeld(l, s, p);
    FreeKeepsExact(l, s, p);
    LargeAllocKeepsExact(l, FreeNext(l, s, p), newSize, q, s');
  }

  lemma MoveKeepsExact(l: Layout, s: State, p: nat, newSize: nat, q: nat, s': State)
    requires Inv(l, s) && l.base > 0 && Exact(l, s) && p in s.user && Moves(l, s, p, newSize, q, s')
    ensures Exact(l, s')
  {
    hide Inv, PartsOk, Exact, AllocNext, FreeNext;
    InvParts(l, s);
    if q != NULL {
      var s1 :| AllocNext(l, s, newSize, q, s1) && Inv(l, s1) && p in s1.user && s' == FreeNext(l, s1, p);
      AllocKeepsExact(l, s, newSize, q, s1);
      FreeKeepsExact(l, s1, p);
    }
  }

  /** realloc: in place, by the system, or as a new allocation with a free of the old one. */
  lemma ReallocKeepsExact(l: Layout, s: State, p: nat, newSize: nat, q: nat, s': State)
    requires Inv(l, s) && l.base > 0 && Exact(l, s) && p in s.user && newSize > 0
    requires ReallocNext(l, s, p, newSize, q, s')
    ensures Exact(l, s')
  {
    var n := s.user[p];
    hide Inv, PartsOk, Exact, Moves, SlotResult, Holds, PoolIndex, PoolBuffer, Pool.SlotNumberOf, PoolModel.Realloc,
      Apart;
    UserIsHeld(l, s, p);
    ReallocKeepsInv(l, s, p, newSize, q, s');
    if n == newSize {
    } else if n <= SMALL_OBJ_LIMIT && newSize <= SMALL_OBJ_LIMIT && PoolIndex(n) == PoolIndex(newSize) {
      SlotResultIs(l, s, p, newSize, s');
      SlotReallocKeepsExact(l, s, p, newSize, s');
    } else if n > MEDIUM_OBJ_LIMIT && newSize > MEDIUM_OBJ_LIMIT {
      if q != NULL {
        PageMoveKeepsExact(l, s, p, newSize, q, s');
      }
    } else {
      MoveKeepsExact(l, s, p, newSize, q, s');
    }
  }

  lemma SlotResultIs(l: Layout, s: State, p: nat, newSize: nat, s': State)
    requires Inv(l, s) && l.base > 0 && p in s.user && s.user[p] <= SMALL_OBJ_LIMIT && newSize <= SMALL_OBJ_LIMIT
    requires 0 < newSize != s.user[p] && PoolIndex(newSize) == PoolIndex(s.user[p])
    requires ReallocNext(l, s, p, newSize, p, s')
    ensures s' == SlotResult(l, s, p, newSize)
  {
    hide Inv, PoolIndex, PoolBuffer, Pool.SlotNumberOf, PoolModel.Realloc, Holds;
    UserIsHeld(l, s, p);
    SmallHeld(l, s, p);
  }

  /** Over any run, whatever the operating system answers, the tiers hold exactly what the users hold and the
      allocator's own memory. */
  lemma {:induction false} RunsKeepExact(l: Layout, s: State, ops: seq<Op>, qs: seq<nat>, s': State)
    requires |qs| == |ops| && l.base > 0 && Inv(l, s) && Exact(l, s) && Runs(l, s, ops, qs, s')
    ensures Inv(l, s') && Exact(l, s')
    decreases |ops|
  {
    hide PartsOk, Routed, Exact, Holds, AllocNext, FreeNext, ReallocNext;
    if ops != [] {
      var s1 :| Next(l, s, ops[0], qs[0], s1) && Runs(l, s1, ops[1..], qs[1..], s');
      NextKeepsInv(l, s, ops[0], qs[0], s1);
      NextKeepsExact(l, s, ops[0], qs[0], s1);
      RunsKeepExact(l, s1, ops[1..], qs[1..], s');
    }
  }

  lemma NextKeepsExact(l: Layout, s: State, op: Op, q: nat, s': State)
    requires Inv(l, s) && l.base > 0 && Exact(l, s) && Next(l, s, op, q, s')
    ensures Exact(l, s')
  {
    hide PartsOk, Routed, Holds, Exact, AllocNext, FreeNext, ReallocNext;
    match op
    case DoAlloc(size) => AllocKeepsExact(l, s, size, q, s');
    case DoFree(p) => FreeKeepsExact(l, s, p);
    case DoRealloc(p, newSize) =>
      if newSize == 0 {
        FreeKeepsExact(l, s, p);
      } else {
        ReallocKeepsExact(l, s, p, newSize, q, s');
      }
  }

  /* --------------------------------------------- failure, told by the users alone */

  /** The users that are routed to pool i. */
  ghost function RoutedTo(user: map<nat, nat>, i: nat): set<nat>
  {
    set p | p in user && user[p] <= SMALL_OBJ_LIMIT && PoolIndex(user[p]) == i
  }

  /** Every slot in ks has its address in ps, and every address in ps its slot in ks: there are as many. */
  lemma {:induction false} AsManySlots(l: Layout, i: nat, ks: set<nat>, ps: set<nat>)
    requires i < |l.bufs| && i < POOL_COUNT
    requires forall k :: k in ks ==> SlotAddr(l, i, k) in ps
    requires forall p :: p in ps ==> exists k :: k in ks && SlotAddr(l, i, k) == p
    ensures |ks| == |ps|
    decreases ks
  {
    hide PoolBuffer, Pool.SlotAt;
    if ks != {} {
      var k :| k in ks;
      var p := SlotAddr(l, i, k);
      forall x | x in ks && x != k
        ensures SlotAddr(l, i, x) != p
      {
        PoolBytes(i);
        Pool.SlotNumber(PoolBuffer(l, i), POOL_SIZES[i], x);
        Pool.SlotNumber(PoolBuffer(l, i), POOL_SIZES[i], k);
      }
      AsManySlots(l, i, ks - {k}, ps - {p});
    }
  }

  /** A pool has as many live slots as users are routed to it. */
  lemma SlotsAreUsers(l: Layout, s: State, i: nat)
    requires Inv(l, s) && l.base > 0 && Exact(l, s) && i < POOL_COUNT
    ensures |s.pools| == POOL_COUNT && |s.pools[i].live| == |RoutedTo(s.user, i)|
  {
    hide Inv, PartsOk, PoolIndex, PoolBuffer, Pool.SlotAt, FreeNext, BlocksExact, PagesExact,
      Pool.SlotNumberOf;
    InvParts(l, s);
    var ks, ps := s.pools[i].live.Keys, RoutedTo(s.user, i);
    forall k | k in ks
      ensures SlotAddr(l, i, k) in ps
    {
      assert SlotUsed(l, s.user, i, k);
    }
    forall p | p in ps
      ensures exists k :: k in ks && SlotAddr(l, i, k) == p
    {
      SmallHeld(l, s, p);
      var k := Pool.SlotNumberOf(PoolBuffer(l, i), POOL_SIZES[i], p);
      assert k in ks && SlotAddr(l, i, k) == p;
    }
    AsManySlots(l, i, ks, ps);
  }

  /** A small request fails exactly when there are as many users of its pool as the pool has slots. */
  lemma SmallAllocIsComplete(l: Layout, s: State, size: nat, p: nat, s': State)
    requires Inv(l, s) && l.base > 0 && Exact(l, s) && 0 < size <= SMALL_OBJ_LIMIT && AllocNext(l, s, size, p, s')
    ensures p == NULL <==> |RoutedTo(s.user, PoolIndex(size))| == POOL_BLOCKS[PoolIndex(size)]
  {
    hide Inv, PartsOk, PoolIndex, PoolModel.Inv, Exact, Pool.SlotAt, PoolModel.Alloc, RoutedTo;
    InvParts(l, s);
    var i := PoolIndex(size);
    PoolIs(l, s, i);
    SlotsAreUsers(l, s, i);
    PoolIndexIsBestFit(size);
    PoolModel.AllocIsComplete(s.pools[i], size);
    match PoolModel.Alloc(s.pools[i], size).1
    case Failed =>
    case Slot(k) => Pool.SlotStart(PoolBuffer(l, i), POOL_SIZES[i], k);
  }

  lemma PoolIs(l: Layout, s: State, i: nat)
    requires PartsOk(l, s) && i < POOL_COUNT
    ensures PoolModel.Inv(s.pools[i]) && s.pools[i].blockSize == POOL_SIZES[i] && s.pools[i].total == POOL_BLOCKS[i]
  {
    hide BuddyOk, PageOk, PoolModel.Inv;
    assert PoolOk(s.pools[i], i);
  }

  /** The bytes that a medium user keeps from others: the power of two that its size is rounded up to. */
  ghost function Reserved(size: nat): nat
  {
    Pow2(GetOrder(size))
  }

  /** Number i of the aligned regions that could serve a medium request touches a pool's buffer or the bytes
      reserved for a medium user. */
  ghost predicate RegionTaken(l: Layout, user: map<nat, nat>, size: nat, i: nat)
  {
    var n := Reserved(size);
    var a := l.base + i * n;
    || (exists j :: 0 <= j < |l.bufs| && !Disjoint(a, n, PoolBuffer(l, j), POOL_BUFFER))
    || (exists u :: u in user && SMALL_OBJ_LIMIT < user[u] <= MEDIUM_OBJ_LIMIT &&
                    !Disjoint(a, n, u, Reserved(user[u])))
  }

  /** A medium request is rounded up to a block between 4 KiB and 1 MiB. */
  lemma MediumLevel(size: nat)
    requires SMALL_OBJ_LIMIT < size <= MEDIUM_OBJ_LIMIT
    ensures 4 <= BuddyModel.LevelOf(BUDDY_ORDER, size) <= 12
    ensures SizeOf(BUDDY_ORDER, BuddyModel.LevelOf(BUDDY_ORDER, size)) == Reserved(size)
    ensures Pow2(BuddyModel.LevelOf(BUDDY_ORDER, size)) * Reserved(size) == Pow2(BUDDY_ORDER)
  {
    hide GetOrder;
    var order := GetOrder(size);
    GetOrderIsCeilLog2(size, order);
    Pow2Values();
    Pow2Add(4, 16);
    Pow2Add(11, 5);
    if order > 20 {
      Pow2Monotone(20, order - 1);
    } else if order < 12 {
      Pow2Monotone(order, 11);
    }
    Pow2Add(BUDDY_ORDER - order, order);
  }

  lemma BlockBytes(l: Layout, b: Block, level: nat, i: nat)
    requires b.level <= BUDDY_ORDER && level <= BUDDY_ORDER
    ensures var n := SizeOf(BUDDY_ORDER, level);
            DisjointBytes(BUDDY_ORDER, Block(level, i), b) <==>
            Disjoint(l.base + i * n, n, l.base + Lo(BUDDY_ORDER, b), SizeOf(BUDDY_ORDER, b.level))
  {
    hide SizeOf;
  }

  lemma BufBytes(l: Layout, s: State, j: nat)
    requires PartsOk(l, s) && j < POOL_COUNT
    ensures var b := l.bufs[j];
            b in s.buddy.live && b.level <= BUDDY_ORDER && SizeOf(BUDDY_ORDER, b.level) == POOL_BUFFER &&
            PoolBuffer(l, j) == l.base + Lo(BUDDY_ORDER, b)
  {
    hide PoolsOk, PageOk, BuddyModel.Inv, SizeOf;
    PoolBufferSize();
    assert l.bufs[j] == Block(POOL_LEVEL, l.bufs[j].index);
  }

  /** The bytes of the block that holds a medium user. */
  lemma UserBytes(l: Layout, s: State, u: nat)
    requires Inv(l, s) && u in s.user && SMALL_OBJ_LIMIT < s.user[u] <= MEDIUM_OBJ_LIMIT
    ensures l.base <= u && 0 <= BuddyModel.LevelOf(BUDDY_ORDER, s.user[u])
    ensures var b := Buddy.BlockFor(l.base, BUDDY_ORDER, u, s.user[u]);
            b in s.buddy.live && b.level <= BUDDY_ORDER && u == l.base + Lo(BUDDY_ORDER, b) &&
            SizeOf(BUDDY_ORDER, b.level) == Reserved(s.user[u])
  {
    hide Inv, SizeOf, BuddyModel.LevelOf, Lo, Reserved;
    UserIsHeld(l, s, u);
    MediumIsHeld(l, s, u, s.user[u]);
    MediumLevel(s.user[u]);
  }

  /** A live block in the way is a pool's buffer or has its user. */
  lemma RegionOfBlock(l: Layout, s: State, size: nat, level: nat, i: nat, b: Block)
    requires Inv(l, s) && Exact(l, s) && SMALL_OBJ_LIMIT < size <= MEDIUM_OBJ_LIMIT
    requires BuddyModel.LevelOf(BUDDY_ORDER, size) == level && level <= BUDDY_ORDER
    requires b in s.buddy.live && b.level <= BUDDY_ORDER && !DisjointBytes(BUDDY_ORDER, Block(level, i), b)
    ensures RegionTaken(l, s.user, size, i)
  {
    hide Inv, PartsOk, SizeOf, Lo, BuddyModel.LevelOf, DisjointBytes, Disjoint, PoolBuffer, Reserved, SlotsExact,
      PagesExact, BlockUsed;
    InvParts(l, s);
    MediumLevel(size);
    BlockBytes(l, b, level, i);
    if b in l.bufs {
      var j :| 0 <= j < |l.bufs| && l.bufs[j] == b;
      BufBytes(l, s, j);
    } else {
      UsedBytes(l, s.user, b, l.base + Lo(BUDDY_ORDER, b));
    }
  }

  lemma UsedBytes(l: Layout, user: map<nat, nat>, b: Block, u: nat)
    requires BlockUsed(l, user, b) && b.level <= BUDDY_ORDER && u == l.base + Lo(BUDDY_ORDER, b)
    ensures u in user && SMALL_OBJ_LIMIT < user[u] <= MEDIUM_OBJ_LIMIT
    ensures SizeOf(BUDDY_ORDER, b.level) == Reserved(user[u])
  {
    hide SizeOf, Lo, BuddyModel.LevelOf, Reserved;
    MediumLevel(user[u]);
  }

  lemma BlockOfRegion(l: Layout, s: State, size: nat, level: nat, i: nat) returns (b: Block)
    requires Inv(l, s) && SMALL_OBJ_LIMIT < size <= MEDIUM_OBJ_LIMIT && RegionTaken(l, s.user, size, i)
    requires BuddyModel.LevelOf(BUDDY_ORDER, size) == level && level <= BUDDY_ORDER
    ensures b in s.buddy.live && b.level <= BUDDY_ORDER && !DisjointBytes(BUDDY_ORDER, Block(level, i), b)
  {
    hide Inv, PartsOk, SizeOf, Lo, BuddyModel.LevelOf, DisjointBytes, Disjoint, PoolBuffer, Reserved, Buddy.BlockFor;
    InvParts(l, s);
    MediumLevel(size);
    var n := Reserved(size);
    if j :| 0 <= j < |l.bufs| && !Disjoint(l.base + i * n, n, PoolBuffer(l, j), POOL_BUFFER) {
      BufBytes(l, s, j);
      b := l.bufs[j];
    } else {
      var u :| u in s.user && SMALL_OBJ_LIMIT < s.user[u] <= MEDIUM_OBJ_LIMIT &&
               !Disjoint(l.base + i * n, n, u, Reserved(s.user[u]));
      UserBytes(l, s, u);
      b := Buddy.BlockFor(l.base, BUDDY_ORDER, u, s.user[u]);
    }
    BlockBytes(l, b, level, i);
  }

  lemma RegionsOfUsers(l: Layout, s: State, size: nat, level: nat, i: nat)
    requires Inv(l, s) && Exact(l, s) && SMALL_OBJ_LIMIT < size <= MEDIUM_OBJ_LIMIT
    requires BuddyModel.LevelOf(BUDDY_ORDER, size) == level < |s.buddy.lists| && BuddyModel.Inv(s.buddy)
    requires BuddyModel.MaxOrder(s.buddy.lists) == BUDDY_ORDER
    ensures BuddyTheorems.RegionInUse(s.buddy, level, i) <==> RegionTaken(l, s.user, size, i)
  {
    hide Inv, Exact, RegionTaken, BuddyModel.LevelOf, BuddyModel.Inv, DisjointBytes, SizeOf;
    if BuddyTheorems.RegionInUse(s.buddy, level, i) {
      var b :| b in s.buddy.live && b.level <= BUDDY_ORDER && !DisjointBytes(BUDDY_ORDER, Block(level, i), b);
      RegionOfBlock(l, s, size, level, i, b);
    }
    if RegionTaken(l, s.user, size, i) {
      var b := BlockOfRegion(l, s, size, level, i);
    }
  }

  /** A medium request fails exactly when every aligned region of its rounded size in the 16 MiB buffer touches
      a pool's buffer or the bytes reserved for a medium user. */
  lemma MediumAllocIsComplete(l: Layout, s: State, size: nat, p: nat, s': State)
    requires Inv(l, s) && l.base > 0 && Exact(l, s) && SMALL_OBJ_LIMIT < size <= MEDIUM_OBJ_LIMIT
    requires AllocNext(l, s, size, p, s')
    ensures p == NULL <==>
            forall i: nat :: i * Reserved(size) < Pow2(BUDDY_ORDER) ==> RegionTaken(l, s.user, size, i)
  {
    hide Inv, PartsOk, Exact, BuddyModel.Alloc, BuddyModel.LevelOf, Lo, SizeOf, RegionTaken, Reserved, BuddyModel.Inv,
      BuddyTheorems.RegionInUse, Pow2;
    InvParts(l, s);
    BuddyFacts(l, s);
    MediumLevel(size);
    var level: nat := BuddyModel.LevelOf(BUDDY_ORDER, size);
    BuddyTheorems.AllocIsComplete(s.buddy, size);
    forall i: nat
      ensures BuddyTheorems.RegionInUse(s.buddy, level, i) <==> RegionTaken(l, s.user, size, i)
      ensures i < Pow2(level) <==> i * Reserved(size) < Pow2(BUDDY_ORDER)
    {
      RegionsOfUsers(l, s, size, level, i);
      MulLt(i, Pow2(level), Reserved(size));
    }
  }

  lemma MulLt(i: nat, j: nat, n: nat)
    requires n > 0
    ensures i < j <==> i * n < j * n
  {
    if i < j {
      MulLe(i + 1, j, n);
    } else {
      MulLe(j, i, n);
    }
  }

  /** A small or medium request for which there is no room, told by the users alone. */
  ghost predicate NoRoom(l: Layout, user: map<nat, nat>, size: nat)
  {
    if size <= SMALL_OBJ_LIMIT then |RoutedTo(user, PoolIndex(size))| == POOL_BLOCKS[PoolIndex(size)]
    else forall i: nat :: i * Reserved(size) < Pow2(BUDDY_ORDER) ==> RegionTaken(l, user, size, i)
  }

  lemma AllocIsComplete(l: Layout, s: State, size: nat, p: nat, s': State)
    requires Inv(l, s) && l.base > 0 && Exact(l, s) && 0 < size <= MEDIUM_OBJ_LIMIT && AllocNext(l, s, size, p, s')
    ensures p == NULL <==> NoRoom(l, s.user, size)
  {
    hide Inv, PartsOk, Exact, AllocNext, RegionTaken, Reserved, RoutedTo, PoolIndex, Pow2;
    InvParts(l, s);
    if size <= SMALL_OBJ_LIMIT {
      SmallAllocIsComplete(l, s, size, p, s');
    } else {
      MediumAllocIsComplete(l, s, size, p, s');
    }
  }

  /** A resize that is not in place fails exactly when there is no room beside the old allocation. */
  lemma ReallocIsComplete(l: Layout, s: State, p: nat, newSize: nat, q: nat, s': State)
    requires Inv(l, s) && l.base > 0 && Exact(l, s) && p in s.user && 0 < newSize <= MEDIUM_OBJ_LIMIT
    requires newSize != s.user[p] && ReallocNext(l, s, p, newSize, q, s')
    requires !(s.user[p] <= SMALL_OBJ_LIMIT && newSize <= SMALL_OBJ_LIMIT && PoolIndex(newSize) == PoolIndex(s.user[p]))
    ensures q == NULL <==> NoRoom(l, s.user, newSize)
  {
    hide Inv, PartsOk, Exact, AllocNext, FreeNext, NoRoom, PoolIndex, Holds;
    InvParts(l, s);
    UserIsHeld(l, s, p);
    if q == NULL {
      AllocIsComplete(l, s, newSize, NULL, s);
    } else {
      var s1 :| AllocNext(l, s, newSize, q, s1) && Inv(l, s1) && p in s1.user && s' == FreeNext(l, s1, p);
      AllocIsComplete(l, s, newSize, q, s1);
    }
  }

  /* ---------------------------------------------------- the users decide the tiers */

  ghost predicate Within<K>(m: map<K, nat>, m': map<K, nat>)
  {
    forall k :: k in m ==> k in m' && m'[k] == m[k]
  }

  lemma WithinBoth<K>(m: map<K, nat>, m': map<K, nat>)
    requires Within(m, m') && Within(m', m)
    ensures m == m'
  {
  }

  lemma SlotsWithin(l: Layout, s1: State, s2: State, i: nat)
    requires Inv(l, s1) && Inv(l, s2) && SlotsExact(l, s1) && s1.user == s2.user && i < POOL_COUNT
    ensures |s1.pools| == |s2.pools| == POOL_COUNT && Within(s1.pools[i].live, s2.pools[i].live)
  {
    hide Inv, PartsOk, SlotUsed;
    InvParts(l, s1);
    InvParts(l, s2);
    forall k | k in s1.pools[i].live
      ensures k in s2.pools[i].live && s2.pools[i].live[k] == s1.pools[i].live[k]
    {
      assert SlotUsed(l, s1.user, i, k);
      SlotOfUser(l, s1, i, k);
      SlotOfUser(l, s2, i, k);
    }
  }

  lemma BlocksWithin(l: Layout, s1: State, s2: State)
    requires Inv(l, s1) && Inv(l, s2) && BlocksExact(l, s1) && s1.user == s2.user
    ensures Within(s1.buddy.live, s2.buddy.live)
  {
    hide Inv, PartsOk, BlockUsed, SizeOf, Lo;
    forall b | b in s1.buddy.live
      ensures b in s2.buddy.live && s2.buddy.live[b] == s1.buddy.live[b]
    {
      if b in l.bufs {
        InvParts(l, s1);
        InvParts(l, s2);
        BufSize(l, s1, b);
        BufSize(l, s2, b);
      } else {
        assert BlockUsed(l, s1.user, b);
        BlockLevel(l, s1.user, b);
        BlockOfUser(l, s1, b, l.base + Lo(BUDDY_ORDER, b));
        BlockOfUser(l, s2, b, l.base + Lo(BUDDY_ORDER, b));
      }
    }
  }

  lemma BlockLevel(l: Layout, user: map<nat, nat>, b: Block)
    requires BlockUsed(l, user, b)
    ensures b.level <= BUDDY_ORDER
  {
  }

  lemma BufSize(l: Layout, s: State, b: Block)
    requires PartsOk(l, s) && b in l.bufs
    ensures b in s.buddy.live && s.buddy.live[b] == POOL_BUFFER
  {
    hide PoolsOk, PageOk, BuddyModel.Inv;
  }

  lemma PagesWithin(l: Layout, s1: State, s2: State)
    requires Inv(l, s1) && Inv(l, s2) && PagesExact(l, s1) && s1.user == s2.user
    ensures Within(s1.page, s2.page)
  {
    hide PoolsOk, BuddyOk, Apart;
    forall a | a in s1.page
      ensures a in s2.page && s2.page[a] == s1.page[a]
    {
      if a !in l.inner {
        assert PageUsed(s1.user, a);
        assert Holds(l, s1, a, s1.user[a]) && Holds(l, s2, a, s2.user[a]);
      }
    }
  }

  /** The slots that are not live are free. */
  lemma FreeSlots(l: Layout, s: State, i: nat)
    requires Inv(l, s) && i < POOL_COUNT
    ensures |s.pools| == POOL_COUNT
    ensures forall k: nat :: k in s.pools[i].free <==> k < POOL_BLOCKS[i] && k !in s.pools[i].live
  {
    InvParts(l, s);
    hide Inv, PartsOk;
    PoolIs(l, s, i);
  }

  /** History independence of the whole allocator: what every tier holds, and what is free in it, is decided by
      the users alone. */
  lemma SameUsersSameTiers(l: Layout, s1: State, s2: State)
    requires Inv(l, s1) && Exact(l, s1) && Inv(l, s2) && Exact(l, s2) && s1.user == s2.user
    ensures s1.page == s2.page && s1.buddy.live == s2.buddy.live
    ensures BuddyModel.FreeSet(s1.buddy.lists) == BuddyModel.FreeSet(s2.buddy.lists)
    ensures |s1.pools| == |s2.pools| == POOL_COUNT
    ensures forall i :: 0 <= i < POOL_COUNT ==> s1.pools[i].live == s2.pools[i].live
    ensures forall i: nat, k: nat :: i < POOL_COUNT ==> (k in s1.pools[i].free <==> k in s2.pools[i].free)
  {
    hide Inv, PartsOk, SlotsExact, BlocksExact, PagesExact, Within, BuddyModel.Inv;
    InvParts(l, s1);
    InvParts(l, s2);
    PagesWithin(l, s1, s2);
    PagesWithin(l, s2, s1);
    WithinBoth(s1.page, s2.page);
    BlocksWithin(l, s1, s2);
    BlocksWithin(l, s2, s1);
    WithinBoth(s1.buddy.live, s2.buddy.live);
    BuddyFacts(l, s1);
    BuddyFacts(l, s2);
    BuddyTheorems.HistoryIndependence(s1.buddy, s2.buddy);
    forall i: nat | i < POOL_COUNT
      ensures s1.pools[i].live == s2.pools[i].live
      ensures forall k: nat :: k in s1.pools[i].free <==> k in s2.pools[i].free
    {
      SlotsWithin(l, s1, s2, i);
      SlotsWithin(l, s2, s1, i);
      WithinBoth(s1.pools[i].live, s2.pools[i].live);
      FreeSlots(l, s1, i);
      FreeSlots(l, s2, i);
    }
  }

  /** With no users, in whatever order they went, every slot is free, the pools' buffers are all that is live in
      the buddy allocator, and the allocator's own memory all that is live in the page allocator. */
  lemma NoUsersIsInitial(l: Layout, s: State)
    requires Inv(l, s) && Exact(l, s) && s.user == map[]
    ensures |s.pools| == POOL_COUNT
    ensures forall i: nat :: i < POOL_COUNT ==> s.pools[i].live == map[]
    ensures forall i: nat, k: nat :: i < POOL_COUNT && k < POOL_BLOCKS[i] ==> k in s.pools[i].free
    ensures s.buddy.live == map b | b in l.bufs :: POOL_BUFFER
    ensures s.page == l.inner
  {
    hide Inv, PartsOk, SizeOf, Lo;
    InvParts(l, s);
    forall i: nat | i < POOL_COUNT
      ensures s.pools[i].live == map[]
      ensures forall k: nat :: k < POOL_BLOCKS[i] ==> k in s.pools[i].free
    {
      assert forall k: nat :: k in s.pools[i].live ==> SlotUsed(l, s.user, i, k);
      FreeSlots(l, s, i);
    }
    forall b | b in s.buddy.live
      ensures b in l.bufs
    {
      assert b in l.bufs || BlockUsed(l, s.user, b);
    }
    forall b | b in l.bufs
      ensures b in s.buddy.live && s.buddy.live[b] == POOL_BUFFER
    {
      BufSize(l, s, b);
    }
    InnerPages(l, s);
    forall a | a in s.page
      ensures a in l.inner
    {
      assert a in l.inner || PageUsed(s.user, a);
    }
  }

  lemma InnerPages(l: Layout, s: State)
    requires PartsOk(l, s)
    ensures forall a :: a in l.inner ==> a in s.page && s.page[a] == l.inner[a]
  {
    hide PoolsOk, BuddyOk, Apart;
  }
}
