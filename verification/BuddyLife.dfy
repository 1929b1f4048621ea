/** The buddy allocator over any child, from construction to destruction. */
module BuddyLife {
  import opened Order
  import opened BuddyTree
  import opened Memory
  import opened Sequences
  import opened Os
  import opened Child
  import BuddyModel
  import BuddyTheorems
  import BuddyRep
  import Buddy

  /** The four allocations of make_buddy_allocator: the buffer, the list heads, the bitset, the levels. */
  datatype BuddyMemory = BuddyMemory(buffer: nat, heads: nat, bitset: nat, orders: nat)

  ghost function Pieces(mem: BuddyMemory, totalSize: nat): map<nat, nat>
  {
    map[mem.buffer := totalSize, mem.heads := Buddy.HeadsBytes(totalSize), mem.bitset := Buddy.BitsetBytes(totalSize),
        mem.orders := Buddy.OrdersBytes(totalSize)]
  }

  lemma Collected(live: map<nat, nat>, mem: BuddyMemory, totalSize: nat)
    requires mem.buffer !in live && mem.heads !in live[mem.buffer := totalSize]
    requires mem.bitset !in live && mem.bitset != mem.buffer && mem.bitset != mem.heads
    requires mem.orders !in live && mem.orders != mem.buffer && mem.orders != mem.heads && mem.orders != mem.bitset
    ensures Distinct([mem.buffer, mem.heads, mem.bitset, mem.orders])
    ensures live + Pieces(mem, totalSize)
            == live[mem.buffer := totalSize][mem.heads := Buddy.HeadsBytes(totalSize)]
                   [mem.bitset := Buddy.BitsetBytes(totalSize)][mem.orders := Buddy.OrdersBytes(totalSize)]
  {
    hide Buddy.HeadsBytes, Buddy.BitsetBytes, Buddy.OrdersBytes;
  }

  lemma SizesSmall(totalSize: nat)
    ensures Buddy.BitsetBytes(totalSize) <= totalSize && Buddy.OrdersBytes(totalSize) <= totalSize
    ensures totalSize >= 32 ==> Buddy.BitsetBytes(totalSize) > 0 && Buddy.OrdersBytes(totalSize) > 0
    ensures GetOrder(totalSize) + 1 >= GetOrder(32) ==> Buddy.HeadsBytes(totalSize) > 0
  {
  }

  /** (size_t)num_levels + 1, where num_levels is an int: it wraps around for buffers that are too small. */
  function HeadsCount(totalSize: nat): nat
  {
    (GetOrder(totalSize) - GetOrder(32) + 2) % WORD
  }

  /** From 32 bytes on there is no wrap-around, and destroy computes the same size; below, either the
      list heads or the levels take no memory at all, or more than there is. */
  lemma HeadsCountFacts(totalSize: nat)
    requires 0 < totalSize < WORD && totalSize == Pow2(GetOrder(totalSize))
    ensures totalSize >= 32 ==> 0 < HeadsCount(totalSize) * 8 == Buddy.HeadsBytes(totalSize) < WORD
    ensures GetOrder(totalSize) == 4 ==> HeadsCount(totalSize) * 8 == 8
    ensures totalSize < 32 ==> Buddy.OrdersBytes(totalSize) == 0
  {
    hide GetOrder, Pow2;
    Buddy.GetOrderOf32();
    Pow2Values();
    Pow2Word();
    var o := GetOrder(totalSize);
    if o >= 64 {
      Pow2Monotone(64, o);
    }
    if totalSize >= 32 && o < 5 {
      Pow2Monotone(o, 4);
    }
    if totalSize < 32 {
      NoLeaf(totalSize);
    }
    InWord(o);
  }

  lemma InWord(o: nat)
    ensures 4 <= o < 64 ==> (o - 5 + 2) % WORD == o - 3
  {
  }

  lemma NoLeaf(totalSize: nat)
    requires totalSize < 32
    ensures Buddy.OrdersBytes(totalSize) == 0
  {
  }

  /** Some request among the calls after the first n was refused. */
  ghost predicate Refused(calls: seq<Call>, n: nat)
  {
    exists i :: n <= i < |calls| && calls[i].Asked? && calls[i].answer == NULL
  }

  /** allo_calloc: zeroed memory for nmemb elements; NULL, and nothing asked, if their size is no size_t. */
  method Calloc(child: Allocator, nmemb: nat, size: nat) returns (p: nat)
    requires child.Valid() && nmemb < WORD && 0 < size < WORD
    modifies child, child.journal, child.heap
    ensures child.Valid() && MapsSame(old(child.heap.bytes), child.heap.bytes, old(child.live))
    ensures nmemb * size >= WORD ==> p == NULL && child.journal.calls == old(child.journal.calls)
    ensures nmemb * size < WORD ==>
              child.journal.calls == old(child.journal.calls) + [Asked(child.id, nmemb * size, p)]
    ensures p == NULL ==> child.live == old(child.live)
    ensures p != NULL ==>
              nmemb * size > 0 && p !in old(child.live) && child.live == old(child.live)[p := nmemb * size] &&
              p + nmemb * size <= |child.heap.bytes| &&
              forall i :: p <= i < p + nmemb * size ==> child.heap.bytes[i] == 0
  {
    hide MapsOk, MapsSame, Within, Untouched;
    ghost var m, live, was := child.heap.bytes, child.live, child.region;
    Overflows(nmemb, size);
    if nmemb > (WORD - 1) / size {
      MapsSameRefl(m, live);
      return NULL;
    }
    var total := nmemb * size;
    p := child.Alloc(total, {});
    ghost var m1 := child.heap.bytes;
    UntouchedSame(m, m1, was + child.region, live);
    if p != NULL {
      MappingInside(child.live, ALIGNMENT, |m1|, p);
      child.heap.Write(p, seq(total, _ => 0));
      ClearIsSame(m1, child.heap.bytes, live, p, total);
      MapsSameTrans(m, m1, child.heap.bytes, live);
    }
  }

  lemma Overflows(nmemb: nat, size: nat)
    requires size > 0
    ensures nmemb > (WORD - 1) / size <==> nmemb * size >= WORD
  {
    var q, r := (WORD - 1) / size, (WORD - 1) % size;
    assert WORD - 1 == size * q + r;
    if nmemb > q {
      MulLe(q + 1, nmemb, size);
    } else {
      MulLe(nmemb, q, size);
    }
  }

  /** allo_free of a live block: it goes, and nobody else's bytes change. */
  method GiveBack(child: Allocator, p: nat, n: nat, ghost m: seq<Byte>, ghost keep: map<nat, nat>)
    requires child.Valid() && child.Holds(p, n) && MapsSame(m, child.heap.bytes, keep) && Among(keep, child.live - {p})
    modifies child, child.journal, child.heap
    ensures child.Valid() && child.live == old(child.live) - {p} && MapsSame(m, child.heap.bytes, keep)
    ensures child.journal.calls == old(child.journal.calls) + [Freed(child.id, p, n)]
  {
    hide MapsOk, MapsSame, Within, Untouched, Among;
    MappingInside(child.live, ALIGNMENT, |child.heap.bytes|, p);
    ghost var m1, was := child.heap.bytes, child.region;
    child.Free(p, n, {});
    UntouchedSame(m1, child.heap.bytes, was + child.region, child.live);
    MapsSameAmong(m1, child.heap.bytes, child.live, keep);
    MapsSameTrans(m, m1, child.heap.bytes, keep);
  }

  /** The last two allocations of make_buddy_allocator: both, or neither is left. */
  method GetMaps(child: Allocator, totalSize: nat, ghost m: seq<Byte>, ghost keep: map<nat, nat>)
    returns (ok: bool, bitset: nat, orders: nat)
    requires child.Valid() && totalSize < WORD && MapsSame(m, child.heap.bytes, keep) && Among(keep, child.live)
    modifies child, child.journal, child.heap
    ensures child.Valid() && MapsSame(m, child.heap.bytes, keep)
    ensures old(child.journal.calls) <= child.journal.calls
    ensures !ok ==> child.live == old(child.live) && Refused(child.journal.calls, |old(child.journal.calls)|)
    ensures ok ==> totalSize >= 32 && bitset !in old(child.live) && orders !in old(child.live) && bitset != orders &&
                   child.live ==
                   old(child.live)[bitset := Buddy.BitsetBytes(totalSize)][orders := Buddy.OrdersBytes(totalSize)]
    ensures ok ==> bitset != NULL && orders != NULL &&
                   child.journal.calls == old(child.journal.calls)
                                          + [Asked(child.id, Buddy.BitsetBytes(totalSize), bitset)]
                                          + [Asked(child.id, Buddy.OrdersBytes(totalSize), orders)]
  {
    hide MapsOk, MapsSame, Within, Untouched, Among, Buddy.BitsetBytes, Buddy.OrdersBytes;
    ghost var live, calls := child.live, child.journal.calls;
    SizesSmall(totalSize);
    ok, bitset, orders := false, NULL, NULL;
    bitset := Calloc(child, Buddy.BitsetBytes(totalSize), 1);
    ghost var calls1 := child.journal.calls;
    StillKept(m, old(child.heap.bytes), child.heap.bytes, live, keep);
    if bitset == NULL {
      assert calls1[|calls|].answer == NULL;
      return;
    }
    AmongMore(keep, live, bitset, Buddy.BitsetBytes(totalSize));
    ghost var m1, live1 := child.heap.bytes, child.live;
    orders := Calloc(child, Buddy.OrdersBytes(totalSize), 1);
    StillKept(m, m1, child.heap.bytes, live1, keep);
    if orders == NULL {
      assert child.journal.calls[|calls| + 1].answer == NULL;
      assert live1 - {bitset} == live;
      GiveBack(child, bitset, Buddy.BitsetBytes(totalSize), m, keep);
      assert child.journal.calls[|calls| + 1].answer == NULL;
      return;
    }
    NoOrders(totalSize);
    ok := true;
  }

  lemma NoOrders(totalSize: nat)
    requires Buddy.OrdersBytes(totalSize) > 0
    ensures totalSize >= 32
  {
  }

  lemma StillKept(m: seq<Byte>, m1: seq<Byte>, m2: seq<Byte>, live: map<nat, nat>, keep: map<nat, nat>)
    requires MapsSame(m, m1, keep) && MapsSame(m1, m2, live) && Among(keep, live)
    ensures MapsSame(m, m2, keep)
  {
    MapsSameAmong(m1, m2, live, keep);
    MapsSameTrans(m, m1, m2, keep);
  }

  lemma AmongMore(keep: map<nat, nat>, live: map<nat, nat>, p: nat, n: nat)
    requires Among(keep, live) && p !in live
    ensures Among(keep, live[p := n]) && Among(keep, live[p := n] - {p})
  {
  }

  /** The child's part of make_buddy_allocator: all four allocations, or none of them is left. */
  method GetMemory(child: Allocator, totalSize: nat) returns (ok: bool, mem: BuddyMemory)
    requires child.Valid() && 0 < totalSize < WORD && totalSize == Pow2(GetOrder(totalSize))
    modifies child, child.journal, child.heap
    ensures child.Valid() && MapsSame(old(child.heap.bytes), child.heap.bytes, old(child.live))
    ensures !ok ==> child.live == old(child.live)
    ensures !ok ==> totalSize < 32 || Refused(child.journal.calls, |old(child.journal.calls)|)
    ensures ok ==> totalSize >= 32 && mem.buffer != NULL && Distinct([mem.buffer, mem.heads, mem.bitset, mem.orders]) &&
                   mem.buffer !in old(child.live) && mem.heads !in old(child.live) &&
                   mem.bitset !in old(child.live) && mem.orders !in old(child.live) &&
                   child.live == old(child.live) + Pieces(mem, totalSize)
    ensures ok ==> !Refused(child.journal.calls, |old(child.journal.calls)|)
  {
    hide MapsOk, MapsSame, Within, Untouched, Among, GetOrder, Buddy.HeadsBytes, Buddy.BitsetBytes,
      Buddy.OrdersBytes, HeadsCount, Pieces,
      Distinct;
    ghost var m, live, calls, was := child.heap.bytes, child.live, child.journal.calls, child.region;
    HeadsCountFacts(totalSize);
    ok, mem := false, BuddyMemory(NULL, NULL, NULL, NULL);
    var buffer := child.Alloc(totalSize, {});
    UntouchedSame(m, child.heap.bytes, was + child.region, live);
    if buffer == NULL {
      assert child.journal.calls[|calls|].answer == NULL;
      return;
    }
    AmongRefl(live);
    AmongMore(live, live, buffer, totalSize);
    ghost var m1, live1 := child.heap.bytes, child.live;
    assert live1 - {buffer} == live;
    var count := HeadsCount(totalSize);
    assert count < WORD by { CountSmall(totalSize); }
    var heads := Calloc(child, count, 8);
    StillKept(m, m1, child.heap.bytes, live1, live);
    if heads == NULL {
      if totalSize >= 32 {
        assert child.journal.calls[|calls| + 1].answer == NULL;
      }
      GiveBack(child, buffer, totalSize, m, live);
      if totalSize >= 32 {
        assert child.journal.calls[|calls| + 1].answer == NULL;
      }
      return;
    }
    AmongMore(live, live1, heads, count * 8);
    ghost var live2, calls2 := child.live, child.journal.calls;
    var mapped, bitset, orders := GetMaps(child, totalSize, m, live);
    if !mapped {
      RefusedLater(calls2, child.journal.calls, |calls|);
      ghost var calls3 := child.journal.calls;
      assert live2 - {heads} == live1;
      GiveBack(child, heads, count * 8, m, live);
      GiveBack(child, buffer, totalSize, m, live);
      RefusedMore(calls3, child.journal.calls, |calls|);
      return;
    }
    ok, mem := true, BuddyMemory(buffer, heads, bitset, orders);
    Collected(live, mem, totalSize);
    NoneRefused(child.journal.calls, calls);
  }

  lemma AmongRefl(live: map<nat, nat>)
    ensures Among(live, live)
  {
  }

  lemma CountSmall(totalSize: nat)
    ensures HeadsCount(totalSize) < WORD
  {
  }

  lemma RefusedLater(calls: seq<Call>, calls': seq<Call>, n: nat)
    requires Refused(calls', |calls|) && n <= |calls|
    ensures Refused(calls', n)
  {
  }

  lemma RefusedMore(calls: seq<Call>, calls': seq<Call>, n: nat)
    requires Refused(calls, n) && calls <= calls'
    ensures Refused(calls', n)
  {
    var i :| n <= i < |calls| && calls[i].Asked? && calls[i].answer == NULL;
    assert calls'[i] == calls[i];
  }

  lemma NoneRefused(calls': seq<Call>, calls: seq<Call>)
    requires |calls'| == |calls| + 4 && forall i :: |calls| <= i < |calls'| ==>
               calls'[i].Asked? && calls'[i].answer != NULL
    ensures !Refused(calls', |calls|)
  {
  }

  lemma PieceSizes(mem: BuddyMemory, totalSize: nat)
    requires Distinct([mem.buffer, mem.heads, mem.bitset, mem.orders])
    ensures var all := Pieces(mem, totalSize);
            && all.Keys == {mem.buffer, mem.heads, mem.bitset, mem.orders}
            && all[mem.buffer] == totalSize && all[mem.heads] == Buddy.HeadsBytes(totalSize)
            && all[mem.bitset] == Buddy.BitsetBytes(totalSize) && all[mem.orders] == Buddy.OrdersBytes(totalSize)
            && mem.buffer != mem.heads && mem.buffer != mem.bitset && mem.buffer != mem.orders
            && mem.heads != mem.bitset && mem.heads != mem.orders && mem.bitset != mem.orders
  {
    hide Buddy.HeadsBytes, Buddy.BitsetBytes, Buddy.OrdersBytes;
    var s := [mem.buffer, mem.heads, mem.bitset, mem.orders];
    assert s[0] != s[1] && s[0] != s[2] && s[0] != s[3] && s[1] != s[2] && s[1] != s[3] && s[2] != s[3];
  }

  /** A buddy allocator in memory of its child. */
  class Context {
    const child: Allocator
    const buddy: Buddy.Context
    const mem: BuddyMemory

    ghost predicate Valid()
      reads this, child, child.heap, buddy, buddy.heap, buddy.freeLists, buddy.bitset, buddy.blockOrders
    {
      buddy.heap == child.heap && child.Valid() && buddy.Valid() && Placed()
    }

    /** The buffer and the three tables are live in the child, with the sizes that destroy computes. */
    ghost predicate Placed()
      reads child
    {
      && buddy.buffer == mem.buffer && Distinct([mem.buffer, mem.heads, mem.bitset, mem.orders])
      && Among(Pieces(mem, buddy.totalSize), child.live)
    }

    /** The child's other allocations. */
    ghost function Others(): map<nat, nat>
      reads child
    {
      child.live - {mem.buffer, mem.heads, mem.bitset, mem.orders}
    }

    constructor (child: Allocator, buddy: Buddy.Context, mem: BuddyMemory)
      ensures this.child == child && this.buddy == buddy && this.mem == mem
    {
      this.child := child;
      this.buddy := buddy;
      this.mem := mem;
    }

    /** What the buddy allocator writes, or its users in their blocks, changes nothing of the others. */
    lemma BufferChange(m: seq<Byte>, m': seq<Byte>)
      requires Placed() && MapsOk(child.live, ALIGNMENT, |m|) && |m'| == |m|
      requires Same(m, m', 0, buddy.buffer) && Same(m, m', buddy.buffer + buddy.totalSize, |m|)
      ensures MapsSame(m, m', Others())
    {
      hide Buddy.HeadsBytes, Buddy.BitsetBytes, Buddy.OrdersBytes;
      PieceSizes(mem, buddy.totalSize);
      assert mem.buffer in child.live && child.live[mem.buffer] == buddy.totalSize;
      ClearIsSame(m, m', Others(), mem.buffer, buddy.totalSize);
    }

    /** buddy_destroy_fn: the buffer, and the three tables with their sizes computed anew, go back to the
        child; nothing else of the child's changes. */
    method Destroy()
      requires Valid()
      modifies child, child.journal, child.heap
      ensures child.Valid() && child.live == old(Others())
      ensures MapsSame(old(child.heap.bytes), child.heap.bytes, old(Others()))
      ensures child.journal.calls == old(child.journal.calls) + [Freed(child.id, mem.buffer, buddy.totalSize)]
                                     + [Freed(child.id, mem.heads, Buddy.HeadsBytes(buddy.totalSize))]
                                     + [Freed(child.id, mem.bitset, Buddy.BitsetBytes(buddy.totalSize))]
                                     + [Freed(child.id, mem.orders, Buddy.OrdersBytes(buddy.totalSize))]
    {
      hide MapsOk, MapsSame, Within, Untouched, Buddy.HeadsBytes, Buddy.BitsetBytes, Buddy.OrdersBytes,
        Buddy.Context.Valid;
      ghost var m, keep := child.heap.bytes, Others();
      PieceSizes(mem, buddy.totalSize);
      MapsSameRefl(m, keep);
      GiveBack(child, buddy.buffer, buddy.totalSize, m, keep);
      GiveBack(child, mem.heads, Buddy.HeadsBytes(buddy.totalSize), m, keep);
      GiveBack(child, mem.bitset, Buddy.BitsetBytes(buddy.totalSize), m, keep);
      GiveBack(child, mem.orders, Buddy.OrdersBytes(buddy.totalSize), m, keep);
    }
  }

  /** make_buddy_allocator in memory of its own, for every size: out of memory exactly when the child
      refuses a request or the size rounds to less than the smallest block, and then nothing is left;
      else the child has four more allocations, and the buffer is one free block. */
  method Make(child: Allocator, size: nat) returns (e: Error, ctx: Context?)
    requires child.Valid() && size <= Pow2(63)
    modifies child, child.journal, child.heap
    ensures child.Valid() && MapsSame(old(child.heap.bytes), child.heap.bytes, old(child.live))
    ensures e == Inval <==> size == 0
    ensures e == NoMem <==> size > 0 && (size <= 16 || Refused(child.journal.calls, |old(child.journal.calls)|))
    ensures e != Fine ==> ctx == null && child.live == old(child.live)
    ensures e == Fine ==> ctx != null && fresh(ctx) && fresh(ctx.buddy) && fresh(ctx.buddy.freeLists) &&
                          fresh(ctx.buddy.bitset) && fresh(ctx.buddy.blockOrders)
    ensures e == Fine ==> ctx.Valid() && ctx.child == child && ctx.Others() == old(child.live) &&
                          child.live == old(child.live) + Pieces(ctx.mem, ctx.buddy.totalSize)
    ensures e == Fine ==> ctx.buddy.totalSize == Pow2(GetOrder(size)) && size <= ctx.buddy.totalSize < 2 * size &&
                          ctx.buddy.live == map[]
  {
    hide MapsOk, MapsSame, Within, Untouched, GetOrder, Pieces, Distinct, Refused, BuddyRep.Framed,
      Buddy.Context.Valid, Among;
    if size == 0 {
      MapsSameRefl(child.heap.bytes, child.live);
      return Inval, null;
    }
    ghost var m, live := child.heap.bytes, child.live;
    var totalSize := Buddy.RoundUpSize(size);
    GetOrderOfPow2(GetOrder(size));
    SmallSize(size, totalSize);
    var ok, mem := GetMemory(child, totalSize);
    if !ok {
      return NoMem, null;
    }
    ghost var m1 := child.heap.bytes;
    NewPieces(live, mem, totalSize);
    MappingInside(child.live, ALIGNMENT, |m1|, mem.buffer);
    var buddy := MakeBuddy(child.heap, mem.buffer, totalSize);
    ctx := new Context(child, buddy, mem);
    ctx.BufferChange(m1, child.heap.bytes);
    MapsSameTrans(m, m1, child.heap.bytes, live);
    e := Fine;
  }

  /** Sizes up to 16 bytes round to a buffer that is less than one block. */
  lemma SmallSize(size: nat, totalSize: nat)
    requires size > 0 && totalSize == Pow2(GetOrder(size)) && size <= totalSize < 2 * size
    ensures size <= 16 <==> totalSize < 32
  {
    Pow2Values();
    if GetOrder(size) >= 5 {
      Pow2Monotone(5, GetOrder(size));
    } else {
      Pow2Monotone(GetOrder(size), 4);
    }
  }

  lemma NewPieces(live: map<nat, nat>, mem: BuddyMemory, totalSize: nat)
    requires Distinct([mem.buffer, mem.heads, mem.bitset, mem.orders])
    requires mem.buffer !in live && mem.heads !in live && mem.bitset !in live && mem.orders !in live
    ensures var all := live + Pieces(mem, totalSize);
            && Among(Pieces(mem, totalSize), all) && mem.buffer in all && all[mem.buffer] == totalSize
            && all - {mem.buffer, mem.heads, mem.bitset, mem.orders} == live
  {
    PieceSizes(mem, totalSize);
    hide Pieces;
  }

  /** A fresh buddy allocator on its buffer: only the buffer is written. */
  method MakeBuddy(heap: Heap, buffer: nat, totalSize: nat) returns (buddy: Buddy.Context)
    requires 32 <= totalSize == Pow2(GetOrder(totalSize)) && 0 < buffer && buffer + totalSize <= |heap.bytes| <= WORD
    modifies heap
    ensures fresh(buddy) && fresh(buddy.freeLists) && fresh(buddy.bitset) && fresh(buddy.blockOrders)
    ensures buddy.Valid() && buddy.heap == heap && buddy.buffer == buffer && buddy.totalSize == totalSize &&
            buddy.live == map[]
    ensures buddy.maxOrder == GetOrder(totalSize)
    ensures |heap.bytes| == |old(heap.bytes)| && Same(old(heap.bytes), heap.bytes, 0, buffer)
    ensures Same(old(heap.bytes), heap.bytes, buffer + totalSize, |heap.bytes|)
  {
    hide GetOrder, Pow2, Same;
    OrderFrom32(totalSize);
    ghost var depth := GetOrder(totalSize) - BuddyModel.MIN_ORDER;
    buddy := new Buddy.Context(heap, buffer, totalSize);
    BuddyTheorems.InitialInv(depth);
    assert buddy.St() == BuddyTheorems.Initial(depth);
  }

  lemma OrderFrom32(totalSize: nat)
    requires 32 <= totalSize == Pow2(GetOrder(totalSize))
    ensures GetOrder(totalSize) >= BuddyModel.MIN_ORDER
  {
    Pow2Values();
    if GetOrder(totalSize) < 5 {
      Pow2Monotone(GetOrder(totalSize), 4);
    }
  }

  /* ------------------------------------------------------------ a whole life */

  /** What a client does: a call, or a store in its own memory. */
  datatype Action =
    | Allocs(size: nat)
    | Frees(p: nat)
    | Reallocs(p: nat, newSize: nat)
    | Stores(p: nat, at: nat, data: seq<Byte>)

  /** The client's allocations are live with the sizes it remembers. */
  ghost predicate Knows(buddy: Buddy.Context, user: map<nat, nat>)
    reads buddy
  {
    forall p :: p in user ==> p != NULL && buddy.LiveAt(p, user[p])
  }

  lemma KnowsMore(buddy: Buddy.Context, was: map<Block, nat>, user: map<nat, nat>, q: nat, n: nat, b: Block)
    requires forall p :: p in user ==> p != NULL && Buddy.BlockHolds(was, buddy.buffer, buddy.maxOrder, p, user[p])
    requires buddy.live == was[b := n] && b !in was && q != NULL && buddy.LiveAt(q, n)
    ensures Knows(buddy, user[q := n])
  {
  }

  lemma KnowsLess(buddy: Buddy.Context, was: map<Block, nat>, user: map<nat, nat>, p: nat, n: nat)
    requires forall p :: p in user ==> p != NULL && Buddy.BlockHolds(was, buddy.buffer, buddy.maxOrder, p, user[p])
    requires Buddy.BlockHolds(was, buddy.buffer, buddy.maxOrder, p, n)
    requires buddy.live == was - {Buddy.BlockFor(buddy.buffer, buddy.maxOrder, p, n)}
    ensures Knows(buddy, user - {p})
  {
    hide BuddyModel.LevelOf, Lo;
  }

  /** A change inside a live allocation is one inside its block, and its block is inside the buffer. */
  lemma FitsBlock(buddy: Buddy.Context, p: nat, n: nat) returns (b: Block)
    requires buddy.Valid() && buddy.LiveAt(p, n) && n > 0
    ensures b in buddy.live && b.level <= buddy.maxOrder && p == BuddyRep.Addr(buddy.buffer, buddy.maxOrder, b)
    ensures p + n <= p + SizeOf(buddy.maxOrder, b.level) <= buddy.buffer + buddy.totalSize <= |buddy.heap.bytes|
  {
    hide BuddyRep.BitsAgree, Buddy.OrdersAgree;
    b := buddy.BlockOf(p, n);
    BuddyTheorems.BlockFits(buddy.maxOrder, n);
    BuddyTheorems.BlocksAligned(buddy.St(), b);
  }

  lemma SizesKnown(buddy: Buddy.Context, p: nat, n: nat)
    requires buddy.Valid() && buddy.LiveAt(p, n)
    ensures n > 0
  {
    hide BuddyRep.BitsAgree, Buddy.OrdersAgree;
  }

  /** One action. The client passes only live pointers with their sizes, as the interface demands;
      actions that are none of its business it leaves out. */
  method Act(ctx: Context, user: map<nat, nat>, a: Action) returns (user': map<nat, nat>)
    requires ctx.Valid() && Knows(ctx.buddy, user)
    modifies ctx.buddy, ctx.buddy.heap, ctx.buddy.freeLists, ctx.buddy.bitset, ctx.buddy.blockOrders
    ensures ctx.Valid() && Knows(ctx.buddy, user')
    ensures MapsSame(old(ctx.child.heap.bytes), ctx.child.heap.bytes, ctx.Others())
  {
    hide Buddy.Context.Valid, BuddyRep.Framed, MapsOk, MapsSame, Within, Context.Placed, Buddy.BlockHolds,
      BuddyModel.Alloc, BuddyModel.Free,
      BuddyTheorems.Realloc;
    var buddy := ctx.buddy;
    ghost var m, st := buddy.heap.bytes, buddy.St();
    ghost var was := buddy.live;
    user' := user;
    MapsSameRefl(m, ctx.Others());
    InvOf(buddy);
    match a {
      case Allocs(size) =>
        var q := buddy.Alloc(size);
        Outside(ctx, m, st.live.Keys);
        if q != NULL {
          buddy.AllocIsLive(st, size, q);
          KnowsMore(buddy, was, user, q, size, buddy.BlockOf(q, size));
          user' := user[q := size];
        } else {
          RefusedSame(st, size, buddy);
        }
      case Frees(p) =>
        if p in user {
          FreedLive(buddy, p, user[p]);
          buddy.Free(p, user[p]);
          Outside(ctx, m, buddy.live.Keys);
          KnowsLess(buddy, was, user, p, user[p]);
          user' := user - {p};
        }
      case Reallocs(p, newSize) =>
        if p in user && newSize > 0 {
          user' := ActRealloc(ctx, user, p, newSize);
        }
      case Stores(p, at, data) =>
        if p in user && p <= at && at + |data| <= p + user[p] {
          SizesKnown(buddy, p, user[p]);
          ghost var b := FitsBlock(buddy, p, user[p]);
          buddy.WritePayload(at, data, b);
          Outside(ctx, m, buddy.live.Keys - {b});
        }
    }
  }

  method ActRealloc(ctx: Context, user: map<nat, nat>, p: nat, newSize: nat) returns (user': map<nat, nat>)
    requires ctx.Valid() && Knows(ctx.buddy, user) && p in user && newSize > 0
    modifies ctx.buddy, ctx.buddy.heap, ctx.buddy.freeLists, ctx.buddy.bitset, ctx.buddy.blockOrders
    ensures ctx.Valid() && Knows(ctx.buddy, user')
    ensures MapsSame(old(ctx.child.heap.bytes), ctx.child.heap.bytes, ctx.Others())
  {
    hide Buddy.Context.Valid, BuddyRep.Framed, MapsOk, MapsSame, Within, Context.Placed, Buddy.BlockHolds,
      BuddyModel.Alloc, BuddyModel.Free,
      BuddyTheorems.Realloc, Copied, BuddyModel.Inv, Pow2, Same, Context.Others;
    var buddy := ctx.buddy;
    ghost var m, st := buddy.heap.bytes, buddy.St();
    InvOf(buddy);
    FreedLive(buddy, p, user[p]);
    var q := buddy.Realloc(p, user[p], newSize);
    Outside(ctx, m, st.live.Keys - {buddy.BlockOf(p, user[p])});
    ReallocLive(buddy, st, user, p, newSize, q);
    user' := if q == NULL then user else (user - {p})[q := newSize];
  }

  lemma InvOf(buddy: Buddy.Context)
    requires buddy.Valid()
    ensures BuddyModel.Inv(buddy.St()) && buddy.buffer > 0 && buddy.totalSize == Pow2(buddy.maxOrder)
  {
    hide BuddyModel.Inv;
  }

  lemma Outside(ctx: Context, m: seq<Byte>, keep: set<Block>)
    requires ctx.Placed() && MapsOk(ctx.child.live, ALIGNMENT, |m|) && ctx.buddy.totalSize == Pow2(ctx.buddy.maxOrder)
    requires BuddyRep.Framed(m, ctx.buddy.heap.bytes, ctx.buddy.buffer, ctx.buddy.maxOrder, keep)
    ensures MapsSame(m, ctx.buddy.heap.bytes, ctx.Others()) && |ctx.buddy.heap.bytes| == |m|
  {
    hide Context.Placed, MapsOk, MapsSame;
    ctx.BufferChange(m, ctx.buddy.heap.bytes);
  }

  lemma RefusedSame(st: BuddyModel.State, size: nat, buddy: Buddy.Context)
    requires BuddyModel.Inv(st) && buddy.AllocDone(st, size, buddy.St(), NULL) && buddy.buffer > 0
    ensures buddy.St() == st
  {
    BuddyModel.AllocKeepsInv(st, size);
  }

  /** What a free of a live allocation leaves live. */
  lemma FreedLive(buddy: Buddy.Context, p: nat, n: nat)
    requires buddy.Valid() && buddy.LiveAt(p, n)
    ensures var b := buddy.BlockOf(p, n);
            b in buddy.live && b.level < |buddy.lists| && BuddyModel.Free(buddy.St(), b).live == buddy.live - {b}
  {
    hide BuddyRep.BitsAgree, Buddy.OrdersAgree, BuddyModel.Merge;
    BuddyTheorems.BlocksAligned(buddy.St(), buddy.BlockOf(p, n));
  }

  /** What the client knows after a realloc. */
  lemma ReallocLive(buddy: Buddy.Context, st: BuddyModel.State, user: map<nat, nat>, p: nat, newSize: nat, q: nat)
    requires BuddyModel.Inv(st) && newSize > 0 && p in user && (q != NULL ==> buddy.LiveAt(q, newSize))
    requires forall u :: u in user ==> u != NULL && Buddy.BlockHolds(st.live, buddy.buffer, buddy.maxOrder, u, user[u])
    requires Buddy.BlockHolds(st.live, buddy.buffer, buddy.maxOrder, p, user[p])
    requires var b := Buddy.BlockFor(buddy.buffer, buddy.maxOrder, p, user[p]);
             b in st.live && b.level < |st.lists| && buddy.St() == BuddyTheorems.Realloc(st, b, newSize)
    requires q == NULL <==> BuddyModel.Alloc(st, newSize).block.None?
    requires q != NULL ==> BuddyModel.Alloc(st, newSize).block == BuddyModel.Some(buddy.BlockOf(q, newSize))
    ensures Knows(buddy, if q == NULL then user else (user - {p})[q := newSize])
  {
    hide BuddyModel.Inv, BuddyModel.Alloc, BuddyModel.LevelOf, Lo, BuddyModel.Merge;
    BuddyModel.AllocKeepsInv(st, newSize);
  }

  /** Construction, any actions, destruction: the child has the allocations it had before, and nobody
      else's memory has changed; whether construction succeeded or not. */
  method Life(child: Allocator, size: nat, actions: seq<Action>) returns (e: Error)
    requires child.Valid() && size <= Pow2(63)
    modifies child, child.journal, child.heap
    ensures child.Valid() && child.live == old(child.live)
    ensures MapsSame(old(child.heap.bytes), child.heap.bytes, old(child.live))
  {
    hide Context.Valid, MapsOk, MapsSame, Within, GetOrder, Refused, Pieces;
    var ctx;
    e, ctx := Make(child, size);
    if e != Fine {
      return;
    }
    var user: map<nat, nat> := map[];
    for i := 0 to |actions|
      invariant ctx.Valid() && Knows(ctx.buddy, user) &&
                child.live == old(child.live) + Pieces(ctx.mem, ctx.buddy.totalSize)
      invariant ctx.Others() == old(child.live) && MapsSame(old(child.heap.bytes), child.heap.bytes, old(child.live))
    {
      ghost var m := child.heap.bytes;
      HeapOf(ctx);
      user := Act(ctx, user, actions[i]);
      MapsSameTrans(old(child.heap.bytes), m, child.heap.bytes, old(child.live));
    }
    ghost var m := child.heap.bytes;
    ctx.Destroy();
    MapsSameTrans(old(child.heap.bytes), m, child.heap.bytes, old(child.live));
  }

  lemma HeapOf(ctx: Context)
    requires ctx.Valid()
    ensures ctx.buddy.heap == ctx.child.heap && ctx.child.Valid()
  {
    hide Buddy.Context.Valid, MapsOk;
  }
}
