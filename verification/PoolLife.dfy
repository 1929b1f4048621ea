/** The pool allocator over any child, from construction to destruction. */
module PoolLife {
  import opened Order
  import opened Memory
  import opened Os
  import opened Child
  import PoolModel
  import Pool

  /** The size of a slot: large enough for a link, and aligned. */
  function SlotSize(blockSize: nat): nat
  {
    AlignUp8(if blockSize < 8 then 8 else blockSize)
  }

  /** A pool whose buffer is an allocation of its child. */
  class Context {
    const child: Allocator
    const pool: Pool.Context

    ghost predicate Valid()
      reads this, child, child.heap, pool, pool.heap
    {
      && pool.heap == child.heap && child.Valid() && pool.Valid()
      && child.Holds(pool.buffer, pool.blockSize * pool.totalBlocks)
    }

    /** The child's other allocations. */
    ghost function Others(): map<nat, nat>
      reads child
    {
      child.live - {pool.buffer}
    }

    constructor (child: Allocator, pool: Pool.Context)
      ensures this.child == child && this.pool == pool
    {
      this.child := child;
      this.pool := pool;
    }

    /** What is written inside the buffer changes nothing of the others. */
    lemma BufferChange(m: seq<Byte>, m': seq<Byte>, lo: nat, hi: nat)
      requires MapsOk(child.live, ALIGNMENT, |m|) && child.Holds(pool.buffer, pool.blockSize * pool.totalBlocks)
      requires |m'| == |m| && Same(m, m', 0, lo) && Same(m, m', hi, |m|)
      requires pool.buffer <= lo && hi <= pool.buffer + pool.blockSize * pool.totalBlocks
      ensures MapsSame(m, m', Others())
    {
      ClearIsSame(m, m', Others(), pool.buffer, pool.blockSize * pool.totalBlocks);
    }

    /** pool_destroy_fn of a pool with a buffer of its own: the child gets it back, with its size. */
    method Destroy()
      requires Valid()
      modifies child, child.journal, child.heap
      ensures child.Valid() && child.live == old(Others())
      ensures MapsSame(old(child.heap.bytes), child.heap.bytes, old(Others()))
      ensures child.journal.calls ==
                old(child.journal.calls) + [Freed(child.id, pool.buffer, pool.blockSize * pool.totalBlocks)]
    {
      hide MapsOk, MapsSame, Within, Untouched, Pool.Context.Valid;
      ghost var m, was := child.heap.bytes, child.region;
      MappingInside(child.live, ALIGNMENT, |m|, pool.buffer);
      child.Free(pool.buffer, pool.blockSize * pool.totalBlocks, {});
      UntouchedSame(m, child.heap.bytes, was + child.region, child.live);
    }
  }

  /** make_pool_allocator with a buffer of its own: out of memory exactly when the child refuses it, and
      then nothing is left; else all slots are free. */
  method Make(child: Allocator, blockSize: nat, totalBlocks: nat) returns (e: Error, ctx: Context?)
    requires child.Valid() && SlotSize(blockSize) * totalBlocks < WORD
    modifies child, child.journal, child.heap
    ensures child.Valid() && MapsSame(old(child.heap.bytes), child.heap.bytes, old(child.live))
    ensures e == Inval <==> blockSize == 0 || totalBlocks == 0
    ensures e == Inval ==> child.journal.calls == old(child.journal.calls)
    ensures e == Fine ==> ctx != null && fresh(ctx) && fresh(ctx.pool)
    ensures e != Fine ==> ctx == null && child.live == old(child.live)
    ensures e == NoMem ==> child.journal.calls ==
                           old(child.journal.calls) + [Asked(child.id, SlotSize(blockSize) * totalBlocks, NULL)]
    ensures e == Fine ==> child.journal.calls == old(child.journal.calls)
                                                 + [Asked(child.id, SlotSize(blockSize) * totalBlocks, ctx.pool.buffer)]
    ensures e == Fine ==>
              ctx.Valid() && ctx.child == child && ctx.pool.buffer != NULL && ctx.Others() == old(child.live) &&
                          child.live == old(child.live)[ctx.pool.buffer := SlotSize(blockSize) * totalBlocks]
    ensures e == Fine ==> ctx.pool.st == PoolModel.Initial(totalBlocks, SlotSize(blockSize))
  {
    hide MapsOk, MapsSame, Within, Untouched, Pool.Context.Valid, PoolModel.Initial, AlignUp8;
    ghost var m, live, was := child.heap.bytes, child.live, child.region;
    if blockSize == 0 || totalBlocks == 0 {
      MapsSameRefl(m, live);
      return Inval, null;
    }
    var size := SlotSize(blockSize) * totalBlocks;
    var buffer := child.Alloc(size, {});
    ghost var m1 := child.heap.bytes;
    UntouchedSame(m, m1, was + child.region, live);
    if buffer == NULL {
      return NoMem, null;
    }
    MappingInside(child.live, ALIGNMENT, |m1|, buffer);
    var pool := new Pool.Context(child.heap, buffer, blockSize, totalBlocks);
    ctx := new Context(child, pool);
    ctx.BufferChange(m1, child.heap.bytes, buffer, buffer + size);
    assert child.live - {buffer} == live;
    MapsSameTrans(m, m1, child.heap.bytes, live);
    e := Fine;
  }

  /* ------------------------------------------------------------ a whole life */

  /** What a client does: a call, or a store in its own memory. */
  datatype Action =
    | Allocs(size: nat)
    | Frees(p: nat)
    | Reallocs(p: nat, newSize: nat)
    | Stores(p: nat, at: nat, data: seq<Byte>)

  /** The client's allocations are live with the sizes it remembers. */
  ghost predicate Knows(pool: Pool.Context, user: map<nat, nat>)
    reads pool
  {
    forall p :: p in user ==> p != NULL && pool.LiveAt(p, user[p])
  }

  /** The slot of a live allocation lies inside the buffer, and the allocation inside its slot. */
  lemma FitsSlot(pool: Pool.Context, p: nat, n: nat) returns (k: nat)
    requires pool.Valid() && pool.LiveAt(p, n)
    ensures k in pool.st.live && p == Pool.SlotAt(pool.buffer, pool.blockSize, k) && n <= pool.blockSize
    ensures pool.buffer <= p &&
            p + pool.blockSize <= pool.buffer + pool.blockSize * pool.totalBlocks <= |pool.heap.bytes|
  {
    k := pool.SlotOf(p);
    Pool.SlotInside(pool.buffer, pool.blockSize, pool.totalBlocks, k);
  }

  /** One action. The client passes only live pointers with their sizes, as the interface demands;
      actions that are none of its business it leaves out. */
  method Act(ctx: Context, user: map<nat, nat>, a: Action) returns (user': map<nat, nat>)
    requires ctx.Valid() && Knows(ctx.pool, user)
    modifies ctx.pool, ctx.pool.heap
    ensures ctx.Valid() && Knows(ctx.pool, user')
    ensures MapsSame(old(ctx.child.heap.bytes), ctx.child.heap.bytes, ctx.Others())
  {
    hide Pool.Threaded, MapsOk, MapsSame, Within, PoolModel.Inv, Same;
    var pool := ctx.pool;
    ghost var m, st := pool.heap.bytes, pool.st;
    user' := user;
    MapsSameRefl(m, ctx.Others());
    match a {
      case Allocs(size) =>
        PoolModel.AllocKeepsInv(st, size);
        var q := pool.Alloc(size);
        if q != NULL {
          user' := user[q := size];
        }
      case Frees(p) =>
        if p in user {
          ghost var k := FitsSlot(pool, p, user[p]);
          pool.Free(p, user[p]);
          OtherSlots(pool, st, user, p);
          ctx.BufferChange(m, pool.heap.bytes, p, p + 8);
          user' := user - {p};
        }
      case Reallocs(p, newSize) =>
        if p in user && newSize > 0 {
          var q := pool.Realloc(p, user[p], newSize);
          ResizedSlot(pool, st, user, p, newSize);
          if q != NULL {
            user' := user[p := newSize];
          }
        }
      case Stores(p, at, data) =>
        if p in user && p <= at && at + |data| <= p + user[p] {
          ghost var k := FitsSlot(pool, p, user[p]);
          pool.heap.Write(at, data);
          InsideSlot(m, pool.heap.bytes, at, |data|, p, pool.blockSize);
          pool.LinksPayload(m, pool.heap.bytes, k);
          ctx.BufferChange(m, pool.heap.bytes, p, p + pool.blockSize);
        }
    }
  }

  lemma InsideSlot(m: seq<Byte>, m': seq<Byte>, at: nat, n: nat, p: nat, k: nat)
    requires |m'| == |m| && Same(m, m', 0, at) && Same(m, m', at + n, |m|) && p <= at && at + n <= p + k
    ensures Same(m, m', 0, p) && Same(m, m', p + k, |m|)
  {
  }

  /** The other allocations are in other slots. */
  lemma OtherSlots(pool: Pool.Context, st: PoolModel.State, user: map<nat, nat>, p: nat)
    requires forall u :: u in user ==> u != NULL && Pool.SlotHolds(st, pool.buffer, u, user[u])
    requires p in user && pool.blockSize == st.blockSize && pool.buffer <= p
    requires st.blockSize > 0 && pool.st == PoolModel.Free(st, Pool.SlotNumberOf(pool.buffer, st.blockSize, p))
    ensures Knows(pool, user - {p})
  {
    hide Pool.SlotNumberOf, Pool.SlotAt;
  }

  lemma ResizedSlot(pool: Pool.Context, st: PoolModel.State, user: map<nat, nat>, p: nat, newSize: nat)
    requires forall u :: u in user ==> u != NULL && Pool.SlotHolds(st, pool.buffer, u, user[u])
    requires p in user && pool.blockSize == st.blockSize && pool.buffer <= p && st.blockSize > 0
    requires pool.st == PoolModel.Realloc(st, Pool.SlotNumberOf(pool.buffer, st.blockSize, p), newSize)
    ensures Knows(pool, if newSize <= pool.blockSize then user[p := newSize] else user)
  {
    hide Pool.SlotNumberOf, Pool.SlotAt;
  }

  /** Construction, any actions, destruction: the child has the allocations it had before, and nobody
      else's memory has changed; whether construction succeeded or not. */
  method Life(child: Allocator, blockSize: nat, totalBlocks: nat, actions: seq<Action>) returns (e: Error)
    requires child.Valid() && SlotSize(blockSize) * totalBlocks < WORD
    modifies child, child.journal, child.heap
    ensures child.Valid() && child.live == old(child.live)
    ensures MapsSame(old(child.heap.bytes), child.heap.bytes, old(child.live))
  {
    hide Context.Valid, MapsOk, MapsSame, Within, PoolModel.Initial;
    var ctx;
    e, ctx := Make(child, blockSize, totalBlocks);
    if e != Fine {
      return;
    }
    var user: map<nat, nat> := map[];
    for i := 0 to |actions|
      invariant ctx.Valid() && Knows(ctx.pool, user)
      invariant ctx.Others() == old(child.live) && MapsSame(old(child.heap.bytes), child.heap.bytes, old(child.live))
    {
      ghost var m := child.heap.bytes;
      HeapOf(ctx);
      user := Act(ctx, user, actions[i]);
      MapsSameTrans(old(child.heap.bytes), m, child.heap.bytes, old(child.live));
    }
    ghost var m := child.heap.bytes;
    ctx.Destroy();
    MapsSameTrans(old(child.heap.bytes), m, child.heap.bytes, old(child.live));
  }

  lemma HeapOf(ctx: Context)
    requires ctx.Valid()
    ensures ctx.pool.heap == ctx.child.heap && ctx.child.Valid()
  {
    hide Pool.Context.Valid, MapsOk;
  }
}
