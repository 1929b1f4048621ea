/** The general allocator from construction to destruction, in the hands of any client. */
module GenLife {
  import opened Order
  import opened Memory
  import opened Os
  import opened GenModel
  import GenFacts
  import Gen
  import GenMake

  /** What a client does: a call, or a store in its own memory. */
  datatype Action = Calls(op: Op) | Stores(p: nat, at: nat, data: seq<Byte>)

  /** Sizes are values of size_t. */
  predicate SizeOk(a: Action)
  {
    match a
    case Calls(DoAlloc(size)) => size < WORD
    case Calls(DoRealloc(_, newSize)) => newSize < WORD
    case _ => true
  }

  /** One action. The client keeps the sizes of its allocations and passes only live pointers, as the
      interface demands; actions that are none of its business it leaves out. */
  method Act(g: Gen.Context, user: map<nat, nat>, a: Action) returns (user': map<nat, nat>)
    requires g.Valid() && user == g.st.user && SizeOk(a)
    modifies g`st, g.os, g.os.heap, g.heap, g.page, g.buddy, g.buddy.freeLists, g.buddy.bitset, g.buddy.blockOrders,
      set pool | pool in g.pools
    ensures g.Valid() && user' == g.st.user && g.page.Foreign() == old(g.page.Foreign())
    ensures MapsSame(old(g.heap.bytes), g.heap.bytes, old(g.page.Foreign()))
  {
    hide Gen.Context.Valid, Inv, AllocNext, ReallocNext, FreeNext, MapsSame, GenFacts.UsersSame;
    user' := user;
    MapsSameRefl(g.heap.bytes, g.page.Foreign());
    g.ValidBasics();
    match a {
      case Calls(DoAlloc(size)) =>
        var p := g.Alloc(size);
        if p != NULL {
          user' := user[p := size];
        }
      case Calls(DoFree(p)) =>
        if p in user && p != NULL {
          g.Free(p, user[p]);
          user' := user - {p};
        }
      case Calls(DoRealloc(p, newSize)) =>
        if p in user && p != NULL {
          var q := g.Realloc(p, user[p], newSize);
          if newSize == 0 {
            user' := user - {p};
          } else if q != NULL {
            user' := (user - {p})[q := newSize];
          }
        }
      case Stores(p, at, data) =>
        if p in user && p <= at && at + |data| <= p + user[p] {
          g.UserInMemory(p);
          g.WriteUser(p, at, data);
        }
    }
  }

  /** Construction, any actions, destruction: the system has the mappings it had before, and nobody
      else's memory has changed. If construction fails, the system has refused a mapping. */
  method Life(os: Kernel, actions: seq<Action>) returns (ok: bool)
    requires os.Valid() && forall a :: a in actions ==> SizeOk(a)
    modifies os, os.heap
    ensures ok ==> os.Valid() && os.maps == old(os.maps)
    ensures !ok ==> os.refusals > old(os.refusals)
    ensures MapsSame(old(os.heap.bytes), os.heap.bytes, old(os.maps))
  {
    hide Gen.Context.Valid, MapsSame, MapsOk;
    var g, left := GenMake.Make(os);
    if g == null {
      return false;
    }
    var user: map<nat, nat> := map[];
    HeapOf(g);
    for i := 0 to |actions|
      invariant g.Valid() && user == g.st.user && g.page.Foreign() == old(os.maps)
      invariant MapsSame(old(os.heap.bytes), os.heap.bytes, old(os.maps))
    {
      ghost var m := os.heap.bytes;
      user := Act(g, user, actions[i]);
      MapsSameTrans(old(os.heap.bytes), m, os.heap.bytes, old(os.maps));
    }
    ghost var m := os.heap.bytes;
    g.Destroy();
    MapsSameTrans(old(os.heap.bytes), m, os.heap.bytes, old(os.maps));
    ok := true;
  }

  lemma HeapOf(g: Gen.Context)
    requires g.Valid()
    ensures g.heap == g.os.heap
  {
    g.ValidBasics();
  }
}
