/** The buddy allocator as it runs: list heads and a packed bitset beside the buffer,
    list nodes inside the buffer's free blocks. */
module Buddy {
  import opened Order
  import opened BuddyTree
  import opened BuddyModel
  import opened Memory
  import opened Bitset
  import opened FreeLists
  import opened BuddyRep
  import BuddyTheorems

  /** size >> level for a power of two is the size of a block on that level. */
  lemma ShiftIsSize(order: nat, level: nat)
    requires level <= order
    ensures Pow2(order) / Pow2(level) == SizeOf(order, level)
  {
    Pow2Add(level, order - level);
    QuotientUnique(Pow2(order), Pow2(level), SizeOf(order, level), 0);
  }

  /** Dividing a block's offset by its size gives its number. */
  lemma OffsetToIndex(order: nat, b: Block)
    requires b.level <= order
    ensures Lo(order, b) / SizeOf(order, b.level) == b.index
  {
    QuotientUnique(Lo(order, b), SizeOf(order, b.level), b.index, 0);
  }

  lemma WordOrder(order: nat)
    requires Pow2(order) <= WORD
    ensures order <= 64
  {
    Pow2Word();
    if order > 64 {
      Pow2Monotone(65, order);
    }
  }

  lemma GetOrderOf32()
    ensures GetOrder(32) == MIN_ORDER
  {
    Pow2Values();
    GetOrderOfPow2(5);
  }

  /** The doubling loop of make_buddy_allocator: the smallest power of two that holds the size, in one word. */
  method RoundUpSize(size: nat) returns (actualSize: nat)
    requires 0 < size <= Pow2(63)
    ensures actualSize == Pow2(GetOrder(size)) && size <= actualSize < 2 * size && actualSize < WORD
  {
    hide GetOrder;
    Pow2Word();
    GetOrderIsCeilLog2(size, GetOrder(size));
    actualSize := 1;
    ghost var k := 0;
    while actualSize < size
      invariant actualSize == Pow2(k) && k <= GetOrder(size)
      invariant actualSize < 2 * size
      decreases 2 * size - actualSize
    {
      if k == GetOrder(size) {
        assert false;
      }
      actualSize := 2 * actualSize;
      k := k + 1;
    }
    if k < GetOrder(size) {
      Pow2Monotone(k, GetOrder(size) - 1);
    }
  }

  /** The number of 32-byte blocks in the buffer. */
  lemma LeafCount(order: nat)
    requires order >= MIN_ORDER
    ensures Pow2(order) / 32 == Pow2(order - MIN_ORDER)
  {
    Pow2Values();
    Pow2Add(5, order - 5);
    QuotientUnique(Pow2(order), 32, Pow2(order - 5), 0);
  }

  /** What make_buddy_allocator asks of its child beside the buffer, and destroy computes again:
      the list heads, the bitset, and the block levels. */
  function HeadsBytes(totalSize: nat): nat
  {
    var numLevels := GetOrder(totalSize) - GetOrder(32) + 1;
    if numLevels < 0 then 0 else (numLevels + 1) * 8
  }

  function BitsetBytes(totalSize: nat): nat
  {
    (totalSize / 32 * 2 + 7) / 8
  }

  function OrdersBytes(totalSize: nat): nat
  {
    totalSize / 32
  }

  ghost function NoLists(depth: nat): seq<seq<nat>>
  {
    seq(depth + 1, _ => [])
  }

  lemma RootOnly(depth: nat)
    ensures NoLists(depth)[0 := [0] + NoLists(depth)[0]] == BuddyTheorems.Initial(depth).lists
  {
    var a, b := NoLists(depth)[0 := [0] + NoLists(depth)[0]], BuddyTheorems.Initial(depth).lists;
    assert forall l :: 0 < l <= depth ==> a[l] == [] == b[l];
    assert a[0] == [0] == b[0];
  }

  /** Zeroed heads and bits show the empty lists, with the whole buffer held. */
  lemma EmptyViews(m: seq<Byte>, heads: seq<nat>, bits: seq<bv8>, buffer: nat, depth: nat)
    requires |heads| == depth + 2 && |bits| == BitBytes(depth)
    requires (forall k :: 0 <= k < |heads| ==> heads[k] == NULL) && (forall k :: 0 <= k < |bits| ==> bits[k] == 0)
    ensures Linked(m, heads, Chains(buffer, NoLists(depth))) && BitsAgree(bits, NoLists(depth))
    ensures Consistent(NoLists(depth), {ROOT}) && ClearOfFree(NoLists(depth), ROOT)
  {
    var lists := NoLists(depth);
    assert FreeSet(lists) == {};
    RootTiles(depth);
    assert FreeSet(lists) + {ROOT} == {ROOT};
    forall b | InTree(b, depth)
      ensures BitOk(bits, lists, b)
    {
      NodeIndexInBounds(b, depth);
    }
  }

  /** The heads are a function of the lists. */
  lemma HeadsFromLists(m: seq<Byte>, heads: seq<nat>, buffer: nat, lists: seq<seq<nat>>)
    requires |lists| > 0 && Linked(m, heads, Chains(buffer, lists))
    ensures heads[..|lists|] == Heads(buffer, lists)
  {
  }

  ghost function Heads(buffer: nat, lists: seq<seq<nat>>): seq<nat>
    requires |lists| > 0
  {
    seq(|lists|, l requires 0 <= l < |lists| => At(Chains(buffer, lists)[l], 0))
  }

  /** A list head is NULL exactly when the list is empty. */
  lemma HeadIsNull(m: seq<Byte>, heads: seq<nat>, buffer: nat, lists: seq<seq<nat>>, l: nat)
    requires 0 < buffer && l < |lists| && Linked(m, heads, Chains(buffer, lists))
    ensures heads[l] == NULL <==> lists[l] == []
    ensures lists[l] != [] ==> heads[l] == Addr(buffer, MaxOrder(lists), Block(l, lists[l][0]))
  {
    assert |Chains(buffer, lists)[l]| == |lists[l]|;
  }

  /** Each live block's entry records its level. */
  ghost predicate OrdersAgree(orders: seq<Byte>, order: nat, live: map<Block, nat>)
  {
    forall b :: b in live ==>
      b.level <= order && Lo(order, b) / 32 < |orders| && orders[Lo(order, b) / 32] == b.level
  }

  /** A held block may go on its list, and lies in the buffer. */
  lemma HeldReady(lists: seq<seq<nat>>, keep: set<Block>, c: Block)
    requires Consistent(lists, keep + {c}) && c !in keep
    ensures InTree(c, |lists| - 1) && ClearOfFree(lists, c) && forall b :: b in keep ==> !Overlap(b, c)
    ensures c.level > 0 ==> InTree(Sibling(c), |lists| - 1) && Flip(c.index) != c.index
  {
    var t := FreeSet(lists) + (keep + {c});
    assert c in t;
    if c.level > 0 {
      SiblingFacts(c, |lists| - 1);
    }
    forall f | IsFree(lists, f)
      ensures !Overlap(c, f)
    {
      assert f in t;
    }
  }

  lemma BitShowsFree(bits: seq<bv8>, lists: seq<seq<nat>>, b: Block)
    requires BitsAgree(bits, lists) && InTree(b, |lists| - 1)
    ensures var n := NodeIndex(b.level, b.index);
            n / 8 < |bits| && (ByteBit(bits[n / 8], n % 8) <==> b.index in lists[b.level])
  {
    assert BitOk(bits, lists, b);
  }

  lemma FreeReady(st: State, b: Block)
    requires Inv(st) && b in st.live
    ensures st.live[b] > 0 && b.level < |st.lists| && Hi(MaxOrder(st.lists), b) <= Pow2(MaxOrder(st.lists))
    ensures Consistent(st.lists, st.live.Keys - {b} + {b})
  {
    assert b in FreeSet(st.lists) + st.live.Keys;
    InTreeBytes(MaxOrder(st.lists), b, |st.lists| - 1);
    assert st.live.Keys - {b} + {b} == st.live.Keys;
  }

  /** m' differs from m only inside block b. */
  ghost predicate ChangedInside(m: seq<Byte>, m': seq<Byte>, buffer: nat, order: nat, b: Block)
    requires b.level <= order
  {
    && |m'| == |m|
    && Same(m, m', 0, buffer + Lo(order, b)) && Same(m, m', buffer + Hi(order, b), |m|)
  }

  lemma PayloadKeepsLinks(m: seq<Byte>, m': seq<Byte>, heads: seq<nat>, buffer: nat, st: State, b: Block)
    requires Inv(st) && b in st.live && b.level <= MaxOrder(st.lists)
    requires Linked(m, heads, Chains(buffer, st.lists))
    requires ChangedInside(m, m', buffer, MaxOrder(st.lists), b)
    ensures Linked(m', heads, Chains(buffer, st.lists))
  {
    var chains, order := Chains(buffer, st.lists), MaxOrder(st.lists);
    forall l, k | 0 <= l < |chains| && 0 <= k < |chains[l]|
      ensures NodeOk(m', chains[l], k)
    {
      assert Chain(m, chains[l]) && NodeOk(m, chains[l], k);
      ListedIsFree(buffer, st.lists, l, k);
      var f := Block(l, st.lists[l][k]);
      assert f in FreeSet(st.lists) + st.live.Keys && b in FreeSet(st.lists) + st.live.Keys;
      DisjointBlocks(order, f, b);
      SizeAtLeast32(order, l);
      LoadFrame(m, m', chains[l][k], 8);
      LoadFrame(m, m', chains[l][k] + 8, 8);
    }
  }

  lemma PayloadFramed(m: seq<Byte>, m': seq<Byte>, buffer: nat, st: State, b: Block)
    requires Inv(st) && b in st.live && b.level <= MaxOrder(st.lists)
    requires ChangedInside(m, m', buffer, MaxOrder(st.lists), b)
    ensures Framed(m, m', buffer, MaxOrder(st.lists), st.live.Keys - {b})
  {
    var order := MaxOrder(st.lists);
    assert b in FreeSet(st.lists) + st.live.Keys;
    InTreeBytes(order, b, |st.lists| - 1);
    forall x | x in st.live.Keys - {b}
      ensures x.level <= order && BlockSame(m, m', buffer, order, x)
    {
      assert x in FreeSet(st.lists) + st.live.Keys;
      DisjointBlocks(order, x, b);
    }
  }

  /** The payloads of two live blocks do not overlap, and lie in their blocks. */
  lemma PayloadApart(st: State, buffer: nat, b: Block, nb: Block, top: nat)
    requires Inv(st) && b in st.live && nb in st.live && b != nb
    requires buffer + Pow2(MaxOrder(st.lists)) <= top
    ensures var order := MaxOrder(st.lists);
            b.level <= order && nb.level <= order && DisjointBytes(order, b, nb) &&
            buffer + Hi(order, b) <= top && buffer + Hi(order, nb) <= top &&
            0 < st.live[b] <= SizeOf(order, b.level) && 0 < st.live[nb] <= SizeOf(order, nb.level)
  {
    var order := MaxOrder(st.lists);
    assert b in FreeSet(st.lists) + st.live.Keys && nb in FreeSet(st.lists) + st.live.Keys;
    DisjointBlocks(order, b, nb);
    InTreeBytes(order, b, |st.lists| - 1);
    InTreeBytes(order, nb, |st.lists| - 1);
    BuddyTheorems.BlockFits(order, st.live[b]);
    BuddyTheorems.BlockFits(order, st.live[nb]);
  }
  lemma MoveFramed(m: seq<Byte>, m1: seq<Byte>, m2: seq<Byte>, buffer: nat, order: nat, live: set<Block>, b: Block,
                   nb: Block)
    requires Framed(m, m1, buffer, order, live - {nb}) && Framed(m1, m2, buffer, order, live - {b})
    ensures Framed(m, m2, buffer, order, live - {b, nb})
  {
    FramedSubset(m, m1, buffer, order, live - {nb}, live - {b, nb});
    FramedSubset(m1, m2, buffer, order, live - {b}, live - {b, nb});
    FramedTrans(m, m1, m2, buffer, order, live - {b, nb});
  }

  lemma CopySurvives(m: seq<Byte>, m1: seq<Byte>, m2: seq<Byte>, buffer: nat, order: nat, keep: set<Block>, nb: Block,
                     p: nat, q: nat, n: nat)
    requires Copied(m, m1, p, q, n) && Framed(m1, m2, buffer, order, keep) && nb in keep && nb.level <= order
    requires q == Addr(buffer, order, nb) && n <= SizeOf(order, nb.level)
    ensures Copied(m, m2, p, q, n)
  {
    assert BlockSame(m1, m2, buffer, order, nb);
    assert m2[q..q + n] == m1[q..q + n];
  }

  lemma CopiedFrom(m: seq<Byte>, m1: seq<Byte>, m2: seq<Byte>, buffer: nat, order: nat, keep: set<Block>, b: Block,
                   p: nat, q: nat, n: nat)
    requires Framed(m, m1, buffer, order, keep) && Copied(m1, m2, p, q, n) && b in keep && b.level <= order
    requires p == Addr(buffer, order, b) && n <= SizeOf(order, b.level)
    ensures Copied(m, m2, p, q, n)
  {
    assert BlockSame(m, m1, buffer, order, b);
    assert m1[p..p + n] == m[p..p + n];
  }

  lemma LiveKeysAround(live: map<Block, nat>, b: Block, nb: Block, size: nat)
    requires nb !in live
    ensures live[nb := size].Keys - {b, nb} == live.Keys - {b}
  {
  }

  lemma RemoveHead(s: seq<nat>)
    requires s != []
    ensures s[0] in s && Remove(s, s[0]) == s[1..]
  {
  }

  lemma LiveFramed(m: seq<Byte>, buffer: nat, st: State)
    requires Inv(st)
    ensures Framed(m, m, buffer, MaxOrder(st.lists), st.live.Keys)
  {
    forall b | b in st.live.Keys
      ensures b.level <= MaxOrder(st.lists)
    {
      assert b in FreeSet(st.lists) + st.live.Keys;
    }
  }

  /** The block's entry exists, and its level fits in a byte. */
  lemma OrdersStart(orders: seq<Byte>, order: nat, lists: seq<seq<nat>>, live: map<Block, nat>, b: Block)
    requires Consistent(lists, live.Keys + {b}) && order == MaxOrder(lists) && Pow2(order) <= WORD
    requires |orders| == Pow2(|lists| - 1)
    ensures InTree(b, |lists| - 1) && b.level < 256
    ensures Lo(order, b) / 32 < |orders|
  {
    assert b in FreeSet(lists) + (live.Keys + {b});
    InDepth(FreeSet(lists) + (live.Keys + {b}), |lists| - 1);
    hide Consistent, Tiles, FreeSet, SizeOf, Lo;
    WordOrder(order);
    LeafNumber(order, b);
  }

  /** The number of a block's first leaf. */
  lemma LeafNumber(order: nat, b: Block)
    requires order >= MIN_ORDER && InTree(b, order - MIN_ORDER)
    ensures Lo(order, b) / 32 < Pow2(order - MIN_ORDER)
  {
    hide SizeOf;
    InTreeBytes(order, b, order - MIN_ORDER);
    Pow2Values();
    Pow2Add(5, order - MIN_ORDER);
    hide Lo, Pow2;
    QuotientBelow(Lo(order, b), 32, Pow2(order - MIN_ORDER));
  }

  lemma OrdersAdd(orders: seq<Byte>, orders': seq<Byte>, order: nat, lists: seq<seq<nat>>, live: map<Block, nat>,
                  b: Block, size: nat)
    requires Consistent(lists, live.Keys + {b}) && order == MaxOrder(lists) && b !in live
    requires b.level < 256 && b.level <= order && Lo(order, b) / 32 < |orders|
    requires OrdersAgree(orders, order, live) && orders' == orders[Lo(order, b) / 32 := b.level]
    ensures OrdersAgree(orders', order, live[b := size])
  {
    var t := FreeSet(lists) + (live.Keys + {b});
    forall x | x in live
      ensures x.level <= order && Lo(order, x) / 32 != Lo(order, b) / 32
    {
      assert x in t && b in t;
      DisjointBlocks(order, x, b);
      SizeAtLeast32(order, x.level);
      SizeAtLeast32(order, b.level);
    }
  }

  lemma FramedRefl(m: seq<Byte>, buffer: nat, lists: seq<seq<nat>>, keep: set<Block>, c: Block)
    requires Consistent(lists, keep + {c})
    ensures Framed(m, m, buffer, MaxOrder(lists), keep)
  {
    forall b | b in keep
      ensures b.level <= MaxOrder(lists)
    {
      assert b in FreeSet(lists) + (keep + {c});
    }
  }

  /** The right half of a held block may go on its list. */
  lemma SplitReady(lists: seq<seq<nat>>, keep: set<Block>, c: Block)
    requires Consistent(lists, keep + {c}) && c !in keep && c.level < |lists| - 1
    ensures InTree(c, |lists| - 1) && InTree(Right(c), |lists| - 1) && Left(c) !in keep
    ensures ClearOfFree(lists, Right(c)) && forall b :: b in keep ==> !Overlap(b, Right(c))
  {
    var t := FreeSet(lists) + (keep + {c});
    assert c in t;
    HalvesInTree(c, |lists| - 1);
    CoversHalves(c);
    forall x | x in t && x != c
      ensures !Overlap(Right(c), x) && x != Left(c)
    {
      if Overlap(Right(c), x) {
        OverlapParent(Right(c), x);
      }
    }
    forall f | IsFree(lists, f)
      ensures !Overlap(Right(c), f)
    {
      assert f in t;
    }
  }

  /** The block that free recomputes from an address and a size. */
  ghost function BlockFor(buffer: nat, order: nat, p: nat, size: nat): Block
    requires buffer <= p && 0 <= LevelOf(order, size)
  {
    var level: nat := LevelOf(order, size);
    Block(level, (p - buffer) / SizeOf(order, level))
  }

  ghost predicate BlockHolds(live: map<Block, nat>, buffer: nat, order: nat, p: nat, size: nat)
  {
    && buffer <= p && 0 <= LevelOf(order, size)
    && var b := BlockFor(buffer, order, p, size);
       b in live && live[b] == size && p == Addr(buffer, order, b)
  }

  lemma ListedBlocks(lists: seq<seq<nat>>, live: map<Block, nat>)
    ensures forall b :: b in BuddyTheorems.Blocks(State(lists, live)) <==> IsFree(lists, b) || b in live
  {
    forall b
      ensures b in FreeSet(lists) <==> IsFree(lists, b)
    {
    }
  }

  class Context {
    const heap: Heap
    const buffer: nat
    const totalSize: nat
    const minBlockSize: nat := 32
    const maxOrder: nat
    const freeLists: array<nat>
    const bitset: array<bv8>
    const blockOrders: array<Byte>

    ghost var lists: seq<seq<nat>>
    ghost var live: map<Block, nat>

    ghost predicate Shape()
      reads this, heap
    {
      && |lists| > 0 && maxOrder == MaxOrder(lists) && totalSize == Pow2(maxOrder)
      && 0 < buffer && buffer + totalSize <= |heap.bytes| <= WORD
      && freeLists.Length == |lists| + 1 && bitset.Length == BitBytes(|lists| - 1)
      && blockOrders.Length == Pow2(|lists| - 1)
      && freeLists as object != blockOrders && freeLists as object != bitset && bitset as object != blockOrders
    }

    /** The lists in memory and the bits both show the abstract lists. */
    ghost predicate Views()
      reads this, heap, freeLists, bitset
    {
      && Shape()
      && Linked(heap.bytes, freeLists[..], Chains(buffer, lists))
      && BitsAgree(bitset[..], lists)
    }

    /** The state a fresh allocator starts from: the whole buffer is one free block. */
    constructor (heap: Heap, buffer: nat, totalSize: nat)
      requires totalSize == Pow2(GetOrder(totalSize)) && GetOrder(totalSize) >= MIN_ORDER
      requires 0 < buffer && buffer + totalSize <= |heap.bytes| <= WORD
      modifies heap
      ensures Shape() && Views() && fresh(freeLists) && fresh(bitset) && fresh(blockOrders)
      ensures this.heap == heap && this.buffer == buffer && this.totalSize == totalSize &&
              maxOrder == GetOrder(totalSize)
      ensures lists == BuddyTheorems.Initial(maxOrder - MIN_ORDER).lists && live == map[]
      ensures Framed(old(heap.bytes), heap.bytes, buffer, maxOrder, {})
    {
      this.heap := heap;
      this.buffer := buffer;
      this.totalSize := totalSize;
      maxOrder := GetOrder(totalSize);
      var numLevels := GetOrder(totalSize) - GetOrder(32) + 1;
      GetOrderOf32();
      freeLists := new nat[numLevels + 1](_ => NULL);
      bitset := new bv8[BitsetBytes(totalSize)](_ => 0);
      blockOrders := new Byte[OrdersBytes(totalSize)](_ => 0);
      LeafCount(GetOrder(totalSize));
      lists := NoLists(GetOrder(totalSize) - MIN_ORDER);
      live := map[];
      new;
      hide Consistent, Linked, BitsAgree, Framed, Covers, Pow2, GetOrder, NoLists, ClearOfFree, Overlap, SizeOf, Chains;
      ghost var depth := maxOrder - MIN_ORDER;
      EmptyViews(heap.bytes, freeLists[..], bitset[..], buffer, depth);
      PutBlock(0, 0, buffer, ROOT, {ROOT}, {});
      RootOnly(depth);
    }

    /** list_push and set_bit: c goes on the front of its list. */
    method PutBlock(level: nat, index: nat, node: nat, ghost c: Block, ghost held: set<Block>, ghost keep: set<Block>)
      requires Views() && Consistent(lists, held) && keep <= held
      requires InTree(c, |lists| - 1) && ClearOfFree(lists, c) && (forall b :: b in keep ==> !Overlap(b, c))
      requires level == c.level && index == c.index && node == Addr(buffer, maxOrder, c)
      modifies this`lists, heap, freeLists, bitset
      ensures lists == old(lists)[level := [index] + old(lists)[level]]
      ensures Views() && Framed(old(heap.bytes), heap.bytes, buffer, maxOrder, keep)
    {
      hide Consistent, Linked, Separate, BitsAgree, Framed, BitWritten, WrittenIn, Covers, Pow2, FreeChanged;
      ghost var chains, bits := Chains(buffer, lists), bitset[..];
      ghost var lists' := lists[level := [index] + lists[level]];
      ChainsSeparate(buffer, lists, held);
      NodeClear(buffer, lists, held, c);
      HeaderInBuffer(buffer, maxOrder, |lists| - 1, c);
      NodeIndexInBounds(c, |lists| - 1);
      ListPush(heap, freeLists, level, node, chains);
      PushFramed(old(heap.bytes), heap.bytes, buffer, lists, held, c, keep);
      ChainsPush(buffer, lists, c);
      assert Linked(heap.bytes, freeLists[..], Chains(buffer, lists'));
      assert bitset[..] == bits;
      SetBit(bitset, NodeIndex(level, index));
      IsFreePush(lists, c);
      BitsUpdate(bits, bitset[..], lists, lists', c, true);
      lists := lists';
    }

    static lemma PushFramed(m: seq<Byte>, m': seq<Byte>, buffer: nat, lists: seq<seq<nat>>, held: set<Block>,
                            c: Block, keep: set<Block>)
      requires Consistent(lists, held) && keep <= held && InTree(c, |lists| - 1)
      requires forall b :: b in keep ==> !Overlap(b, c)
      requires buffer + Pow2(MaxOrder(lists)) <= |m|
      requires var p, node := Chains(buffer, lists)[c.level], Addr(buffer, MaxOrder(lists), c);
               WrittenIn(m, m', if p == [] then {node} else {node, p[0]})
      ensures Framed(m, m', buffer, MaxOrder(lists), keep)
    {
      var p, node := Chains(buffer, lists)[c.level], Addr(buffer, MaxOrder(lists), c);
      assert FreeNode(buffer, lists, c, node);
      if p != [] {
        ListedIsFree(buffer, lists, c.level, 0);
        assert FreeNode(buffer, lists, c, p[0]);
      }
      WrittenFramed(m, m', buffer, lists, held, c, if p == [] then {node} else {node, p[0]}, keep);
    }

    /** list_remove and clear_bit: the free block c leaves its list. */
    method TakeBlock(level: nat, index: nat, node: nat, ghost c: Block, ghost held: set<Block>)
      requires Views() && Consistent(lists, held) && IsFree(lists, c)
      requires level == c.level && index == c.index && node == Addr(buffer, maxOrder, c)
      modifies this`lists, heap, freeLists, bitset
      ensures lists == old(lists)[level := Remove(old(lists)[level], index)]
      ensures Views() && Framed(old(heap.bytes), heap.bytes, buffer, maxOrder, held)
    {
      hide Linked, Separate, BitsAgree, Framed, BitWritten, WrittenIn, Tiles, Coalesced, Covers, Pow2, Neighbours,
        Remove, FreeChanged;
      ghost var chains, bits := Chains(buffer, lists), bitset[..];
      ghost var lists' := lists[level := Remove(lists[level], index)];
      ghost var k := IndexOf(lists[level], index);
      FreeInTree(lists, held, c, ROOT);
      ChainsSeparate(buffer, lists, held);
      ChainsRemove(buffer, lists, c);
      NodeIndexInBounds(c, |lists| - 1);
      ListRemove(heap, freeLists, level, node, chains, k);
      RemoveFramed(old(heap.bytes), heap.bytes, buffer, lists, held, c);
      assert Linked(heap.bytes, freeLists[..], Chains(buffer, lists'));
      assert bitset[..] == bits;
      ClearBit(bitset, NodeIndex(level, index));
      IsFreeRemove(lists, c);
      BitsUpdate(bits, bitset[..], lists, lists', c, false);
      lists := lists';
    }
    static lemma RemoveFramed(m: seq<Byte>, m': seq<Byte>, buffer: nat, lists: seq<seq<nat>>, held: set<Block>,
                              c: Block)
      requires Consistent(lists, held) && IsFree(lists, c) && InTree(c, |lists| - 1)
      requires buffer + Pow2(MaxOrder(lists)) <= |m|
      requires WrittenIn(m, m', Neighbours(Chains(buffer, lists)[c.level], IndexOf(lists[c.level], c.index)))
      ensures Framed(m, m', buffer, MaxOrder(lists), held)
    {
      var p, k := Chains(buffer, lists)[c.level], IndexOf(lists[c.level], c.index);
      forall x | x in Neighbours(p, k)
        ensures FreeNode(buffer, lists, c, x)
      {
        var j := if k > 0 && x == p[k - 1] then k - 1 else k + 1;
        ListedIsFree(buffer, lists, c.level, j);
      }
      WrittenFramed(m, m', buffer, lists, held, c, Neighbours(p, k), held);
    }

    /* ------------------------------------------------------------- allocation */

    ghost function St(): State
      reads this
    {
      State(lists, live)
    }

    ghost predicate Valid()
      reads this, heap, freeLists, bitset, blockOrders
    {
      Views() && Inv(St()) && OrdersAgree(blockOrders[..], maxOrder, live)
    }

    /** The part of Valid that depends on no byte of the memory, only on its size. */
    ghost predicate Rest(top: nat)
      reads this, bitset, blockOrders
    {
      && |lists| > 0 && maxOrder == MaxOrder(lists) && totalSize == Pow2(maxOrder)
      && 0 < buffer && buffer + totalSize <= top <= WORD
      && freeLists.Length == |lists| + 1 && bitset.Length == BitBytes(|lists| - 1)
      && blockOrders.Length == Pow2(|lists| - 1)
      && freeLists as object != blockOrders && freeLists as object != bitset && bitset as object != blockOrders
      && BitsAgree(bitset[..], lists) && Inv(St()) && OrdersAgree(blockOrders[..], maxOrder, live)
    }

    lemma ValidParts()
      ensures Valid() <==> Rest(|heap.bytes|) && |lists| > 0 && Linked(heap.bytes, freeLists[..], Chains(buffer, lists))
    {
      hide BitsAgree, Inv, OrdersAgree, Linked;
    }

    /** What allocation answers: the model's block, by its address. */
    ghost predicate AllocDone(st: State, size: nat, st': State, p: nat)
      requires |st.lists| > 0
    {
      var r := BuddyModel.Alloc(st, size);
      && st' == r.st
      && match r.block
         case None => p == NULL
         case Some(b) => b.level <= maxOrder && p == Addr(buffer, maxOrder, b)
    }

    /** The search from the target level upwards for a non-empty list. */
    method FindList(target: int) returns (level: int)
      requires Views() && 0 <= target < |lists|
      ensures -1 <= level <= target && level == FindLevel(lists, target)
    {
      hide BitsAgree, Chain, SizeOf;
      level := target;
      while level >= 0 && freeLists[level] == NULL
        invariant -1 <= level <= target && FindLevel(lists, level) == FindLevel(lists, target)
        decreases level + 1
      {
        HeadIsNull(heap.bytes, freeLists[..], buffer, lists, level);
        level := level - 1;
      }
      if level >= 0 {
        HeadIsNull(heap.bytes, freeLists[..], buffer, lists, level);
      }
    }

    /** clear_bit on a block that is not free: nothing to agree on changes. */
    method ClearUnset(level: nat, index: nat, ghost c: Block)
      requires Views() && c == Block(level, index) && InTree(c, |lists| - 1) && !IsFree(lists, c)
      modifies bitset
      ensures Views()
    {
      hide BitWritten, BitsAgree, Linked;
      ghost var bits := bitset[..];
      NodeIndexInBounds(c, |lists| - 1);
      ClearBit(bitset, NodeIndex(level, index));
      BitsUpdate(bits, bitset[..], lists, lists, c, false);
    }

    /** The split loop: from the held block c down to its leftmost block on the target level. */
    method SplitTo(node: nat, level0: nat, index0: nat, target: nat, ghost c0: Block, ghost keep: set<Block>)
      returns (ghost b: Block)
      requires Views() && Consistent(lists, keep + {c0}) && c0 !in keep
      requires c0 == Block(level0, index0) && level0 <= target < |lists| && node == Addr(buffer, maxOrder, c0)
      modifies this`lists, heap, freeLists, bitset
      ensures Views() && (lists, b) == SplitDown(old(lists), c0, target) && Consistent(lists, keep + {b}) && b !in keep
      ensures b.level == target && node == Addr(buffer, maxOrder, b)
      ensures Framed(old(heap.bytes), heap.bytes, buffer, maxOrder, keep)
    {
      hide Consistent, BitsAgree, Linked, SizeOf, Framed, Overlap, Covers, ClearOfFree, Same, Chains, IsFree, FreeSet;
      var level, index := level0, index0;
      b := c0;
      FramedRefl(heap.bytes, buffer, lists, keep, c0);
      while level < target
        invariant Views() && Consistent(lists, keep + {b}) && b !in keep
        invariant b == Block(level, index) && level <= target < |lists| && node == Addr(buffer, maxOrder, b)
        invariant SplitDown(lists, b, target) == SplitDown(old(lists), c0, target)
        invariant Framed(old(heap.bytes), heap.bytes, buffer, maxOrder, keep)
      {
        level := level + 1;
        index := 2 * index;
        var buddySize := totalSize / Pow2(level);
        ShiftIsSize(maxOrder, level);
        HalfBytes(maxOrder, b);
        ghost var before := heap.bytes;
        SplitReady(lists, keep, b);
        SplitStep(lists, keep + {b}, b);
        PutBlock(level, index + 1, node + buddySize, Right(b), keep + {b}, keep);
        FramedTrans(old(heap.bytes), before, heap.bytes, buffer, maxOrder, keep);
        ClearUnset(level, index, Left(b));
        assert keep + {b} - {b} + {Left(b)} == keep + {Left(b)};
        b := Left(b);
      }
    }

    /** buddy_alloc_fn */
    method Alloc(size: nat) returns (p: nat)
      requires Valid()
      modifies this`lists, this`live, heap, freeLists, bitset, blockOrders
      ensures Valid()
      ensures AllocDone(old(St()), size, St(), p)
      ensures Framed(old(heap.bytes), heap.bytes, buffer, maxOrder, old(live.Keys))
      ensures p == NULL ==> heap.bytes == old(heap.bytes)
    {
      hide Inv, Consistent, Linked, BitsAgree, Framed, OrdersAgree, SizeOf, Pow2, GetOrder, Chains;
      LiveFramed(heap.bytes, buffer, St());
      if size == 0 {
        return NULL;
      }
      var order := GetOrder(size);
      var minOrder := GetOrder(minBlockSize);
      GetOrderOf32();
      if order < minOrder {
        order := minOrder;
      }
      var targetLevel: int := maxOrder - order;
      if targetLevel < 0 {
        return NULL;
      }
      var level := FindList(targetLevel);
      FindLevelFacts(lists, targetLevel);
      if level < 0 {
        return NULL;
      }
      p := TakeAndSplit(level, targetLevel, size);
    }

    /** The part of buddy_alloc_fn that has found a non-empty list. */
    method TakeAndSplit(level: nat, target: nat, size: nat) returns (p: nat)
      requires Valid() && size > 0 && target == LevelOf(maxOrder, size) && level == FindLevel(lists, target)
      requires level <= target < |lists| && lists[level] != []
      modifies this`lists, this`live, heap, freeLists, bitset, blockOrders
      ensures Valid()
      ensures AllocDone(old(St()), size, St(), p) && p != NULL
      ensures Framed(old(heap.bytes), heap.bytes, buffer, maxOrder, old(live.Keys))
    {
      hide Consistent, Linked, BitsAgree, Framed, OrdersAgree, SizeOf, Pow2, GetOrder, LevelOf, FindLevel, SplitDown,
        Chains, Covers;
      ghost var c, keep, st := Block(level, lists[level][0]), live.Keys, St();
      HeadIsNull(heap.bytes, freeLists[..], buffer, lists, level);
      p := freeLists[level];
      ShiftIsSize(maxOrder, level);
      var index := (p - buffer) / (totalSize / Pow2(level));
      OffsetToIndex(maxOrder, c);
      PopStep(lists, keep, level);
      RemoveHead(lists[level]);
      TakeBlock(level, index, p, c, keep);
      ghost var before := heap.bytes;
      ghost var b := SplitTo(p, level, index, target, c, keep);
      FramedTrans(old(heap.bytes), before, heap.bytes, buffer, maxOrder, keep);
      AllocKeepsInv(st, size);
      OrdersStart(blockOrders[..], maxOrder, lists, live, b);
      blockOrders[(p - buffer) / minBlockSize] := target;
      OrdersAdd(old(blockOrders[..]), blockOrders[..], maxOrder, lists, live, b, size);
      live := live[b := size];
    }

    /* ------------------------------------------------------------------- free */

    ghost function BlockOf(p: nat, size: nat): Block
      requires buffer <= p && 0 <= LevelOf(maxOrder, size)
    {
      BlockFor(buffer, maxOrder, p, size)
    }

    /** p is a live allocation of this size. */
    ghost predicate LiveAt(p: nat, size: nat)
      reads this
    {
      BlockHolds(live, buffer, maxOrder, p, size)
    }

    /** buddy_contains_fn */
    predicate Contains(p: nat)
    {
      buffer <= p < buffer + totalSize
    }

    /** b covers the byte at p. */
    ghost predicate HoldsAddress(b: Block, p: nat)
    {
      b.level <= maxOrder && buffer + Lo(maxOrder, b) <= p < buffer + Hi(maxOrder, b)
    }

    /** Exactly the bytes of the free and the live blocks are contained. */
    lemma ContainsIsBlocks(p: nat)
      requires Valid()
      ensures Contains(p) <==> exists b :: (IsFree(lists, b) || b in live) && HoldsAddress(b, p)
    {
      hide Linked, BitsAgree, OrdersAgree, Inv;
      var blocks := BuddyTheorems.Blocks(St());
      ListedBlocks(lists, live);
      if Contains(p) {
        var b := BuddyTheorems.ExactTiling(St(), p - buffer);
        assert b in blocks && HoldsAddress(b, p);
      }
      forall b | b in blocks && HoldsAddress(b, p)
        ensures Contains(p)
      {
        BuddyTheorems.BlocksAligned(St(), b);
      }
    }

    lemma LiveSize(p: nat, size: nat)
      requires Valid() && LiveAt(p, size)
      ensures size > 0
    {
      hide Linked, BitsAgree, OrdersAgree;
    }

    /** Every byte of a live allocation is contained. */
    lemma LiveIsContained(p: nat, size: nat, x: nat)
      requires Valid() && LiveAt(p, size) && p <= x < p + size
      ensures Contains(x)
    {
      hide Linked, BitsAgree, OrdersAgree;
      var b := BlockOf(p, size);
      BuddyTheorems.BlockFits(maxOrder, size);
      assert HoldsAddress(b, x);
      ContainsIsBlocks(x);
    }

    /** get_bit on the bitset in use */
    predicate ReadBit(n: nat)
      requires n / 8 < bitset.Length
      reads bitset
    {
      ByteBit(bitset[n / 8], n % 8)
    }

    /** The end of a merge: the held block c goes on its list. */
    method PushHeld(level: nat, index: nat, ghost c: Block, ghost keep: set<Block>)
      requires Views() && Consistent(lists, keep + {c}) && c !in keep && c == Block(level, index) && level < |lists|
      requires level == 0 || Flip(index) !in lists[level]
      modifies this`lists, heap, freeLists, bitset
      ensures Views() && lists == Merge(old(lists), c) && Consistent(lists, keep)
      ensures Framed(old(heap.bytes), heap.bytes, buffer, maxOrder, keep)
    {
      hide Consistent, Linked, BitsAgree, SizeOf, Framed, Covers, ClearOfFree, Pow2;
      HeldReady(lists, keep, c);
      ShiftIsSize(maxOrder, level);
      PushStep(lists, keep + {c}, c);
      PutBlock(level, index, buffer + index * (totalSize / Pow2(level)), c, keep + {c}, keep);
      assert keep + {c} - {c} == keep;
    }

    /** One round of merging: the free sibling leaves its list, and the parent is held. */
    method JoinSibling(level: nat, buddyIndex: nat, ghost c: Block, ghost keep: set<Block>)
      requires Views() && Consistent(lists, keep + {c}) && c !in keep && 0 < level == c.level < |lists|
      requires buddyIndex == Flip(c.index) && buddyIndex in lists[level]
      modifies this`lists, heap, freeLists, bitset
      ensures Views() && lists == old(lists)[level := Remove(old(lists)[level], buddyIndex)]
      ensures Consistent(lists, keep + {Parent(c)}) && Parent(c) !in keep
      ensures Framed(old(heap.bytes), heap.bytes, buffer, maxOrder, keep)
    {
      hide Consistent, Linked, BitsAgree, SizeOf, Framed, Covers, Pow2;
      ShiftIsSize(maxOrder, level);
      MergeStep(lists, keep + {c}, c);
      TakeBlock(level, buddyIndex, buffer + buddyIndex * (totalSize / Pow2(level)), Sibling(c), keep + {c});
      FramedSubset(old(heap.bytes), heap.bytes, buffer, maxOrder, keep + {c}, keep);
      assert keep + {c} - {c} + {Parent(c)} == keep + {Parent(c)};
    }

    /** The merge loop: the held block c0 joins its free siblings and goes on a list. */
    method MergeUp(level0: nat, index0: nat, ghost c0: Block, ghost keep: set<Block>)
      requires Views() && Consistent(lists, keep + {c0}) && c0 !in keep && c0 == Block(level0, index0)
      requires level0 < |lists|
      modifies this`lists, heap, freeLists, bitset
      ensures Views() && lists == Merge(old(lists), c0) && Consistent(lists, keep)
      ensures Framed(old(heap.bytes), heap.bytes, buffer, maxOrder, keep)
    {
      hide Consistent, Linked, Framed, ClearOfFree, Pow2, ByteBit, Remove;
      var level: int := level0;
      var index: nat := index0;
      ghost var c := c0;
      FramedRefl(heap.bytes, buffer, lists, keep, c0);
      while level >= 0
        invariant Views() && Consistent(lists, keep + {c}) && c !in keep
        invariant 0 <= level < |lists| && c == Block(level, index)
        invariant Merge(lists, c) == Merge(old(lists), c0)
        invariant Framed(old(heap.bytes), heap.bytes, buffer, maxOrder, keep)
        decreases level
      {
        ghost var before := heap.bytes;
        if level == 0 {
          PushHeld(level, index, c, keep);
          FramedTrans(old(heap.bytes), before, heap.bytes, buffer, maxOrder, keep);
          return;
        }
        var buddyIndex := Flip(index);
        HeldReady(lists, keep, c);
        BitShowsFree(bitset[..], lists, Block(level, buddyIndex));
        if !ReadBit(NodeIndex(level, buddyIndex)) {
          PushHeld(level, index, c, keep);
          FramedTrans(old(heap.bytes), before, heap.bytes, buffer, maxOrder, keep);
          return;
        }
        JoinSibling(level, buddyIndex, c, keep);
        FramedTrans(old(heap.bytes), before, heap.bytes, buffer, maxOrder, keep);
        level := level - 1;
        index := index / 2;
        c := Parent(c);
      }
    }

    /** buddy_free_fn */
    method Free(p: nat, size: nat)
      requires Valid() && (p == NULL || LiveAt(p, size))
      modifies this`lists, this`live, heap, freeLists, bitset
      ensures Valid()
      ensures St() == if p == NULL then old(St()) else BuddyModel.Free(old(St()), BlockOf(p, size))
      ensures Framed(old(heap.bytes), heap.bytes, buffer, maxOrder, live.Keys)
    {
      hide Inv, Consistent, Linked, BitsAgree, Framed, SizeOf, Pow2, GetOrder, Chains, Merge, Tiles;
      LiveFramed(heap.bytes, buffer, St());
      if p == NULL {
        return;
      }
      FreeReady(St(), BlockOf(p, size));
      LiveSize(p, size);
      LiveIsContained(p, size, p);
      assert Contains(p);
      var order := GetOrder(size);
      var minOrder := GetOrder(minBlockSize);
      GetOrderOf32();
      if order < minOrder {
        order := minOrder;
      }
      var level := maxOrder - order;
      var offset := p - buffer;
      ShiftIsSize(maxOrder, level);
      var index := offset / (totalSize / Pow2(level));
      ghost var b, keep := BlockOf(p, size), live.Keys - {BlockOf(p, size)};
      FreeKeepsInv(St(), b);
      MergeUp(level, index, b, keep);
      live := live - {b};
    }

    /* -------------------------------------------------- payload and reallocation */

    /** Any bytes may be stored in a live block: the allocator's own data are elsewhere. */
    method WritePayload(at: nat, data: seq<Byte>, ghost b: Block)
      requires Valid() && b in live && b.level <= maxOrder
      requires Addr(buffer, maxOrder, b) <= at && at + |data| <= Addr(buffer, maxOrder, b) + SizeOf(maxOrder, b.level)
      requires at + |data| <= |heap.bytes|
      modifies heap
      ensures Valid() && heap.bytes == old(heap.bytes)[..at] + data + old(heap.bytes)[at + |data|..]
      ensures Framed(old(heap.bytes), heap.bytes, buffer, maxOrder, live.Keys - {b})
    {
      hide Inv, BitsAgree, Linked, Framed, OrdersAgree, SizeOf, Pow2;
      heap.Write(at, data);
      PayloadKeepsLinks(old(heap.bytes), heap.bytes, freeLists[..], buffer, St(), b);
      PayloadFramed(old(heap.bytes), heap.bytes, buffer, St(), b);
    }

    /** The end of buddy_realloc_fn: the contents move to q, and p is freed. */
    method MoveAndFree(p: nat, oldSize: nat, q: nat, newSize: nat)
      requires Valid() && LiveAt(p, oldSize) && LiveAt(q, newSize) && p != q
      modifies this`lists, this`live, heap, freeLists, bitset
      ensures Valid() && St() == BuddyModel.Free(old(St()), BlockOf(p, oldSize))
      ensures Copied(old(heap.bytes), heap.bytes, p, q, Min(oldSize, newSize))
      ensures Framed(old(heap.bytes), heap.bytes, buffer, maxOrder,
                     old(live.Keys) - {BlockOf(p, oldSize), BlockOf(q, newSize)})
    {
      hide Inv, BitsAgree, Linked, Framed, OrdersAgree, SizeOf, Pow2, Chains, GetOrder;
      ghost var b, nb, m := BlockOf(p, oldSize), BlockOf(q, newSize), heap.bytes;
      var copySize := Min(oldSize, newSize);
      PayloadApart(St(), buffer, b, nb, |heap.bytes|);
      heap.Copy(q, p, copySize);
      ghost var m1 := heap.bytes;
      PayloadKeepsLinks(m, m1, freeLists[..], buffer, St(), nb);
      PayloadFramed(m, m1, buffer, St(), nb);
      Free(p, oldSize);
      MoveFramed(m, m1, heap.bytes, buffer, maxOrder, old(live.Keys), b, nb);
      CopySurvives(m, m1, heap.bytes, buffer, maxOrder, live.Keys, nb, p, q, copySize);
    }

    /** buddy_realloc_fn */
    method Realloc(p: nat, oldSize: nat, newSize: nat) returns (q: nat)
      requires Valid() && (p == NULL || LiveAt(p, oldSize))
      modifies this`lists, this`live, heap, freeLists, bitset, blockOrders
      ensures Valid()
      ensures p == NULL ==> AllocDone(old(St()), newSize, St(), q)
      ensures p != NULL ==> St() == BuddyTheorems.Realloc(old(St()), BlockOf(p, oldSize), newSize)
      ensures p != NULL && newSize > 0 ==> (q == NULL <==> BuddyModel.Alloc(old(St()), newSize).block.None?)
      ensures p != NULL && newSize == 0 ==> q == NULL
      ensures newSize > 0 && q == NULL ==> heap.bytes == old(heap.bytes)
      ensures q != NULL ==> LiveAt(q, newSize)
      ensures p != NULL && q != NULL ==> BuddyModel.Alloc(old(St()), newSize).block == Some(BlockOf(q, newSize))
      ensures p != NULL && q != NULL ==> Copied(old(heap.bytes), heap.bytes, p, q, Min(oldSize, newSize))
      ensures Framed(old(heap.bytes), heap.bytes, buffer, maxOrder,
                     if p == NULL then old(live.Keys) else old(live.Keys) - {BlockOf(p, oldSize)})
    {
      hide Inv, BitsAgree, Linked, Framed, OrdersAgree, SizeOf, Pow2, Chains, GetOrder, BuddyModel.Alloc, Same;
      ghost var st, m := St(), heap.bytes;
      if p != NULL {
        LiveSize(p, oldSize);
        LiveIsContained(p, oldSize, p);
      }
      assert p == NULL || Contains(p);
      if p == NULL {
        q := Alloc(newSize);
        if q != NULL {
          AllocIsLive(st, newSize, q);
        }
        return;
      }
      if newSize == 0 {
        Free(p, oldSize);
        FramedSubset(m, heap.bytes, buffer, maxOrder, live.Keys, old(live.Keys) - {BlockOf(p, oldSize)});
        return NULL;
      }
      q := ReallocLive(p, oldSize, newSize);
    }

    /** buddy_realloc_fn for a live block and a non-zero size. */
    method ReallocLive(p: nat, oldSize: nat, newSize: nat) returns (q: nat)
      requires Valid() && LiveAt(p, oldSize) && newSize > 0
      modifies this`lists, this`live, heap, freeLists, bitset, blockOrders
      ensures Valid() && St() == BuddyTheorems.Realloc(old(St()), BlockOf(p, oldSize), newSize)
      ensures q == NULL <==> BuddyModel.Alloc(old(St()), newSize).block.None?
      ensures q == NULL ==> heap.bytes == old(heap.bytes)
      ensures q != NULL ==> LiveAt(q, newSize)
      ensures q != NULL ==> BuddyModel.Alloc(old(St()), newSize).block == Some(BlockOf(q, newSize))
      ensures q != NULL ==> Copied(old(heap.bytes), heap.bytes, p, q, Min(oldSize, newSize))
      ensures Framed(old(heap.bytes), heap.bytes, buffer, maxOrder, old(live.Keys) - {BlockOf(p, oldSize)})
    {
      hide Inv, BitsAgree, Linked, Framed, OrdersAgree, SizeOf, Pow2, Chains, GetOrder, BuddyModel.Alloc, Same, Copied;
      ghost var st, m := St(), heap.bytes;
      AllocKeepsInv(st, newSize);
      q := Alloc(newSize);
      ghost var m1, b := heap.bytes, BlockOf(p, oldSize);
      FramedSubset(m, m1, buffer, maxOrder, st.live.Keys, st.live.Keys - {b});
      if q == NULL {
        return NULL;
      }
      AllocIsLive(st, newSize, q);
      ghost var nb := BlockOf(q, newSize);
      PayloadApart(St(), buffer, b, nb, |m1|);
      MoveAndFree(p, oldSize, q, newSize);
      LiveKeysAround(st.live, b, nb, newSize);
      FramedTrans(m, m1, heap.bytes, buffer, maxOrder, st.live.Keys - {b});
      CopiedFrom(m, m1, heap.bytes, buffer, maxOrder, st.live.Keys, b, p, q, Min(oldSize, newSize));
    }

    /** A successful allocation is live, at the address of the block it added. */
    lemma AllocIsLive(st: State, size: nat, q: nat)
      requires Valid() && Inv(st) && AllocDone(st, size, St(), q) && q != NULL
      ensures LiveAt(q, size) && BuddyModel.Alloc(st, size).block == Some(BlockOf(q, size))
      ensures BlockOf(q, size) !in st.live && live == st.live[BlockOf(q, size) := size]
    {
      hide Inv, Linked, BitsAgree, OrdersAgree, SizeOf, GetOrder, BuddyModel.Alloc;
      AllocKeepsInv(st, size);
      OffsetToIndex(maxOrder, BuddyModel.Alloc(st, size).block.value);
    }

    /** An allocation and the free of its result: every list, list head and bit is as before. */
    method RoundTrip(size: nat)
      requires Valid()
      modifies this`lists, this`live, heap, freeLists, bitset, blockOrders
      ensures Valid() && St() == old(St())
      ensures freeLists[..|lists|] == old(freeLists[..|lists|]) && SameBits(old(bitset[..]), bitset[..], |lists| - 1)
    {
      hide Inv, OrdersAgree, Framed, SizeOf, GetOrder, Pow2, BuddyModel.Alloc, BuddyModel.Free, Chain, BitsAgree,
        Linked, Chains,
        SameBits;
      ghost var st, heads, bits := St(), freeLists[..], bitset[..];
      HeadsFromLists(heap.bytes, heads, buffer, lists);
      var p := Alloc(size);
      if p != NULL {
        AllocIsLive(st, size, p);
        BuddyTheorems.AllocFreeRoundTrip(st, size);
        Free(p, size);
      } else {
        AllocKeepsInv(st, size);
      }
      HeadsFromLists(heap.bytes, freeLists[..], buffer, lists);
      BitsDetermined(bits, bitset[..], lists);
    }
  }
}
