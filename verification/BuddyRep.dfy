/** How the buddy allocator's lists and bitset represent its free blocks, on values. */
module BuddyRep {
  import opened Order
  import opened BuddyTree
  import opened Sequences
  import opened BuddyModel
  import opened Memory
  import opened Bitset
  import opened FreeLists

  function Addr(base: nat, order: nat, b: Block): nat
    requires b.level <= order
  {
    base + Lo(order, b)
  }

  /* -------------------------------------------------------------- chains */

  ghost function Addrs(base: nat, size: nat, s: seq<nat>): (p: seq<nat>)
    ensures |p| == |s|
  {
    seq(|s|, k requires 0 <= k < |s| => base + s[k] * size)
  }

  /** The node addresses of every free list. */
  ghost function Chains(base: nat, lists: seq<seq<nat>>): (chains: seq<seq<nat>>)
    requires |lists| > 0
    ensures |chains| == |lists|
  {
    seq(|lists|, l requires 0 <= l < |lists| => Addrs(base, SizeOf(MaxOrder(lists), l), lists[l]))
  }

  lemma ChainsUpdate(base: nat, lists: seq<seq<nat>>, l: nat, s: seq<nat>)
    requires l < |lists|
    ensures Chains(base, lists[l := s]) == Chains(base, lists)[l := Addrs(base, SizeOf(MaxOrder(lists), l), s)]
  {
  }

  lemma ChainsPush(base: nat, lists: seq<seq<nat>>, c: Block)
    requires c.level < |lists|
    ensures Chains(base, lists[c.level := [c.index] + lists[c.level]])
            == Chains(base, lists)[c.level := [Addr(base, MaxOrder(lists), c)] + Chains(base, lists)[c.level]]
  {
    var size := SizeOf(MaxOrder(lists), c.level);
    ChainsUpdate(base, lists, c.level, [c.index] + lists[c.level]);
    assert Addrs(base, size, [c.index] + lists[c.level])
        == [Addr(base, MaxOrder(lists), c)] + Addrs(base, size, lists[c.level]);
  }

  lemma ChainsRemove(base: nat, lists: seq<seq<nat>>, c: Block)
    requires IsFree(lists, c)
    ensures var k := IndexOf(lists[c.level], c.index);
            Chains(base, lists)[c.level][k] == Addr(base, MaxOrder(lists), c) &&
            Chains(base, lists[c.level := Remove(lists[c.level], c.index)])
            == Chains(base, lists)[c.level := Without(Chains(base, lists)[c.level], k)]
  {
    var size := SizeOf(MaxOrder(lists), c.level);
    var s := lists[c.level];
    var k := IndexOf(s, c.index);
    ChainsUpdate(base, lists, c.level, Remove(s, c.index));
    assert Addrs(base, size, Remove(s, c.index)) == Without(Addrs(base, size, s), k);
  }

  /** Blocks that do not overlap have separate headers inside the buffer. */
  lemma BlocksApart(base: nat, order: nat, depth: nat, a: Block, b: Block)
    requires InTree(a, depth) && InTree(b, depth) && order == depth + MIN_ORDER && !Overlap(a, b)
    ensures Apart(Addr(base, order, a), Addr(base, order, b))
  {
    DisjointBlocks(order, a, b);
    SizeAtLeast32(order, a.level);
    SizeAtLeast32(order, b.level);
  }

  lemma SizeAtLeast32(order: nat, level: nat)
    requires level + MIN_ORDER <= order
    ensures SizeOf(order, level) >= 32
  {
    Pow2Monotone(5, order - level);
    Pow2Values();
  }

  lemma HeaderInBuffer(base: nat, order: nat, depth: nat, b: Block)
    requires InTree(b, depth) && order == depth + MIN_ORDER
    ensures Addr(base, order, b) + HEADER <= base + Pow2(order)
  {
    InTreeBytes(order, b, depth);
    SizeAtLeast32(order, b.level);
  }

  lemma ListedIsFree(base: nat, lists: seq<seq<nat>>, l: nat, k: nat)
    requires l < |lists| && k < |lists[l]|
    ensures IsFree(lists, Block(l, lists[l][k]))
    ensures Chains(base, lists)[l][k] == Addr(base, MaxOrder(lists), Block(l, lists[l][k]))
  {
  }

  lemma NodesApart(base: nat, lists: seq<seq<nat>>, held: set<Block>, a: Block, b: Block)
    requires Consistent(lists, held) && IsFree(lists, a) && IsFree(lists, b) && a != b
    ensures Apart(Addr(base, MaxOrder(lists), a), Addr(base, MaxOrder(lists), b))
  {
    assert a in FreeSet(lists) + held && b in FreeSet(lists) + held;
    BlocksApart(base, MaxOrder(lists), |lists| - 1, a, b);
  }

  lemma ChainsSeparate(base: nat, lists: seq<seq<nat>>, held: set<Block>)
    requires Consistent(lists, held)
    ensures Separate(Chains(base, lists))
  {
    var chains := Chains(base, lists);
    forall l, i, j | 0 <= l < |chains| && 0 <= i < j < |chains[l]|
      ensures Apart(chains[l][i], chains[l][j])
    {
      ListedIsFree(base, lists, l, i);
      ListedIsFree(base, lists, l, j);
      assert Distinct(lists[l]);
      NodesApart(base, lists, held, Block(l, lists[l][i]), Block(l, lists[l][j]));
    }
    forall l, l', i, j | 0 <= l < l' < |chains| && 0 <= i < |chains[l]| && 0 <= j < |chains[l']|
      ensures Apart(chains[l][i], chains[l'][j])
    {
      ListedIsFree(base, lists, l, i);
      ListedIsFree(base, lists, l', j);
      NodesApart(base, lists, held, Block(l, lists[l][i]), Block(l', lists[l'][j]));
    }
  }

  /** A block that overlaps no free block. */
  ghost predicate ClearOfFree(lists: seq<seq<nat>>, c: Block)
  {
    forall f :: IsFree(lists, f) ==> !Overlap(c, f)
  }

  lemma NodeClear(base: nat, lists: seq<seq<nat>>, held: set<Block>, c: Block)
    requires Consistent(lists, held) && InTree(c, |lists| - 1) && ClearOfFree(lists, c)
    ensures forall l, k :: 0 <= l < |lists| && 0 <= k < |Chains(base, lists)[l]| ==>
              Apart(Addr(base, MaxOrder(lists), c), Chains(base, lists)[l][k])
  {
    forall l, k | 0 <= l < |lists| && 0 <= k < |Chains(base, lists)[l]|
      ensures Apart(Addr(base, MaxOrder(lists), c), Chains(base, lists)[l][k])
    {
      ListedIsFree(base, lists, l, k);
      var f := Block(l, lists[l][k]);
      assert f in FreeSet(lists) + held;
      BlocksApart(base, MaxOrder(lists), |lists| - 1, c, f);
    }
  }

  /* ---------------------------------------------------------------- bits */

  /** node_index: level l's bits follow those of the levels above it. */
  function NodeIndex(level: nat, index: nat): nat
  {
    Pow2(level) + index - 1
  }

  function BitBytes(depth: nat): nat
  {
    (Pow2(depth) * 2 + 7) / 8
  }

  /** The bit of a block is set exactly when the block is on its level's list. */
  ghost predicate BitsAgree(bits: seq<bv8>, lists: seq<seq<nat>>)
  {
    && |lists| > 0 && |bits| == BitBytes(|lists| - 1)
    && forall b :: InTree(b, |lists| - 1) ==> BitOk(bits, lists, b)
  }

  ghost predicate BitOk(bits: seq<bv8>, lists: seq<seq<nat>>, b: Block)
  {
    && NodeIndex(b.level, b.index) / 8 < |bits|
    && (GetBit(bits, NodeIndex(b.level, b.index)) <==> IsFree(lists, b))
  }

  /** Every block's bit lies inside the bitset. */
  lemma NodeIndexInBounds(b: Block, depth: nat)
    requires InTree(b, depth)
    ensures NodeIndex(b.level, b.index) / 8 < BitBytes(depth)
  {
    Pow2Monotone(b.level, depth);
  }

  lemma NodeIndexInjective(a: Block, b: Block, depth: nat)
    requires InTree(a, depth) && InTree(b, depth)
    requires NodeIndex(a.level, a.index) == NodeIndex(b.level, b.index)
    ensures a == b
  {
    if a.level < b.level {
      Pow2Monotone(a.level + 1, b.level);
    } else if b.level < a.level {
      Pow2Monotone(b.level + 1, a.level);
    }
  }

  /** Every block's bit reads the same. */
  ghost predicate SameBits(bits: seq<bv8>, bits': seq<bv8>, depth: nat)
  {
    && |bits'| == |bits|
    && forall b :: InTree(b, depth) && NodeIndex(b.level, b.index) / 8 < |bits| ==>
         (GetBit(bits', NodeIndex(b.level, b.index)) <==> GetBit(bits, NodeIndex(b.level, b.index)))
  }

  /** The lists determine every bit in use. */
  lemma BitsDetermined(bits: seq<bv8>, bits': seq<bv8>, lists: seq<seq<nat>>)
    requires BitsAgree(bits, lists) && BitsAgree(bits', lists)
    ensures SameBits(bits, bits', |lists| - 1)
  {
    forall b | InTree(b, |lists| - 1)
      ensures NodeIndex(b.level, b.index) / 8 < |bits| &&
              (GetBit(bits', NodeIndex(b.level, b.index)) <==> GetBit(bits, NodeIndex(b.level, b.index)))
    {
      assert BitOk(bits, lists, b) && BitOk(bits', lists, b);
    }
  }

  lemma BitsUpdate(bits: seq<bv8>, bits': seq<bv8>, lists: seq<seq<nat>>, lists': seq<seq<nat>>, c: Block, v: bool)
    requires BitsAgree(bits, lists) && InTree(c, |lists| - 1) && FreeChanged(lists, lists', c, v)
    requires BitWritten(bits, bits', NodeIndex(c.level, c.index), v)
    ensures BitsAgree(bits', lists')
  {
    forall b | InTree(b, |lists| - 1)
      ensures BitOk(bits', lists', b)
    {
      assert BitOk(bits, lists, b);
      if NodeIndex(b.level, b.index) == NodeIndex(c.level, c.index) {
        NodeIndexInjective(b, c, |lists| - 1);
      }
    }
  }

  /* --------------------------------------------------------------- frames */

  /** Nothing outside the buffer and no byte of the blocks keep has changed. */
  ghost predicate Framed(m: seq<Byte>, m': seq<Byte>, base: nat, order: nat, keep: set<Block>)
  {
    && |m'| == |m|
    && Same(m, m', 0, base) && Same(m, m', base + Pow2(order), |m|)
    && forall b :: b in keep ==> b.level <= order && BlockSame(m, m', base, order, b)
  }

  ghost predicate BlockSame(m: seq<Byte>, m': seq<Byte>, base: nat, order: nat, b: Block)
    requires |m| == |m'| && b.level <= order
  {
    Same(m, m', base + Lo(order, b), base + Hi(order, b))
  }

  lemma FramedLength(m: seq<Byte>, m': seq<Byte>, base: nat, order: nat, keep: set<Block>)
    requires Framed(m, m', base, order, keep)
    ensures |m'| == |m|
  {
  }

  lemma FramedTrans(m: seq<Byte>, m1: seq<Byte>, m2: seq<Byte>, base: nat, order: nat, keep: set<Block>)
    requires Framed(m, m1, base, order, keep) && Framed(m1, m2, base, order, keep)
    ensures Framed(m, m2, base, order, keep)
  {
    forall b | b in keep
      ensures BlockSame(m, m2, base, order, b)
    {
      assert BlockSame(m, m1, base, order, b) && BlockSame(m1, m2, base, order, b);
    }
  }

  lemma FramedSubset(m: seq<Byte>, m': seq<Byte>, base: nat, order: nat, keep: set<Block>, keep': set<Block>)
    requires Framed(m, m', base, order, keep) && keep' <= keep
    ensures Framed(m, m', base, order, keep')
  {
  }

  /** x is the address of a free block or of c. */
  ghost predicate FreeNode(base: nat, lists: seq<seq<nat>>, c: Block, x: nat)
    requires |lists| > 0
  {
    exists f :: (IsFree(lists, f) || f == c) && f.level < |lists| && x == Addr(base, MaxOrder(lists), f)
  }

  /** Writing headers of free blocks, or of a block clear of the kept ones, frames the kept blocks. */
  lemma WrittenFramed(m: seq<Byte>, m': seq<Byte>, base: nat, lists: seq<seq<nat>>, held: set<Block>, c: Block,
                      nodes: set<nat>, keep: set<Block>)
    requires Consistent(lists, held) && InTree(c, |lists| - 1) && keep <= held
    requires IsFree(lists, c) || forall b :: b in keep ==> !Overlap(b, c)
    requires WrittenIn(m, m', nodes) && forall x :: x in nodes ==> FreeNode(base, lists, c, x)
    requires base + Pow2(MaxOrder(lists)) <= |m|
    ensures Framed(m, m', base, MaxOrder(lists), keep)
  {
    var order := MaxOrder(lists);
    forall i | 0 <= i < |m| && m'[i] != m[i]
      ensures base <= i < base + Pow2(order)
      ensures forall b :: b in keep ==> b.level <= order && !(base + Lo(order, b) <= i < base + Hi(order, b))
    {
      assert InHeader(i, nodes);
      var x :| x in nodes && x <= i < x + HEADER;
      assert FreeNode(base, lists, c, x);
      var f :| (IsFree(lists, f) || f == c) && f.level < |lists| && x == Addr(base, order, f);
      FreeInTree(lists, held, f, c);
      HeaderInBuffer(base, order, |lists| - 1, f);
      SizeAtLeast32(order, f.level);
      forall b | b in keep
        ensures b.level <= order && !(base + Lo(order, b) <= i < base + Hi(order, b))
      {
        KeptClear(lists, held, f, c, b);
        DisjointBlocks(order, f, b);
      }
    }
    forall b | b in keep
      ensures b.level <= order && BlockSame(m, m', base, order, b)
    {
      KeptClear(lists, held, c, c, b);
    }
  }

  lemma FreeInTree(lists: seq<seq<nat>>, held: set<Block>, f: Block, c: Block)
    requires Consistent(lists, held) && InTree(c, |lists| - 1) && (IsFree(lists, f) || f == c)
    ensures InTree(f, |lists| - 1)
  {
    assert IsFree(lists, f) ==> f in FreeSet(lists) + held;
  }

  lemma KeptClear(lists: seq<seq<nat>>, held: set<Block>, f: Block, c: Block, b: Block)
    requires Consistent(lists, held) && InTree(c, |lists| - 1) && b in held
    requires IsFree(lists, c) || !Overlap(b, c)
    requires IsFree(lists, f) || f == c
    ensures InTree(b, |lists| - 1) && !Overlap(f, b)
  {
    assert b in FreeSet(lists) + held;
    assert IsFree(lists, f) ==> f in FreeSet(lists) + held;
  }

  /** The lists are stored inside the buffer: changes elsewhere leave them alone. */
  lemma LinkedInBuffer(m: seq<Byte>, m': seq<Byte>, heads: seq<nat>, base: nat, lists: seq<seq<nat>>, held: set<Block>)
    requires Consistent(lists, held) && Linked(m, heads, Chains(base, lists)) && |m'| == |m|
    requires Same(m, m', base, base + Pow2(MaxOrder(lists)))
    ensures Linked(m', heads, Chains(base, lists))
  {
    var chains := Chains(base, lists);
    forall l, k | 0 <= l < |chains| && 0 <= k < |chains[l]|
      ensures NodeOk(m', chains[l], k)
    {
      assert Chain(m, chains[l]) && NodeOk(m, chains[l], k);
      ListedIsFree(base, lists, l, k);
      var f := Block(l, lists[l][k]);
      assert f in FreeSet(lists) + held;
      HeaderInBuffer(base, MaxOrder(lists), |lists| - 1, f);
      LoadFrame(m, m', chains[l][k], 8);
      LoadFrame(m, m', chains[l][k] + 8, 8);
    }
  }
}
