/** The binary tree of buddy blocks, tilings of it, and what its blocks mean in bytes. */
module BuddyTree {
  import opened Order

  /** The block number `index` on `level`; level 0 is the whole buffer. */
  datatype Block = Block(level: nat, index: nat)

  const ROOT := Block(0, 0)

  function Left(b: Block): Block { Block(b.level + 1, 2 * b.index) }

  function Right(b: Block): Block { Block(b.level + 1, 2 * b.index + 1) }

  function Parent(b: Block): Block
    requires b.level > 0
  {
    Block(b.level - 1, b.index / 2)
  }

  /** index ^ 1: the number of the other half of the parent. */
  function Flip(index: nat): nat { if index % 2 == 0 then index + 1 else index - 1 }

  function Sibling(b: Block): Block { Block(b.level, Flip(b.index)) }

  predicate InTree(b: Block, depth: nat)
  {
    b.level <= depth && b.index < Pow2(b.level)
  }

  /** a is b or one of its ancestors. */
  predicate Covers(a: Block, b: Block)
    decreases b.level
  {
    a == b || (a.level < b.level && Covers(a, Parent(b)))
  }

  predicate Overlap(a: Block, b: Block)
  {
    Covers(a, b) || Covers(b, a)
  }

  lemma {:induction false} CoversTrans(a: Block, b: Block, c: Block)
    requires Covers(a, b) && Covers(b, c)
    ensures Covers(a, c)
    decreases c.level
  {
    if b != c {
      CoversTrans(a, b, Parent(c));
    }
  }

  /** Two blocks that share a sub-block are on one branch. */
  lemma {:induction false} CoversLinear(a: Block, b: Block, x: Block)
    requires Covers(a, x) && Covers(b, x)
    ensures Overlap(a, b)
    decreases x.level
  {
    if a != x && b != x {
      CoversLinear(a, b, Parent(x));
    }
  }

  /** Below b there are only its two halves. */
  lemma {:induction false} CoversHalf(b: Block, x: Block)
    requires Covers(b, x) && b != x
    ensures Covers(Left(b), x) || Covers(Right(b), x)
    decreases x.level
  {
    if Parent(x) != b {
      CoversHalf(b, Parent(x));
    }
  }

  lemma CoversHalves(b: Block)
    ensures Covers(b, Left(b)) && Covers(b, Right(b))
    ensures !Overlap(Left(b), Right(b))
  {
    assert Parent(Left(b)) == b && Parent(Right(b)) == b;
  }

  lemma SiblingFacts(b: Block, depth: nat)
    requires b.level > 0 && InTree(b, depth)
    ensures Sibling(b) != b && Sibling(Sibling(b)) == b
    ensures Parent(Sibling(b)) == Parent(b)
    ensures InTree(Sibling(b), depth) && InTree(Parent(b), depth)
    ensures {b, Sibling(b)} == {Left(Parent(b)), Right(Parent(b))}
    ensures !Overlap(b, Sibling(b))
  {
    CoversHalves(Parent(b));
  }

  lemma HalvesInTree(b: Block, depth: nat)
    requires InTree(b, depth) && b.level < depth
    ensures InTree(Left(b), depth) && InTree(Right(b), depth)
    ensures Sibling(Left(b)) == Right(b) && Sibling(Right(b)) == Left(b)
    ensures Parent(Left(b)) == b == Parent(Right(b))
  {
  }

  /** A block that covers a half of b and is not that half covers b. */
  lemma CoversParent(a: Block, b: Block)
    requires b.level > 0 && Covers(a, b) && a != b
    ensures Covers(a, Parent(b))
  {
  }

  lemma OverlapParent(b: Block, x: Block)
    requires b.level > 0 && Overlap(b, x)
    ensures Overlap(Parent(b), x)
  {
    assert Covers(Parent(b), b);
    if Covers(b, x) {
      CoversTrans(Parent(b), b, x);
    } else if x != b {
      CoversParent(x, b);
    }
  }

  lemma OverlapOfCovered(a: Block, b: Block, x: Block)
    requires Covers(a, b) && Overlap(b, x)
    ensures Overlap(a, x)
  {
    if Covers(b, x) {
      CoversTrans(a, b, x);
    } else {
      CoversLinear(a, x, b);
    }
  }

  /* ---------------------------------------------------------------- tilings */

  /** The blocks of t are in the tree, do not overlap, and leave no leaf uncovered. */
  ghost predicate Tiles(t: set<Block>, depth: nat)
  {
    && (forall b :: b in t ==> InTree(b, depth))
    && (forall a, b :: a in t && b in t && a != b ==> !Overlap(a, b))
    && (forall j: nat :: j < Pow2(depth) ==> Covered(t, Block(depth, j)))
  }

  ghost predicate Covered(t: set<Block>, x: Block)
  {
    exists b :: b in t && Covers(b, x)
  }

  lemma RootTiles(depth: nat)
    ensures Tiles({ROOT}, depth)
  {
    forall j: nat | j < Pow2(depth)
      ensures Covered({ROOT}, Block(depth, j))
    {
      RootCovers(Block(depth, j));
      assert ROOT in {ROOT};
    }
  }

  lemma {:induction false} RootCovers(x: Block)
    requires x.index < Pow2(x.level)
    ensures Covers(ROOT, x)
    decreases x.level
  {
    if x.level > 0 {
      RootCovers(Parent(x));
    }
  }

  /** Replacing one block by its halves. */
  lemma SplitTiles(t: set<Block>, b: Block, depth: nat)
    requires Tiles(t, depth) && b in t && b.level < depth
    ensures Tiles(t - {b} + {Left(b), Right(b)}, depth)
    ensures Left(b) !in t && Right(b) !in t
  {
    var t' := t - {b} + {Left(b), Right(b)};
    CoversHalves(b);
    HalvesInTree(b, depth);
    forall x | x in t && x != b
      ensures !Overlap(Left(b), x) && !Overlap(Right(b), x)
    {
      if Overlap(Left(b), x) {
        OverlapParent(Left(b), x);
      }
      if Overlap(Right(b), x) {
        OverlapParent(Right(b), x);
      }
    }
    forall j: nat | j < Pow2(depth)
      ensures Covered(t', Block(depth, j))
    {
      var x := Block(depth, j);
      assert Covered(t, x);
      var c :| c in t && Covers(c, x);
      if c == b {
        CoversHalf(b, x);
        assert Left(b) in t' && Right(b) in t';
      } else {
        assert c in t';
      }
    }
  }

  /** Replacing two siblings by their parent. */
  lemma MergeTiles(t: set<Block>, b: Block, depth: nat)
    requires b.level > 0 && Tiles(t, depth) && b in t && Sibling(b) in t
    ensures Tiles(t - {b, Sibling(b)} + {Parent(b)}, depth)
    ensures Parent(b) !in t
  {
    var s, p := Sibling(b), Parent(b);
    var t' := t - {b, s} + {p};
    SiblingFacts(b, depth);
    CoversHalves(p);
    forall x | x in t && x != b && x != s
      ensures !Overlap(p, x)
    {
      if Covers(p, x) {
        if p != x {
          CoversHalf(p, x);
        }
      } else if Covers(x, p) {
        CoversTrans(x, p, b);
      }
    }
    forall j: nat | j < Pow2(depth)
      ensures Covered(t', Block(depth, j))
    {
      var x := Block(depth, j);
      assert Covered(t, x);
      var c :| c in t && Covers(c, x);
      if c == b || c == s {
        CoversTrans(p, c, x);
        assert p in t';
      } else {
        assert c in t';
      }
    }
  }

  /* ---------------------------------------------------------------- bytes */

  /** The size in bytes of a block on this level, in a buffer of Pow2(order) bytes. */
  function SizeOf(order: nat, level: nat): (n: nat)
    requires level <= order
    ensures n > 0
  {
    Pow2(order - level)
  }

  function Lo(order: nat, b: Block): nat
    requires b.level <= order
  {
    b.index * SizeOf(order, b.level)
  }

  function Hi(order: nat, b: Block): nat
    requires b.level <= order
  {
    Lo(order, b) + SizeOf(order, b.level)
  }

  ghost predicate DisjointBytes(order: nat, a: Block, b: Block)
    requires a.level <= order && b.level <= order
  {
    Hi(order, a) <= Lo(order, b) || Hi(order, b) <= Lo(order, a)
  }

  /** The two halves split their parent's bytes in the middle. */
  lemma HalfBytes(order: nat, b: Block)
    requires b.level < order
    ensures Lo(order, Left(b)) == Lo(order, b)
    ensures Lo(order, Right(b)) == Hi(order, Left(b))
    ensures Hi(order, Right(b)) == Hi(order, b)
    ensures SizeOf(order, b.level) == 2 * SizeOf(order, b.level + 1)
  {
  }

  lemma ParentBytes(order: nat, b: Block)
    requires 0 < b.level <= order
    ensures Lo(order, Parent(b)) <= Lo(order, b) && Hi(order, b) <= Hi(order, Parent(b))
  {
    HalfBytes(order, Parent(b));
    assert b == Left(Parent(b)) || b == Right(Parent(b));
  }

  lemma {:induction false} CoversBytes(order: nat, a: Block, b: Block)
    requires Covers(a, b) && b.level <= order
    ensures a.level <= order && Lo(order, a) <= Lo(order, b) && Hi(order, b) <= Hi(order, a)
    decreases b.level
  {
    if a != b {
      CoversBytes(order, a, Parent(b));
      ParentBytes(order, b);
    }
  }

  /** Blocks that do not overlap in the tree share no byte. */
  lemma {:induction false} DisjointBlocks(order: nat, a: Block, b: Block)
    requires a.level <= order && b.level <= order && !Overlap(a, b)
    ensures DisjointBytes(order, a, b)
    decreases a.level + b.level
  {
    if a.level < b.level {
      assert !Overlap(a, Parent(b));
      DisjointBlocks(order, a, Parent(b));
      ParentBytes(order, b);
    } else if b.level < a.level {
      assert !Overlap(Parent(a), b);
      DisjointBlocks(order, Parent(a), b);
      ParentBytes(order, a);
    } else {
      SameLevelDisjoint(a.index, b.index, SizeOf(order, a.level));
    }
  }

  lemma SameLevelDisjoint(i: nat, j: nat, size: nat)
    requires i != j
    ensures i * size + size <= j * size || j * size + size <= i * size
  {
    if i < j {
      MulLe(i + 1, j, size);
    } else {
      MulLe(j + 1, i, size);
    }
  }

  lemma InTreeBytes(order: nat, b: Block, depth: nat)
    requires InTree(b, depth) && depth <= order
    ensures Hi(order, b) <= Pow2(order)
  {
    RootCovers(b);
    CoversBytes(order, ROOT, b);
  }
}
