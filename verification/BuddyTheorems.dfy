/** What every run of the buddy allocator keeps, and what its operations promise. */
module BuddyTheorems {
  import opened Order
  import opened BuddyTree
  import opened Sequences
  import opened BuddyModel

  /* ------------------------------------------------------------------ runs */

  datatype Op = DoAlloc(size: nat) | DoFree(b: Block) | DoRealloc(b: Block, newSize: nat)

  ghost function Initial(depth: nat): State
  {
    State(seq(depth + 1, l => if l == 0 then [0] else []), map[])
  }

  /** Realloc allocates first and gives the old block back only when that succeeded. */
  ghost function Realloc(st: State, b: Block, newSize: nat): (r: State)
    requires b.level < |st.lists|
    ensures |r.lists| == |st.lists|
  {
    if newSize == 0 then Free(st, b)
    else
      var a := Alloc(st, newSize);
      if a.block.None? then st else Free(a.st, b)
  }

  /** One call; callers only free and reallocate live blocks. */
  ghost function Step(st: State, op: Op): (r: State)
    requires |st.lists| > 0
    ensures |r.lists| == |st.lists|
  {
    match op
    case DoAlloc(size) => Alloc(st, size).st
    case DoFree(b) => if b in st.live && b.level < |st.lists| then Free(st, b) else st
    case DoRealloc(b, newSize) => if b in st.live && b.level < |st.lists| then Realloc(st, b, newSize) else st
  }

  ghost function Run(st: State, ops: seq<Op>): (r: State)
    requires |st.lists| > 0
    decreases |ops|
  {
    if ops == [] then st else Run(Step(st, ops[0]), ops[1..])
  }

  lemma StepKeepsInv(st: State, op: Op)
    requires Inv(st)
    ensures Inv(Step(st, op)) && |Step(st, op).lists| == |st.lists|
  {
    match op
    case DoAlloc(size) => AllocKeepsInv(st, size);
    case DoFree(b) => if b in st.live { FreeKeepsInv(st, b); }
    case DoRealloc(b, newSize) =>
      if b in st.live {
        AllocKeepsInv(st, newSize);
        FreeKeepsInv(st, b);
        FreeKeepsInv(Alloc(st, newSize).st, b);
      }
  }

  lemma InitialInv(depth: nat)
    ensures Inv(Initial(depth))
  {
    RootTiles(depth);
    assert FreeSet(Initial(depth).lists) + {} == {ROOT};
  }

  /** Every run keeps the invariant; a fresh allocator has it. */
  lemma {:induction false} RunsKeepInv(st: State, ops: seq<Op>)
    requires Inv(st)
    ensures Inv(Run(st, ops)) && |Run(st, ops).lists| == |st.lists|
    decreases |ops|
  {
    if ops != [] {
      StepKeepsInv(st, ops[0]);
      RunsKeepInv(Step(st, ops[0]), ops[1..]);
    }
  }

  /* ---------------------------------------------------------------- tiling */

  ghost function Blocks(st: State): set<Block>
  {
    FreeSet(st.lists) + st.live.Keys
  }

  ghost predicate HoldsByte(order: nat, b: Block, o: nat)
    requires b.level <= order
  {
    Lo(order, b) <= o < Hi(order, b)
  }

  /** Exact tiling: each byte of the buffer lies in exactly one free or live block. */
  lemma ExactTiling(st: State, o: nat) returns (b: Block)
    requires Inv(st) && o < Pow2(MaxOrder(st.lists))
    ensures b in Blocks(st) && b.level <= MaxOrder(st.lists) && HoldsByte(MaxOrder(st.lists), b, o)
    ensures forall x :: x in Blocks(st) && x != b ==>
              x.level <= MaxOrder(st.lists) && !HoldsByte(MaxOrder(st.lists), x, o)
  {
    var depth := |st.lists| - 1;
    var order := MaxOrder(st.lists);
    Pow2Add(depth, MIN_ORDER);
    var size := Pow2(MIN_ORDER);
    var j := o / size;
    QuotientBelow(o, size, Pow2(depth));
    var leaf := Block(depth, j);
    assert SizeOf(order, depth) == size;
    assert o == size * j + o % size;
    assert HoldsByte(order, leaf, o);
    assert Covered(Blocks(st), leaf);
    b :| b in Blocks(st) && Covers(b, leaf);
    CoversBytes(order, b, leaf);
    forall x | x in Blocks(st) && x != b
      ensures x.level <= order && !HoldsByte(order, x, o)
    {
      assert InTree(x, depth) && !Overlap(x, b);
      DisjointBlocks(order, x, b);
    }
  }

  /** Every block lies inside the buffer and starts at a multiple of its own size. */
  lemma BlocksAligned(st: State, b: Block)
    requires Inv(st) && b in Blocks(st)
    ensures b.level < |st.lists|
    ensures Hi(MaxOrder(st.lists), b) <= Pow2(MaxOrder(st.lists))
    ensures Lo(MaxOrder(st.lists), b) % SizeOf(MaxOrder(st.lists), b.level) == 0
    ensures SizeOf(MaxOrder(st.lists), b.level) >= 32
  {
    var order := MaxOrder(st.lists);
    InTreeBytes(order, b, |st.lists| - 1);
    QuotientUnique(Lo(order, b), SizeOf(order, b.level), b.index, 0);
    Pow2Monotone(5, order - b.level);
    Pow2Values();
  }

  /* ----------------------------------------------------------- conservation */

  ghost function SumSizes(order: nat, s: set<Block>): nat
    requires forall b :: b in s ==> b.level <= order
    decreases |s|
  {
    if s == {} then 0
    else
      var b :| b in s;
      SizeOf(order, b.level) + SumSizes(order, s - {b})
  }

  lemma {:induction false} SumWithout(order: nat, s: set<Block>, b: Block)
    requires (forall x :: x in s ==> x.level <= order) && b in s
    ensures SumSizes(order, s) == SizeOf(order, b.level) + SumSizes(order, s - {b})
    decreases |s|
  {
    var c :| c in s && SumSizes(order, s) == SizeOf(order, c.level) + SumSizes(order, s - {c});
    if c != b {
      SumWithout(order, s - {c}, b);
      SumWithout(order, s - {b}, c);
      assert s - {c} - {b} == s - {b} - {c};
    }
  }

  lemma {:induction false} SumUnion(order: nat, s: set<Block>, t: set<Block>)
    requires (forall x :: x in s + t ==> x.level <= order) && s !! t
    ensures SumSizes(order, s + t) == SumSizes(order, s) + SumSizes(order, t)
    decreases |s|
  {
    if s == {} {
      assert s + t == t;
    } else {
      var b :| b in s;
      SumWithout(order, s, b);
      SumWithout(order, s + t, b);
      assert s + t - {b} == (s - {b}) + t;
      SumUnion(order, s - {b}, t);
    }
  }

  ghost function Below(t: set<Block>, x: Block): set<Block>
  {
    set b | b in t && Covers(x, b)
  }

  /** The part of a tiling below x fills x, unless x is strictly inside a larger block. */
  lemma {:induction false} SumBelow(order: nat, t: set<Block>, x: Block, depth: nat)
    requires Tiles(t, depth) && depth <= order && InTree(x, depth)
    requires forall b :: b in t && Covers(b, x) ==> b == x
    ensures SumSizes(order, Below(t, x)) == SizeOf(order, x.level)
    decreases depth - x.level
  {
    if x in t {
      forall b | b in Below(t, x)
        ensures b == x
      {
        assert b != x ==> !Overlap(x, b);
      }
      assert Below(t, x) == {x};
      SumWithout(order, {x}, x);
      assert {x} - {x} == {};
    } else {
      if x.level == depth {
        NotCovered(t, x);
        assert false;
      }
      var l, r := Left(x), Right(x);
      CoversHalves(x);
      HalvesInTree(x, depth);
      assert Below(t, x) == Below(t, l) + Below(t, r) by {
        forall b | b in Below(t, x)
          ensures b in Below(t, l) + Below(t, r)
        {
          CoversHalf(x, b);
        }
        forall b | b in Below(t, l) + Below(t, r)
          ensures b in Below(t, x)
        {
          CoversTrans(x, if b in Below(t, l) then l else r, b);
        }
      }
      forall b | b in Below(t, l) && b in Below(t, r)
        ensures false
      {
        CoversLinear(l, r, b);
      }
      SumBelow(order, t, l, depth);
      SumBelow(order, t, r, depth);
      SumUnion(order, Below(t, l), Below(t, r));
      HalfBytes(order, x);
    }
  }

  lemma NotCovered(t: set<Block>, x: Block)
    requires x !in t && forall b :: b in t && Covers(b, x) ==> b == x
    ensures !Covered(t, x)
  {
  }

  /** Conservation: free bytes plus live block bytes always equal the size of the buffer. */
  lemma BytesConserved(st: State)
    requires Inv(st)
    ensures forall b :: b in Blocks(st) ==> b.level <= MaxOrder(st.lists)
    ensures SumSizes(MaxOrder(st.lists), FreeSet(st.lists)) + SumSizes(MaxOrder(st.lists), st.live.Keys)
            == Pow2(MaxOrder(st.lists))
  {
    var t, depth, order := Blocks(st), |st.lists| - 1, MaxOrder(st.lists);
    forall b | b in t
      ensures b.level <= order && b in Below(t, ROOT)
    {
      assert InTree(b, depth);
      RootCovers(b);
    }
    assert Below(t, ROOT) == t;
    SumBelow(order, t, ROOT, depth);
    SumUnion(order, FreeSet(st.lists), st.live.Keys);
  }

  /* ------------------------------------------- canonical coalescing, completeness */

  /** No live block overlaps x. */
  ghost predicate Vacant(live: set<Block>, x: Block)
  {
    forall b :: b in live ==> !Overlap(x, b)
  }

  /** A vacant block lies inside one free block: the allocator never leaves it in pieces. */
  lemma {:induction false} VacantIsFree(st: State, x: Block) returns (f: Block)
    requires Inv(st) && InTree(x, |st.lists| - 1) && Vacant(st.live.Keys, x)
    ensures f in FreeSet(st.lists) && Covers(f, x)
    decreases |st.lists| - x.level
  {
    var depth := |st.lists| - 1;
    if x.level == depth {
      assert Covered(Blocks(st), x);
      f :| f in Blocks(st) && Covers(f, x);
      assert f !in st.live.Keys;
    } else {
      var l, r := Left(x), Right(x);
      HalvesInTree(x, depth);
      forall b | b in st.live.Keys
        ensures !Overlap(l, b) && !Overlap(r, b)
      {
        if Overlap(l, b) { OverlapParent(l, b); }
        if Overlap(r, b) { OverlapParent(r, b); }
      }
      f := VacantIsFree(st, l);
      var g := VacantIsFree(st, r);
      if f != l {
        CoversParent(f, l);
      } else if g != r {
        CoversParent(g, r);
        f := g;
      } else {
        assert false;
      }
    }
  }

  lemma NoFreeAbove(st: State, f: Block, b: Block)
    requires Inv(st) && f in FreeSet(st.lists) && b in FreeSet(st.lists) && b.level > 0
    ensures !Covers(f, Parent(b))
  {
    hide Distinct, Coalesced;
    assert f in Blocks(st) && b in Blocks(st);
    assert Covers(f, Parent(b)) ==> Covers(f, b);
    if f == b {
      OwnParent(b);
    }
  }

  lemma OwnParent(b: Block)
    requires b.level > 0
    ensures !Covers(b, Parent(b))
  {
    if Covers(b, Parent(b)) {
      CoversLevel(b, Parent(b));
    }
  }

  /** The free blocks are exactly the largest vacant blocks. */
  lemma FreeIsMaximalVacant(st: State, b: Block)
    requires Inv(st)
    ensures b in FreeSet(st.lists) <==>
            InTree(b, |st.lists| - 1) && Vacant(st.live.Keys, b) &&
            (b.level > 0 ==> !Vacant(st.live.Keys, Parent(b)))
  {
    hide Distinct, Coalesced;
    var depth := |st.lists| - 1;
    if b in FreeSet(st.lists) {
      assert b in Blocks(st);
      if b.level > 0 && Vacant(st.live.Keys, Parent(b)) {
        var f := VacantIsFree(st, Parent(b));
        NoFreeAbove(st, f, b);
        assert false;
      }
    } else if InTree(b, depth) && Vacant(st.live.Keys, b) {
      assert forall x, v :: x in FreeSet(st.lists) && v in st.live.Keys ==> !Overlap(x, v) by {
        assert forall x :: x in FreeSet(st.lists) || x in st.live.Keys ==> x in Blocks(st);
      }
      var f := VacantIsFree(st, b);
      CoversParent(f, b);
      forall v | v in st.live.Keys
        ensures !Overlap(Parent(b), v)
      {
        if Overlap(Parent(b), v) {
          OverlapOfCovered(f, Parent(b), v);
        }
      }
    }
  }

  /** History independence: the free blocks are a function of the live blocks alone. */
  lemma HistoryIndependence(st1: State, st2: State)
    requires Inv(st1) && Inv(st2) && |st1.lists| == |st2.lists|
    requires st1.live.Keys == st2.live.Keys
    ensures FreeSet(st1.lists) == FreeSet(st2.lists)
  {
    forall b
      ensures b in FreeSet(st1.lists) <==> b in FreeSet(st2.lists)
    {
      FreeIsMaximalVacant(st1, b);
      FreeIsMaximalVacant(st2, b);
    }
  }

  /** When everything has been freed, in whatever order, the state is the initial one. */
  lemma AllFreedIsInitial(st: State)
    requires Inv(st) && st.live == map[]
    ensures st == Initial(|st.lists| - 1)
  {
    var init := Initial(|st.lists| - 1);
    InitialInv(|st.lists| - 1);
    assert st.live.Keys == init.live.Keys;
    HistoryIndependence(st, init);
    assert forall b :: IsFree(st.lists, b) ==> b == ROOT by {
      assert forall b :: b in FreeSet(st.lists) <==> b in FreeSet(init.lists);
    }
    forall l | 0 <= l < |st.lists|
      ensures st.lists[l] == init.lists[l]
    {
      forall x | x in st.lists[l]
        ensures l == 0 && x == 0
      {
        assert IsFree(st.lists, Block(l, x));
      }
      if st.lists[l] == [] {
      } else if l == 0 {
        assert IsFree(init.lists, ROOT) by { assert init.lists[0] == [0]; }
        assert IsFree(st.lists, ROOT);
        OnlyZero(st.lists[0]);
      } else {
        HeadIsMember(st.lists[l]);
      }
    }
    assert st.lists == init.lists;
  }

  lemma HeadIsMember(s: seq<nat>)
    requires s != []
    ensures s[0] in s
  {
  }

  lemma OnlyZero(s: seq<nat>)
    requires 0 in s && Distinct(s) && forall x :: x in s ==> x == 0
    ensures s == [0]
  {
    FirstTwoDiffer(s);
  }

  lemma FirstTwoDiffer(s: seq<nat>)
    requires Distinct(s)
    ensures |s| > 1 ==> s[0] in s && s[1] in s && s[0] != s[1]
  {
  }

  lemma OverlapIsSharedBytes(order: nat, a: Block, b: Block)
    requires a.level <= order && b.level <= order
    ensures Overlap(a, b) <==> !DisjointBytes(order, a, b)
  {
    if Covers(a, b) {
      CoversBytes(order, a, b);
    } else if Covers(b, a) {
      CoversBytes(order, b, a);
    } else {
      DisjointBlocks(order, a, b);
    }
  }

  /** The aligned region number i of block size on this level shares a byte with a live block. */
  ghost predicate RegionInUse(st: State, level: nat, i: nat)
    requires Inv(st) && level < |st.lists|
  {
    exists b :: b in st.live && b.level <= MaxOrder(st.lists) &&
                !DisjointBytes(MaxOrder(st.lists), Block(level, i), b)
  }

  /** Completeness: a request fails exactly when it is zero, larger than the buffer,
      or every aligned region of its rounded size is touched by a live block. */
  lemma AllocIsComplete(st: State, size: nat)
    requires Inv(st)
    ensures var level := LevelOf(MaxOrder(st.lists), size);
            Alloc(st, size).block.None? <==>
            size == 0 || level < 0 || forall i: nat :: i < Pow2(level) ==> RegionInUse(st, level, i)
  {
    var target := LevelOf(MaxOrder(st.lists), size);
    if size > 0 && target >= 0 {
      if Alloc(st, size).block.Some? {
        var i := AllocFindsRegion(st, size);
        assert !RegionInUse(st, target, i);
      } else {
        forall i: nat | i < Pow2(target)
          ensures RegionInUse(st, target, i)
        {
          if !RegionInUse(st, target, i) {
            FreeRegionIsFound(st, size, i);
          }
        }
      }
    }
  }

  lemma AllocFindsRegion(st: State, size: nat) returns (i: nat)
    requires Inv(st) && Alloc(st, size).block.Some?
    ensures var level := LevelOf(MaxOrder(st.lists), size);
            0 <= level < |st.lists| && i < Pow2(level) && !RegionInUse(st, level, i)
  {
    AllocKeepsInv(st, size);
    var r := Alloc(st, size);
    var b := r.block.value;
    i := b.index;
    assert b in Blocks(r.st);
    forall x | x in st.live && x.level <= MaxOrder(st.lists)
      ensures DisjointBytes(MaxOrder(st.lists), b, x)
    {
      assert x in Blocks(r.st);
      DisjointBlocks(MaxOrder(st.lists), b, x);
    }
  }

  lemma FreeRegionIsFound(st: State, size: nat, i: nat)
    requires Inv(st) && size > 0
    requires 0 <= LevelOf(MaxOrder(st.lists), size)
    requires i < Pow2(LevelOf(MaxOrder(st.lists), size))
    requires !RegionInUse(st, LevelOf(MaxOrder(st.lists), size), i)
    ensures Alloc(st, size).block.Some?
  {
    var target: nat := LevelOf(MaxOrder(st.lists), size);
    var x := Block(target, i);
    forall b | b in st.live.Keys
      ensures !Overlap(x, b)
    {
      assert b in Blocks(st);
      assert InTree(b, |st.lists| - 1);
      OverlapIsSharedBytes(MaxOrder(st.lists), x, b);
    }
    var f := VacantIsFree(st, x);
    FindLevelFacts(st.lists, target);
    assert st.lists[f.level] != [];
    CoversBytes(MaxOrder(st.lists), f, x);
    CoversLevel(f, x);
  }

  lemma CoversLevel(a: Block, b: Block)
    requires Covers(a, b)
    ensures a.level <= b.level
  {
  }

  /** A level is missing exactly when the request is larger than the buffer. */
  lemma LevelExists(maxOrder: nat, size: nat)
    requires maxOrder >= MIN_ORDER && size > 0
    ensures LevelOf(maxOrder, size) >= 0 <==> size <= Pow2(maxOrder)
  {
    GetOrderIsCeilLog2(size, GetOrder(size));
    if GetOrder(size) <= maxOrder {
      Pow2Monotone(GetOrder(size), maxOrder);
    } else {
      Pow2Monotone(maxOrder, GetOrder(size) - 1);
    }
  }

  /** Each block fits its request, and is 32 bytes or less than twice the request. */
  lemma BlockFits(maxOrder: nat, size: nat)
    requires size > 0 && LevelOf(maxOrder, size) >= 0
    ensures var n := SizeOf(maxOrder, LevelOf(maxOrder, size));
            size <= n && (n == 32 || n < 2 * size)
  {
    var o := GetOrder(size);
    GetOrderIsCeilLog2(size, o);
    if o < MIN_ORDER {
      Pow2Values();
      Pow2Monotone(o, MIN_ORDER);
    } else {
      assert Pow2(o) == 2 * Pow2(o - 1);
    }
  }

  /* --------------------------------------------------------- which block it is */

  /** The number of the first block on level k inside c: it starts where c starts. */
  function FirstAt(c: Block, k: nat): nat
    requires c.level <= k
  {
    Pow2(k - c.level) * c.index
  }

  lemma FirstAtLeft(c: Block, k: nat)
    requires c.level < k
    ensures FirstAt(Left(c), k) == FirstAt(c, k)
    ensures FirstAt(c, c.level) == c.index && FirstAt(c, c.level + 1) == 2 * c.index
  {
    assert Pow2(k - c.level) == 2 * Pow2(k - c.level - 1);
    assert Pow2(0) == 1 && Pow2(1) == 2;
  }

  lemma FirstAtStart(order: nat, c: Block, k: nat)
    requires c.level <= k <= order
    ensures Lo(order, Block(k, FirstAt(c, k))) == Lo(order, c)
  {
    Pow2Add(k - c.level, order - k);
  }

  /** List k after a split of c down to the level target. */
  ghost function SplitList(lists: seq<seq<nat>>, c: Block, target: nat, k: nat): seq<nat>
    requires k < |lists|
  {
    if c.level < k <= target then [FirstAt(c, k) + 1] + lists[k] else lists[k]
  }

  /** Splitting keeps the first half each time, and puts the second in front of the list of its level. */
  lemma {:induction false} SplitDownExactly(lists: seq<seq<nat>>, c: Block, target: nat)
    requires c.level <= target < |lists|
    ensures SplitDown(lists, c, target).1 == Block(target, FirstAt(c, target))
    ensures forall k: nat :: k < |lists| ==> SplitDown(lists, c, target).0[k] == SplitList(lists, c, target, k)
    decreases target - c.level
  {
    hide FirstAt;
    if c.level < target {
      var l := c.level + 1;
      var lists1 := lists[l := [2 * c.index + 1] + lists[l]];
      SplitDownExactly(lists1, Left(c), target);
      FirstAtLeft(c, target);
      forall k: nat | k < |lists|
        ensures SplitList(lists1, Left(c), target, k) == SplitList(lists, c, target, k)
      {
        if c.level < k {
          FirstAtLeft(c, k);
        }
      }
    } else {
      FirstAtLeft(c, c.level + 1);
    }
  }

  /** The block that is served, and every list afterwards: the nearest list that is not empty gives up its head,
      the block is the first of its size in that head, and each level below gets one second half. */
  lemma AllocTakesHead(st: State, size: nat, level: nat)
    requires Inv(st) && size > 0 && level <= LevelOf(MaxOrder(st.lists), size) && st.lists[level] != []
    requires forall k :: level < k <= LevelOf(MaxOrder(st.lists), size) ==> st.lists[k] == []
    ensures var r, target, c := Alloc(st, size), LevelOf(MaxOrder(st.lists), size), Block(level, st.lists[level][0]);
            r.block == Some(Block(target, FirstAt(c, target))) &&
            forall k: nat :: k < |st.lists| ==>
              r.st.lists[k] == if k == level then st.lists[k][1..]
                               else if level < k <= target then [FirstAt(c, k) + 1]
                               else st.lists[k]
  {
    hide FirstAt, Inv;
    var target := LevelOf(MaxOrder(st.lists), size);
    FindLevelFacts(st.lists, target);
    assert FindLevel(st.lists, target) == level;
    var c := Block(level, st.lists[level][0]);
    SplitDownExactly(st.lists[level := st.lists[level][1..]], c, target);
  }

  /* ------------------------------------------------------------- round trip */

  /** Merging back up undoes a split whose way down was over empty lists. */
  lemma {:induction false} MergeUndoesSplit(lists: seq<seq<nat>>, c: Block, target: nat)
    requires c.level <= target < |lists|
    requires forall k :: c.level < k <= target ==> lists[k] == []
    ensures var (lists', b) := SplitDown(lists, c, target);
            Merge(lists', b) == Merge(lists, c)
    decreases target - c.level
  {
    if c.level < target {
      var l := c.level + 1;
      var lists1 := lists[l := [2 * c.index + 1] + lists[l]];
      MergeUndoesSplit(lists1, Left(c), target);
      var s := Remove(lists1[l], 2 * c.index + 1);
      assert lists1[l] == [2 * c.index + 1];
      assert s == [];
      assert lists1[l := s] == lists;
      assert Parent(Left(c)) == c;
    }
  }

  /** Freeing the block just allocated restores every free list as a sequence. */
  lemma AllocFreeRoundTrip(st: State, size: nat)
    requires Inv(st) && Alloc(st, size).block.Some?
    ensures Free(Alloc(st, size).st, Alloc(st, size).block.value) == st
  {
    AllocKeepsInv(st, size);
    MergeUndoesAlloc(st, size);
    MapAddRemove(st.live, Alloc(st, size).block.value, size);
  }

  lemma MergeUndoesAlloc(st: State, size: nat)
    requires Inv(st) && Alloc(st, size).block.Some?
    ensures Merge(Alloc(st, size).st.lists, Alloc(st, size).block.value) == st.lists
  {
    var target: nat := LevelOf(MaxOrder(st.lists), size);
    FindLevelFacts(st.lists, target);
    var level := FindLevel(st.lists, target);
    MergeUndoesPop(st.lists, st.live.Keys, level);
    MergeUndoesSplit(st.lists[level := st.lists[level][1..]], Block(level, st.lists[level][0]), target);
  }

  lemma MapAddRemove<K, V>(m: map<K, V>, k: K, v: V)
    requires k !in m
    ensures m[k := v] - {k} == m
  {
  }

  lemma MergeUndoesPop(lists: seq<seq<nat>>, held: set<Block>, level: nat)
    requires Consistent(lists, held) && level < |lists| && lists[level] != []
    ensures Merge(lists[level := lists[level][1..]], Block(level, lists[level][0])) == lists
  {
    var c := Block(level, lists[level][0]);
    var lists1 := lists[level := lists[level][1..]];
    assert IsFree(lists, c);
    assert level > 0 ==> !IsFree(lists, Sibling(c));
    assert level > 0 ==> Flip(c.index) !in lists1[level];
    assert [c.index] + lists1[level] == lists[level];
  }
}
