/** The buddy allocator on values: its free lists, its live blocks, and its operations. */
module BuddyModel {
  import opened Order
  import opened BuddyTree
  import opened Sequences

  datatype Option<T> = None | Some(value: T)

  /** min_block_size is 32, so its order is 5. */
  const MIN_ORDER: nat := 5

  /** lists[l] holds the block numbers of free list l, head first; live maps blocks to requested sizes. */
  datatype State = State(lists: seq<seq<nat>>, live: map<Block, nat>)

  function MaxOrder(lists: seq<seq<nat>>): nat
    requires |lists| > 0
  {
    |lists| - 1 + MIN_ORDER
  }

  /** The level that serves this size, negative when the size exceeds the buffer. */
  function LevelOf(maxOrder: nat, size: nat): int
  {
    var order := GetOrder(size);
    maxOrder - (if order < MIN_ORDER then MIN_ORDER else order)
  }

  /* ---------------------------------------------------------------- lists */

  ghost function IndexOf(s: seq<nat>, x: nat): (k: nat)
    requires x in s
    ensures k < |s| && s[k] == x
  {
    if s[0] == x then 0 else 1 + IndexOf(s[1..], x)
  }

  ghost function Remove(s: seq<nat>, x: nat): (r: seq<nat>)
    requires x in s
  {
    var k := IndexOf(s, x);
    s[..k] + s[k + 1..]
  }

  lemma RemoveDistinct(s: seq<nat>, x: nat)
    requires Distinct(s) && x in s
    ensures Distinct(Remove(s, x))
    ensures forall y :: y in Remove(s, x) <==> y in s && y != x
  {
    var k := IndexOf(s, x);
    var r := Remove(s, x);
    assert forall i :: 0 <= i < |r| ==> r[i] == if i < k then s[i] else s[i + 1];
    forall y | y in s && y != x
      ensures y in r
    {
      var i :| 0 <= i < |s| && s[i] == y;
      assert r[if i < k then i else i - 1] == y;
    }
  }

  ghost predicate IsFree(lists: seq<seq<nat>>, b: Block)
  {
    b.level < |lists| && b.index in lists[b.level]
  }

  ghost function FreeSet(lists: seq<seq<nat>>): (s: set<Block>)
    ensures forall b :: b in s <==> IsFree(lists, b)
  {
    set l, i | 0 <= l < |lists| && i in lists[l] :: Block(l, i)
  }

  /* ------------------------------------------------------------ invariant */

  ghost predicate Coalesced(free: set<Block>)
  {
    forall b :: b in free && b.level > 0 ==> Sibling(b) !in free
  }

  /** The free blocks and the held blocks tile the tree, and no two siblings are both free. */
  ghost predicate Consistent(lists: seq<seq<nat>>, held: set<Block>)
  {
    && |lists| > 0
    && (forall l :: 0 <= l < |lists| ==> Distinct(lists[l]))
    && FreeSet(lists) !! held
    && Tiles(FreeSet(lists) + held, |lists| - 1)
    && Coalesced(FreeSet(lists))
  }

  ghost predicate Inv(st: State)
  {
    && |st.lists| > 0
    && Consistent(st.lists, st.live.Keys)
    && forall b :: b in st.live ==> st.live[b] > 0 && LevelOf(MaxOrder(st.lists), st.live[b]) == b.level
  }

  /* ----------------------------------------------------------- operations */

  ghost function FindLevel(lists: seq<seq<nat>>, level: int): (r: int)
    requires level < |lists|
    decreases level + 1
  {
    if level < 0 then -1
    else if lists[level] != [] then level
    else FindLevel(lists, level - 1)
  }

  ghost function SplitDown(lists: seq<seq<nat>>, c: Block, target: nat): (r: (seq<seq<nat>>, Block))
    requires c.level <= target < |lists|
    ensures |r.0| == |lists| && r.1.level == target
    decreases target - c.level
  {
    if c.level == target then (lists, c)
    else
      var l := c.level + 1;
      SplitDown(lists[l := [2 * c.index + 1] + lists[l]], Left(c), target)
  }

  ghost function Merge(lists: seq<seq<nat>>, c: Block): (r: seq<seq<nat>>)
    requires c.level < |lists|
    ensures |r| == |lists|
    decreases c.level
  {
    var l := c.level;
    if l == 0 || Flip(c.index) !in lists[l] then
      lists[l := [c.index] + lists[l]]
    else
      Merge(lists[l := Remove(lists[l], Flip(c.index))], Parent(c))
  }

  datatype AllocResult = AllocResult(st: State, block: Option<Block>)

  ghost function Alloc(st: State, size: nat): (r: AllocResult)
    requires |st.lists| > 0
    ensures |r.st.lists| == |st.lists|
  {
    var target := LevelOf(MaxOrder(st.lists), size);
    if size == 0 || target < 0 then AllocResult(st, None)
    else
      var level := FindLevel(st.lists, target);
      FindLevelFacts(st.lists, target);
      if level < 0 then AllocResult(st, None)
      else
        var c := Block(level, st.lists[level][0]);
        var (lists, b) := SplitDown(st.lists[level := st.lists[level][1..]], c, target);
        AllocResult(State(lists, st.live[b := size]), Some(b))
  }

  ghost function Free(st: State, b: Block): (r: State)
    requires b.level < |st.lists|
    ensures |r.lists| == |st.lists|
  {
    State(Merge(st.lists, b), st.live - {b})
  }

  lemma {:induction false} FindLevelFacts(lists: seq<seq<nat>>, level: int)
    requires level < |lists|
    ensures var r := FindLevel(lists, level);
            -1 <= r && (level >= -1 ==> r <= level) && (r >= 0 ==> r < |lists| && lists[r] != []) &&
            forall k :: r < k <= level ==> k >= 0 ==> lists[k] == []
    decreases level + 1
  {
    if level >= 0 && lists[level] == [] {
      FindLevelFacts(lists, level - 1);
    }
  }

  /* ---------------------------------------------------------------- steps */

  /** Taking a list head: the block moves from the free ones to the held ones. */
  lemma PopStep(lists: seq<seq<nat>>, held: set<Block>, l: nat)
    requires Consistent(lists, held) && l < |lists| && lists[l] != []
    ensures Consistent(lists[l := lists[l][1..]], held + {Block(l, lists[l][0])})
    ensures Block(l, lists[l][0]) !in held
    ensures FreeSet(lists[l := lists[l][1..]]) == FreeSet(lists) - {Block(l, lists[l][0])}
  {
    var lists' := lists[l := lists[l][1..]];
    var b := Block(l, lists[l][0]);
    assert IsFree(lists, b);
    assert FreeSet(lists') == FreeSet(lists) - {b} by {
      assert lists[l] == [b.index] + lists[l][1..];
    }
    assert FreeSet(lists') + (held + {b}) == FreeSet(lists) + held;
  }

  /** Splitting a held block: its right half becomes free, its left half stays held. */
  lemma SplitStep(lists: seq<seq<nat>>, held: set<Block>, c: Block)
    requires Consistent(lists, held) && c in held && c.level < |lists| - 1
    ensures var lists' := lists[c.level + 1 := [2 * c.index + 1] + lists[c.level + 1]];
            Consistent(lists', held - {c} + {Left(c)}) && FreeSet(lists') == FreeSet(lists) + {Right(c)} &&
            Left(c) !in held && !IsFree(lists, Right(c)) && !IsFree(lists, Left(c))
  {
    var lists' := lists[c.level + 1 := [2 * c.index + 1] + lists[c.level + 1]];
    InDepth(FreeSet(lists) + held, |lists| - 1);
    hide Tiles, FreeSet, Overlap;
    SplitTiles(FreeSet(lists) + held, c, |lists| - 1);
    HalvesInTree(c, |lists| - 1);
    FreeSetPush(lists, Right(c));
    assert FreeSet(lists') + (held - {c} + {Left(c)}) == FreeSet(lists) + held - {c} + {Left(c), Right(c)};
    CoalescedPush(FreeSet(lists), Right(c), |lists| - 1);
    NotFree(lists, Left(c));
    NotFree(lists, Right(c));
  }

  lemma InDepth(t: set<Block>, depth: nat)
    requires Tiles(t, depth)
    ensures forall b :: b in t ==> InTree(b, depth)
  {
  }

  lemma NotFree(lists: seq<seq<nat>>, b: Block)
    requires b !in FreeSet(lists)
    ensures !IsFree(lists, b)
  {
  }

  /** Only c's place among the free blocks differs: it is free in lists' exactly when v. */
  ghost predicate FreeChanged(lists: seq<seq<nat>>, lists': seq<seq<nat>>, c: Block, v: bool)
  {
    && |lists'| == |lists|
    && forall b :: IsFree(lists', b) <==> if b == c then v else IsFree(lists, b)
  }

  lemma IsFreePush(lists: seq<seq<nat>>, c: Block)
    requires c.level < |lists|
    ensures FreeChanged(lists, lists[c.level := [c.index] + lists[c.level]], c, true)
  {
    FreeSetPush(lists, c);
    var free := FreeSet(lists[c.level := [c.index] + lists[c.level]]);
    assert forall b :: b in free <==> b == c || b in FreeSet(lists);
  }

  lemma IsFreeRemove(lists: seq<seq<nat>>, c: Block)
    requires IsFree(lists, c) && Distinct(lists[c.level])
    ensures FreeChanged(lists, lists[c.level := Remove(lists[c.level], c.index)], c, false)
  {
    RemoveDistinct(lists[c.level], c.index);
  }

  lemma FreeSetPush(lists: seq<seq<nat>>, b: Block)
    requires b.level < |lists|
    ensures FreeSet(lists[b.level := [b.index] + lists[b.level]]) == FreeSet(lists) + {b}
  {
  }

  lemma FreeSetRemove(lists: seq<seq<nat>>, b: Block)
    requires IsFree(lists, b) && Distinct(lists[b.level])
    ensures FreeSet(lists[b.level := Remove(lists[b.level], b.index)]) == FreeSet(lists) - {b}
  {
    RemoveDistinct(lists[b.level], b.index);
  }

  /** Putting a held block whose sibling is not free on its list. */
  lemma PushStep(lists: seq<seq<nat>>, held: set<Block>, c: Block)
    requires Consistent(lists, held) && c in held && c.level < |lists|
    requires c.level == 0 || Flip(c.index) !in lists[c.level]
    ensures Consistent(lists[c.level := [c.index] + lists[c.level]], held - {c})
    ensures FreeSet(lists[c.level := [c.index] + lists[c.level]]) == FreeSet(lists) + {c}
    ensures !IsFree(lists, c)
  {
    var lists' := lists[c.level := [c.index] + lists[c.level]];
    FreeSetPush(lists, c);
    assert FreeSet(lists') + (held - {c}) == FreeSet(lists) + held;
    assert !IsFree(lists, c);
    CoalescedPush(FreeSet(lists), c, |lists| - 1);
  }

  lemma CoalescedPush(free: set<Block>, c: Block, depth: nat)
    requires Coalesced(free) && InTree(c, depth) && forall b :: b in free ==> InTree(b, depth)
    requires c.level == 0 || Sibling(c) !in free
    ensures Coalesced(free + {c})
  {
    forall b | b in free + {c} && b.level > 0
      ensures Sibling(b) !in free + {c}
    {
      SiblingFacts(b, depth);
    }
  }

  /** Merging a held block with its free sibling: the parent is held instead. */
  lemma MergeStep(lists: seq<seq<nat>>, held: set<Block>, c: Block)
    requires Consistent(lists, held) && c in held && 0 < c.level < |lists| && Flip(c.index) in lists[c.level]
    ensures var lists' := lists[c.level := Remove(lists[c.level], Flip(c.index))];
            Consistent(lists', held - {c} + {Parent(c)}) && FreeSet(lists') == FreeSet(lists) - {Sibling(c)} &&
            Parent(c) !in held
  {
    var lists' := lists[c.level := Remove(lists[c.level], Flip(c.index))];
    var s, p := Sibling(c), Parent(c);
    assert IsFree(lists, s);
    RemoveDistinct(lists[c.level], s.index);
    FreeSetRemove(lists, s);
    MergeTiles(FreeSet(lists) + held, c, |lists| - 1);
    SiblingFacts(c, |lists| - 1);
    assert FreeSet(lists') + (held - {c} + {p}) == FreeSet(lists) + held - {c, s} + {p};
  }

  lemma {:induction false} SplitDownConsistent(lists: seq<seq<nat>>, held: set<Block>, c: Block, target: nat)
    requires Consistent(lists, held) && c in held && c.level <= target < |lists|
    ensures var (lists', b) := SplitDown(lists, c, target);
            Consistent(lists', held - {c} + {b}) && Covers(c, b) && (b == c || b !in held)
    decreases target - c.level
  {
    hide Consistent, Tiles;
    if c.level < target {
      var l := c.level + 1;
      var lists1 := lists[l := [2 * c.index + 1] + lists[l]];
      var held1 := held - {c} + {Left(c)};
      SplitStep(lists, held, c);
      SplitDownConsistent(lists1, held1, Left(c), target);
      var b := SplitDown(lists1, Left(c), target).1;
      SwapTwice(held, c, Left(c), b);
      CoversHalves(c);
      CoversTrans(c, Left(c), b);
    } else {
      assert held - {c} + {c} == held;
    }
  }

  lemma SwapTwice(s: set<Block>, a: Block, b: Block, c: Block)
    requires a in s && b !in s
    ensures s - {a} + {b} - {b} + {c} == s - {a} + {c}
  {
  }

  lemma {:induction false} MergeConsistent(lists: seq<seq<nat>>, held: set<Block>, c: Block)
    requires Consistent(lists, held) && c in held && c.level < |lists|
    ensures Consistent(Merge(lists, c), held - {c})
    decreases c.level
  {
    if c.level == 0 || Flip(c.index) !in lists[c.level] {
      PushStep(lists, held, c);
    } else {
      MergeStep(lists, held, c);
      MergeConsistent(lists[c.level := Remove(lists[c.level], Flip(c.index))], held - {c} + {Parent(c)}, Parent(c));
      assert held - {c} + {Parent(c)} - {Parent(c)} == held - {c};
    }
  }

  /** Allocation keeps the tiling, adds one live block, and changes no other. */
  lemma AllocKeepsInv(st: State, size: nat)
    requires Inv(st)
    ensures var r := Alloc(st, size);
            Inv(r.st) &&
            (r.block.None? ==> r.st == st) &&
            (r.block.Some? ==>
               r.block.value !in st.live && r.st.live == st.live[r.block.value := size] &&
               r.block.value.level == LevelOf(MaxOrder(st.lists), size))
  {
    hide Consistent, Tiles;
    var target := LevelOf(MaxOrder(st.lists), size);
    if size > 0 && target >= 0 {
      FindLevelFacts(st.lists, target);
      var level := FindLevel(st.lists, target);
      if level >= 0 {
        var c := Block(level, st.lists[level][0]);
        var held := st.live.Keys;
        PopStep(st.lists, held, level);
        var lists1 := st.lists[level := st.lists[level][1..]];
        SplitDownConsistent(lists1, held + {c}, c, target);
        var (lists, b) := SplitDown(lists1, c, target);
        assert b !in held;
        assert held + {c} - {c} + {b} == held + {b};
        assert st.live[b := size].Keys == held + {b};
      }
    }
  }

  /** Freeing a live block keeps the tiling and removes just that block. */
  lemma FreeKeepsInv(st: State, b: Block)
    requires Inv(st) && b in st.live
    ensures b.level < |st.lists| && Inv(Free(st, b)) && Free(st, b).live == st.live - {b}
  {
    assert b in FreeSet(st.lists) + st.live.Keys;
    assert InTree(b, |st.lists| - 1);
    MergeConsistent(st.lists, st.live.Keys, b);
    assert (st.live - {b}).Keys == st.live.Keys - {b};
  }
}
