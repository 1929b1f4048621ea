/** What the arena hands out: its list of blocks, the block it bumps, and the live allocations.
    The child's answers are inputs of the operations. */
module ArenaModel {
  import opened Memory
  import opened Os

  /** sizeof(arena_block_t) */
  const HEADER: nat := 24

  datatype Block = Block(addr: nat, size: nat, offset: nat) {
    function Start(): nat { addr + HEADER }
    function End(): nat { Start() + offset }
  }

  /** The blocks in list order, the index of the current one, and each live pointer's size. */
  datatype State = State(blocks: seq<Block>, cur: nat, blockSize: nat, live: map<nat, nat>)

  datatype Answer = Answer(next: State, ptr: nat)

  /** The block's allocated part holds the whole of p's allocation. */
  ghost predicate Holds(b: Block, p: nat, n: nat)
  {
    b.Start() <= p && p + n <= b.End()
  }

  ghost predicate Apart(b: Block, c: Block)
  {
    Disjoint(b.addr, HEADER + b.size, c.addr, HEADER + c.size)
  }

  ghost predicate BlocksOk(blocks: seq<Block>)
  {
    && (forall i :: 0 <= i < |blocks| ==>
         blocks[i].addr > 0 && blocks[i].addr % 8 == 0 && blocks[i].offset <= blocks[i].size)
    && (forall i, j :: 0 <= i < |blocks| && 0 <= j < |blocks| && i != j ==> Apart(blocks[i], blocks[j]))
  }

  ghost predicate Held(blocks: seq<Block>, p: nat, n: nat)
  {
    exists i :: 0 <= i < |blocks| && Holds(blocks[i], p, n)
  }

  /** Live allocations are 8-aligned, not empty, inside a block, and share no byte. */
  ghost predicate LiveOk(blocks: seq<Block>, live: map<nat, nat>)
  {
    && (forall p :: p in live ==> p % 8 == 0 && live[p] > 0 && Held(blocks, p, live[p]))
    && (forall p, q :: p in live && q in live && p != q ==> Disjoint(p, live[p], q, live[q]))
  }

  ghost predicate Inv(s: State)
  {
    && s.cur < |s.blocks| && s.blocks[s.cur].size == s.blockSize
    && BlocksOk(s.blocks) && LiveOk(s.blocks, s.live)
  }

  /* ---------------------------------------------------------------- operations */

  function InsertAfter(blocks: seq<Block>, cur: nat, b: Block): (r: seq<Block>)
    requires cur < |blocks|
    ensures |r| == |blocks| + 1 && r[cur + 1] == b
    ensures forall i :: 0 <= i < |r| ==> i != cur + 1 ==> r[i] == blocks[if i <= cur then i else i - 1]
  {
    blocks[..cur + 1] + [b] + blocks[cur + 1..]
  }

  /** The size of the block a request has to get from the child; 0 when it needs none. */
  function NewBlockSize(s: State, n: nat): nat
    requires s.cur < |s.blocks|
  {
    if n == 0 then 0
    else if n > s.blockSize then n
    else if AlignUp8(s.blocks[s.cur].offset) + n > s.blocks[s.cur].size then s.blockSize
    else 0
  }

  /** arena_alloc_fn, given the child's answer for a new block. */
  function Alloc(s: State, n: nat, child: nat): Answer
    requires s.cur < |s.blocks|
  {
    var b := s.blocks[s.cur];
    var size := NewBlockSize(s, n);
    if n == 0 || (size > 0 && child == NULL) then
      Answer(s, NULL)
    else if size > 0 then
      var added := Block(child, size, n);
      Answer(State(InsertAfter(s.blocks, s.cur, added), if n > s.blockSize then s.cur else s.cur + 1, s.blockSize,
                   s.live[added.Start() := n]), added.Start())
    else
      var at := AlignUp8(b.offset);
      Answer(s.(blocks := s.blocks[s.cur := b.(offset := at + n)], live := s.live[b.Start() + at := n]), b.Start() + at)
  }

  /** The test by which arena_realloc_fn takes p for the last allocation of the current block. */
  predicate IsLast(s: State, p: nat, oldN: nat)
    requires s.cur < |s.blocks|
  {
    var b := s.blocks[s.cur];
    p + oldN == b.End() && p >= b.Start()
  }

  predicate ResizesInPlace(s: State, p: nat, oldN: nat, n: nat)
    requires s.cur < |s.blocks|
  {
    var b := s.blocks[s.cur];
    IsLast(s, p, oldN) && p - b.Start() + n <= b.size
  }

  function Bumped(s: State, p: nat, n: nat): State
    requires s.cur < |s.blocks| && p >= s.blocks[s.cur].Start()
  {
    var b := s.blocks[s.cur];
    s.(blocks := s.blocks[s.cur := b.(offset := p - b.Start() + n)], live := s.live[p := n])
  }

  /** arena_realloc_fn on a live pointer: in place, or kept, or moved with the old one given up. */
  function Realloc(s: State, p: nat, n: nat, child: nat): Answer
    requires s.cur < |s.blocks| && p in s.live
  {
    var oldN := s.live[p];
    if ResizesInPlace(s, p, oldN, n) then Answer(Bumped(s, p, n), p)
    else if n <= oldN then Answer(s.(live := s.live[p := n]), p)
    else
      var r := Alloc(s, n, child);
      if r.ptr == NULL then Answer(s, NULL) else Answer(r.next.(live := r.next.live - {p}), r.ptr)
  }

  function Free(s: State, p: nat): State
  {
    s.(live := s.live - {p})
  }

  /** The current block has room for a request of this size behind its aligned offset. */
  predicate Fits(s: State, n: nat)
    requires s.cur < |s.blocks|
  {
    n <= s.blockSize && AlignUp8(s.blocks[s.cur].offset) + n <= s.blocks[s.cur].size
  }

  /** The child's answer is NULL, or an aligned range that is clear of the blocks the arena holds. */
  ghost predicate ChildMay(s: State, size: nat, child: nat)
  {
    child != NULL ==> child % 8 == 0 && forall i :: 0 <= i < |s.blocks| ==> Apart(s.blocks[i], Block(child, size, 0))
  }

  /* ---------------------------------------------------------------- each step keeps the invariant */

  lemma StillHeld(blocks: seq<Block>, blocks': seq<Block>, live: map<nat, nat>)
    requires LiveOk(blocks, live)
    requires forall i :: 0 <= i < |blocks| ==> exists j :: 0 <= j < |blocks'| && Covers(blocks'[j], blocks[i])
    ensures LiveOk(blocks', live)
  {
    forall p | p in live
      ensures Held(blocks', p, live[p])
    {
      var i :| 0 <= i < |blocks| && Holds(blocks[i], p, live[p]);
      var j :| 0 <= j < |blocks'| && Covers(blocks'[j], blocks[i]);
      assert Holds(blocks'[j], p, live[p]);
    }
  }

  ghost predicate Covers(c: Block, b: Block)
  {
    c.addr == b.addr && c.offset >= b.offset
  }

  lemma ClearOfLive(blocks: seq<Block>, live: map<nat, nat>, b: Block)
    requires BlocksOk(blocks) && LiveOk(blocks, live) && forall i :: 0 <= i < |blocks| ==> Apart(blocks[i], b)
    ensures forall p :: p in live ==> Disjoint(p, live[p], b.Start(), b.size)
  {
    forall p | p in live
      ensures Disjoint(p, live[p], b.Start(), b.size)
    {
      var i :| 0 <= i < |blocks| && Holds(blocks[i], p, live[p]);
      assert Apart(blocks[i], b);
    }
  }

  lemma InsertApart(blocks: seq<Block>, cur: nat, b: Block)
    requires cur < |blocks| && BlocksOk(blocks) && b.addr > 0 && b.addr % 8 == 0 && b.offset <= b.size
    requires forall i :: 0 <= i < |blocks| ==> Apart(blocks[i], b)
    ensures BlocksOk(InsertAfter(blocks, cur, b))
  {
  }

  lemma InsertKeeps(blocks: seq<Block>, cur: nat, b: Block, live: map<nat, nat>)
    requires cur < |blocks| && BlocksOk(blocks) && LiveOk(blocks, live)
    requires b.addr > 0 && b.addr % 8 == 0 && b.offset <= b.size
    requires forall i :: 0 <= i < |blocks| ==> Apart(blocks[i], b)
    ensures BlocksOk(InsertAfter(blocks, cur, b)) && LiveOk(InsertAfter(blocks, cur, b), live)
    ensures forall p :: p in live ==> Disjoint(p, live[p], b.Start(), b.size)
  {
    hide LiveOk, BlocksOk, Apart;
    var r := InsertAfter(blocks, cur, b);
    InsertApart(blocks, cur, b);
    forall i | 0 <= i < |blocks|
      ensures exists j :: 0 <= j < |r| && Covers(r[j], blocks[i])
    {
      assert Covers(r[if i <= cur then i else i + 1], blocks[i]);
    }
    StillHeld(blocks, r, live);
    ClearOfLive(blocks, live, b);
  }

  /** A live allocation that ends at or before the bump point of a block, or lies in another block,
      does not reach what is bumped next. */
  lemma BeyondEnd(s: State, p: nat, a: nat, n: nat)
    requires Inv(s) && p in s.live
    requires s.blocks[s.cur].End() <= a && a + n <= s.blocks[s.cur].Start() + s.blocks[s.cur].size
    ensures Disjoint(p, s.live[p], a, n)
  {
    var i :| 0 <= i < |s.blocks| && Holds(s.blocks[i], p, s.live[p]);
    if i != s.cur {
      assert Apart(s.blocks[i], s.blocks[s.cur]);
    }
  }

  /** One more allocation, held and clear of the others. */
  lemma AddLive(blocks: seq<Block>, live: map<nat, nat>, p: nat, n: nat, i: nat)
    requires LiveOk(blocks, live) && p % 8 == 0 && n > 0 && i < |blocks| && Holds(blocks[i], p, n)
    requires forall q :: q in live && q != p ==> Disjoint(q, live[q], p, n)
    ensures LiveOk(blocks, live[p := n])
  {
    assert Held(blocks, p, n);
  }

  /** The current block's offset moves, but not below any live allocation other than p. */
  lemma MoveOffset(s: State, p: nat, offset: nat)
    requires Inv(s) && offset <= s.blockSize
    requires forall q :: q in s.live && q != p && Holds(s.blocks[s.cur], q, s.live[q]) ==>
               q + s.live[q] <= s.blocks[s.cur].Start() + offset
    ensures var blocks' := s.blocks[s.cur := s.blocks[s.cur].(offset := offset)];
            BlocksOk(blocks') && LiveOk(blocks', s.live - {p})
  {
    var blocks' := s.blocks[s.cur := s.blocks[s.cur].(offset := offset)];
    forall i, j | 0 <= i < |blocks'| && 0 <= j < |blocks'| && i != j
      ensures Apart(blocks'[i], blocks'[j])
    {
      assert Apart(s.blocks[i], s.blocks[j]);
    }
    forall q | q in s.live - {p}
      ensures Held(blocks', q, s.live[q])
    {
      var i :| 0 <= i < |s.blocks| && Holds(s.blocks[i], q, s.live[q]);
      assert Holds(blocks'[i], q, s.live[q]);
    }
  }

  lemma BumpKeepsInv(s: State, n: nat)
    requires Inv(s) && n > 0 && NewBlockSize(s, n) == 0
    ensures var r := Alloc(s, n, NULL);
            Inv(r.next) && r.ptr > 0 && r.ptr % 8 == 0 && r.ptr !in s.live && ClearOf(s.live, r.ptr, n)
  {
    hide LiveOk, Apart;
    var r := Alloc(s, n, NULL);
    var at := AlignUp8(s.blocks[s.cur].offset);
    forall q | q in s.live
      ensures Disjoint(r.ptr, n, q, s.live[q])
    {
      BeyondEnd(s, q, r.ptr, n);
    }
    NotLive(s, r.ptr, n);
    EndsBelow(s, at + n);
    MoveOffset(s, r.ptr, at + n);
    assert s.live - {r.ptr} == s.live;
    AddLive(r.next.blocks, s.live, r.ptr, n, s.cur);
  }

  lemma EndsBelow(s: State, offset: nat)
    requires Inv(s) && s.blocks[s.cur].offset <= offset
    ensures forall q :: q in s.live && Holds(s.blocks[s.cur], q, s.live[q]) ==>
              q + s.live[q] <= s.blocks[s.cur].Start() + offset
  {
  }

  /** A range clear of every live allocation does not start where one does. */
  lemma NotLive(s: State, p: nat, n: nat)
    requires Inv(s) && n > 0 && ClearOf(s.live, p, n)
    ensures p !in s.live
  {
    forall q | q in s.live
      ensures q != p
    {
      assert Disjoint(p, n, q, s.live[q]);
    }
  }

  lemma NewBlockKeepsInv(s: State, n: nat, child: nat)
    requires Inv(s) && n > 0 && NewBlockSize(s, n) > 0 && child != NULL && ChildMay(s, NewBlockSize(s, n), child)
    ensures var r := Alloc(s, n, child);
            Inv(r.next) && r.ptr % 8 == 0 && r.ptr !in s.live && ClearOf(s.live, r.ptr, n)
  {
    hide LiveOk, BlocksOk;
    var r := Alloc(s, n, child);
    var added := Block(child, NewBlockSize(s, n), n);
    forall i | 0 <= i < |s.blocks|
      ensures Apart(s.blocks[i], added)
    {
      assert Apart(s.blocks[i], Block(child, added.size, 0));
    }
    InsertKeeps(s.blocks, s.cur, added, s.live);
    assert ClearOf(s.live, r.ptr, n);
    NotLive(s, r.ptr, n);
    AddLive(r.next.blocks, s.live, r.ptr, n, s.cur + 1);
  }

  /** An answer is clear of every live allocation, aligned, and of the requested size; it is NULL just
      when the request is empty or needs a block that the child refuses. */
  lemma AllocKeepsInv(s: State, n: nat, child: nat)
    requires Inv(s) && ChildMay(s, NewBlockSize(s, n), child)
    ensures var r := Alloc(s, n, child);
            && Inv(r.next) && r.next.blockSize == s.blockSize
            && (r.ptr == NULL <==> n == 0 || (child == NULL && !Fits(s, n)))
            && (r.ptr == NULL ==> r.next == s)
            && (r.ptr != NULL ==>
                 r.ptr % 8 == 0 && r.next.live == s.live[r.ptr := n] && r.ptr !in s.live && ClearOf(s.live, r.ptr, n))
  {
    hide LiveOk, BlocksOk, Apart, Disjoint, ClearOf, ChildMay;
    if n > 0 && NewBlockSize(s, n) == 0 {
      BumpKeepsInv(s, n);
    } else if n > 0 && child != NULL {
      NewBlockKeepsInv(s, n, child);
    }
  }

  /** The realloc test finds exactly the live allocation that ends at the current block's bump point:
      it lies in the current block, and no other live allocation there ends beyond its start.
      The comparison with the block's start is implied by the one with its end. */
  lemma LastIsLast(s: State, p: nat)
    requires Inv(s) && p in s.live
    ensures var b, oldN := s.blocks[s.cur], s.live[p];
            && (IsLast(s, p, oldN) <==> Holds(b, p, oldN) && p + oldN == b.End())
            && (IsLast(s, p, oldN) <==> p + oldN == b.End())
            && (IsLast(s, p, oldN) ==>
                 forall q :: q in s.live && q != p && Holds(b, q, s.live[q]) ==> q + s.live[q] <= p)
  {
    var b, oldN := s.blocks[s.cur], s.live[p];
    var i :| 0 <= i < |s.blocks| && Holds(s.blocks[i], p, oldN);
    if i != s.cur {
      assert Apart(s.blocks[i], b);
    }
    forall q | IsLast(s, p, oldN) && q in s.live && q != p && Holds(b, q, s.live[q])
      ensures q + s.live[q] <= p
    {
      assert Disjoint(q, s.live[q], p, oldN);
    }
  }

  lemma ShrunkIsOk(blocks: seq<Block>, live: map<nat, nat>, p: nat, n: nat)
    requires LiveOk(blocks, live) && p in live && 0 < n <= live[p]
    ensures LiveOk(blocks, live[p := n])
  {
    var i :| 0 <= i < |blocks| && Holds(blocks[i], p, live[p]);
    assert Holds(blocks[i], p, n);
    forall q | q in live && q != p
      ensures Disjoint(q, live[q], p, n)
    {
      assert Disjoint(q, live[q], p, live[p]);
    }
    AddLive(blocks, live, p, n, i);
  }

  lemma ShrunkKeepsInv(s: State, p: nat, n: nat)
    requires Inv(s) && p in s.live && 0 < n <= s.live[p]
    ensures Inv(s.(live := s.live[p := n])) && ClearOf(s.live - {p}, p, n) && p > 0
  {
    assert Held(s.blocks, p, s.live[p]);
    ShrunkIsOk(s.blocks, s.live, p, n);
    forall q | q in s.live - {p}
      ensures Disjoint(p, n, q, s.live[q])
    {
      assert Disjoint(p, s.live[p], q, s.live[q]);
    }
  }

  lemma WithoutKeepsInv(s: State, p: nat)
    requires Inv(s)
    ensures Inv(Free(s, p))
  {
  }

  lemma LiveAligned(s: State, p: nat)
    requires Inv(s) && p in s.live
    ensures p % 8 == 0 && s.live[p] > 0
  {
  }

  lemma InPlaceKeepsInv(s: State, p: nat, n: nat)
    requires Inv(s) && p in s.live && n > 0 && ResizesInPlace(s, p, s.live[p], n)
    ensures var t := Bumped(s, p, n);
            Inv(t) && t.blockSize == s.blockSize && t.live == (s.live - {p})[p := n] &&
            ClearOf(s.live - {p}, p, n) && p > 0
  {
    hide LiveOk, BlocksOk, Apart;
    var t := Bumped(s, p, n);
    LastIsLast(s, p);
    MoveOffset(s, p, p - s.blocks[s.cur].Start() + n);
    assert Holds(t.blocks[s.cur], p, n);
    assert p % 8 == 0 by { LiveAligned(s, p); }
    forall q | q in s.live - {p}
      ensures Disjoint(q, s.live[q], p, n)
    {
      LastClear(s, p, q, n);
    }
    AddLive(t.blocks, s.live - {p}, p, n, s.cur);
    assert (s.live - {p})[p := n] == s.live[p := n];
  }

  /** After a realloc the one allocation has moved or changed its size, clear of all the others, and of
      its own old place if it moved; a refused one changes nothing. */
  lemma ReallocKeepsInv(s: State, p: nat, n: nat, child: nat)
    requires Inv(s) && p in s.live && n > 0 && ChildMay(s, NewBlockSize(s, n), child)
    ensures var r := Realloc(s, p, n, child);
            && Inv(r.next) && r.next.blockSize == s.blockSize
            && (r.ptr == NULL ==> r.next == s)
            && (n <= s.live[p] ==> r.ptr == p)
            && (r.ptr == NULL <==>
                 n > s.live[p] && !ResizesInPlace(s, p, s.live[p], n) && child == NULL && !Fits(s, n))
            && (r.ptr != NULL ==>
                 r.next.live == (s.live - {p})[r.ptr := n] && ClearOf(s.live - {p}, r.ptr, n) && r.ptr !in s.live - {p})
            && (r.ptr != NULL && r.ptr != p ==> ClearOf(s.live, r.ptr, n))
  {
    hide LiveOk, BlocksOk, Alloc, Bumped, Apart;
    var r := Realloc(s, p, n, child);
    var oldN := s.live[p];
    if ResizesInPlace(s, p, oldN, n) {
      InPlaceKeepsInv(s, p, n);
    } else if n <= oldN {
      ShrunkKeepsInv(s, p, n);
      assert (s.live - {p})[p := n] == s.live[p := n];
    } else {
      AllocKeepsInv(s, n, child);
      var a := Alloc(s, n, child);
      if a.ptr != NULL {
        assert a.next.live - {p} == (s.live - {p})[a.ptr := n];
        WithoutKeepsInv(a.next, p);
      }
    }
  }

  /** Resizing the last allocation within the block reaches no other. */
  lemma LastClear(s: State, p: nat, q: nat, n: nat)
    requires Inv(s) && p in s.live && q in s.live && q != p && ResizesInPlace(s, p, s.live[p], n)
    ensures Disjoint(q, s.live[q], p, n)
  {
    LastIsLast(s, p);
    var i :| 0 <= i < |s.blocks| && Holds(s.blocks[i], q, s.live[q]);
    if i != s.cur {
      assert Apart(s.blocks[i], s.blocks[s.cur]);
    }
  }

  /** In the current block, allocating and then resizing gives exactly the state of allocating the
      other size at once: nothing is lost by growing or shrinking the last allocation. */
  lemma ResizeLastIsAlloc(s: State, n: nat, n': nat, child: nat)
    requires Inv(s) && n > 0 && n' > 0 && NewBlockSize(s, n) == 0 && NewBlockSize(s, n') == 0
    ensures var r := Alloc(s, n, child);
            r.ptr in r.next.live &&
            Realloc(r.next, r.ptr, n', child) == Alloc(s, n', child)
  {
    var r, r' := Alloc(s, n, child), Alloc(s, n', child);
    assert s.live[r.ptr := n][r.ptr := n'] == s.live[r.ptr := n'];
    assert Realloc(r.next, r.ptr, n', child).next.blocks == r'.next.blocks;
  }

  /* ---------------------------------------------------------------- runs */

  datatype Op = DoAlloc(n: nat, child: nat) | DoRealloc(p: nat, n: nat, child: nat) | DoFree(p: nat)

  /** A caller may pass only live pointers, and the child answers as its contract says. */
  ghost predicate May(s: State, op: Op)
    requires s.cur < |s.blocks|
  {
    match op
    case DoAlloc(n, child) => ChildMay(s, NewBlockSize(s, n), child)
    case DoRealloc(p, n, child) => p in s.live && n > 0 && ChildMay(s, NewBlockSize(s, n), child)
    case DoFree(p) => p in s.live
  }

  ghost function Step(s: State, op: Op): State
    requires s.cur < |s.blocks| && May(s, op)
  {
    match op
    case DoAlloc(n, child) => Alloc(s, n, child).next
    case DoRealloc(p, n, child) => Realloc(s, p, n, child).next
    case DoFree(p) => Free(s, p)
  }

  function Initial(first: nat, blockSize: nat): State
  {
    State([Block(first, blockSize, 0)], 0, blockSize, map[])
  }

  /** These operations, each one permitted when it comes, lead from s to t. */
  ghost predicate Leads(s: State, ops: seq<Op>, t: State)
    decreases |ops|
  {
    if ops == [] then t == s
    else s.cur < |s.blocks| && May(s, ops[0]) && Leads(Step(s, ops[0]), ops[1..], t)
  }

  ghost predicate HasBlock(blocks: seq<Block>, addr: nat, size: nat)
  {
    exists i :: 0 <= i < |blocks| && blocks[i].addr == addr && blocks[i].size == size
  }

  lemma StepKeepsInv(s: State, op: Op)
    requires Inv(s) && May(s, op)
    ensures Inv(Step(s, op)) && Step(s, op).blockSize == s.blockSize
  {
    match op
    case DoAlloc(n, child) => AllocKeepsInv(s, n, child);
    case DoRealloc(p, n, child) => ReallocKeepsInv(s, p, n, child);
    case DoFree(p) =>
  }

  /** No step drops a block from the list. */
  lemma StepKeepsBlock(s: State, op: Op, addr: nat, size: nat)
    requires Inv(s) && May(s, op) && HasBlock(s.blocks, addr, size)
    ensures HasBlock(Step(s, op).blocks, addr, size)
  {
    hide LiveOk, BlocksOk, Apart, ChildMay, IsLast, ResizesInPlace;
    var blocks' := Step(s, op).blocks;
    var i :| 0 <= i < |s.blocks| && s.blocks[i].addr == addr && s.blocks[i].size == size;
    if |blocks'| == |s.blocks| {
      assert blocks'[i].addr == addr && blocks'[i].size == size;
    } else {
      var added := Block(op.child, NewBlockSize(s, op.n), op.n);
      assert blocks' == InsertAfter(s.blocks, s.cur, added);
      assert blocks'[if i <= s.cur then i else i + 1] == s.blocks[i];
    }
  }

  /** After any run: live allocations are pairwise disjoint, aligned and inside a block, blocks are
      pairwise disjoint, the current one is on the list with the configured size, and every block
      obtained from the child is still there to be given back. */
  lemma {:induction false} RunsKeepInv(s: State, ops: seq<Op>, t: State)
    requires Inv(s) && Leads(s, ops, t)
    ensures Inv(t) && t.blockSize == s.blockSize
    ensures forall addr, size :: HasBlock(s.blocks, addr, size) ==> HasBlock(t.blocks, addr, size)
    decreases |ops|
  {
    if ops != [] {
      StepKeepsInv(s, ops[0]);
      RunsKeepInv(Step(s, ops[0]), ops[1..], t);
      forall addr, size | HasBlock(s.blocks, addr, size)
        ensures HasBlock(t.blocks, addr, size)
      {
        StepKeepsBlock(s, ops[0], addr, size);
      }
    }
  }

  predicate InBlock(b: Block, p: nat)
  {
    b.Start() <= p < b.Start() + b.size
  }

  /** p points into the data of some block. */
  predicate InSome(blocks: seq<Block>, p: nat)
  {
    exists i :: 0 <= i < |blocks| && InBlock(blocks[i], p)
  }

  lemma LiveInSome(s: State, p: nat)
    requires Inv(s) && p in s.live
    ensures InSome(s.blocks, p)
  {
    var i :| 0 <= i < |s.blocks| && Holds(s.blocks[i], p, s.live[p]);
    assert InBlock(s.blocks[i], p);
  }

  /** Every pointer that was ever handed out stays inside a block of the arena, whatever happens later. */
  lemma ReturnedStaysInside(s: State, ops: seq<Op>, t: State, p: nat)
    requires Inv(s) && p in s.live && Leads(s, ops, t)
    ensures InSome(t.blocks, p)
  {
    LiveInSome(s, p);
    RunsKeepInv(s, ops, t);
    var i :| 0 <= i < |s.blocks| && InBlock(s.blocks[i], p);
    assert HasBlock(s.blocks, s.blocks[i].addr, s.blocks[i].size);
    var j :| 0 <= j < |t.blocks| && t.blocks[j].addr == s.blocks[i].addr && t.blocks[j].size == s.blocks[i].size;
    assert InBlock(t.blocks[j], p);
  }

  lemma InitialInv(first: nat, blockSize: nat)
    requires first > 0 && first % 8 == 0
    ensures Inv(Initial(first, blockSize))
  {
  }
}
