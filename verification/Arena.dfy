/** The arena as it runs: a linked list of blocks obtained from the child, each headed by its link,
    its size and the offset up to which it is allocated. */
module Arena {
  import opened Order
  import opened Memory
  import opened Os
  import opened ArenaModel
  import opened Child

  function NextOf(blocks: seq<Block>, i: nat): nat
  {
    if i + 1 < |blocks| then blocks[i + 1].addr else NULL
  }

  /** The three words of arena_block_t. */
  ghost predicate HeaderOk(m: seq<Byte>, b: Block, next: nat)
  {
    && b.addr + HEADER <= |m|
    && Load64(m, b.addr) == next && Load64(m, b.addr + 8) == b.size && Load64(m, b.addr + 16) == b.offset
  }

  ghost predicate Headers(m: seq<Byte>, blocks: seq<Block>)
  {
    forall i {:trigger NextOf(blocks, i)} :: 0 <= i < |blocks| ==> HeaderOk(m, blocks[i], NextOf(blocks, i))
  }

  /** Each block is an allocation of the child, header included. */
  ghost predicate Owned(live: map<nat, nat>, blocks: seq<Block>)
  {
    forall i :: 0 <= i < |blocks| ==> blocks[i].addr in live && live[blocks[i].addr] == HEADER + blocks[i].size
  }

  ghost function Addrs(blocks: seq<Block>): set<nat>
  {
    set i | 0 <= i < |blocks| :: blocks[i].addr
  }

  /** The answer to the child's latest request. */
  ghost function LastAnswer(log: seq<Call>): nat
  {
    if |log| > 0 && log[|log| - 1].Asked? then log[|log| - 1].answer else NULL
  }

  /** The child has been asked for one block of this size, or for nothing if the size is 0. */
  ghost predicate AskedFor(who: nat, size: nat, log: seq<Call>, log': seq<Call>, c: nat)
  {
    if size == 0 then log' == log else log' == log + [Asked(who, HEADER + size, c)]
  }

  /** A step of the model on the child's answer: the child is asked exactly when a new block is needed. */
  ghost predicate AllocNext(who: nat, s: State, n: nat, log: seq<Call>, s': State, p: nat, log': seq<Call>)
    requires s.cur < |s.blocks|
  {
    var size := NewBlockSize(s, n);
    var c := LastAnswer(log');
    AskedFor(who, size, log, log', c) && (size > 0 ==> ChildMay(s, size, c)) && Alloc(s, n, c) == Answer(s', p)
  }

  ghost predicate ReallocNext(who: nat, s: State, p: nat, n: nat, log: seq<Call>, s': State, q: nat, log': seq<Call>)
    requires s.cur < |s.blocks| && p in s.live
  {
    if ResizesInPlace(s, p, s.live[p], n) || n <= s.live[p] then
      log' == log && Realloc(s, p, n, NULL) == Answer(s', q)
    else
      var size := NewBlockSize(s, n);
      var c := LastAnswer(log');
      AskedFor(who, size, log, log', c) && (size > 0 ==> ChildMay(s, size, c)) && Realloc(s, p, n, c) == Answer(s', q)
  }

  /** How a request of n bytes is served when b is the current block: a large one by one request for a
      block of its own, b staying current; one that fits behind the aligned offset by b, with no request;
      any other by one request for a block of the configured size, which then is current. */
  ghost predicate Served(who: nat, blockSize: nat, b: Block, n: nat, calls: seq<Call>, b': Block,
                         calls': seq<Call>, p: nat)
  {
    var c := LastAnswer(calls');
    if n == 0 then
      p == NULL && calls' == calls && b' == b
    else if n > blockSize then
      calls' == calls + [Asked(who, HEADER + n, c)] && b' == b && p == (if c == NULL then NULL else c + HEADER)
    else if AlignUp8(b.offset) + n <= b.size then
      calls' == calls && p == b.addr + HEADER + AlignUp8(b.offset) && b' == b.(offset := AlignUp8(b.offset) + n)
    else
      calls' == calls + [Asked(who, HEADER + blockSize, c)] &&
      if c == NULL then p == NULL && b' == b else p == c + HEADER && b' == Block(c, blockSize, n)
  }

  /** How a resize is served when b is the current block: what ends at its offset grows or shrinks in
      place while it fits, anything else that does not grow stays, and the rest is served anew. */
  ghost predicate ResizeServed(who: nat, blockSize: nat, b: Block, p: nat, oldN: nat, n: nat, calls: seq<Call>,
                               b': Block, calls': seq<Call>, q: nat)
  {
    if p + oldN == b.addr + HEADER + b.offset && p + n <= b.addr + HEADER + b.size then
      q == p && calls' == calls && b'.addr == b.addr && b'.size == b.size && b'.addr + HEADER + b'.offset == p + n
    else if n <= oldN then
      q == p && calls' == calls && b' == b
    else
      Served(who, blockSize, b, n, calls, b', calls', q)
  }

  lemma AllocServes(who: nat, s: State, n: nat, calls: seq<Call>, s': State, p: nat, calls': seq<Call>)
    requires Inv(s) && AllocNext(who, s, n, calls, s', p, calls')
    ensures s'.cur < |s'.blocks|
    ensures Served(who, s.blockSize, s.blocks[s.cur], n, calls, s'.blocks[s'.cur], calls', p)
  {
    hide LiveOk, Apart, AlignUp8;
  }

  lemma ReallocServes(who: nat, s: State, p: nat, n: nat, calls: seq<Call>, s': State, q: nat, calls': seq<Call>)
    requires Inv(s) && p in s.live && n > 0 && ReallocNext(who, s, p, n, calls, s', q, calls')
    ensures s'.cur < |s'.blocks|
    ensures ResizeServed(who, s.blockSize, s.blocks[s.cur], p, s.live[p], n, calls, s'.blocks[s'.cur], calls', q)
  {
    LastIsLast(s, p);
    hide LiveOk, Apart, AlignUp8;
    if !ResizesInPlace(s, p, s.live[p], n) && n > s.live[p] {
      var size := NewBlockSize(s, n);
      var r := ArenaModel.Alloc(s, n, LastAnswer(calls'));
      AllocServes(who, s, n, calls, r.next, r.ptr, calls');
    }
  }

  /* ---------------------------------------------------------------- framing */

  lemma HeaderFrame(m: seq<Byte>, m': seq<Byte>, b: Block, next: nat)
    requires HeaderOk(m, b, next) && |m'| == |m| && Same(m, m', b.addr, b.addr + HEADER)
    ensures HeaderOk(m', b, next)
  {
    LoadFrame(m, m', b.addr, 8);
    LoadFrame(m, m', b.addr + 8, 8);
    LoadFrame(m, m', b.addr + 16, 8);
  }

  lemma HeadersFrame(m: seq<Byte>, m': seq<Byte>, blocks: seq<Block>)
    requires Headers(m, blocks) && |m'| == |m|
    requires forall i :: 0 <= i < |blocks| ==> Same(m, m', blocks[i].addr, blocks[i].addr + HEADER)
    ensures Headers(m', blocks)
  {
    forall i | 0 <= i < |blocks|
      ensures HeaderOk(m', blocks[i], NextOf(blocks, i))
    {
      HeaderFrame(m, m', blocks[i], NextOf(blocks, i));
    }
  }

  /** What the child keeps includes every header. */
  lemma OwnedFrame(m: seq<Byte>, m': seq<Byte>, live: map<nat, nat>, blocks: seq<Block>)
    requires Headers(m, blocks) && Owned(live, blocks) && MapsSame(m, m', live)
    ensures Headers(m', blocks)
  {
    forall i | 0 <= i < |blocks|
      ensures Same(m, m', blocks[i].addr, blocks[i].addr + HEADER)
    {
      assert Same(m, m', blocks[i].addr, blocks[i].addr + live[blocks[i].addr]);
    }
    HeadersFrame(m, m', blocks);
  }

  lemma OffsetWord(m: seq<Byte>, b: Block, next: nat, v: nat)
    requires HeaderOk(m, b, next) && v < WORD
    ensures b.addr + HEADER <= |m|
    ensures var m' := Put64(m, b.addr + 16, v);
            && HeaderOk(m', b.(offset := v), next)
            && Same(m, m', 0, b.addr + 16) && Same(m, m', b.addr + HEADER, |m|)
  {
    hide Load64, Put64;
    Put64Facts(m, b.addr + 16, v);
  }

  /** Storing a new offset in a header. */
  lemma OffsetStored(m: seq<Byte>, blocks: seq<Block>, i: nat, v: nat)
    requires BlocksOk(blocks) && Headers(m, blocks) && i < |blocks| && v < WORD
    ensures blocks[i].addr + HEADER <= |m|
    ensures Headers(Put64(m, blocks[i].addr + 16, v), blocks[i := blocks[i].(offset := v)])
  {
    hide Load64, Put64, HeaderOk, BlocksOk, Apart;
    var b, blocks' := blocks[i], blocks[i := blocks[i].(offset := v)];
    OffsetWord(m, b, NextOf(blocks, i), v);
    var m' := Put64(m, b.addr + 16, v);
    forall j | 0 <= j < |blocks'|
      ensures HeaderOk(m', blocks'[j], NextOf(blocks', j))
    {
      assert NextOf(blocks', j) == NextOf(blocks, j);
      if j != i {
        OtherHeader(m, m', blocks, i, j);
      }
    }
    assert Headers(m', blocks');
  }

  /** A change within the header of block i leaves that of block j alone. */
  lemma OtherHeader(m: seq<Byte>, m': seq<Byte>, blocks: seq<Block>, i: nat, j: nat)
    requires BlocksOk(blocks) && Headers(m, blocks) && i < |blocks| && j < |blocks| && i != j && |m'| == |m|
    requires Same(m, m', 0, blocks[i].addr) && Same(m, m', blocks[i].addr + HEADER, |m|)
    ensures HeaderOk(m', blocks[j], NextOf(blocks, j))
  {
    assert Apart(blocks[i], blocks[j]);
    HeaderFrame(m, m', blocks[j], NextOf(blocks, j));
  }

  /** Linking a block in after the current one. */
  lemma BlockLinked(m: seq<Byte>, blocks: seq<Block>, cur: nat, b: Block)
    requires BlocksOk(blocks) && Headers(m, blocks) && cur < |blocks|
    requires HeaderOk(m, b, NULL) && b.addr < WORD && NextOf(blocks, cur) < WORD
    requires forall i :: 0 <= i < |blocks| ==> Apart(blocks[i], b)
    ensures blocks[cur].addr + HEADER <= |m|
    ensures Headers(Put64(Put64(m, b.addr, NextOf(blocks, cur)), blocks[cur].addr, b.addr), InsertAfter(blocks, cur, b))
  {
    hide Load64, Put64;
    var c, r := blocks[cur], InsertAfter(blocks, cur, b);
    assert HeaderOk(m, c, NextOf(blocks, cur)) && Apart(c, b);
    var m1 := Put64(m, b.addr, NextOf(blocks, cur));
    Put64Facts(m, b.addr, NextOf(blocks, cur));
    assert HeaderOk(m1, b, NextOf(blocks, cur));
    HeaderFrame(m, m1, c, NextOf(blocks, cur));
    var m2 := Put64(m1, c.addr, b.addr);
    Put64Facts(m1, c.addr, b.addr);
    assert HeaderOk(m2, c, b.addr);
    HeaderFrame(m1, m2, b, NextOf(blocks, cur));
    forall j | 0 <= j < |r|
      ensures HeaderOk(m2, r[j], NextOf(r, j))
    {
      if j != cur && j != cur + 1 {
        var i := if j <= cur then j else j - 1;
        assert r[j] == blocks[i] && NextOf(r, j) == NextOf(blocks, i);
        assert Apart(blocks[i], b) && Apart(blocks[i], c);
        assert HeaderOk(m, blocks[i], NextOf(blocks, i));
        HeaderFrame(m, m1, blocks[i], NextOf(blocks, i));
        HeaderFrame(m1, m2, blocks[i], NextOf(blocks, i));
      }
    }
  }

  /** The arena's headers lie outside its allocations and outside the child's other ones. */
  lemma HeadersClear(s: State, live: map<nat, nat>, top: nat, i: nat)
    requires Inv(s) && MapsOk(live, 8, top) && Owned(live, s.blocks) && i < |s.blocks|
    ensures ClearOf(Keep(live, s), s.blocks[i].addr, HEADER)
  {
    var b := s.blocks[i];
    forall p | p in Keep(live, s)
      ensures Disjoint(b.addr, HEADER, p, Keep(live, s)[p])
    {
      if p in s.live {
        var j :| 0 <= j < |s.blocks| && Holds(s.blocks[j], p, s.live[p]);
        assert j != i ==> Apart(s.blocks[i], s.blocks[j]);
      } else {
        assert p != b.addr;
      }
    }
  }

  /** Everything that is not the arena's to write: the child's other allocations, and the arena's own
      live ones. */
  ghost function Keep(live: map<nat, nat>, s: State): map<nat, nat>
  {
    (live - Addrs(s.blocks)) + s.live
  }

  /** Neither part of Keep hides an entry of the other. */
  lemma KeepIsBoth(live: map<nat, nat>, s: State, top: nat)
    requires Inv(s) && MapsOk(live, 8, top) && Owned(live, s.blocks)
    ensures Among(live - Addrs(s.blocks), Keep(live, s)) && Among(s.live, Keep(live, s))
  {
    forall p | p in live - Addrs(s.blocks)
      ensures p !in s.live
    {
    }
  }

  /** What the child keeps includes Keep. */
  lemma KeepInside(m: seq<Byte>, m': seq<Byte>, live: map<nat, nat>, s: State)
    requires Inv(s) && Owned(live, s.blocks) && MapsSame(m, m', live)
    ensures MapsSame(m, m', Keep(live, s))
  {
    forall p | p in Keep(live, s)
      ensures Same(m, m', p, p + Keep(live, s)[p])
    {
      if p in s.live {
        var i :| 0 <= i < |s.blocks| && Holds(s.blocks[i], p, s.live[p]);
        assert Same(m, m', s.blocks[i].addr, s.blocks[i].addr + live[s.blocks[i].addr]);
      }
    }
  }

  /** A range clear of the child's allocations is clear of Keep. */
  lemma ClearOfKeep(live: map<nat, nat>, s: State, a: nat, n: nat)
    requires Inv(s) && Owned(live, s.blocks) && ClearOf(live, a, n)
    ensures ClearOf(Keep(live, s), a, n)
  {
    forall p | p in Keep(live, s)
      ensures Disjoint(a, n, p, Keep(live, s)[p])
    {
      if p in s.live {
        var i :| 0 <= i < |s.blocks| && Holds(s.blocks[i], p, s.live[p]);
        assert Disjoint(a, n, s.blocks[i].addr, live[s.blocks[i].addr]);
      }
    }
  }

  /** A fresh allocation of the child is a permitted answer, and can be owned as a block. */
  lemma FreshBlock(s: State, live: map<nat, nat>, c: nat, size: nat)
    requires Inv(s) && Owned(live, s.blocks) && c > 0 && c % 8 == 0 && ClearOf(live, c, HEADER + size) && c !in live
    ensures ChildMay(s, size, c)
    ensures forall b: Block :: b.addr == c && b.size == size ==>
              var r := InsertAfter(s.blocks, s.cur, b);
              Owned(live[c := HEADER + size], r) && live[c := HEADER + size] - Addrs(r) == live - Addrs(s.blocks)
  {
    forall i | 0 <= i < |s.blocks|
      ensures Apart(s.blocks[i], Block(c, size, 0))
    {
      assert Disjoint(c, HEADER + size, s.blocks[i].addr, live[s.blocks[i].addr]);
    }
    forall b: Block | b.addr == c && b.size == size
      ensures var r := InsertAfter(s.blocks, s.cur, b);
              Owned(live[c := HEADER + size], r) && live[c := HEADER + size] - Addrs(r) == live - Addrs(s.blocks)
    {
      InsertAddrs(s.blocks, s.cur, b);
    }
  }

  lemma InsertAddrs(blocks: seq<Block>, cur: nat, b: Block)
    requires cur < |blocks|
    ensures Addrs(InsertAfter(blocks, cur, b)) == Addrs(blocks) + {b.addr}
  {
    var r := InsertAfter(blocks, cur, b);
    forall a | a in Addrs(blocks)
      ensures a in Addrs(r)
    {
      var i :| 0 <= i < |blocks| && blocks[i].addr == a;
      assert r[if i <= cur then i else i + 1].addr == a;
    }
    assert r[cur + 1].addr in Addrs(r);
  }

  /** new_arena_block: from the child, with an empty header; or NULL. */
  method NewBlock(child: Allocator, size: nat) returns (c: nat)
    requires child.Valid() && HEADER + size < WORD
    modifies child, child.journal, child.heap
    ensures child.Valid() && MapsSame(old(child.heap.bytes), child.heap.bytes, old(child.live))
    ensures child.journal.calls == old(child.journal.calls) + [Asked(child.id, HEADER + size, c)]
    ensures c == NULL ==> child.live == old(child.live)
    ensures c != NULL ==> ClearOf(old(child.live), c, HEADER + size) && c !in old(child.live) && c % 8 == 0 &&
                          c + HEADER <= |child.heap.bytes| &&
                          child.live == old(child.live)[c := HEADER + size] &&
                          HeaderOk(child.heap.bytes, Block(c, size, 0), NULL)
  {
    hide Load64, Put64;
    ghost var live, m0 := child.live, child.heap.bytes;
    c := child.Alloc(HEADER + size, {});
    if c == NULL {
      return;
    }
    assert c in child.live;
    var heap := child.heap;
    ghost var m1 := heap.bytes;
    heap.Store(c, NULL);
    ghost var m2 := heap.bytes;
    heap.Store(c + 8, size);
    ghost var m3 := heap.bytes;
    heap.Store(c + 16, 0);
    Put64Facts(m1, c, NULL);
    Put64Facts(m2, c + 8, size);
    Put64Facts(m3, c + 16, 0);
    ClearIsSame(m1, heap.bytes, live, c, HEADER + size);
    MapsSameTrans(m0, m1, heap.bytes, live);
  }

  /** A moved offset changes no address and no size. */
  lemma MovedOwned(live: map<nat, nat>, blocks: seq<Block>, i: nat, v: nat)
    requires i < |blocks|
    ensures var r := blocks[i := blocks[i].(offset := v)];
            Addrs(r) == Addrs(blocks) && (Owned(live, blocks) ==> Owned(live, r))
  {
    var r := blocks[i := blocks[i].(offset := v)];
    forall a | a in Addrs(blocks)
      ensures a in Addrs(r)
    {
      var j :| 0 <= j < |blocks| && blocks[j].addr == a;
      assert r[j].addr == a;
    }
    forall a | a in Addrs(r)
      ensures a in Addrs(blocks)
    {
      var j :| 0 <= j < |r| && r[j].addr == a;
      assert blocks[j].addr == a;
    }
  }

  /** The arena with an empty block linked in; what is current has not been decided. */
  ghost function Extended(s: State, c: nat, size: nat): State
    requires s.cur < |s.blocks|
  {
    s.(blocks := InsertAfter(s.blocks, s.cur, Block(c, size, 0)))
  }

  lemma ExtendedInv(s: State, c: nat, size: nat)
    requires Inv(s) && ChildMay(s, size, c) && c > 0
    ensures Inv(Extended(s, c, size))
  {
    InsertKeeps(s.blocks, s.cur, Block(c, size, 0), s.live);
  }

  lemma NullAllowed(s: State, size: nat)
    ensures ChildMay(s, size, NULL)
  {
  }

  lemma NoAlloc(s: State)
    requires s.cur < |s.blocks|
    ensures forall c :: ArenaModel.Alloc(s, 0, c) == Answer(s, NULL)
  {
  }

  /** A child that is not asked has no say. */
  lemma SameStep(s: State, n: nat, c: nat, c': nat)
    requires s.cur < |s.blocks| && (NewBlockSize(s, n) == 0 || c == c')
    ensures ArenaModel.Alloc(s, n, c) == ArenaModel.Alloc(s, n, c')
  {
  }

  /** Blocks with the same address are the same. */
  lemma SameBlock(blocks: seq<Block>, i: nat, j: nat)
    requires BlocksOk(blocks) && i < |blocks| && j < |blocks| && blocks[i].addr == blocks[j].addr
    ensures i == j
  {
    assert i != j ==> Apart(blocks[i], blocks[j]);
  }

  lemma SameSize(s: State, p: nat)
    requires s.cur < |s.blocks| && p in s.live
    ensures forall who, log :: ReallocNext(who, s, p, s.live[p], log, s, p, log)
  {
    assert s.live[p := s.live[p]] == s.live;
    assert Realloc(s, p, s.live[p], NULL) == Answer(s, p);
  }

  /** What stays where it is counts as copied onto itself. */
  lemma SameCopied(m: seq<Byte>, m': seq<Byte>, keep: map<nat, nat>, p: nat, oldN: nat, n: nat)
    requires MapsSame(m, m', keep) && p in keep && keep[p] == oldN && p + oldN <= |m|
    ensures Copied(m, m', p, p, Min(oldN, n)) && MapsSame(m, m', keep - {p})
  {
    assert Same(m, m', p, p + oldN);
    assert m'[p..p + Min(oldN, n)] == m[p..p + Min(oldN, n)];
  }

  /** A live allocation is clear of everything else that is kept. */
  lemma LiveClear(live: map<nat, nat>, s: State, top: nat, q: nat)
    requires Inv(s) && MapsOk(live, 8, top) && Owned(live, s.blocks) && q in s.live
    ensures ClearOf(Keep(live, s) - {q}, q, s.live[q]) && q !in live - Addrs(s.blocks)
  {
    var i :| 0 <= i < |s.blocks| && Holds(s.blocks[i], q, s.live[q]);
    var a := s.blocks[i].addr;
    assert a in live && live[a] == HEADER + s.blocks[i].size;
    forall p | p in Keep(live, s) - {q}
      ensures Disjoint(q, s.live[q], p, Keep(live, s)[p])
    {
      if p !in s.live {
        assert p != a && Disjoint(a, live[a], p, live[p]);
      }
    }
  }

  /** What the owner of a live allocation writes there touches no header and no other allocation. */
  lemma PayloadKeeps(s: State, live: map<nat, nat>, m: seq<Byte>, m': seq<Byte>, q: nat)
    requires Inv(s) && MapsOk(live, 8, |m|) && Owned(live, s.blocks) && Headers(m, s.blocks) && q in s.live
    requires |m'| == |m| && Same(m, m', 0, q) && Same(m, m', q + s.live[q], |m|)
    ensures Headers(m', s.blocks) && MapsSame(m, m', Keep(live, s) - {q}) && q !in live - Addrs(s.blocks)
  {
    LiveClear(live, s, |m|, q);
    ClearIsSame(m, m', Keep(live, s) - {q}, q, s.live[q]);
    forall i | 0 <= i < |s.blocks|
      ensures Same(m, m', s.blocks[i].addr, s.blocks[i].addr + HEADER)
    {
      HeadersClear(s, live, |m|, i);
      assert Disjoint(s.blocks[i].addr, HEADER, q, s.live[q]);
    }
    HeadersFrame(m, m', s.blocks);
  }

  /** What was kept before q was allocated is kept beside it now. */
  lemma KeepBefore(live: map<nat, nat>, s: State, live': map<nat, nat>, s': State, q: nat, n: nat)
    requires live' - Addrs(s'.blocks) == live - Addrs(s.blocks) && q !in live - Addrs(s.blocks)
    requires s'.live == s.live[q := n] && q !in s.live
    ensures Keep(live', s') - {q} == Keep(live, s)
  {
  }

  /** What stood at p is kept until it is copied to q. */
  lemma MovedCopy(m: seq<Byte>, m1: seq<Byte>, m2: seq<Byte>, keep: map<nat, nat>, p: nat, q: nat, n: nat)
    requires MapsSame(m, m1, keep) && p in keep && keep[p] == n && p + n <= |m| && q + n <= |m| && |m2| == |m1|
    requires m2[q..q + n] == m1[p..p + n]
    ensures Copied(m, m2, p, q, n)
  {
    assert Same(m, m1, p, p + n);
    assert m1[p..p + n] == m[p..p + n];
  }

  /** After block i has been given back, the rest of the list is as it was. */
  lemma TailOwned(m: seq<Byte>, m': seq<Byte>, now: map<nat, nat>, live: map<nat, nat>, blocks: seq<Block>, i: nat)
    requires BlocksOk(blocks) && i < |blocks| && Headers(m, blocks[i..]) &&
             Owned(live - Addrs(blocks[..i]), blocks[i..])
    requires now == live - Addrs(blocks[..i]) - {blocks[i].addr} && MapsSame(m, m', now)
    ensures Headers(m', blocks[i + 1..]) && Owned(now, blocks[i + 1..]) && now == live - Addrs(blocks[..i + 1])
  {
    hide HeaderOk, MapsSame;
    var rest, next := blocks[i..], blocks[i + 1..];
    PrefixAddrs(blocks, i);
    forall j | 0 <= j < |next|
      ensures next[j].addr in now && now[next[j].addr] == HEADER + next[j].size && HeaderOk(m, next[j], NextOf(next, j))
    {
      assert next[j] == rest[j + 1] && NextOf(next, j) == NextOf(rest, j + 1);
      assert HeaderOk(m, rest[j + 1], NextOf(rest, j + 1));
      assert next[j] == blocks[i + 1 + j] && Apart(blocks[i], blocks[i + 1 + j]);
    }
    OwnedFrame(m, m', now, next);
  }

  /** The first block of the rest of the list, as the walk finds it. */
  lemma HeadOwned(m: seq<Byte>, live: map<nat, nat>, blocks: seq<Block>, i: nat)
    requires i < |blocks| && Headers(m, blocks[i..]) && Owned(live, blocks[i..])
    ensures HeaderOk(m, blocks[i], NextOf(blocks, i)) && blocks[i].addr in live &&
            live[blocks[i].addr] == HEADER + blocks[i].size
  {
    assert blocks[i..][0] == blocks[i] && NextOf(blocks[i..], 0) == NextOf(blocks, i);
  }

  lemma NoneAtNull(blocks: seq<Block>)
    requires BlocksOk(blocks)
    ensures forall i :: 0 <= i < |blocks| ==> blocks[i].addr != NULL
  {
  }

  lemma PrefixAddrs(blocks: seq<Block>, i: nat)
    requires i < |blocks|
    ensures Addrs(blocks[..i + 1]) == Addrs(blocks[..i]) + {blocks[i].addr}
  {
    forall a | a in Addrs(blocks[..i])
      ensures a in Addrs(blocks[..i + 1])
    {
      var j :| 0 <= j < i && blocks[..i][j].addr == a;
      assert blocks[..i + 1][j].addr == a;
    }
    assert blocks[..i + 1][i].addr in Addrs(blocks[..i + 1]);
    forall a | a in Addrs(blocks[..i + 1])
      ensures a in Addrs(blocks[..i]) + {blocks[i].addr}
    {
      var j :| 0 <= j < i + 1 && blocks[..i + 1][j].addr == a;
      assert j < i ==> blocks[..i][j].addr == a;
    }
  }

  /** A word stored in a range clear of these blocks. */
  lemma WordStored(m: seq<Byte>, a: nat, v: nat, keep: map<nat, nat>, lo: nat, n: nat)
    requires a + 8 <= |m| && v < WORD && ClearOf(keep, lo, n) && lo <= a && a + 8 <= lo + n
    ensures MapsSame(m, Put64(m, a, v), keep)
  {
    hide Load64, Put64;
    Put64Facts(m, a, v);
    ClearIsSame(m, Put64(m, a, v), keep, lo, n);
  }

  class Context {
    const heap: Heap
    const child: Allocator
    const blockSize: nat
    var first: nat
    var current: nat

    ghost var st: State

    ghost predicate Valid()
      reads this, heap, child
    {
      && child.heap == heap && child.Valid() && Listed()
      && Headers(heap.bytes, st.blocks)
    }

    ghost predicate Listed()
      reads this, child
    {
      && Inv(st) && st.blockSize == blockSize && Owned(child.live, st.blocks)
      && first == st.blocks[0].addr && current == st.blocks[st.cur].addr
    }

    /** The allocations that no call of the arena may change: all of the child's that are not the
        arena's, and all live ones of the arena. */
    ghost function Kept(): (kept: map<nat, nat>)
      requires Valid()
      reads this, child, heap
      ensures Among(Others(), kept) && Among(st.live, kept)
    {
      KeepIsBoth(child.live, st, |heap.bytes|);
      Keep(child.live, st)
    }

    /** The block that is bumped. */
    ghost function Cur(): Block
      requires st.cur < |st.blocks|
      reads this
    {
      st.blocks[st.cur]
    }

    /** The child's allocations that are not the arena's. */
    ghost function Others(): map<nat, nat>
      reads this, child
    {
      child.live - Addrs(st.blocks)
    }

    /** The arena over its first block. */
    constructor (child: Allocator, blockSize: nat, block: nat)
      requires child.Valid() && block in child.live && child.live[block] == HEADER + blockSize
      requires HeaderOk(child.heap.bytes, Block(block, blockSize, 0), NULL)
      ensures Valid() && this.child == child && this.blockSize == blockSize && st == Initial(block, blockSize)
    {
      this.heap := child.heap;
      this.child := child;
      this.blockSize := blockSize;
      first := block;
      current := block;
      st := Initial(block, blockSize);
      new;
      InitialInv(block, blockSize);
    }

    /** Links a fresh block in after the current one. */
    method Link(block: nat, size: nat, ghost live: map<nat, nat>)
      requires child.heap == heap && child.Valid() && Inv(st) && current == st.blocks[st.cur].addr
      requires Headers(heap.bytes, st.blocks) && HeaderOk(heap.bytes, Block(block, size, 0), NULL)
      requires MapsOk(live, 8, |heap.bytes|) && Owned(live, st.blocks) && ClearOf(live, block, HEADER + size)
      requires block !in live && block > 0 && block % 8 == 0
      modifies heap
      ensures |heap.bytes| == |old(heap.bytes)|
      ensures Headers(heap.bytes, InsertAfter(st.blocks, st.cur, Block(block, size, 0)))
      ensures MapsSame(old(heap.bytes), heap.bytes, Keep(live, st))
    {
      hide Load64, Put64, ClearOf, LiveOk, BlocksOk, MapsOk, Owned, Keep, InsertAfter, MapsSame;
      ghost var m0, keep := heap.bytes, Keep(live, st);
      assert HeaderOk(m0, st.blocks[st.cur], NextOf(st.blocks, st.cur));
      assert st.cur + 1 < |st.blocks| ==> HeaderOk(m0, st.blocks[st.cur + 1], NextOf(st.blocks, st.cur + 1));
      var next := heap.Load(current);
      heap.Store(block, next);
      ghost var m1 := heap.bytes;
      heap.Store(current, block);
      FreshBlock(st, live, block, size);
      BlockLinked(m0, st.blocks, st.cur, Block(block, size, 0));
      ClearOfKeep(live, st, block, HEADER + size);
      HeadersClear(st, live, |m0|, st.cur);
      WordStored(m0, block, next, keep, block, HEADER + size);
      WordStored(m1, current, block, keep, current, HEADER);
      MapsSameTrans(m0, m1, heap.bytes, keep);
    }

    /** Stores the offset of block i. */
    method SetOffset(block: nat, v: nat, ghost s: State, ghost i: nat, ghost live: map<nat, nat>)
      requires Inv(s) && i < |s.blocks| && block == s.blocks[i].addr && v < WORD
      requires Headers(heap.bytes, s.blocks) && MapsOk(live, 8, |heap.bytes|) && Owned(live, s.blocks)
      modifies heap
      ensures |heap.bytes| == |old(heap.bytes)|
      ensures Headers(heap.bytes, s.blocks[i := s.blocks[i].(offset := v)])
      ensures MapsSame(old(heap.bytes), heap.bytes, Keep(live, s))
    {
      hide Load64, Put64, ClearOf, LiveOk, MapsOk, Owned, Keep, MapsSame, Headers;
      OffsetStored(heap.bytes, s.blocks, i, v);
      HeadersClear(s, live, |heap.bytes|, i);
      WordStored(heap.bytes, block + 16, v, Keep(live, s), block, HEADER);
      heap.Store(block + 16, v);
    }

    /** The request fits the current block: the bump. */
    method Bump(n: nat) returns (p: nat)
      requires Valid() && n > 0 && Fits(st, n) && HEADER + blockSize + n < WORD
      modifies this, heap
      ensures Valid() && Answer(st, p) == ArenaModel.Alloc(old(st), n, NULL) && Others() == old(Others())
      ensures MapsSame(old(heap.bytes), heap.bytes, old(Kept()))
    {
      hide Load64, Put64, LiveOk, MapsOk, Owned, Keep, MapsSame, Headers, HeaderOk;
      ghost var s := st;
      var offset := Offset();
      var aligned := AlignUp8(offset);
      AllocKeepsInv(s, n, NULL);
      SetOffset(current, aligned + n, s, s.cur, child.live);
      p := current + HEADER + aligned;
      st := ArenaModel.Alloc(s, n, NULL).next;
      MovedOwned(child.live, s.blocks, s.cur, aligned + n);
    }

    /** The current block's offset word. */
    method Offset() returns (offset: nat)
      requires Valid()
      ensures offset == st.blocks[st.cur].offset
    {
      hide Load64, LiveOk, BlocksOk, Owned;
      assert HeaderOk(heap.bytes, st.blocks[st.cur], NextOf(st.blocks, st.cur));
      offset := heap.Load(current + 16);
    }

    /** The current block's size word. */
    method Size() returns (size: nat)
      requires Valid()
      ensures size == st.blocks[st.cur].size
    {
      hide Load64, LiveOk, BlocksOk, Owned;
      assert HeaderOk(heap.bytes, st.blocks[st.cur], NextOf(st.blocks, st.cur));
      size := heap.Load(current + 8);
    }

    /** A new block from the child, linked in after the current one; or NULL, and all is as it was. */
    method Extend(size: nat) returns (block: nat)
      requires Valid() && HEADER + size < WORD
      modifies child, child.journal, heap
      ensures child.heap == heap && child.Valid() && MapsSame(old(heap.bytes), heap.bytes, old(Kept()))
      ensures child.journal.calls == old(child.journal.calls) + [Asked(child.id, HEADER + size, block)]
      ensures block == NULL ==> Valid() && child.live == old(child.live)
      ensures block != NULL ==> ChildMay(st, size, block) && block < WORD && block > 0
      ensures block != NULL ==> var s := Extended(st, block, size);
                                Inv(s) && Headers(heap.bytes, s.blocks) &&
                                Owned(child.live, s.blocks) && child.live - Addrs(s.blocks) == old(Others())
    {
      hide Load64, Put64, LiveOk, BlocksOk, Apart, MapsOk, Owned, Keep, ClearOf, HeaderOk, Headers, InsertAfter,
        ChildMay, MapsSame;
      ghost var live, m0, keep := child.live, heap.bytes, Kept();
      block := NewBlock(child, size);
      ghost var m1 := heap.bytes;
      OwnedFrame(m0, m1, live, st.blocks);
      KeepInside(m0, m1, live, st);
      if block == NULL {
        return;
      }
      FreshBlock(st, live, block, size);
      Link(block, size, live);
      MapsSameTrans(m0, m1, heap.bytes, keep);
      ExtendedInv(st, block, size);
    }

    /** arena_alloc_fn when the request needs a block of its own, or a next one. */
    method AllocInNew(n: nat, size: nat) returns (p: nat)
      requires Valid() && size == NewBlockSize(st, n) > 0 && HEADER + blockSize + n < WORD
      modifies this, child, child.journal, heap
      ensures Valid() && Inv(old(st)) &&
              AllocNext(child.id, old(st), n, old(child.journal.calls), st, p, child.journal.calls)
      ensures Others() == old(Others()) && (p == NULL ==> child.live == old(child.live))
      ensures MapsSame(old(heap.bytes), heap.bytes, old(Kept()))
    {
      hide Load64, Put64, LiveOk, BlocksOk, MapsOk, Owned, ClearOf, HeaderOk, Headers, ChildMay, MapsSame;
      ghost var s, m0, keep := st, heap.bytes, Kept();
      var block := Extend(size);
      if block == NULL {
        assert ChildMay(s, size, NULL) by { NullAllowed(s, size); }
        p := NULL;
        return;
      }
      AllocKeepsInv(s, n, block);
      ghost var s1, m1 := Extended(s, block, size), heap.bytes;
      SetOffset(block, n, s1, s.cur + 1, child.live);
      MapsSameTrans(m0, m1, heap.bytes, keep);
      MovedOwned(child.live, s1.blocks, s.cur + 1, n);
      if n <= blockSize {
        current := block;
      }
      p := block + HEADER;
      st := ArenaModel.Alloc(s, n, block).next;
      assert st.blocks == s1.blocks[s.cur + 1 := s1.blocks[s.cur + 1].(offset := n)];
    }

    /** arena_alloc_fn */
    method Alloc(n: nat) returns (p: nat)
      requires Valid() && HEADER + blockSize + n < WORD
      modifies this, child, child.journal, heap
      ensures Valid() && Inv(old(st)) &&
              AllocNext(child.id, old(st), n, old(child.journal.calls), st, p, child.journal.calls)
      ensures Others() == old(Others())
      ensures MapsSame(old(heap.bytes), heap.bytes, old(Kept()))
      ensures p == NULL ==> child.live == old(child.live)
      ensures Served(child.id, blockSize, old(Cur()), n, old(child.journal.calls), Cur(), child.journal.calls, p)
    {
      hide LiveOk, BlocksOk, MapsOk, Owned, Keep, Headers, ChildMay, MapsSame, ArenaModel.Alloc, Served;
      p := Serve(n);
      AllocServes(child.id, old(st), n, old(child.journal.calls), st, p, child.journal.calls);
    }

    /** The branches of arena_alloc_fn. */
    method Serve(n: nat) returns (p: nat)
      requires Valid() && HEADER + blockSize + n < WORD
      modifies this, child, child.journal, heap
      ensures Valid() && Inv(old(st)) &&
              AllocNext(child.id, old(st), n, old(child.journal.calls), st, p, child.journal.calls)
      ensures Others() == old(Others())
      ensures MapsSame(old(heap.bytes), heap.bytes, old(Kept()))
      ensures p == NULL ==> child.live == old(child.live)
    {
      hide LiveOk, BlocksOk, MapsOk, Owned, Keep, Headers, ChildMay, MapsSame, ArenaModel.Alloc;
      NullAllowed(st, 0);
      if n == 0 {
        p := NULL;
        NoAlloc(st);
        MapsSameRefl(heap.bytes, Kept());
        return;
      }
      var offset := Offset();
      var size := Size();
      if n > blockSize {
        p := AllocInNew(n, n);
      } else if AlignUp8(offset) + n > size {
        p := AllocInNew(n, blockSize);
      } else {
        SameStep(st, n, NULL, LastAnswer(child.journal.calls));
        p := Bump(n);
      }
    }

    /** arena_free_fn: space is not reclaimed, and memory is not touched. */
    method Free(p: nat, n: nat)
      requires Valid() && (p == NULL || (p in st.live && st.live[p] == n))
      modifies this`st
      ensures Valid() && st == if p == NULL then old(st) else ArenaModel.Free(old(st), p)
    {
      hide Headers, Owned, BlocksOk;
      if p != NULL && n != 0 {
        LiveInSome(st, p);
        var c := Contains(p);
        if c != No {
          st := ArenaModel.Free(st, p);
        }
      }
    }

    /** arena_contains_fn: the current block first, then the list without it. */
    method Contains(p: nat) returns (c: Contains)
      requires Valid()
      ensures c == if InSome(st.blocks, p) then Yes else No
    {
      hide LiveOk, Owned, Load64, BlocksOk, MapsOk;
      var size := Size();
      NoneAtNull(st.blocks);
      if current + HEADER <= p < current + HEADER + size {
        assert InBlock(st.blocks[st.cur], p);
        return Yes;
      }
      var curr := first;
      ghost var i := 0;
      while curr != NULL
        invariant 0 <= i <= |st.blocks| && curr == (if i < |st.blocks| then st.blocks[i].addr else NULL)
        invariant forall j :: 0 <= j < i ==> !InBlock(st.blocks[j], p)
        decreases |st.blocks| - i
      {
        assert HeaderOk(heap.bytes, st.blocks[i], NextOf(st.blocks, i));
        if curr != current {
          var currSize := heap.Load(curr + 8);
          if curr + HEADER <= p < curr + HEADER + currSize {
            assert InBlock(st.blocks[i], p);
            return Yes;
          }
        } else {
          SameBlock(st.blocks, i, st.cur);
        }
        curr := heap.Load(curr);
        i := i + 1;
      }
      return No;
    }

    /** arena_realloc_fn */
    method Resize(p: nat, oldN: nat, n: nat) returns (q: nat)
      requires Valid() && p in st.live && st.live[p] == oldN && n > 0 && HEADER + blockSize + n < WORD
      modifies this, child, child.journal, heap
      ensures Valid() && Inv(old(st)) &&
              ReallocNext(child.id, old(st), p, n, old(child.journal.calls), st, q, child.journal.calls) &&
              Others() == old(Others())
      ensures q != NULL ==> Copied(old(heap.bytes), heap.bytes, p, q, Min(oldN, n))
      ensures MapsSame(old(heap.bytes), heap.bytes, if q == NULL then old(Kept()) else old(Kept()) - {p})
    {
      hide Load64, Put64, LiveOk, BlocksOk, MapsOk, Owned, Keep, Headers, HeaderOk, ChildMay, MapsSame,
        ArenaModel.Alloc,
        AllocNext, Copied;
      ghost var s, m, keep := st, heap.bytes, Kept();
      var offset := Offset();
      NullAllowed(st, NewBlockSize(st, n));
      ReallocKeepsInv(s, p, n, NULL);
      LiveInMemory(p);
      if p + oldN == current + HEADER + offset && p >= current + HEADER {
        var before := p - (current + HEADER);
        var size := Size();
        if before + n <= size {
          SetOffset(current, before + n, s, s.cur, child.live);
          MovedOwned(child.live, s.blocks, s.cur, before + n);
          st := Bumped(s, p, n);
          SameCopied(m, heap.bytes, keep, p, oldN, n);
          return p;
        }
      }
      if n <= oldN {
        st := st.(live := st.live[p := n]);
        MapsSameRefl(m, keep);
        SameCopied(m, m, keep, p, oldN, n);
        return p;
      }
      q := Move(p, oldN, n);
      MapsSameAmong(m, heap.bytes, keep, keep - {p});
    }

    /** The caller stores data in a live allocation. */
    method WriteUser(q: nat, at: nat, data: seq<Byte>)
      requires Valid() && q in st.live && q <= at && at + |data| <= q + st.live[q] && at + |data| <= |heap.bytes|
      modifies heap
      ensures Valid() && heap.bytes == old(heap.bytes)[..at] + data + old(heap.bytes)[at + |data|..]
      ensures MapsSame(old(heap.bytes), heap.bytes, Kept() - {q})
    {
      hide LiveOk, BlocksOk, Owned, Keep, Headers, MapsSame;
      heap.Write(at, data);
      PayloadKeeps(st, child.live, old(heap.bytes), heap.bytes, q);
    }

    /** arena_destroy_fn: every block goes back to the child with the size it was obtained with, once,
        and nothing of the arena stays with the child. */
    method Destroy()
      requires Valid()
      modifies child, child.journal, heap
      ensures child.Valid() && child.live == old(Others())
      ensures MapsSame(old(heap.bytes), heap.bytes, old(Others()))
    {
      hide Load64, LiveOk, MapsOk, MapsSame, BlocksOk, Owned, Headers;
      ghost var blocks, live, m := st.blocks, child.live, heap.bytes;
      ghost var i := 0;
      var curr := first;
      MapsSameRefl(m, child.live);
      NoneAtNull(blocks);
      assert Addrs([]) == {};
      while curr != NULL
        invariant 0 <= i <= |blocks| && curr == (if i < |blocks| then blocks[i].addr else NULL)
        invariant child.Valid() && child.live == live - Addrs(blocks[..i])
        invariant Headers(heap.bytes, blocks[i..]) && Owned(child.live, blocks[i..])
        invariant MapsSame(m, heap.bytes, child.live)
        decreases |blocks| - i
      {
        ghost var m1 := heap.bytes;
        HeadOwned(m1, child.live, blocks, i);
        var next := heap.Load(curr);
        var size := heap.Load(curr + 8);
        child.Free(curr, HEADER + size, {});
        TailOwned(m1, heap.bytes, child.live, live, blocks, i);
        MapsSameAmong(m, m1, live - Addrs(blocks[..i]), child.live);
        MapsSameTrans(m, m1, heap.bytes, child.live);
        curr := next;
        i := i + 1;
      }
      assert blocks[..i] == blocks;
    }

    /** allo_realloc on an arena: its guards, then arena_realloc_fn. */
    method Realloc(p: nat, oldN: nat, n: nat) returns (q: nat)
      requires Valid() && (p == NULL || (p in st.live && st.live[p] == oldN)) && HEADER + blockSize + n < WORD
      modifies this, child, child.journal, heap
      ensures Valid() && Inv(old(st)) && Others() == old(Others())
      ensures p == NULL && n > 0 ==>
                AllocNext(child.id, old(st), n, old(child.journal.calls), st, q, child.journal.calls)
      ensures n == 0 ==> q == NULL && heap.bytes == old(heap.bytes) &&
                         st == if p == NULL then old(st) else ArenaModel.Free(old(st), p)
      ensures p != NULL && n > 0 ==>
                ReallocNext(child.id, old(st), p, n, old(child.journal.calls), st, q, child.journal.calls)
      ensures p != NULL && q != NULL ==> Copied(old(heap.bytes), heap.bytes, p, q, Min(oldN, n))
      ensures MapsSame(old(heap.bytes), heap.bytes, if q == NULL || p == NULL then old(Kept()) else old(Kept()) - {p})
      ensures p == NULL ==>
                Served(child.id, blockSize, old(Cur()), n, old(child.journal.calls), Cur(), child.journal.calls, q)
      ensures p != NULL && n > 0 && n != oldN ==>
                ResizeServed(child.id, blockSize, old(Cur()), p, oldN, n, old(child.journal.calls),
                             Cur(), child.journal.calls, q)
      ensures p != NULL && n == oldN > 0 ==>
                q == p && child.journal.calls == old(child.journal.calls) && Cur() == old(Cur())
    {
      hide LiveOk, BlocksOk, MapsOk, Owned, Keep, Headers, ChildMay, MapsSame, ArenaModel.Alloc, AllocNext,
        ReallocNext, Copied, ResizeServed;
      MapsSameRefl(heap.bytes, Kept());
      if n == 0 {
        Free(p, oldN);
        return NULL;
      }
      if p == NULL {
        q := Alloc(n);
        return;
      }
      if oldN == n {
        SameSize(st, p);
        LiveInMemory(p);
        SameCopied(heap.bytes, heap.bytes, Kept(), p, oldN, n);
        return p;
      }
      q := Resize(p, oldN, n);
      ReallocServes(child.id, old(st), p, n, old(child.journal.calls), st, q, child.journal.calls);
    }

    /** A live allocation lies in memory and is among what is kept. */
    lemma LiveInMemory(p: nat)
      requires Valid() && p in st.live
      ensures p > 0 && p + st.live[p] <= |heap.bytes| && p in Kept() && Kept()[p] == st.live[p]
    {
      hide Headers;
      var i :| 0 <= i < |st.blocks| && Holds(st.blocks[i], p, st.live[p]);
      assert st.blocks[i].addr in child.live;
    }

    /** Moving to a fresh allocation: the old one is given up, its contents copied. */
    method Move(p: nat, oldN: nat, n: nat) returns (q: nat)
      requires Valid() && p in st.live && st.live[p] == oldN < n && HEADER + blockSize + n < WORD
      requires !ResizesInPlace(st, p, oldN, n)
      modifies this, child, child.journal, heap
      ensures Valid() && Inv(old(st)) &&
              ReallocNext(child.id, old(st), p, n, old(child.journal.calls), st, q, child.journal.calls) &&
              Others() == old(Others())
      ensures q != NULL ==> Copied(old(heap.bytes), heap.bytes, p, q, oldN)
      ensures MapsSame(old(heap.bytes), heap.bytes, old(Kept()))
    {
      hide Load64, Put64, LiveOk, BlocksOk, MapsOk, Owned, Keep, Headers, HeaderOk, ChildMay, MapsSame,
        ArenaModel.Alloc;
      ghost var s, m, keep, live := st, heap.bytes, Kept(), child.live;
      LiveInMemory(p);
      q := Alloc(n);
      MapsSameLength(m, heap.bytes, keep);
      ghost var c := if NewBlockSize(s, n) > 0 then LastAnswer(child.journal.calls) else NULL;
      NullAllowed(s, 0);
      SameStep(s, n, c, LastAnswer(child.journal.calls));
      AllocKeepsInv(s, n, c);
      ReallocKeepsInv(s, p, n, c);
      if q == NULL {
        return;
      }
      LiveInMemory(q);
      ghost var m1 := heap.bytes;
      heap.Copy(q, p, oldN);
      PayloadKeeps(st, child.live, m1, heap.bytes, q);
      KeepBefore(live, s, child.live, st, q, n);
      MapsSameTrans(m, m1, heap.bytes, keep);
      MovedCopy(m, m1, heap.bytes, keep, p, q, oldN);
      st := st.(live := st.live - {p});
    }
  }

  /** make_arena_allocator */
  method Make(child: Allocator, blockSize: nat) returns (e: Error, arena: Context?)
    requires child.Valid() && HEADER + blockSize < WORD
    modifies child, child.journal, child.heap
    ensures child.Valid() && MapsSame(old(child.heap.bytes), child.heap.bytes, old(child.live))
    ensures e == Inval <==> blockSize == 0
    ensures e == Inval ==> child.journal.calls == old(child.journal.calls)
    ensures e != Inval ==> child.journal.calls ==
                           old(child.journal.calls)
                           + [Asked(child.id, HEADER + blockSize, if arena == null then NULL else arena.first)]
    ensures e != Fine ==> arena == null && child.live == old(child.live)
    ensures e == Fine ==>
              arena != null && fresh(arena) && arena.Valid() && arena.child == child && arena.blockSize == blockSize
    ensures e == Fine ==> arena.st == Initial(arena.first, blockSize) && arena.Others() == old(child.live)
  {
    hide HeaderOk, MapsSame;
    if blockSize == 0 {
      MapsSameRefl(child.heap.bytes, child.live);
      return Inval, null;
    }
    var block := NewBlock(child, blockSize);
    if block == NULL {
      return NoMem, null;
    }
    arena := new Context(child, blockSize, block);
    assert arena.st.blocks[0].addr in Addrs(arena.st.blocks);
    e := Fine;
  }
}
