/** The pool allocator on values: which slots are free, in list order, and which are live. */
module PoolModel {
  import opened Sequences

  /** free lists the free slots, head first; live maps a slot to the size last requested for it. */
  datatype State = State(total: nat, blockSize: nat, free: seq<nat>, live: map<nat, nat>)

  /** The free list and the live slots partition the slots; every request fits its slot. */
  ghost predicate Inv(st: State)
  {
    && Distinct(st.free)
    && (forall k :: k in st.free ==> k < st.total && k !in st.live)
    && (forall k :: k in st.live ==> k < st.total && st.live[k] <= st.blockSize)
    && (forall k: nat :: k < st.total ==> k in st.free || k in st.live)
  }

  ghost function Initial(total: nat, blockSize: nat): State
  {
    State(total, blockSize, seq(total, i => i), map[])
  }

  datatype AllocResult = Failed | Slot(k: nat)

  /** The head of the list is served; a request of zero, one that is too large, or an empty list fails. */
  ghost function Alloc(st: State, size: nat): (r: (State, AllocResult))
  {
    if size == 0 || size > st.blockSize || st.free == [] then (st, Failed)
    else (st.(free := st.free[1..], live := st.live[st.free[0] := size]), Slot(st.free[0]))
  }

  ghost function Free(st: State, k: nat): State
  {
    st.(free := [k] + st.free, live := st.live - {k})
  }

  /** A size that still fits stays in its slot; any other fails and changes nothing. */
  ghost function Realloc(st: State, k: nat, newSize: nat): State
  {
    if newSize <= st.blockSize then st.(live := st.live[k := newSize]) else st
  }

  lemma InitialInv(total: nat, blockSize: nat)
    ensures Inv(Initial(total, blockSize))
  {
    var st := Initial(total, blockSize);
    forall k: nat | k < total
      ensures k in st.free
    {
      assert st.free[k] == k;
    }
  }

  lemma AllocKeepsInv(st: State, size: nat)
    requires Inv(st)
    ensures Inv(Alloc(st, size).0)
    ensures Alloc(st, size).1.Slot? ==> Alloc(st, size).1.k < st.total && Alloc(st, size).1.k !in st.live
  {
    if st.free != [] {
      var free := st.free[1..];
      assert st.free[0] in st.free;
      assert forall i :: 0 <= i < |free| ==> free[i] == st.free[i + 1];
      forall k | k in free
        ensures k in st.free && k != st.free[0]
      {
        var i :| 0 <= i < |free| && free[i] == k;
        assert st.free[i + 1] == k;
      }
      assert st.free == [st.free[0]] + free;
    }
  }

  lemma FreeKeepsInv(st: State, k: nat)
    requires Inv(st) && k in st.live
    ensures Inv(Free(st, k))
  {
    var free := [k] + st.free;
    assert forall i :: 0 < i < |free| ==> free[i] == st.free[i - 1];
    assert forall x :: x in free <==> x == k || x in st.free;
  }

  lemma ReallocKeepsInv(st: State, k: nat, newSize: nat)
    requires Inv(st) && k in st.live
    ensures Inv(Realloc(st, k, newSize))
  {
  }

  /* ------------------------------------------------------------------ runs */

  datatype Op = DoAlloc(size: nat) | DoFree(k: nat) | DoRealloc(k: nat, newSize: nat)

  /** One call; callers only free and reallocate live slots. */
  ghost function Step(st: State, op: Op): State
  {
    match op
    case DoAlloc(size) => Alloc(st, size).0
    case DoFree(k) => if k in st.live then Free(st, k) else st
    case DoRealloc(k, newSize) => if k in st.live then Realloc(st, k, newSize) else st
  }

  ghost function Run(st: State, ops: seq<Op>): State
    decreases |ops|
  {
    if ops == [] then st else Run(Step(st, ops[0]), ops[1..])
  }

  /** Every run keeps the partition, the number of slots and their size. */
  lemma {:induction false} RunKeepsInv(st: State, ops: seq<Op>)
    requires Inv(st)
    ensures Inv(Run(st, ops)) && Run(st, ops).total == st.total && Run(st, ops).blockSize == st.blockSize
    decreases |ops|
  {
    if ops != [] {
      match ops[0] {
        case DoAlloc(size) => AllocKeepsInv(st, size);
        case DoFree(k) => if k in st.live { FreeKeepsInv(st, k); }
        case DoRealloc(k, newSize) => if k in st.live { ReallocKeepsInv(st, k, newSize); }
      }
      RunKeepsInv(Step(st, ops[0]), ops[1..]);
    }
  }

  /** Free and live slots always add up to the whole pool. */
  lemma SlotsConserved(st: State)
    requires Inv(st)
    ensures |st.free| + |st.live| == st.total
  {
    hide Elements, UpTo, Distinct;
    var free, all := Elements(st.free), UpTo(st.total);
    assert free !! st.live.Keys;
    assert free + st.live.Keys == all;
    DisjointCard(free, st.live.Keys);
    assert |st.live| == |st.live.Keys|;
  }

  lemma DisjointCard(s: set<nat>, t: set<nat>)
    requires s !! t
    ensures |s + t| == |s| + |t|
  {
  }

  ghost function Elements(s: seq<nat>): (r: set<nat>)
    requires Distinct(s)
    ensures forall x :: x in r <==> x in s
    ensures |r| == |s|
  {
    if s == [] then {}
    else
      assert s == [s[0]] + s[1..];
      {s[0]} + Elements(s[1..])
  }

  ghost function UpTo(n: nat): (r: set<nat>)
    ensures forall k: nat :: k in r <==> k < n
    ensures |r| == n
  {
    if n == 0 then {} else UpTo(n - 1) + {n - 1}
  }

  /** A request that fits fails exactly when every slot is live. */
  lemma AllocIsComplete(st: State, size: nat)
    requires Inv(st)
    ensures Alloc(st, size).1.Failed? <==> size == 0 || size > st.blockSize || |st.live| == st.total
  {
    SlotsConserved(st);
  }

  /** Freeing the slot just served restores the free list as a sequence. */
  lemma AllocFreeRoundTrip(st: State, size: nat)
    requires Inv(st) && Alloc(st, size).1.Slot?
    ensures Free(Alloc(st, size).0, Alloc(st, size).1.k) == st
  {
    assert [st.free[0]] + st.free[1..] == st.free;
    assert st.live[st.free[0] := size] - {st.free[0]} == st.live;
  }
}
