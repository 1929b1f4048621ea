/** Any allocator behind the common interface. Which addresses it claims and answers, when it refuses,
    and what it writes in memory it has not handed out are unknown: every behaviour that meets the
    interface's promises is possible. */
module Child {
  import opened Order
  import opened Memory
  import opened Os

  const ALIGNMENT: nat := 8

  /** allo_contains_t */
  datatype Contains = Yes | No | Unknown

  /** allo_error_t */
  datatype Error = Fine | NoMem | Inval

  /** A call that an allocator received, with its answer. */
  datatype Call =
    | Asked(who: nat, n: nat, answer: nat)
    | Resized(who: nat, p: nat, n: nat, answer: nat)
    | Freed(who: nat, p: nat, n: nat)

  /** The calls that allocators received, in their order. */
  class Journal {
    ghost var calls: seq<Call>

    constructor ()
      ensures calls == []
    {
      calls := [];
    }
  }

  /** Every byte of these blocks is in the region. */
  predicate Within(live: map<nat, nat>, region: set<nat>)
  {
    forall a :: a in live ==> live[a] > 0 && forall x :: a <= x < a + live[a] ==> x in region
  }

  /** Memory outside the region is unchanged, and so are the blocks kept. */
  predicate Untouched(m: seq<Byte>, m': seq<Byte>, region: set<nat>, kept: map<nat, nat>)
  {
    && MapsSame(m, m', kept)
    && forall i :: 0 <= i < |m| && i !in region ==> m'[i] == m[i]
  }

  lemma UntouchedSame(m: seq<Byte>, m': seq<Byte>, region: set<nat>, kept: map<nat, nat>)
    requires Untouched(m, m', region, kept)
    ensures MapsSame(m, m', kept)
  {
  }

  /** allo_contains of an allocator that holds this region: exact, unless it cannot tell. */
  function ContainsIn(region: set<nat>, tracks: bool, p: nat): Contains
  {
    if !tracks then Unknown else if p in region then Yes else No
  }

  class Allocator {
    const heap: Heap
    const journal: Journal
    const id: nat
    /** Whether it can tell its own pointers. */
    const tracks: bool
    /** The addresses it holds at present, of any shape; its live blocks are among them. */
    var region: set<nat>
    var live: map<nat, nat>

    ghost predicate Valid()
      reads this, heap
    {
      |heap.bytes| <= WORD && MapsOk(live, ALIGNMENT, |heap.bytes|) && Within(live, region)
    }

    /** p is a live block of this size. */
    ghost predicate Holds(p: nat, n: nat)
      reads this
    {
      p in live && live[p] == n
    }

    constructor (heap: Heap, journal: Journal, id: nat, tracks: bool, region: set<nat>)
      requires |heap.bytes| <= WORD
      ensures Valid() && this.heap == heap && this.journal == journal && this.id == id && this.tracks == tracks
      ensures live == map[] && this.region == region
    {
      this.heap := heap;
      this.journal := journal;
      this.id := id;
      this.tracks := tracks;
      this.region := region;
      live := map[];
    }

    /** It gives up or takes over addresses, none of them taken by somebody else, and writes what it
        likes in those it holds, except in live blocks. */
    method Rearrange(taken: set<nat>)
      requires Valid() && region !! taken
      modifies this`region, heap
      ensures Valid() && region !! taken
      ensures Untouched(old(heap.bytes), heap.bytes, old(region) + region, live)
    {
      var was := region;
      var r: set<nat> := *;
      if Within(live, r) && r !! taken {
        region := r;
      }
      var m: seq<Byte> := *;
      if |m| == |heap.bytes| && Untouched(heap.bytes, m, was + region, live) {
        heap.bytes := m;
      }
    }

    /** allo_alloc: a fresh aligned block, or NULL. What others have taken stays theirs; taken is no
        argument of the C function, but what the rest of the system holds. */
    method Alloc(n: nat, taken: set<nat>) returns (p: nat)
      requires Valid() && region !! taken
      modifies this, heap, journal
      ensures Valid() && region !! taken && |heap.bytes| == |old(heap.bytes)|
      ensures journal.calls == old(journal.calls) + [Asked(id, n, p)]
      ensures Untouched(old(heap.bytes), heap.bytes, old(region) + region, old(live))
      ensures p == NULL ==> live == old(live)
      ensures p != NULL ==> n > 0 && ClearOf(old(live), p, n) && p !in old(live) && live == old(live)[p := n]
    {
      hide MapsOk;
      Rearrange(taken);
      p := *;
      if n > 0 && p > 0 && p % ALIGNMENT == 0 && p + n <= |heap.bytes| && ClearOf(live, p, n) &&
         forall x :: p <= x < p + n ==> x in region {
        AddMapping(live, ALIGNMENT, |heap.bytes|, p, n);
        live := live[p := n];
      } else {
        p := NULL;
      }
      journal.calls := journal.calls + [Asked(id, n, p)];
    }

    /** allo_free: the block and its size must be what was allocated; what the call does otherwise is
        undefined, and nothing is promised about it. */
    method Free(p: nat, n: nat, taken: set<nat>)
      requires Valid() && region !! taken
      modifies this, heap, journal
      ensures Valid() && region !! taken && |heap.bytes| == |old(heap.bytes)|
      ensures journal.calls == old(journal.calls) + [Freed(id, p, n)]
      ensures p == NULL || old(Holds(p, n)) ==>
                live == (if p == NULL then old(live) else old(live) - {p}) &&
                Untouched(old(heap.bytes), heap.bytes, old(region) + region, live)
    {
      hide MapsOk;
      journal.calls := journal.calls + [Freed(id, p, n)];
      if p != NULL && (p !in live || live[p] != n) {
        Misused(taken);
        return;
      }
      if p != NULL {
        RemoveMapping(live, ALIGNMENT, |heap.bytes|, p);
        live := live - {p};
      }
      Rearrange(taken);
    }

    /** allo_realloc to a size that is not zero: moved or not, a live block keeps its first bytes; or
        NULL, and the block is as it was. Undefined for anything but a live block with its size. */
    method Realloc(p: nat, n: nat, newN: nat, taken: set<nat>) returns (q: nat)
      requires Valid() && region !! taken && newN > 0
      modifies this, heap, journal
      ensures Valid() && region !! taken && |heap.bytes| == |old(heap.bytes)|
      ensures journal.calls == old(journal.calls) + [Resized(id, p, newN, q)]
      ensures old(Holds(p, n)) ==> Untouched(old(heap.bytes), heap.bytes, old(region) + region, old(live) - {p})
      ensures old(Holds(p, n)) && q == NULL ==>
                live == old(live) && Untouched(old(heap.bytes), heap.bytes, old(region) + region, old(live))
      ensures old(Holds(p, n)) && q != NULL ==>
                ClearOf(old(live) - {p}, q, newN) && q !in old(live) - {p} && live == (old(live) - {p})[q := newN] &&
                Copied(old(heap.bytes), heap.bytes, p, q, Min(n, newN))
    {
      if p !in live || live[p] != n {
        Misused(taken);
        q := *;
      } else {
        q := Resize(p, n, newN, taken);
      }
      journal.calls := journal.calls + [Resized(id, p, newN, q)];
    }

    method Resize(p: nat, n: nat, newN: nat, taken: set<nat>) returns (q: nat)
      requires Valid() && region !! taken && newN > 0 && Holds(p, n)
      modifies this, heap
      ensures Valid() && region !! taken
      ensures Untouched(old(heap.bytes), heap.bytes, old(region) + region, old(live) - {p})
      ensures q == NULL ==> live == old(live) && Untouched(old(heap.bytes), heap.bytes, old(region) + region, old(live))
      ensures q != NULL ==>
                ClearOf(old(live) - {p}, q, newN) && q !in old(live) - {p} && live == (old(live) - {p})[q := newN] &&
                Copied(old(heap.bytes), heap.bytes, p, q, Min(n, newN))
    {
      hide MapsOk;
      ghost var m, rest := heap.bytes, live - {p};
      MappingInside(live, ALIGNMENT, |heap.bytes|, p);
      var contents := heap.bytes[p..p + n];
      Rearrange(taken);
      q := *;
      RemoveMapping(live, ALIGNMENT, |heap.bytes|, p);
      if q > 0 && q % ALIGNMENT == 0 && q + newN <= |heap.bytes| && ClearOf(live - {p}, q, newN) &&
         forall x :: q <= x < q + newN ==> x in region {
        ghost var m1 := heap.bytes;
        heap.Write(q, contents[..Min(n, newN)]);
        ClearIsSame(m1, heap.bytes, rest, q, newN);
        AddMapping(rest, ALIGNMENT, |heap.bytes|, q, newN);
        live := (live - {p})[q := newN];
      } else {
        q := NULL;
      }
    }

    /** Anything may happen to the memory and to this allocator. */
    method Misused(taken: set<nat>)
      requires Valid() && region !! taken
      modifies this, heap
      ensures Valid() && region !! taken && |heap.bytes| == |old(heap.bytes)|
    {
      var m: seq<Byte> := *;
      if |m| == |heap.bytes| {
        heap.bytes := m;
      }
      var all: map<nat, nat> := *;
      var r: set<nat> := *;
      if MapsOk(all, ALIGNMENT, |heap.bytes|) && Within(all, r) && r !! taken {
        live, region := all, r;
      }
    }

    /** allo_contains */
    function Contains(p: nat): Contains
      reads this
    {
      ContainsIn(region, tracks, p)
    }
  }
}
