/** The fallback allocator: requests go to a primary allocator first and spill over to a second one.
    It keeps no record of who owns what; it asks the primary. */
module Fallback {
  import opened Memory
  import opened Os
  import opened Child

  /** The allocator that free and realloc turn to on this answer of the primary owns p. */
  ghost predicate ReachesOwner(answer: Contains, p: nat, primaryLive: map<nat, nat>, fallbackLive: map<nat, nat>)
  {
    if answer == Yes || answer == Unknown then p in primaryLive else p in fallbackLive
  }

  /** Whatever the shape of the two regions: a live pointer reaches its owner exactly when the primary
      owns it or can tell its own pointers. */
  lemma ReachesOwnerIff(region: set<nat>, tracks: bool, primaryLive: map<nat, nat>,
                        fallbackRegion: set<nat>, fallbackLive: map<nat, nat>, p: nat)
    requires Within(primaryLive, region) && Within(fallbackLive, fallbackRegion) && region !! fallbackRegion
    requires p in primaryLive || p in fallbackLive
    ensures ReachesOwner(ContainsIn(region, tracks, p), p, primaryLive, fallbackLive) <==> (p in primaryLive || tracks)
    ensures !(p in primaryLive && p in fallbackLive)
  {
    assert p in primaryLive ==> p in region;
    assert p in fallbackLive ==> p in fallbackRegion;
  }

  /** A primary that answers Unknown is handed the fallback's blocks: the block at 72 is the fallback's,
      and free would turn to the primary. */
  lemma UnknownPrimaryCaptures()
    ensures var primaryLive, fallbackLive := map[8 := 2], map[72 := 1];
            && Within(primaryLive, {8, 9}) && Within(fallbackLive, {72})
            && ContainsIn({8, 9}, false, 72) == Unknown
            && !ReachesOwner(ContainsIn({8, 9}, false, 72), 72, primaryLive, fallbackLive)
  {
    ReachesOwnerIff({8, 9}, false, map[8 := 2], {72}, map[72 := 1], 72);
  }

  /** An allocation: the primary is asked first, the fallback just when the primary has refused, and the
      one that does not refuse owns the block from then on. */
  ghost predicate AllocNext(n: nat, pid: nat, fid: nat, pl: map<nat, nat>, fl: map<nat, nat>, calls: seq<Call>,
                            pl': map<nat, nat>, fl': map<nat, nat>, calls': seq<Call>, p: nat)
  {
    || (p != NULL && calls' == calls + [Asked(pid, n, p)] && p !in pl && pl' == pl[p := n] && fl' == fl)
    || (pl' == pl && calls' == calls + [Asked(pid, n, NULL)] + [Asked(fid, n, p)] &&
        if p == NULL then fl' == fl else p !in fl && fl' == fl[p := n])
  }

  /** Who owns what after a realloc from p to q: refused, resized by the owner, or moved from the primary
      to the fallback. Either way one owner gives p up and one owner holds q. */
  ghost predicate ReallocNext(pl: map<nat, nat>, fl: map<nat, nat>, p: nat, n: nat, pl': map<nat, nat>, fl': map<nat,
                              nat>, q: nat)
  {
    if q == NULL then pl' == pl && fl' == fl
    else if p in pl then
      || (pl' == (pl - {p})[q := n] && fl' == fl && q !in pl - {p})
      || (pl' == pl - {p} && fl' == fl[q := n] && q !in fl)
    else pl' == pl && fl' == (fl - {p})[q := n] && q !in fl - {p}
  }

  /** The calls that a realloc makes once it has turned to the primary, in their order: the fallback is
      asked just when the primary has refused, and the primary frees just when the fallback has answered. */
  ghost predicate SpillCalls(pid: nat, fid: nat, calls: seq<Call>, p: nat, oldN: nat, n: nat, calls': seq<Call>, q: nat)
  {
    || (q != NULL && calls' == calls + [Resized(pid, p, n, q)])
    || (q != NULL && calls' == calls + [Resized(pid, p, n, NULL)] + [Asked(fid, n, q)] + [Freed(pid, p, oldN)])
    || (q == NULL && calls' == calls + [Resized(pid, p, n, NULL)] + [Asked(fid, n, NULL)])
  }

  /* ---------------------------------------------------------------- framing */

  /** What one allocator writes leaves the other's blocks alone. */
  lemma RegionsApart(m: seq<Byte>, m': seq<Byte>, region: set<nat>, kept: map<nat, nat>, live: map<nat, nat>,
                     other: set<nat>)
    requires Untouched(m, m', region, kept) && Within(live, other) && region !! other
    ensures MapsSame(m, m', live)
  {
    forall a, i | a in live && a <= i < a + live[a] && 0 <= i < |m|
      ensures m'[i] == m[i]
    {
      assert i in other;
    }
  }

  lemma OtherKept(m: seq<Byte>, m': seq<Byte>, was: set<nat>, kept: map<nat, nat>, one: Allocator, other: Allocator)
    requires Untouched(m, m', was + one.region, kept) && other.Valid() && was !! other.region &&
             one.region !! other.region
    ensures MapsSame(m, m', kept) && MapsSame(m, m', other.live)
  {
    hide MapsOk;
    RegionsApart(m, m', was + one.region, kept, other.live, other.region);
  }

  /** One allocator's blocks are clear of the other's. */
  lemma OtherClear(one: Allocator, other: Allocator, p: nat)
    requires one.Valid() && other.Valid() && one.region !! other.region && p in one.live
    ensures ClearOf(other.live, p, one.live[p])
  {
    hide MapsOk;
    forall b | b in other.live
      ensures Disjoint(p, one.live[p], b, other.live[b])
    {
      var x := if p < b then b else p;
      assert p in one.live && b in other.live;
      if p <= x < p + one.live[p] {
        assert x in one.region;
      }
      if b <= x < b + other.live[b] {
        assert x in other.region;
      }
    }
  }

  /** A block cannot overlap a range that is clear of it. */
  lemma ClearAt(live: map<nat, nat>, q: nat, n: nat, p: nat)
    requires ClearOf(live, q, n) && p in live
    ensures Disjoint(q, n, p, live[p])
  {
  }

  /** Copying into a fresh block of the fallback changes no other block. */
  lemma CopyKeeps(m: seq<Byte>, m': seq<Byte>, pl: map<nat, nat>, fl: map<nat, nat>, q: nat, n: nat, k: nat)
    requires |m'| == |m| && k <= n && Same(m, m', 0, q) && Same(m, m', q + k, |m|)
    requires ClearOf(pl, q, n) && ClearOf(fl, q, n)
    ensures MapsSame(m, m', pl) && MapsSame(m, m', fl)
  {
    ClearIsSame(m, m', pl, q, n);
    ClearIsSame(m, m', fl, q, n);
  }

  /** Bytes kept before they were copied are the original ones. */
  lemma CopiedLater(m: seq<Byte>, m1: seq<Byte>, m2: seq<Byte>, live: map<nat, nat>, p: nat, q: nat, k: nat)
    requires MapsSame(m, m1, live) && p in live && k <= live[p] && Copied(m1, m2, p, q, k)
    ensures Copied(m, m2, p, q, k)
  {
    MappingSame(m, m1, live, p);
    assert m1[p..p + k] == m[p..p + k];
  }

  /** The contents reach q and stay there while p is freed. */
  lemma CopiedThrough(m: seq<Byte>, m1: seq<Byte>, m2: seq<Byte>, m3: seq<Byte>, pl: map<nat, nat>, fl: map<nat, nat>,
                      p: nat, q: nat, k: nat)
    requires MapsSame(m, m1, pl) && p in pl && k <= pl[p] && p + k <= |m1| && q + k <= |m2|
    requires m2[q..q + k] == m1[p..p + k] && |m2| == |m1| && MapsSame(m2, m3, fl) && q in fl && k <= fl[q]
    ensures Copied(m, m3, p, q, k)
  {
    MappingSame(m, m1, pl, p);
    MappingSame(m2, m3, fl, q);
    assert m1[p..p + k] == m[p..p + k] && m3[q..q + k] == m2[q..q + k];
  }

  /** Three changes that each keep a part of the blocks. */
  lemma ThreeSteps(m: seq<Byte>, m1: seq<Byte>, m2: seq<Byte>, m3: seq<Byte>, live: map<nat, nat>, rest: map<nat, nat>)
    requires MapsSame(m, m1, live) && MapsSame(m1, m2, live) && MapsSame(m2, m3, rest) && Among(rest, live)
    ensures MapsSame(m, m3, rest)
  {
    MapsSameAmong(m, m1, live, rest);
    MapsSameAmong(m1, m2, live, rest);
    MapsSameTrans(m, m1, m2, rest);
    MapsSameTrans(m, m2, m3, rest);
  }

  class Context {
    const heap: Heap
    const journal: Journal
    const primary: Allocator
    const fallback: Allocator

    ghost predicate Valid()
      reads primary, fallback, heap
    {
      Joined() && primary.Valid() && fallback.Valid() && primary.region !! fallback.region
    }

    ghost predicate Joined()
    {
      && primary != fallback && primary.id != fallback.id && primary.heap == heap && fallback.heap == heap
      && primary.journal == journal && fallback.journal == journal
    }

    /** p is a live block of this size, of the one or the other. */
    ghost predicate Live(p: nat, n: nat)
      reads primary, fallback
    {
      primary.Holds(p, n) || fallback.Holds(p, n)
    }

    /** free and realloc will find the owner of p. */
    ghost predicate Routed(p: nat)
      reads primary
    {
      p in primary.live || primary.tracks
    }

    /** make_fallback_allocator */
    constructor (primary: Allocator, fallback: Allocator)
      requires primary != fallback && primary.id != fallback.id && primary.heap == fallback.heap
      requires primary.journal == fallback.journal && primary.Valid() && fallback.Valid() &&
               primary.region !! fallback.region
      ensures Valid() && this.primary == primary && this.fallback == fallback && heap == primary.heap
    {
      this.heap := primary.heap;
      this.journal := primary.journal;
      this.primary := primary;
      this.fallback := fallback;
    }

    /** fallback_contains_fn */
    function Contains(p: nat): Contains
      reads primary, fallback
    {
      if primary.Contains(p) == Yes then Yes
      else if fallback.Contains(p) == Yes then Yes
      else if primary.Contains(p) == Unknown || fallback.Contains(p) == Unknown then Unknown
      else No
    }

    /** No live pointer is disowned, and only an address that one of the two holds is claimed. */
    lemma ContainsIsSound(p: nat)
      requires Valid()
      ensures p in primary.live || p in fallback.live ==> Contains(p) != No
      ensures p in primary.live && primary.tracks ==> Contains(p) == Yes
      ensures p in fallback.live && fallback.tracks ==> Contains(p) == Yes
      ensures Contains(p) == Yes ==> p in primary.region || p in fallback.region
      ensures Contains(p) == Unknown ==> !primary.tracks || !fallback.tracks
    {
      assert p in primary.live ==> p in primary.region;
      assert p in fallback.live ==> p in fallback.region;
    }

    /** The primary's answer leads to the owner exactly if p is routed. */
    lemma AnswerLeads(p: nat, n: nat)
      requires Valid() && Live(p, n)
      ensures Routed(p) <==> (primary.Contains(p) != No <==> p in primary.live)
      ensures p in primary.live <==> p !in fallback.live
    {
      ReachesOwnerIff(primary.region, primary.tracks, primary.live, fallback.region, fallback.live, p);
    }

    /** fallback_alloc_fn: the fallback is asked just when the primary has refused. */
    method Alloc(n: nat) returns (p: nat)
      requires Valid()
      modifies primary, fallback, journal, heap
      ensures Valid() && MapsSame(old(heap.bytes), heap.bytes, old(primary.live)) &&
              MapsSame(old(heap.bytes), heap.bytes, old(fallback.live))
      ensures AllocNext(n, primary.id, fallback.id, old(primary.live), old(fallback.live), old(journal.calls),
                        primary.live, fallback.live, journal.calls, p)
      ensures p != NULL ==> n > 0 && ClearOf(old(primary.live), p, n) && ClearOf(old(fallback.live), p, n)
    {
      hide MapsOk, MapsSame, ClearOf, Within, Untouched;
      ghost var m, pl, fl, was := heap.bytes, primary.live, fallback.live, primary.region;
      p := primary.Alloc(n, fallback.region);
      OtherKept(m, heap.bytes, was, pl, primary, fallback);
      if p != NULL {
        OtherClear(primary, fallback, p);
      }
      if p == NULL {
        ghost var m1 := heap.bytes;
        was := fallback.region;
        p := fallback.Alloc(n, primary.region);
        OtherKept(m1, heap.bytes, was, fl, fallback, primary);
        if p != NULL {
          OtherClear(fallback, primary, p);
        }
        MapsSameTrans(m, m1, heap.bytes, pl);
        MapsSameTrans(m, m1, heap.bytes, fl);
      }
    }

    /** fallback_free_fn: for any live block, what is called is decided by the primary's answer; if the
        block is routed, that is the owner, and only the owner gives it up. */
    method Free(p: nat, n: nat)
      requires Valid() && (p == NULL || Live(p, n))
      modifies primary, fallback, journal, heap
      ensures Valid()
      ensures p == NULL ==> journal.calls == old(journal.calls) && heap.bytes == old(heap.bytes) &&
                            primary.live == old(primary.live) && fallback.live == old(fallback.live)
      ensures p != NULL ==>
                journal.calls == old(journal.calls) +
                                 [Freed(if old(primary.Contains(p)) == No then fallback.id else primary.id, p, n)]
      ensures p != NULL && old(Routed(p)) ==>
                && primary.live == old(primary.live) - {p} && fallback.live == old(fallback.live) - {p}
                && MapsSame(old(heap.bytes), heap.bytes, primary.live) &&
                   MapsSame(old(heap.bytes), heap.bytes, fallback.live)
      ensures p != NULL && old(Routed(p)) ==>
                journal.calls ==
                old(journal.calls) + [Freed(if p in old(primary.live) then primary.id else fallback.id, p, n)]
    {
      hide MapsOk, MapsSame, Within, Untouched;
      if p == NULL {
        return;
      }
      ghost var m, was, fwas := heap.bytes, primary.region, fallback.region;
      AnswerLeads(p, n);
      var primaryContains := primary.Contains(p);
      if primaryContains == Yes || primaryContains == Unknown {
        primary.Free(p, n, fallback.region);
        if p !in fallback.live {
          OtherKept(m, heap.bytes, was, primary.live, primary, fallback);
        }
      } else {
        fallback.Free(p, n, primary.region);
        OtherKept(m, heap.bytes, fwas, fallback.live, fallback, primary);
      }
    }

    /** fallback_realloc_fn once it has turned to the primary. Everything but the calls is promised for a
        block of the primary. */
    method ReallocInPrimary(p: nat, oldN: nat, n: nat) returns (q: nat)
      requires Valid() && Live(p, oldN) && n > 0
      modifies primary, fallback, journal, heap
      ensures Valid() && SpillCalls(primary.id, fallback.id, old(journal.calls), p, oldN, n, journal.calls, q)
      ensures p in old(primary.live) ==>
                ReallocNext(old(primary.live), old(fallback.live), p, n, primary.live, fallback.live, q)
      ensures p in old(primary.live) && q != NULL ==> Copied(old(heap.bytes), heap.bytes, p, q, Min(oldN, n))
      ensures p in old(primary.live) ==>
                MapsSame(old(heap.bytes), heap.bytes, if q == NULL then old(primary.live) else old(primary.live) - {p})
      ensures p in old(primary.live) ==> MapsSame(old(heap.bytes), heap.bytes, old(fallback.live))
    {
      hide MapsOk, MapsSame, Same, ClearOf, Within, Copied, Untouched;
      ghost var m, pl, fl, was := heap.bytes, primary.live, fallback.live, primary.region;
      AnswerLeads(p, oldN);
      q := primary.Realloc(p, oldN, n, fallback.region);
      if p in pl {
        OtherKept(m, heap.bytes, was, if q == NULL then pl else pl - {p}, primary, fallback);
      }
      if q != NULL {
        return;
      }
      ghost var m1 := heap.bytes;
      q := SpillOver(p, oldN, n);
      if p in pl {
        MapsSameTrans(m, m1, heap.bytes, fl);
        MapsSameAmong(m, m1, pl, pl - {p});
        MapsSameTrans(m, m1, heap.bytes, if q == NULL then pl else pl - {p});
        if q != NULL {
          CopiedLater(m, m1, heap.bytes, pl, p, q, Min(oldN, n));
        }
      }
    }

    /** The primary has refused: a block of the fallback takes the contents, and the primary's is freed. */
    method SpillOver(p: nat, oldN: nat, n: nat) returns (q: nat)
      requires Valid() && Live(p, oldN) && n > 0
      modifies primary, fallback, journal, heap
      ensures Valid()
      ensures journal.calls == old(journal.calls) + [Asked(fallback.id, n, q)]
                               + (if q == NULL then [] else [Freed(primary.id, p, oldN)])
      ensures q == NULL ==> primary.live == old(primary.live) && fallback.live == old(fallback.live)
      ensures p in old(primary.live) && q != NULL ==>
                primary.live == old(primary.live) - {p} &&
                fallback.live == old(fallback.live)[q := n] && q !in old(fallback.live)
      ensures p in old(primary.live) && q != NULL ==> Copied(old(heap.bytes), heap.bytes, p, q, Min(oldN, n))
      ensures p in old(primary.live) ==>
                MapsSame(old(heap.bytes), heap.bytes, if q == NULL then old(primary.live) else old(primary.live) - {p})
      ensures p in old(primary.live) ==> MapsSame(old(heap.bytes), heap.bytes, old(fallback.live))
    {
      hide MapsOk, MapsSame, Same, ClearOf, Within, Copied, Untouched;
      ghost var m, pl, fl, was := heap.bytes, primary.live, fallback.live, fallback.region;
      AnswerLeads(p, oldN);
      LiveInMemory(p, oldN);
      q := fallback.Alloc(n, primary.region);
      ghost var m1 := heap.bytes;
      OtherKept(m, m1, was, fl, fallback, primary);
      MapsSameLength(m, m1, fl);
      if q == NULL {
        return;
      }
      var k := Min(oldN, n);
      OtherClear(fallback, primary, q);
      ClearAt(if p in pl then pl else fl, q, n, p);
      LiveInMemory(q, n);
      heap.Copy(q, p, k);
      ghost var m2 := heap.bytes;
      CopyKeeps(m1, m2, pl, fl, q, n, k);
      was := primary.region;
      primary.Free(p, oldN, fallback.region);
      if p in pl {
        OtherKept(m2, heap.bytes, was, pl - {p}, primary, fallback);
        CopiedThrough(m, m1, m2, heap.bytes, pl, fallback.live, p, q, k);
        ThreeSteps(m, m1, m2, heap.bytes, pl, pl - {p});
        MapsSameAmong(m2, heap.bytes, fallback.live, fl);
        MapsSameTrans(m, m1, m2, fl);
        MapsSameTrans(m, m2, heap.bytes, fl);
      }
    }

    lemma LiveInMemory(p: nat, n: nat)
      requires Valid() && Live(p, n)
      ensures p > 0 && p + n <= |heap.bytes|
    {
    }

    /** allo_realloc on a fallback allocator: its guards, then fallback_realloc_fn. What is called is
        decided by the primary's answer; if the block is routed, ownership and contents are as they
        should be. */
    method Realloc(p: nat, oldN: nat, n: nat) returns (q: nat)
      requires Valid() && (p == NULL || Live(p, oldN))
      modifies primary, fallback, journal, heap
      ensures Valid()
      ensures p == NULL && n > 0 ==>
                AllocNext(n, primary.id, fallback.id, old(primary.live), old(fallback.live), old(journal.calls),
                          primary.live, fallback.live, journal.calls, q)
      ensures n == 0 ==> q == NULL
      ensures p != NULL && n == oldN > 0 ==>
                q == p && journal.calls == old(journal.calls) && heap.bytes == old(heap.bytes)
      ensures p != NULL && n == 0 ==>
                journal.calls == old(journal.calls) +
                                 [Freed(if old(primary.Contains(p)) == No then fallback.id else primary.id, p, oldN)]
      ensures p != NULL && 0 < n != oldN && old(primary.Contains(p)) != No ==>
                SpillCalls(primary.id, fallback.id, old(journal.calls), p, oldN, n, journal.calls, q)
      ensures p != NULL && 0 < n != oldN && old(primary.Contains(p)) == No ==>
                journal.calls == old(journal.calls) + [Resized(fallback.id, p, n, q)]
      ensures p != NULL && n == 0 && old(Routed(p)) ==>
                primary.live == old(primary.live) - {p} && fallback.live == old(fallback.live) - {p}
      ensures p != NULL && n > 0 && old(Routed(p)) ==>
                ReallocNext(old(primary.live), old(fallback.live), p, n, primary.live, fallback.live, q)
      ensures p != NULL && q != NULL && old(Routed(p)) ==> Copied(old(heap.bytes), heap.bytes, p, q, Min(oldN, n))
      ensures p == NULL || old(Routed(p)) ==>
                MapsSame(old(heap.bytes), heap.bytes,
                         if q == NULL && n > 0 then old(primary.live) else old(primary.live) - {p})
      ensures p == NULL || old(Routed(p)) ==>
                MapsSame(old(heap.bytes), heap.bytes,
                         if q == NULL && n > 0 then old(fallback.live) else old(fallback.live) - {p})
    {
      hide MapsOk, MapsSame, Same, ClearOf, Within, Copied, SpillCalls, AllocNext, Untouched;
      ghost var m, pl, fl, fwas := heap.bytes, primary.live, fallback.live, fallback.region;
      NullIsFree();
      if n == 0 {
        MapsSameRefl(m, pl);
        MapsSameRefl(m, fl);
        Free(p, oldN);
        return NULL;
      }
      if p == NULL {
        q := Alloc(n);
        return;
      }
      AnswerLeads(p, oldN);
      if oldN == n {
        StaysPut(p, n);
        return p;
      }
      var primaryContains := primary.Contains(p);
      if primaryContains == Yes || primaryContains == Unknown {
        q := ReallocInPrimary(p, oldN, n);
        if p in pl {
          MapsSameAmong(m, heap.bytes, fl, fl - {p});
        }
      } else {
        q := fallback.Realloc(p, oldN, n, primary.region);
        OtherKept(m, heap.bytes, fwas, if q == NULL then fl else fl - {p}, fallback, primary);
        MapsSameAmong(m, heap.bytes, pl, pl - {p});
      }
    }

    /** Nothing moves when the size is the same. */
    lemma StaysPut(p: nat, n: nat)
      requires Valid() && Live(p, n) && p != NULL && (p in primary.live <==> p !in fallback.live)
      ensures ReallocNext(primary.live, fallback.live, p, n, primary.live, fallback.live, p)
      ensures Copied(heap.bytes, heap.bytes, p, p, Min(n, n))
      ensures MapsSame(heap.bytes, heap.bytes, primary.live - {p}) &&
              MapsSame(heap.bytes, heap.bytes, fallback.live - {p})
    {
      hide MapsOk;
      LiveInMemory(p, n);
      assert p in primary.live ==> (primary.live - {p})[p := n] == primary.live;
      assert p in fallback.live ==> (fallback.live - {p})[p := n] == fallback.live;
    }

    lemma NullIsFree()
      requires Valid()
      ensures NULL !in primary.live && NULL !in fallback.live
      ensures primary.live - {NULL} == primary.live && fallback.live - {NULL} == fallback.live
    {
    }
  }
}
