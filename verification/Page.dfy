/** The page allocator as it runs: a registry of its mappings, kept dense by swap-with-last removal. */
module Page {
  import opened Order
  import opened Memory
  import opened Os

  /** page_entry_t */
  datatype Entry = Entry(addr: nat, size: nat)

  const ENTRY_BYTES: nat := 16

  /** (size + page_size - 1) & ~(page_size - 1) in 64 bits, for a power of two. */
  function RoundUp(size: nat, pageSize: nat): nat
    requires pageSize > 0
  {
    RoundDown((size + pageSize - 1) % WORD, pageSize)
  }

  function RoundDown(t: nat, pageSize: nat): nat
    requires pageSize > 0
  {
    t / pageSize * pageSize
  }

  lemma RoundDownFacts(t: nat, pageSize: nat)
    requires pageSize > 0
    ensures RoundDown(t, pageSize) <= t < RoundDown(t, pageSize) + pageSize
    ensures RoundDown(t, pageSize) % pageSize == 0
    ensures RoundDown(t, pageSize) == 0 <==> t < pageSize
  {
    var q, r := t / pageSize, t % pageSize;
    assert t == pageSize * q + r;
    assert RoundDown(t, pageSize) == pageSize * q by { MulCommutes(pageSize, q); }
    QuotientUnique(pageSize * q, pageSize, q, 0);
    if q > 0 {
      MulGe(pageSize, q);
    }
  }

  /** The sum wraps around for sizes within a page of 2^64, and then they round to 0. */
  lemma RoundUpFits(size: nat, pageSize: nat)
    requires 0 < pageSize <= WORD && size < WORD
    ensures RoundUp(size, pageSize) % pageSize == 0
    ensures RoundUp(size, pageSize) == 0 <==> size == 0 || size + pageSize > WORD
    ensures size + pageSize <= WORD ==> size <= RoundUp(size, pageSize) < size + pageSize
  {
    hide RoundDown;
    var t := (size + pageSize - 1) % WORD;
    assert t == if size + pageSize <= WORD then size + pageSize - 1 else size + pageSize - 1 - WORD;
    RoundDownFacts(t, pageSize);
  }

  lemma MulCommutes(a: nat, b: nat)
    ensures a * b == b * a
  {
  }

  /* ----------------------------------------------------- registry, on values */

  /** The entries are exactly the live allocations with their rounded sizes, each once. */
  ghost predicate Shows(entries: seq<Entry>, live: map<nat, nat>, pageSize: nat)
    requires pageSize > 0
  {
    && (forall i, j :: 0 <= i < j < |entries| ==> entries[i].addr != entries[j].addr)
    && (forall i :: 0 <= i < |entries| ==>
          entries[i].addr in live && entries[i].size == RoundUp(live[entries[i].addr], pageSize))
    && (forall a :: a in live ==> Listed(entries, a))
  }

  ghost predicate Listed(entries: seq<Entry>, a: nat)
  {
    exists i :: 0 <= i < |entries| && entries[i].addr == a
  }

  /** registry_remove: the last entry takes the place of the removed one. */
  ghost function SwapRemove(entries: seq<Entry>, i: nat): (r: seq<Entry>)
    requires i < |entries|
  {
    entries[i := entries[|entries| - 1]][..|entries| - 1]
  }

  lemma ShowsAdd(entries: seq<Entry>, live: map<nat, nat>, pageSize: nat, p: nat, size: nat)
    requires pageSize > 0 && Shows(entries, live, pageSize) && p !in live
    ensures Shows(entries + [Entry(p, RoundUp(size, pageSize))], live[p := size], pageSize)
  {
    var entries' := entries + [Entry(p, RoundUp(size, pageSize))];
    forall a | a in live[p := size]
      ensures Listed(entries', a)
    {
      if a == p {
        assert entries'[|entries|].addr == p;
      } else {
        assert Listed(entries, a);
        var i :| 0 <= i < |entries| && entries[i].addr == a;
        assert entries'[i].addr == a;
      }
    }
  }

  lemma ShowsRemove(entries: seq<Entry>, live: map<nat, nat>, pageSize: nat, i: nat)
    requires pageSize > 0 && Shows(entries, live, pageSize) && i < |entries|
    ensures Shows(SwapRemove(entries, i), live - {entries[i].addr}, pageSize)
  {
    var p, n := entries[i].addr, |entries| - 1;
    var r := SwapRemove(entries, i);
    assert forall j :: 0 <= j < n ==> r[j] == if j == i then entries[n] else entries[j];
    forall a | a in live && a != p
      ensures Listed(r, a)
    {
      assert Listed(entries, a);
      var j :| 0 <= j < |entries| && entries[j].addr == a;
      assert r[if j == n then i else j].addr == a;
    }
  }

  /** The update after mremap: entry i has moved to q and has a new size. */
  lemma ShowsMove(entries: seq<Entry>, live: map<nat, nat>, pageSize: nat, i: nat, q: nat, size: nat)
    requires pageSize > 0 && Shows(entries, live, pageSize) && i < |entries| && q !in live - {entries[i].addr}
    ensures Shows(entries[i := Entry(q, RoundUp(size, pageSize))], (live - {entries[i].addr})[q := size], pageSize)
  {
    var p := entries[i].addr;
    var r := entries[i := Entry(q, RoundUp(size, pageSize))];
    var live' := (live - {p})[q := size];
    forall a | a in live'
      ensures Listed(r, a)
    {
      if a == q {
        assert r[i].addr == q;
      } else {
        assert Listed(entries, a);
        var j :| 0 <= j < |entries| && entries[j].addr == a;
        assert r[j].addr == a;
      }
    }
    forall j, k | 0 <= j < k < |r|
      ensures r[j].addr != r[k].addr
    {
      assert entries[j].addr != entries[k].addr;
    }
  }

  /* ----------------------------------------------------- mappings, on values */

  /** The registry at reg and the live allocations have their mappings. */
  ghost predicate Owns(maps: map<nat, nat>, reg: nat, capacity: nat, live: map<nat, nat>, pageSize: nat)
    requires pageSize > 0
  {
    && reg in maps && maps[reg] == capacity * ENTRY_BYTES && reg !in live
    && forall a :: a in live ==> a in maps && live[a] < WORD && maps[a] == RoundUp(live[a], pageSize)
  }

  ghost function Others(maps: map<nat, nat>, reg: nat, live: map<nat, nat>): map<nat, nat>
  {
    maps - (live.Keys + {reg})
  }

  lemma OwnsMovedRegistry(maps: map<nat, nat>, reg: nat, capacity: nat, live: map<nat, nat>, pageSize: nat,
                          reg': nat, capacity': nat)
    requires pageSize > 0 && Owns(maps, reg, capacity, live, pageSize) && reg' !in maps - {reg}
    ensures var maps' := (maps - {reg})[reg' := capacity' * ENTRY_BYTES];
            Owns(maps', reg', capacity', live, pageSize) && Others(maps', reg', live) == Others(maps, reg, live)
  {
  }

  lemma OwnsAdd(maps: map<nat, nat>, reg: nat, capacity: nat, live: map<nat, nat>, pageSize: nat, p: nat, size: nat)
    requires pageSize > 0 && Owns(maps, reg, capacity, live, pageSize) && p !in maps
    requires size < WORD
    ensures p !in live
    ensures var maps', live' := maps[p := RoundUp(size, pageSize)], live[p := size];
            Owns(maps', reg, capacity, live', pageSize) && Others(maps', reg, live') == Others(maps, reg, live)
  {
  }

  lemma OwnsRemove(maps: map<nat, nat>, reg: nat, capacity: nat, live: map<nat, nat>, pageSize: nat, p: nat)
    requires pageSize > 0 && Owns(maps, reg, capacity, live, pageSize) && p in live
    ensures Owns(maps - {p}, reg, capacity, live - {p}, pageSize)
    ensures Others(maps - {p}, reg, live - {p}) == Others(maps, reg, live)
  {
  }

  /** A new size that rounds to the same number of pages changes neither entries nor mappings. */
  lemma StayPut(entries: seq<Entry>, maps: map<nat, nat>, reg: nat, capacity: nat, live: map<nat, nat>, pageSize: nat,
                p: nat, size: nat)
    requires pageSize > 0 && Shows(entries, live, pageSize) && Owns(maps, reg, capacity, live, pageSize)
    requires p in live && RoundUp(live[p], pageSize) == RoundUp(size, pageSize) && size < WORD
    ensures var live' := (live - {p})[p := size];
            Shows(entries, live', pageSize) && Owns(maps, reg, capacity, live', pageSize) &&
            Others(maps, reg, live') == Others(maps, reg, live)
  {
    hide RoundUp;
    var live' := (live - {p})[p := size];
    assert live'.Keys == live.Keys;
  }

  lemma OwnsMove(maps: map<nat, nat>, reg: nat, capacity: nat, live: map<nat, nat>, pageSize: nat,
                 p: nat, q: nat, size: nat)
    requires pageSize > 0 && Owns(maps, reg, capacity, live, pageSize) && p in live && q !in maps - {p}
    requires size < WORD
    ensures q !in live - {p}
    ensures var maps', live' := (maps - {p})[q := RoundUp(size, pageSize)], (live - {p})[q := size];
            Owns(maps', reg, capacity, live', pageSize) && Others(maps', reg, live') == Others(maps, reg, live)
  {
    OwnsRemove(maps, reg, capacity, live, pageSize, p);
    OwnsAdd(maps - {p}, reg, capacity, live - {p}, pageSize, q, size);
  }

  /* --------------------------------------------------------------- allocator */

  /* ----------------------------------------------------- registry, in memory */

  function Slot(reg: nat, i: nat): nat
  {
    reg + ENTRY_BYTES * i
  }

  /** The two words of page_entry_t. */
  ghost predicate EntryAt(m: seq<Byte>, a: nat, e: Entry)
  {
    a + ENTRY_BYTES <= |m| && Load64(m, a) == e.addr && Load64(m, a + 8) == e.size
  }

  ghost predicate Stored(m: seq<Byte>, reg: nat, entries: seq<Entry>)
  {
    forall i :: 0 <= i < |entries| ==> EntryAt(m, Slot(reg, i), entries[i])
  }

  lemma EntryFrame(m: seq<Byte>, m': seq<Byte>, a: nat, e: Entry)
    requires EntryAt(m, a, e) && |m'| == |m| && Same(m, m', a, a + ENTRY_BYTES)
    ensures EntryAt(m', a, e)
  {
    LoadFrame(m, m', a, 8);
    LoadFrame(m, m', a + 8, 8);
  }

  lemma StoredFrame(m: seq<Byte>, m': seq<Byte>, reg: nat, entries: seq<Entry>)
    requires Stored(m, reg, entries) && |m'| == |m| && Same(m, m', reg, Slot(reg, |entries|))
    ensures Stored(m', reg, entries)
  {
    hide EntryAt;
    forall i | 0 <= i < |entries|
      ensures EntryAt(m', Slot(reg, i), entries[i])
    {
      assert EntryAt(m, Slot(reg, i), entries[i]);
      EntryFrame(m, m', Slot(reg, i), entries[i]);
    }
  }

  /** A registry whose bytes have been copied to another place is the same registry. */
  lemma StoredMoved(m: seq<Byte>, m': seq<Byte>, reg: nat, reg': nat, n: nat, entries: seq<Entry>)
    requires Stored(m, reg, entries) && Copied(m, m', reg, reg', n) && ENTRY_BYTES * |entries| <= n
    ensures Stored(m', reg', entries)
  {
    hide Load64;
    forall i | 0 <= i < |entries|
      ensures EntryAt(m', Slot(reg', i), entries[i])
    {
      assert EntryAt(m, Slot(reg, i), entries[i]);
      WordCopied(m, m', reg, reg', n, ENTRY_BYTES * i);
      WordCopied(m, m', reg, reg', n, ENTRY_BYTES * i + 8);
    }
  }

  lemma SliceWithin(m: seq<Byte>, a: nat, n: nat, k: nat, l: nat)
    requires a + n <= |m| && k + l <= n
    ensures m[a..a + n][k..k + l] == m[a + k..a + k + l]
  {
    var x, y := m[a..a + n][k..k + l], m[a + k..a + k + l];
    assert forall i :: 0 <= i < l ==> x[i] == y[i];
  }

  lemma WordCopied(m: seq<Byte>, m': seq<Byte>, p: nat, q: nat, n: nat, k: nat)
    requires Copied(m, m', p, q, n) && k + 8 <= n
    ensures Load64(m', q + k) == Load64(m, p + k)
  {
    SliceWithin(m, p, n, k, 8);
    SliceWithin(m', q, n, k, 8);
    LoadCopied(m, m', p + k, q + k, 8);
  }

  /** The two stores of an entry. */
  function PutEntry(m: seq<Byte>, a: nat, e: Entry): (m': seq<Byte>)
    requires a + ENTRY_BYTES <= |m| && e.addr < WORD && e.size < WORD
    ensures |m'| == |m|
  {
    Put64(Put64(m, a, e.addr), a + 8, e.size)
  }

  lemma PutEntryFacts(m: seq<Byte>, a: nat, e: Entry)
    requires a + ENTRY_BYTES <= |m| && e.addr < WORD && e.size < WORD
    ensures var m' := PutEntry(m, a, e);
            EntryAt(m', a, e) && Same(m, m', 0, a) && Same(m, m', a + ENTRY_BYTES, |m|)
  {
    hide Load64, Put64;
    Put64Facts(m, a, e.addr);
    Put64Facts(Put64(m, a, e.addr), a + 8, e.size);
  }

  ghost function WithEntry(entries: seq<Entry>, i: nat, e: Entry): (r: seq<Entry>)
    requires i <= |entries|
  {
    if i < |entries| then entries[i := e] else entries + [e]
  }

  /** Storing an entry over another one, or after the last, changes no other entry. */
  lemma EntryStored(m: seq<Byte>, reg: nat, entries: seq<Entry>, i: nat, e: Entry)
    requires Stored(m, reg, entries) && i <= |entries| && Slot(reg, i) + ENTRY_BYTES <= |m|
    requires e.addr < WORD && e.size < WORD
    ensures Stored(PutEntry(m, Slot(reg, i), e), reg, WithEntry(entries, i, e))
  {
    hide EntryAt, PutEntry;
    var m', r := PutEntry(m, Slot(reg, i), e), WithEntry(entries, i, e);
    PutEntryFacts(m, Slot(reg, i), e);
    forall j | 0 <= j < |r|
      ensures EntryAt(m', Slot(reg, j), r[j])
    {
      if j != i {
        assert EntryAt(m, Slot(reg, j), entries[j]);
        EntryFrame(m, m', Slot(reg, j), entries[j]);
      }
    }
  }

  /* ------------------------------------------------------- small facts */

  /** A page is smaller than the memory that holds a mapping. */
  lemma PageSizeSmall(maps: map<nat, nat>, reg: nat, pageSize: nat, top: nat)
    requires pageSize > 0 && MapsOk(maps, pageSize, top) && reg in maps && top <= WORD
    ensures pageSize < top
  {
    var q := reg / pageSize;
    assert reg == pageSize * q;
    if q > 0 {
      MulGe(pageSize, q);
    }
  }

  /** A live allocation is not empty and fits its mapping. */
  lemma LiveFits(maps: map<nat, nat>, reg: nat, capacity: nat, live: map<nat, nat>, pageSize: nat, top: nat, a: nat)
    requires pageSize > 0 && Owns(maps, reg, capacity, live, pageSize) && MapsOk(maps, pageSize, top) && top <= WORD
    requires a in live
    ensures 0 < live[a] <= maps[a] && a != reg && live[a] < WORD && a != NULL
  {
    PageSizeSmall(maps, reg, pageSize, top);
    RoundUpFits(live[a], pageSize);
  }

  /** The mapping of a live allocation is clear of the registry's and of everybody else's. */
  lemma MappingsApart(maps: map<nat, nat>, reg: nat, live: map<nat, nat>, pageSize: nat, top: nat, a: nat)
    requires pageSize > 0 && MapsOk(maps, pageSize, top) && a in maps && reg in maps && a != reg && a in live
    ensures Disjoint(a, maps[a], reg, maps[reg]) && ClearOf(Others(maps, reg, live), a, maps[a])
  {
  }

  lemma OthersAmong(maps: map<nat, nat>, reg: nat, live: map<nat, nat>)
    ensures Among(Others(maps, reg, live), maps - {reg})
  {
  }

  lemma SameOutside(m: seq<Byte>, m': seq<Byte>, a: nat, n: nat, b: nat, k: nat)
    requires |m'| == |m| && Same(m, m', 0, a) && Same(m, m', a + n, |m|) && Disjoint(a, n, b, k)
    ensures Same(m, m', b, b + k)
  {
  }

  lemma SameLess(m: seq<Byte>, m': seq<Byte>, b: nat, k: nat, hi: nat)
    requires |m'| == |m| && Same(m, m', b, b + k) && hi <= b + k
    ensures Same(m, m', b, hi)
  {
  }

  /** A change inside a range is one inside a larger range. */
  lemma SameInside(m: seq<Byte>, m': seq<Byte>, a: nat, n: nat, b: nat, k: nat)
    requires |m'| == |m| && Same(m, m', 0, a) && Same(m, m', a + n, |m|) && b <= a && a + n <= b + k
    ensures Same(m, m', 0, b) && Same(m, m', b + k, |m|)
  {
  }

  lemma ClearLess(maps: map<nat, nat>, a: nat, n: nat, k: nat)
    requires ClearOf(maps, a, n) && k <= n
    ensures ClearOf(maps, a, k)
  {
  }

  lemma SlotInside(reg: nat, i: nat, capacity: nat)
    requires i < capacity
    ensures reg <= Slot(reg, i) && Slot(reg, i) + ENTRY_BYTES <= reg + capacity * ENTRY_BYTES
  {
  }

  lemma AppendEntry(entries: seq<Entry>, e: Entry)
    ensures WithEntry(entries, |entries|, e) == entries + [e]
  {
  }

  lemma MappingInWord(maps: map<nat, nat>, pageSize: nat, top: nat, p: nat)
    requires pageSize > 0 && MapsOk(maps, pageSize, top) && top <= WORD && p in maps
    ensures p < WORD && maps[p] < WORD
  {
  }

  /** While its mapping is kept, so is the registry. */
  lemma RegistryKept(m: seq<Byte>, m': seq<Byte>, maps: map<nat, nat>, pageSize: nat, reg: nat, capacity: nat,
                     entries: seq<Entry>)
    requires MapsSame(m, m', maps) && reg in maps && maps[reg] == capacity * ENTRY_BYTES && |entries| <= capacity
    requires Stored(m, reg, entries)
    ensures Stored(m', reg, entries)
  {
    hide Stored;
    MappingSame(m, m', maps, reg);
    StoredFrame(m, m', reg, entries);
  }

  lemma EntryInWord(m: seq<Byte>, reg: nat, entries: seq<Entry>, i: nat)
    requires Stored(m, reg, entries) && i < |entries|
    ensures entries[i].addr < WORD && entries[i].size < WORD
  {
    assert EntryAt(m, Slot(reg, i), entries[i]);
    Load64Small(m, Slot(reg, i));
    Load64Small(m, Slot(reg, i) + 8);
  }

  lemma StoredPrefix(m: seq<Byte>, reg: nat, entries: seq<Entry>, n: nat)
    requires Stored(m, reg, entries) && n <= |entries|
    ensures Stored(m, reg, entries[..n])
  {
  }

  /** What mremap put at q is still there after the registry has been updated. */
  lemma MovedStays(m: seq<Byte>, m1: seq<Byte>, m2: seq<Byte>, maps: map<nat, nat>, reg: nat, p: nat, q: nat, n: nat)
    requires Copied(m, m1, p, q, n) && MapsSame(m1, m2, maps - {reg}) && q in maps && q != reg && n <= maps[q]
    ensures Copied(m, m2, p, q, n)
  {
    MappingSame(m1, m2, maps - {reg}, q);
    assert m2[q..q + n] == m1[q..q + n];
  }

  ghost function Addresses(entries: seq<Entry>): set<nat>
  {
    set e | e in entries :: e.addr
  }

  lemma StillMapped(entries: seq<Entry>, live: map<nat, nat>, pageSize: nat, i: nat)
    requires pageSize > 0 && Shows(entries, live, pageSize) && i < |entries|
    ensures entries[i].addr in live && entries[i].size == RoundUp(live[entries[i].addr], pageSize)
    ensures entries[i].addr !in Addresses(entries[..i])
  {
    forall e | e in entries[..i]
      ensures e.addr != entries[i].addr
    {
      var j :| 0 <= j < i && entries[..i][j] == e;
      assert entries[j].addr != entries[i].addr;
    }
  }

  lemma AllAddresses(entries: seq<Entry>, live: map<nat, nat>, pageSize: nat)
    requires pageSize > 0 && Shows(entries, live, pageSize)
    ensures Addresses(entries) == live.Keys
  {
    forall a | a in live
      ensures a in Addresses(entries)
    {
      assert Listed(entries, a);
      var i :| 0 <= i < |entries| && entries[i].addr == a;
      assert entries[i] in entries;
    }
  }

  lemma CopiedSelf(m: seq<Byte>, maps: map<nat, nat>, pageSize: nat, p: nat, n: nat)
    requires pageSize > 0 && MapsOk(maps, pageSize, |m|) && p in maps && n <= maps[p]
    ensures Copied(m, m, p, p, n)
  {
  }

  lemma CopyLess(m: seq<Byte>, m': seq<Byte>, p: nat, q: nat, n: nat, k: nat)
    requires Copied(m, m', p, q, n) && k <= n
    ensures Copied(m, m', p, q, k)
  {
    assert m'[q..q + k] == m'[q..q + n][..k] == m[p..p + n][..k] == m[p..p + k];
  }

  lemma PageHoldsEntries(pageOrder: nat)
    requires pageOrder >= 4
    ensures Pow2(pageOrder) >= ENTRY_BYTES && Pow2(pageOrder) % ENTRY_BYTES == 0
    ensures Pow2(pageOrder) / ENTRY_BYTES * ENTRY_BYTES == Pow2(pageOrder)
  {
    Pow2Values();
    Pow2Add(4, pageOrder - 4);
    QuotientUnique(Pow2(pageOrder), 16, Pow2(pageOrder - 4), 0);
  }

  lemma GrownCapacity(capacity: nat, pageSize: nat)
    requires pageSize >= ENTRY_BYTES && pageSize % ENTRY_BYTES == 0
    ensures var newSize := capacity * ENTRY_BYTES + pageSize;
            newSize / ENTRY_BYTES == capacity + pageSize / ENTRY_BYTES > capacity &&
            newSize / ENTRY_BYTES * ENTRY_BYTES == newSize
  {
  }

  class Context {
    const os: Kernel
    const pageSize: nat
    var registryAddr: nat
    var count: nat
    var capacity: nat

    ghost var live: map<nat, nat>
    ghost var entries: seq<Entry>

    ghost predicate Valid()
      reads this, os, os.heap
    {
      && os.Valid() && pageSize == os.pageSize && pageSize >= ENTRY_BYTES && pageSize % ENTRY_BYTES == 0
      && |entries| == count <= capacity
      && Shows(entries, live, pageSize)
      && Owns(os.maps, registryAddr, capacity, live, pageSize)
      && Stored(os.heap.bytes, registryAddr, entries)
    }

    /** The part of Valid that depends on no byte of the memory, only on its size. */
    ghost predicate Rest(top: nat)
      reads this, os
    {
      && os.pageOrder >= 4 && os.pageSize == Pow2(os.pageOrder) && top <= WORD && MapsOk(os.maps, os.pageSize, top)
      && pageSize == os.pageSize && pageSize >= ENTRY_BYTES && pageSize % ENTRY_BYTES == 0
      && |entries| == count <= capacity
      && Shows(entries, live, pageSize)
      && Owns(os.maps, registryAddr, capacity, live, pageSize)
    }

    /** The registry in the memory m. */
    ghost predicate InMemory(m: seq<Byte>)
      reads this
    {
      Stored(m, registryAddr, entries)
    }

    lemma ValidParts()
      ensures Valid() <==> Rest(|os.heap.bytes|) && InMemory(os.heap.bytes)
    {
      hide Shows, Owns, MapsOk, Stored;
    }

    /** The mappings of everybody else. */
    ghost function Foreign(): map<nat, nat>
      reads this, os
    {
      Others(os.maps, registryAddr, live)
    }

    /** What the owner of a live allocation writes there touches neither the registry nor a mapping of
        somebody else. */
    lemma InsideChange(m: seq<Byte>, m': seq<Byte>, a: nat)
      requires Rest(|m|) && InMemory(m) && a in live && |m'| == |m|
      requires Same(m, m', 0, a) && Same(m, m', a + live[a], |m|)
      ensures InMemory(m') && MapsSame(m, m', Foreign())
    {
      hide Shows, RoundUp, Same, Stored;
      assert os.maps[a] == RoundUp(live[a], pageSize);
      LiveFits(os.maps, registryAddr, capacity, live, pageSize, |m|, a);
      MappingsApart(os.maps, registryAddr, live, pageSize, |m|, a);
      SameOutside(m, m', a, live[a], registryAddr, os.maps[registryAddr]);
      SameLess(m, m', registryAddr, os.maps[registryAddr], Slot(registryAddr, |entries|));
      StoredFrame(m, m', registryAddr, entries);
      ClearLess(Foreign(), a, os.maps[a], live[a]);
      ClearIsSame(m, m', Foreign(), a, live[a]);
    }

    constructor (os: Kernel, registryAddr: nat)
      requires os.Valid() && registryAddr in os.maps && os.maps[registryAddr] == os.pageSize
      ensures Valid() && this.os == os && live == map[] && this.registryAddr == registryAddr
    {
      this.os := os;
      pageSize := os.pageSize;
      this.registryAddr := registryAddr;
      count := 0;
      capacity := os.pageSize / ENTRY_BYTES;
      live := map[];
      entries := [];
      PageHoldsEntries(os.pageOrder);
    }

    /** make_page_allocator: one mapping for the registry, or out of memory. */
    static method Make(os: Kernel) returns (page: Context?)
      requires os.Valid()
      modifies os, os.heap
      ensures os.Valid()
      ensures page == null ==> os.maps == old(os.maps)
      ensures page != null ==> fresh(page) && page.os == os && page.Valid() &&
                               page.live == map[] && page.Foreign() == old(os.maps)
      ensures MapsSame(old(os.heap.bytes), os.heap.bytes, old(os.maps))
      ensures os.refusals == old(os.refusals) + (if page == null then 1 else 0)
    {
      var registryAddr := os.Mmap(os.pageSize);
      if registryAddr == NULL {
        return null;
      }
      page := new Context(os, registryAddr);
      assert page.Foreign() == old(os.maps);
    }

    /** The two loads of an entry. */
    method LoadEntry(i: nat) returns (e: Entry)
      requires InMemory(os.heap.bytes) && i < |entries|
      ensures e == entries[i]
    {
      hide Load64;
      assert EntryAt(os.heap.bytes, Slot(registryAddr, i), entries[i]);
      var addr := os.heap.Load(registryAddr + ENTRY_BYTES * i);
      var size := os.heap.Load(registryAddr + ENTRY_BYTES * i + 8);
      e := Entry(addr, size);
    }

    /** The two stores of an entry: within the registry's mapping. */
    method StoreEntry(i: nat, e: Entry)
      requires InMemory(os.heap.bytes) && i <= |entries| && i < capacity && e.addr < WORD && e.size < WORD
      requires os.Valid() && pageSize == os.pageSize && registryAddr in os.maps &&
               os.maps[registryAddr] == capacity * ENTRY_BYTES
      modifies os.heap, this`entries
      ensures |os.heap.bytes| == |old(os.heap.bytes)| && InMemory(os.heap.bytes)
      ensures entries == WithEntry(old(entries), i, e)
      ensures MapsSame(old(os.heap.bytes), os.heap.bytes, os.maps - {registryAddr})
    {
      hide Load64, Put64, MapsSame, Stored, WithEntry;
      ghost var m, a := os.heap.bytes, Slot(registryAddr, i);
      SlotInside(registryAddr, i, capacity);
      EntryStored(m, registryAddr, entries, i, e);
      PutEntryFacts(m, a, e);
      RemoveMapping(os.maps, os.pageSize, |m|, registryAddr);
      ClearLess(os.maps - {registryAddr}, registryAddr, os.maps[registryAddr], os.maps[registryAddr]);
      os.heap.Store(registryAddr + ENTRY_BYTES * i, e.addr);
      os.heap.Store(registryAddr + ENTRY_BYTES * i + 8, e.size);
      assert os.heap.bytes == PutEntry(m, a, e);
      SameInside(m, os.heap.bytes, a, ENTRY_BYTES, registryAddr, os.maps[registryAddr]);
      ClearIsSame(m, os.heap.bytes, os.maps - {registryAddr}, registryAddr, os.maps[registryAddr]);
      entries := WithEntry(entries, i, e);
    }

    /** The system calls of an allocation. While the registry, cap entries at reg, has room, it stays as it
        is and there is one mmap. If it is full, it first grows by a page; if that is refused, nothing is
        mapped. */
    ghost predicate AllocCalls(calls: seq<SysCall>, calls': seq<SysCall>, full: bool, reg: nat, cap: nat,
                               reg': nat, cap': nat, n: nat, p: nat)
    {
      var bytes := cap * ENTRY_BYTES;
      if !full then
        reg' == reg && cap' == cap && calls' == calls + [Mapped(n, p)]
      else
        || (p == NULL && reg' == reg && cap' == cap && calls' == calls + [Remapped(reg, bytes, bytes + pageSize, NULL)])
        || (reg' != NULL && cap' == cap + pageSize / ENTRY_BYTES &&
            calls' == calls + [Remapped(reg, bytes, bytes + pageSize, reg')] + [Mapped(n, p)])
    }

    /** registry_ensure_capacity: the entries move with the mapping, by mremap alone. */
    method EnsureCapacity() returns (ok: bool)
      requires Valid()
      modifies this`registryAddr, this`capacity, os, os.heap
      ensures Valid()
      ensures ok ==> count < capacity
      ensures os.refusals == old(os.refusals) + (if ok then 0 else 1)
      ensures old(count < capacity) ==>
                ok && registryAddr == old(registryAddr) && capacity == old(capacity) &&
                os.calls == old(os.calls) && os.maps == old(os.maps) && os.heap.bytes == old(os.heap.bytes)
      ensures old(count == capacity) ==>
                var n := old(capacity) * ENTRY_BYTES;
                os.calls == old(os.calls)
                            + [Remapped(old(registryAddr), n, n + pageSize, if ok then registryAddr else NULL)]
      ensures old(count == capacity) && ok ==>
                capacity == old(capacity) + pageSize / ENTRY_BYTES && registryAddr != NULL
      ensures !ok ==> registryAddr == old(registryAddr) && capacity == old(capacity) && os.maps == old(os.maps) &&
                      os.heap.bytes == old(os.heap.bytes)
      ensures Foreign() == old(Foreign())
      ensures Among(old(os.maps) - {old(registryAddr)}, os.maps - {registryAddr})
      ensures MapsSame(old(os.heap.bytes), os.heap.bytes, old(os.maps) - {old(registryAddr)})
    {
      hide RoundUp, MapsOk, Shows, Same, Stored;
      MapsSameRefl(os.heap.bytes, os.maps - {registryAddr});
      if count == capacity {
        var oldSize := capacity * ENTRY_BYTES;
        var newSize := oldSize + pageSize;
        var newReg := os.Mremap(registryAddr, oldSize, newSize);
        if newReg == NULL {
          return false;
        }
        GrownCapacity(capacity, pageSize);
        OwnsMovedRegistry(old(os.maps), registryAddr, capacity, live, pageSize, newReg, newSize / ENTRY_BYTES);
        StoredMoved(old(os.heap.bytes), os.heap.bytes, registryAddr, newReg, Min(oldSize, newSize), entries);
        registryAddr := newReg;
        capacity := newSize / ENTRY_BYTES;
      }
      return true;
    }

    /** p is a live allocation of this size. */
    ghost predicate LiveAt(p: nat, size: nat)
      reads this
    {
      p in live && live[p] == size
    }

    /** page_alloc_fn: the calls are one mmap of the rounded size, after one mremap just when the registry
        was full. */
    method Alloc(size: nat) returns (p: nat)
      requires Valid() && size < WORD
      modifies this, os, os.heap
      ensures Valid()
      ensures p == NULL ==> live == old(live)
      ensures p != NULL ==> size > 0 && p !in old(live) && live == old(live)[p := size]
      ensures size == 0 || size + pageSize > WORD ==> p == NULL
      ensures os.refusals == old(os.refusals) + (if p == NULL && size > 0 then 1 else 0)
      ensures size == 0 ==> os.calls == old(os.calls)
      ensures size > 0 ==>
                AllocCalls(old(os.calls), os.calls, old(count == capacity), old(registryAddr), old(capacity),
                           registryAddr, capacity, RoundUp(size, pageSize), p)
      ensures Foreign() == old(Foreign()) && MapsSame(old(os.heap.bytes), os.heap.bytes, old(Foreign()))
      ensures MapsSame(old(os.heap.bytes), os.heap.bytes, old(os.maps) - {old(registryAddr)})
    {
      hide MapsOk, Shows, Same, Owns, MapsSame, Others, Stored, RoundUp;
      OthersAmong(os.maps, registryAddr, live);
      MapsSameRefl(os.heap.bytes, Foreign());
      MapsSameRefl(os.heap.bytes, os.maps - {registryAddr});
      if size == 0 {
        return NULL;
      }
      var ok := EnsureCapacity();
      if !ok {
        MapsSameAmong(old(os.heap.bytes), os.heap.bytes, old(os.maps) - {old(registryAddr)}, old(Foreign()));
        return NULL;
      }
      ghost var kept, m1, maps1 := old(os.maps) - {old(registryAddr)}, os.heap.bytes, os.maps - {registryAddr};
      p := MapAndAdd(size);
      MapsSameAmong(m1, os.heap.bytes, maps1, kept);
      MapsSameTrans(old(os.heap.bytes), m1, os.heap.bytes, kept);
      MapsSameAmong(old(os.heap.bytes), os.heap.bytes, kept, old(Foreign()));
    }

    /** The part of page_alloc_fn after the registry has room: registry_add of a new mapping. */
    method MapAndAdd(size: nat) returns (p: nat)
      requires Valid() && count < capacity && 0 < size < WORD
      modifies this`live, this`count, this`entries, os, os.heap
      ensures Valid()
      ensures p == NULL ==> live == old(live)
      ensures p != NULL ==> p !in old(live) && live == old(live)[p := size]
      ensures size + pageSize > WORD ==> p == NULL
      ensures Foreign() == old(Foreign())
      ensures MapsSame(old(os.heap.bytes), os.heap.bytes, old(os.maps) - {registryAddr})
      ensures os.refusals == old(os.refusals) + (if p == NULL then 1 else 0)
      ensures os.calls == old(os.calls) + [Mapped(RoundUp(size, pageSize), p)]
    {
      hide MapsOk, Shows, Same, MapsSame, RoundUp, Stored, WithEntry;
      ghost var m, maps := os.heap.bytes, os.maps;
      PageSizeSmall(maps, registryAddr, pageSize, |m|);
      RoundUpFits(size, pageSize);
      var roundedSize := RoundUp(size, pageSize);
      p := os.Mmap(roundedSize);
      ghost var m1 := os.heap.bytes;
      MapsSameAmong(m, m1, maps, maps - {registryAddr});
      RegistryKept(m, m1, maps, pageSize, registryAddr, capacity, entries);
      if p == NULL {
        return NULL;
      }
      OwnsAdd(maps, registryAddr, capacity, live, pageSize, p, size);
      ShowsAdd(entries, live, pageSize, p, size);
      MappingInWord(os.maps, pageSize, |m1|, p);
      AppendEntry(entries, Entry(p, roundedSize));
      StoreEntry(count, Entry(p, roundedSize));
      MapsSameAmong(m1, os.heap.bytes, os.maps - {registryAddr}, maps - {registryAddr});
      MapsSameTrans(m, m1, os.heap.bytes, maps - {registryAddr});
      count := count + 1;
      live := live[p := size];
    }

    /** The search loop of the registry: the number of the entry at p. */
    method FindEntry(p: nat) returns (i: nat)
      requires |entries| == count && pageSize > 0 && InMemory(os.heap.bytes) && Shows(entries, live, pageSize) &&
               p in live
      ensures i < count && entries[i].addr == p
    {
      hide RoundUp, Stored;
      assert Listed(entries, p);
      i := 0;
      while i < count
        invariant i <= count
        invariant forall j :: 0 <= j < i ==> entries[j].addr != p
      {
        var e := LoadEntry(i);
        if e.addr == p {
          return;
        }
        i := i + 1;
      }
      assert false;
    }

    /** registry_remove: the last entry takes the place of the one at p. */
    method RegistryRemove(p: nat)
      requires Valid() && p in live
      modifies this`count, this`entries, os.heap
      ensures |os.heap.bytes| == |old(os.heap.bytes)| && InMemory(os.heap.bytes)
      ensures |entries| == count <= capacity && Shows(entries, live - {p}, pageSize)
      ensures MapsSame(old(os.heap.bytes), os.heap.bytes, os.maps - {registryAddr})
    {
      hide Shows, Stored, MapsSame, MapsOk, RoundUp;
      ghost var was := entries;
      var i := FindEntry(p);
      ShowsRemove(was, live, pageSize, i);
      var last := LoadEntry(count - 1);
      EntryInWord(os.heap.bytes, registryAddr, entries, count - 1);
      StoreEntry(i, last);
      StoredPrefix(os.heap.bytes, registryAddr, entries, count - 1);
      count := count - 1;
      entries := entries[..count];
      assert entries == SwapRemove(was, i);
    }

    /** The registry update after mremap: the entry at p now stands for the mapping at q. */
    method RegistryMove(p: nat, q: nat, size: nat)
      requires |entries| == count <= capacity && pageSize > 0 && InMemory(os.heap.bytes) &&
               Shows(entries, live, pageSize)
      requires os.Valid() && pageSize == os.pageSize && registryAddr in os.maps &&
               os.maps[registryAddr] == capacity * ENTRY_BYTES
      requires p in live && q !in live - {p} && q < WORD && RoundUp(size, pageSize) < WORD
      modifies this`entries, os.heap
      ensures |os.heap.bytes| == |old(os.heap.bytes)| && InMemory(os.heap.bytes)
      ensures |entries| == count && Shows(entries, (live - {p})[q := size], pageSize)
      ensures MapsSame(old(os.heap.bytes), os.heap.bytes, os.maps - {registryAddr})
    {
      hide Shows, Stored, MapsSame, MapsOk, RoundUp;
      var i := FindEntry(p);
      ShowsMove(entries, live, pageSize, i, q, size);
      StoreEntry(i, Entry(q, RoundUp(size, pageSize)));
    }

    /** page_free_fn */
    method Free(p: nat, size: nat)
      requires Valid() && (p == NULL || LiveAt(p, size))
      modifies this`live, this`count, this`entries, os`maps, os`calls, os.heap
      ensures Valid() && live == (if p == NULL then old(live) else old(live) - {p})
      ensures Foreign() == old(Foreign()) && MapsSame(old(os.heap.bytes), os.heap.bytes, old(Foreign()))
      ensures os.maps == if p == NULL then old(os.maps) else old(os.maps) - {p}
      ensures os.calls == old(os.calls) + if p == NULL then [] else [Unmapped(p, RoundUp(size, pageSize))]
      ensures MapsSame(old(os.heap.bytes), os.heap.bytes, old(os.maps) - {registryAddr})
    {
      hide Valid, Others, MapsSame, RoundUp;
      OthersAmong(os.maps, registryAddr, live);
      MapsSameRefl(os.heap.bytes, os.maps - {registryAddr});
      MapsSameRefl(os.heap.bytes, Foreign());
      if p == NULL {
        return;
      }
      FreeLive(p, size);
      MapsSameAmong(old(os.heap.bytes), os.heap.bytes, old(os.maps) - {registryAddr}, old(Foreign()));
    }

    method FreeLive(p: nat, size: nat)
      requires Valid() && LiveAt(p, size)
      modifies this`live, this`count, this`entries, os`maps, os`calls, os.heap
      ensures Valid() && live == old(live) - {p}
      ensures Foreign() == old(Foreign())
      ensures os.maps == old(os.maps) - {p} && os.calls == old(os.calls) + [Unmapped(p, RoundUp(size, pageSize))]
      ensures MapsSame(old(os.heap.bytes), os.heap.bytes, old(os.maps) - {registryAddr})
    {
      hide MapsOk, Shows, RoundUp, Others, Stored, MapsSame;
      var roundedSize := RoundUp(size, pageSize);
      RegistryRemove(p);
      OwnsRemove(os.maps, registryAddr, capacity, live, pageSize, p);
      os.Munmap(p, roundedSize);
      live := live - {p};
    }

    /** page_realloc_fn */
    method Realloc(p: nat, oldSize: nat, newSize: nat) returns (q: nat)
      requires Valid() && (p == NULL || LiveAt(p, oldSize)) && newSize < WORD
      modifies this, os, os.heap
      ensures Valid()
      ensures p == NULL && q != NULL ==> q !in old(live) && live == old(live)[q := newSize]
      ensures q == NULL ==> live == old(live)
      ensures p != NULL && q == NULL ==> os.heap.bytes == old(os.heap.bytes)
      ensures p != NULL && q != NULL ==> q !in old(live) - {p} && live == (old(live) - {p})[q := newSize]
      ensures p != NULL && q != NULL ==> Copied(old(os.heap.bytes), os.heap.bytes, p, q, Min(oldSize, newSize))
      ensures newSize == 0 || newSize + pageSize > WORD ==> q == NULL
      ensures Foreign() == old(Foreign())
      ensures MapsSame(old(os.heap.bytes), os.heap.bytes, old(os.maps) - {old(registryAddr), p})
      ensures os.refusals == old(os.refusals) + (if q == NULL && (p != NULL || newSize > 0) then 1 else 0)
      ensures p == NULL && newSize > 0 ==>
                AllocCalls(old(os.calls), os.calls, old(count == capacity), old(registryAddr), old(capacity),
                           registryAddr, capacity, RoundUp(newSize, pageSize), q)
      ensures p != NULL && RoundUp(oldSize, pageSize) == RoundUp(newSize, pageSize) ==>
                q == p && os.calls == old(os.calls) && os.maps == old(os.maps) && os.heap.bytes == old(os.heap.bytes) &&
                registryAddr == old(registryAddr) && capacity == old(capacity)
      ensures p != NULL && RoundUp(oldSize, pageSize) != RoundUp(newSize, pageSize) ==>
                os.calls == old(os.calls) + [Remapped(p, RoundUp(oldSize, pageSize), RoundUp(newSize, pageSize), q)]
    {
      hide MapsOk, Shows, Same, Owns, MapsSame, RoundUp, Others, Stored;
      ghost var kept := os.maps - {registryAddr, p};
      if p == NULL {
        q := Alloc(newSize);
        MapsSameAmong(old(os.heap.bytes), os.heap.bytes, old(os.maps) - {old(registryAddr)}, kept);
        return;
      }
      q := Remap(p, oldSize, newSize);
    }

    /** page_realloc_fn for a live allocation: in place when the rounded size is the same, else by mremap. */
    method Remap(p: nat, oldSize: nat, newSize: nat) returns (q: nat)
      requires Valid() && LiveAt(p, oldSize) && p != NULL && newSize < WORD
      modifies this`live, this`entries, os, os.heap
      ensures Valid()
      ensures q == NULL ==> live == old(live) && os.heap.bytes == old(os.heap.bytes)
      ensures q != NULL ==> q !in old(live) - {p} && live == (old(live) - {p})[q := newSize]
      ensures q != NULL ==> Copied(old(os.heap.bytes), os.heap.bytes, p, q, Min(oldSize, newSize))
      ensures newSize == 0 || newSize + pageSize > WORD ==> q == NULL
      ensures Foreign() == old(Foreign())
      ensures MapsSame(old(os.heap.bytes), os.heap.bytes, old(os.maps) - {registryAddr, p})
      ensures os.refusals == old(os.refusals) + (if q == NULL then 1 else 0)
      ensures RoundUp(oldSize, pageSize) == RoundUp(newSize, pageSize) ==>
                q == p && os.calls == old(os.calls) && os.maps == old(os.maps) && os.heap.bytes == old(os.heap.bytes) &&
                registryAddr == old(registryAddr) && capacity == old(capacity)
      ensures RoundUp(oldSize, pageSize) != RoundUp(newSize, pageSize) ==>
                os.calls == old(os.calls) + [Remapped(p, RoundUp(oldSize, pageSize), RoundUp(newSize, pageSize), q)]
    {
      hide Shows, Same, MapsSame, RoundUp, Others, MapsOk, Copied, Stored;
      ghost var m, maps, kept := os.heap.bytes, os.maps, os.maps - {registryAddr, p};
      PageSizeSmall(maps, registryAddr, pageSize, |m|);
      LiveFits(maps, registryAddr, capacity, live, pageSize, |m|, p);
      var roundedOld := RoundUp(oldSize, pageSize);
      var roundedNew := RoundUp(newSize, pageSize);
      RoundUpFits(newSize, pageSize);
      if roundedOld == roundedNew {
        MapsSameRefl(m, kept);
        CopiedSelf(m, maps, pageSize, p, Min(oldSize, newSize));
        StayPut(entries, maps, registryAddr, capacity, live, pageSize, p, newSize);
        live := (live - {p})[p := newSize];
        return p;
      }
      q := os.Mremap(p, roundedOld, roundedNew);
      if q == NULL {
        MapsSameRefl(m, kept);
        return NULL;
      }
      ghost var m1 := os.heap.bytes;
      RegistryKept(m, m1, maps - {p}, pageSize, registryAddr, capacity, entries);
      CopyLess(m, m1, p, q, Min(roundedOld, roundedNew), Min(oldSize, newSize));
      OwnsMove(maps, registryAddr, capacity, live, pageSize, p, q, newSize);
      MappingInWord(os.maps, pageSize, |m1|, q);
      RegistryMove(p, q, newSize);
      live := (live - {p})[q := newSize];
      MovedStays(m, m1, os.heap.bytes, os.maps, registryAddr, p, q, Min(oldSize, newSize));
      MapsSameAmong(m, m1, maps - {p}, kept);
      MapsSameAmong(m1, os.heap.bytes, os.maps - {registryAddr}, kept);
      MapsSameTrans(m, m1, os.heap.bytes, kept);
    }

    /** page_contains_fn */
    method Contains(p: nat) returns (yes: bool)
      requires Valid()
      ensures yes <==> exists a :: a in live && a <= p < a + RoundUp(live[a], pageSize)
    {
      hide RoundUp, Owns, MapsOk, Stored;
      for i := 0 to count
        invariant forall j :: 0 <= j < i ==> !(entries[j].addr <= p < entries[j].addr + entries[j].size)
      {
        var e := LoadEntry(i);
        if e.addr <= p < e.addr + e.size {
          assert entries[i].addr in live;
          return true;
        }
      }
      forall a | a in live
        ensures !(a <= p < a + RoundUp(live[a], pageSize))
      {
        assert Listed(entries, a);
        var j :| 0 <= j < count && entries[j].addr == a;
        assert entries[j].addr == a;
      }
      return false;
    }

    /** page_destroy_fn: every mapping this allocator made is returned, once, and no other. */
    method Destroy()
      requires Valid()
      modifies os`maps, os`calls
      ensures os.Valid() && os.maps == old(Foreign())
    {
      hide RoundUp, MapsOk, Stored;
      for i := 0 to count
        invariant os.Valid()
        invariant os.maps == old(os.maps) - Addresses(entries[..i])
      {
        StillMapped(entries, live, pageSize, i);
        var e := LoadEntry(i);
        os.Munmap(e.addr, e.size);
        assert entries[..i + 1] == entries[..i] + [entries[i]];
      }
      assert entries[..count] == entries;
      AllAddresses(entries, live, pageSize);
      os.Munmap(registryAddr, capacity * ENTRY_BYTES);
      assert os.maps == old(os.maps) - (live.Keys + {registryAddr});
    }
  }
}
