/** The operating system's page mappings. Its choices of addresses and its refusals are
    unknown, so every answer that meets the contract of mmap and mremap is possible. */
module Os {
  import opened Order
  import opened Memory

  predicate Disjoint(a: nat, n: nat, b: nat, k: nat)
  {
    a + n <= b || b + k <= a
  }

  /** The mappings lie in memory, on page boundaries, and share no byte. */
  predicate MapsOk(maps: map<nat, nat>, pageSize: nat, top: nat)
    requires pageSize > 0
  {
    && (forall a :: a in maps ==> 0 < a && a % pageSize == 0 && 0 < maps[a] && a + maps[a] <= top)
    && (forall a, b :: a in maps && b in maps && a != b ==> Disjoint(a, maps[a], b, maps[b]))
  }

  /** The range is clear of every mapping. */
  predicate ClearOf(maps: map<nat, nat>, a: nat, n: nat)
  {
    forall b :: b in maps ==> Disjoint(a, n, b, maps[b])
  }

  /** No byte of these mappings has changed. */
  predicate MapsSame(m: seq<Byte>, m': seq<Byte>, maps: map<nat, nat>)
  {
    && |m'| == |m|
    && forall a :: a in maps ==> Same(m, m', a, a + maps[a])
  }

  /** These mappings are among those. */
  ghost predicate Among(sub: map<nat, nat>, maps: map<nat, nat>)
  {
    forall a :: a in sub ==> a in maps && maps[a] == sub[a]
  }

  lemma MapsSameAmong(m: seq<Byte>, m': seq<Byte>, maps: map<nat, nat>, sub: map<nat, nat>)
    requires MapsSame(m, m', maps) && Among(sub, maps)
    ensures MapsSame(m, m', sub)
  {
  }

  lemma MappingInside(maps: map<nat, nat>, pageSize: nat, top: nat, a: nat)
    requires pageSize > 0 && MapsOk(maps, pageSize, top) && a in maps
    ensures a > 0 && a + maps[a] <= top
  {
  }

  lemma MappingSame(m: seq<Byte>, m': seq<Byte>, maps: map<nat, nat>, a: nat)
    requires MapsSame(m, m', maps) && a in maps
    ensures |m'| == |m| && Same(m, m', a, a + maps[a])
  {
  }

  lemma MapsSameLength(m: seq<Byte>, m': seq<Byte>, maps: map<nat, nat>)
    requires MapsSame(m, m', maps)
    ensures |m'| == |m|
  {
  }

  lemma MapsSameRefl(m: seq<Byte>, maps: map<nat, nat>)
    ensures MapsSame(m, m, maps)
  {
  }

  lemma MapsSameTrans(m: seq<Byte>, m1: seq<Byte>, m2: seq<Byte>, maps: map<nat, nat>)
    requires MapsSame(m, m1, maps) && MapsSame(m1, m2, maps)
    ensures MapsSame(m, m2, maps)
  {
    forall a | a in maps
      ensures Same(m, m2, a, a + maps[a])
    {
      assert Same(m, m1, a, a + maps[a]) && Same(m1, m2, a, a + maps[a]);
    }
  }

  /** A new mapping in a clear range keeps the mappings apart. */
  lemma AddMapping(maps: map<nat, nat>, pageSize: nat, top: nat, p: nat, n: nat)
    requires pageSize > 0 && MapsOk(maps, pageSize, top)
    requires 0 < p && p % pageSize == 0 && 0 < n && p + n <= top && ClearOf(maps, p, n)
    ensures MapsOk(maps[p := n], pageSize, top) && p !in maps
  {
    forall b | b in maps
      ensures b != p
    {
      assert Disjoint(p, n, b, maps[b]);
    }
  }

  lemma RemoveMapping(maps: map<nat, nat>, pageSize: nat, top: nat, p: nat)
    requires pageSize > 0 && MapsOk(maps, pageSize, top)
    ensures MapsOk(maps - {p}, pageSize, top)
    ensures p in maps ==> ClearOf(maps - {p}, p, maps[p])
  {
  }

  /** Changes inside a clear range touch no mapping. */
  lemma ClearIsSame(m: seq<Byte>, m': seq<Byte>, maps: map<nat, nat>, p: nat, n: nat)
    requires |m'| == |m| && Same(m, m', 0, p) && Same(m, m', p + n, |m|) && ClearOf(maps, p, n)
    ensures MapsSame(m, m', maps)
  {
    forall a | a in maps
      ensures Same(m, m', a, a + maps[a])
    {
      assert Disjoint(p, n, a, maps[a]);
    }
  }

  /** A system call, with its answer. */
  datatype SysCall =
    | Mapped(n: nat, answer: nat)
    | Unmapped(p: nat, n: nat)
    | Remapped(p: nat, n: nat, newN: nat, answer: nat)

  class Kernel {
    const heap: Heap
    const pageOrder: nat
    const pageSize: nat
    var maps: map<nat, nat>
    /** The calls it has received, in their order, and how often it has answered no. */
    ghost var calls: seq<SysCall>
    ghost var refusals: nat

    ghost predicate Valid()
      reads this, heap
    {
      && pageOrder >= 4 && pageSize == Pow2(pageOrder)
      && |heap.bytes| <= WORD
      && MapsOk(maps, pageSize, |heap.bytes|)
    }

    constructor (heap: Heap, pageOrder: nat)
      requires pageOrder >= 4 && |heap.bytes| <= WORD
      ensures Valid() && this.heap == heap && maps == map[] && this.pageOrder == pageOrder
    {
      this.heap := heap;
      this.pageOrder := pageOrder;
      pageSize := Pow2(pageOrder);
      maps := map[];
      calls := [];
      refusals := 0;
    }

    /** allo_os_mmap: a fresh zeroed range, or NULL. */
    method Mmap(n: nat) returns (p: nat)
      requires Valid()
      modifies this, heap
      ensures Valid()
      ensures p == NULL ==> maps == old(maps) && heap.bytes == old(heap.bytes)
      ensures p != NULL ==> n > 0 && ClearOf(old(maps), p, n) && p !in old(maps) && maps == old(maps)[p := n]
      ensures MapsSame(old(heap.bytes), heap.bytes, old(maps))
      ensures refusals == old(refusals) + (if p == NULL then 1 else 0)
      ensures calls == old(calls) + [Mapped(n, p)]
    {
      p := *;
      if n > 0 && p > 0 && p % pageSize == 0 && p + n <= |heap.bytes| && ClearOf(maps, p, n) {
        heap.Write(p, seq(n, _ => 0));
        ClearIsSame(old(heap.bytes), heap.bytes, maps, p, n);
        AddMapping(maps, pageSize, |heap.bytes|, p, n);
        maps := maps[p := n];
      } else {
        p := NULL;
        refusals := refusals + 1;
      }
      calls := calls + [Mapped(n, p)];
    }

    /** allo_os_munmap of a whole mapping. */
    method Munmap(p: nat, n: nat)
      requires Valid() && p in maps && maps[p] == n
      modifies this`maps, this`calls
      ensures Valid() && maps == old(maps) - {p} && calls == old(calls) + [Unmapped(p, n)]
    {
      calls := calls + [Unmapped(p, n)];
      RemoveMapping(maps, pageSize, |heap.bytes|, p);
      maps := maps - {p};
    }

    /** allo_os_mremap with leave to move: the mapping has its new length, at its old address or
        another one, and keeps its contents; or NULL, and nothing has changed. */
    method Mremap(p: nat, n: nat, newN: nat) returns (q: nat)
      requires Valid() && p in maps && maps[p] == n
      modifies this, heap
      ensures Valid()
      ensures q == NULL ==> maps == old(maps) && heap.bytes == old(heap.bytes)
      ensures q != NULL ==> newN > 0 && ClearOf(old(maps) - {p}, q, newN) && q !in old(maps) - {p} &&
                            maps == (old(maps) - {p})[q := newN]
      ensures q != NULL ==> Copied(old(heap.bytes), heap.bytes, p, q, Min(n, newN))
      ensures MapsSame(old(heap.bytes), heap.bytes, old(maps) - {p})
      ensures refusals == old(refusals) + (if q == NULL then 1 else 0)
      ensures calls == old(calls) + [Remapped(p, n, newN, q)]
    {
      hide MapsOk, Disjoint;
      MappingInside(maps, pageSize, |heap.bytes|, p);
      q := *;
      ghost var rest := maps - {p};
      RemoveMapping(maps, pageSize, |heap.bytes|, p);
      if newN > 0 && q > 0 && q % pageSize == 0 && q + newN <= |heap.bytes| && ClearOf(maps - {p}, q, newN) {
        var k := Min(n, newN);
        var contents := heap.bytes[p..p + k] + seq(newN - k, _ => 0);
        heap.Write(q, contents);
        assert heap.bytes[q..q + k] == contents[..k];
        ClearIsSame(old(heap.bytes), heap.bytes, rest, q, newN);
        AddMapping(rest, pageSize, |heap.bytes|, q, newN);
        maps := (maps - {p})[q := newN];
      } else {
        q := NULL;
        refusals := refusals + 1;
      }
      calls := calls + [Remapped(p, n, newN, q)];
    }
  }
}
