/** Doubly linked lists threaded through free memory: next at the node's address, prev 8 bytes on. */
module FreeLists {
  import opened Order
  import opened Memory

  const HEADER: nat := 16

  ghost predicate Apart(x: nat, y: nat)
  {
    x + HEADER <= y || y + HEADER <= x
  }

  ghost function At(p: seq<nat>, k: int): nat
  {
    if 0 <= k < |p| then p[k] else NULL
  }

  ghost predicate NodeOk(m: seq<Byte>, p: seq<nat>, k: int)
    requires 0 <= k < |p|
  {
    && 0 < p[k] && p[k] + HEADER <= |m|
    && Load64(m, p[k]) == At(p, k + 1)
    && Load64(m, p[k] + 8) == At(p, k - 1)
  }

  /** The nodes at the addresses p form a list in this order, with mutually inverse next and prev. */
  ghost predicate Chain(m: seq<Byte>, p: seq<nat>)
  {
    forall k :: 0 <= k < |p| ==> NodeOk(m, p, k)
  }

  ghost predicate Bounded(m: seq<Byte>, p: seq<nat>)
  {
    forall k :: 0 <= k < |p| ==> 0 < p[k] && p[k] + HEADER <= |m|
  }

  lemma ChainBounded(m: seq<Byte>, p: seq<nat>)
    requires Chain(m, p)
    ensures Bounded(m, p)
  {
    forall k | 0 <= k < |p|
      ensures 0 < p[k] && p[k] + HEADER <= |m|
    {
      assert NodeOk(m, p, k);
    }
  }

  /** Each list head and its chain. */
  ghost predicate Linked(m: seq<Byte>, heads: seq<nat>, chains: seq<seq<nat>>)
  {
    && |chains| <= |heads|
    && forall l :: 0 <= l < |chains| ==> heads[l] == At(chains[l], 0) && Chain(m, chains[l])
  }

  /** No two nodes share a byte of their headers. */
  ghost predicate Separate(chains: seq<seq<nat>>)
  {
    && (forall l, i, j :: 0 <= l < |chains| && 0 <= i < j < |chains[l]| ==> Apart(chains[l][i], chains[l][j]))
    && (forall l, l', i, j :: 0 <= l < l' < |chains| && 0 <= i < |chains[l]| && 0 <= j < |chains[l']| ==>
          Apart(chains[l][i], chains[l'][j]))
  }

  /** Every byte that changed lies in the header of one of the nodes. */
  ghost predicate WrittenIn(m: seq<Byte>, m': seq<Byte>, nodes: set<nat>)
  {
    && |m'| == |m|
    && forall i :: 0 <= i < |m| && m'[i] != m[i] ==> InHeader(i, nodes)
  }

  ghost predicate InHeader(i: int, nodes: set<nat>)
  {
    exists x :: x in nodes && x <= i < x + HEADER
  }

  lemma ChainFrame(m: seq<Byte>, m': seq<Byte>, p: seq<nat>, nodes: set<nat>)
    requires Chain(m, p) && WrittenIn(m, m', nodes)
    requires forall k, x :: 0 <= k < |p| && x in nodes ==> Apart(p[k], x)
    ensures Chain(m', p)
  {
    forall k | 0 <= k < |p|
      ensures NodeOk(m', p, k)
    {
      assert NodeOk(m, p, k);
      LoadFrame(m, m', p[k], 8);
      LoadFrame(m, m', p[k] + 8, 8);
    }
  }

  lemma OneStore(m: seq<Byte>, m': seq<Byte>, a: nat, v: nat, node: nat)
    requires a + 8 <= |m| && v < WORD && m' == Put64(m, a, v) && (a == node || a == node + 8)
    ensures WrittenIn(m, m', {node})
  {
    Put64Facts(m, a, v);
    assert node in {node};
  }

  lemma WrittenTrans(m: seq<Byte>, m1: seq<Byte>, m2: seq<Byte>, s: set<nat>, t: set<nat>)
    requires WrittenIn(m, m1, s) && WrittenIn(m1, m2, t)
    ensures WrittenIn(m, m2, s + t)
  {
    forall i | 0 <= i < |m| && m2[i] != m[i]
      ensures InHeader(i, s + t)
    {
      if m1[i] != m[i] {
        var x :| x in s && x <= i < x + HEADER;
        assert x in s + t;
      } else {
        var x :| x in t && x <= i < x + HEADER;
        assert x in s + t;
      }
    }
  }

  /** list_push on memory: what the three stores leave behind. */
  ghost function PushStores(m: seq<Byte>, p: seq<nat>, node: nat): (m': seq<Byte>)
    requires node + HEADER <= |m| <= WORD
    requires p != [] ==> p[0] + HEADER <= |m|
    ensures |m'| == |m|
  {
    var m1 := Put64(m, node, At(p, 0));
    var m2 := Put64(m1, node + 8, NULL);
    if p == [] then m2 else Put64(m2, p[0] + 8, node)
  }

  lemma PushWrites(m: seq<Byte>, p: seq<nat>, node: nat)
    requires node + HEADER <= |m| <= WORD
    requires p != [] ==> p[0] + HEADER <= |m|
    ensures WrittenIn(m, PushStores(m, p, node), if p == [] then {node} else {node, p[0]})
  {
    hide Load64, Put64;
    var m1 := Put64(m, node, At(p, 0));
    var m2 := Put64(m1, node + 8, NULL);
    OneStore(m, m1, node, At(p, 0), node);
    OneStore(m1, m2, node + 8, NULL, node);
    WrittenTrans(m, m1, m2, {node}, {node});
    assert {node} + {node} == {node};
    if p != [] {
      OneStore(m2, Put64(m2, p[0] + 8, node), p[0] + 8, node, p[0]);
      WrittenTrans(m, m2, Put64(m2, p[0] + 8, node), {node}, {p[0]});
      assert {node} + {p[0]} == {node, p[0]};
    }
  }

  lemma PushChain(m: seq<Byte>, p: seq<nat>, node: nat)
    requires Chain(m, p) && 0 < node && node + HEADER <= |m| <= WORD
    requires p != [] ==> p[0] + HEADER <= |m|
    requires forall k :: 0 <= k < |p| ==> Apart(node, p[k])
    requires forall i, j :: 0 <= i < j < |p| ==> Apart(p[i], p[j])
    ensures Chain(PushStores(m, p, node), [node] + p)
  {
    hide Load64, Put64;
    var m1 := Put64(m, node, At(p, 0));
    var m2 := Put64(m1, node + 8, NULL);
    var m3 := PushStores(m, p, node);
    var q := [node] + p;
    Put64Facts(m, node, At(p, 0));
    Put64Facts(m1, node + 8, NULL);
    if p != [] {
      Put64Facts(m2, p[0] + 8, node);
    }
    forall k | 0 <= k < |q|
      ensures NodeOk(m3, q, k)
    {
      if k > 0 {
        assert q[k] == p[k - 1];
        assert NodeOk(m, p, k - 1);
      }
    }
  }

  /** list_push */
  method ListPush(heap: Heap, heads: array<nat>, level: nat, node: nat, ghost chains: seq<seq<nat>>)
    requires Linked(heap.bytes, heads[..], chains) && Separate(chains) && level < |chains|
    requires 0 < node && node + HEADER <= |heap.bytes| <= WORD
    requires forall l, k :: 0 <= l < |chains| && 0 <= k < |chains[l]| ==> Apart(node, chains[l][k])
    modifies heap, heads
    ensures Linked(heap.bytes, heads[..], chains[level := [node] + chains[level]])
    ensures heads[..] == old(heads[..])[level := node]
    ensures WrittenIn(old(heap.bytes), heap.bytes,
                      if chains[level] == [] then {node} else {node, chains[level][0]})
  {
    hide Load64, Put64;
    ghost var m, p := heap.bytes, chains[level];
    assert p != [] ==> NodeOk(m, p, 0);
    heap.Store(node, heads[level]);
    heap.Store(node + 8, NULL);
    if heads[level] != NULL {
      heap.Store(heads[level] + 8, node);
    }
    heads[level] := node;
    assert heap.bytes == PushStores(m, p, node);
    PushWrites(m, p, node);
    PushLinked(m, heap.bytes, old(heads[..]), chains, level, node);
  }

  lemma PushLinked(m: seq<Byte>, m': seq<Byte>, heads: seq<nat>, chains: seq<seq<nat>>, level: nat, node: nat)
    requires Linked(m, heads, chains) && Separate(chains) && level < |chains|
    requires 0 < node && node + HEADER <= |m| <= WORD
    requires chains[level] != [] ==> chains[level][0] + HEADER <= |m|
    requires forall l, k :: 0 <= l < |chains| && 0 <= k < |chains[l]| ==> Apart(node, chains[l][k])
    requires m' == PushStores(m, chains[level], node)
    ensures Linked(m', heads[level := node], chains[level := [node] + chains[level]])
  {
    var p := chains[level];
    PushWrites(m, p, node);
    PushChain(m, p, node);
    forall l | 0 <= l < |chains| && l != level
      ensures Chain(m', chains[l])
    {
      ChainFrame(m, m', chains[l], if p == [] then {node} else {node, p[0]});
    }
  }

  /* ------------------------------------------------------------ list_remove */

  ghost function Without(p: seq<nat>, k: nat): (r: seq<nat>)
    requires k < |p|
  {
    p[..k] + p[k + 1..]
  }

  /** list_remove on memory: next is stored in the predecessor, prev in the successor. */
  ghost function RemoveStores(m: seq<Byte>, p: seq<nat>, k: nat): (m': seq<Byte>)
    requires k < |p| && |m| <= WORD
    requires Bounded(m, p)
    ensures |m'| == |m|
  {
    var m1 := if k > 0 then Put64(m, p[k - 1], At(p, k + 1)) else m;
    if k + 1 < |p| then Put64(m1, p[k + 1] + 8, At(p, k - 1)) else m1
  }

  ghost function Neighbours(p: seq<nat>, k: nat): set<nat>
    requires k < |p|
  {
    (if k > 0 then {p[k - 1]} else {}) + (if k + 1 < |p| then {p[k + 1]} else {})
  }

  lemma RemoveWrites(m: seq<Byte>, p: seq<nat>, k: nat)
    requires k < |p| && |m| <= WORD
    requires Bounded(m, p)
    ensures WrittenIn(m, RemoveStores(m, p, k), Neighbours(p, k))
  {
    hide Load64, Put64;
    var m1 := if k > 0 then Put64(m, p[k - 1], At(p, k + 1)) else m;
    var s := if k > 0 then {p[k - 1]} else {};
    assert WrittenIn(m, m1, s) by {
      if k > 0 {
        OneStore(m, m1, p[k - 1], At(p, k + 1), p[k - 1]);
      }
    }
    if k + 1 < |p| {
      var m2 := Put64(m1, p[k + 1] + 8, At(p, k - 1));
      OneStore(m1, m2, p[k + 1] + 8, At(p, k - 1), p[k + 1]);
      WrittenTrans(m, m1, m2, s, {p[k + 1]});
    } else {
      assert s + {} == s;
    }
  }

  /** What the node number j reads after the removal of node number k. */
  lemma RemoveNode(m: seq<Byte>, p: seq<nat>, k: nat, j: nat)
    requires Chain(m, p) && k < |p| && |m| <= WORD && Bounded(m, p)
    requires forall i, j :: 0 <= i < j < |p| ==> Apart(p[i], p[j])
    requires j < |p| && j != k
    ensures Load64(RemoveStores(m, p, k), p[j]) == At(p, if j + 1 == k then k + 1 else j + 1)
    ensures Load64(RemoveStores(m, p, k), p[j] + 8) == At(p, if j == k + 1 then k - 1 else j - 1)
  {
    hide Load64, Put64;
    assert NodeOk(m, p, j);
    var m1 := if k > 0 then Put64(m, p[k - 1], At(p, k + 1)) else m;
    if k > 0 {
      Put64Facts(m, p[k - 1], At(p, k + 1));
    }
    assert Load64(m1, p[j]) == At(p, if j + 1 == k then k + 1 else j + 1);
    assert Load64(m1, p[j] + 8) == At(p, j - 1);
    if k + 1 < |p| {
      Put64Facts(m1, p[k + 1] + 8, At(p, k - 1));
    }
  }

  lemma WithoutAt(p: seq<nat>, k: nat, i: nat)
    requires k < |p| && i < |p| - 1
    ensures var q, j := Without(p, k), if i < k then i else i + 1;
            |q| == |p| - 1 && q[i] == p[j] &&
            At(q, i + 1) == At(p, if j + 1 == k then k + 1 else j + 1) &&
            At(q, i - 1) == At(p, if j == k + 1 then k - 1 else j - 1)
  {
  }

  lemma RemoveChain(m: seq<Byte>, p: seq<nat>, k: nat)
    requires Chain(m, p) && k < |p| && |m| <= WORD && Bounded(m, p)
    requires forall i, j :: 0 <= i < j < |p| ==> Apart(p[i], p[j])
    ensures Chain(RemoveStores(m, p, k), Without(p, k))
  {
    hide Load64, RemoveStores;
    forall i | 0 <= i < |p| - 1
      ensures NodeOk(RemoveStores(m, p, k), Without(p, k), i)
    {
      WithoutAt(p, k, i);
      RemoveNode(m, p, k, if i < k then i else i + 1);
    }
  }

  lemma RemoveLinked(m: seq<Byte>, m': seq<Byte>, heads: seq<nat>, chains: seq<seq<nat>>, level: nat, k: nat)
    requires Linked(m, heads, chains) && Separate(chains) && level < |chains| && k < |chains[level]| && |m| <= WORD
    requires Bounded(m, chains[level])
    requires m' == RemoveStores(m, chains[level], k)
    ensures Linked(m', if k == 0 then heads[level := At(chains[level], 1)] else heads,
                   chains[level := Without(chains[level], k)])
  {
    var p := chains[level];
    RemoveWrites(m, p, k);
    RemoveChain(m, p, k);
    assert At(Without(p, k), 0) == At(p, if k == 0 then 1 else 0);
    forall l | 0 <= l < |chains| && l != level
      ensures Chain(m', chains[l])
    {
      ChainFrame(m, m', chains[l], Neighbours(p, k));
    }
  }

  /** list_remove */
  method ListRemove(heap: Heap, heads: array<nat>, level: nat, node: nat, ghost chains: seq<seq<nat>>, ghost k: nat)
    requires Linked(heap.bytes, heads[..], chains) && Separate(chains) && level < |chains|
    requires k < |chains[level]| && node == chains[level][k] && |heap.bytes| <= WORD
    modifies heap, heads
    ensures Linked(heap.bytes, heads[..], chains[level := Without(chains[level], k)])
    ensures heads[..] == old(heads[..])[level := At(Without(chains[level], k), 0)]
    ensures WrittenIn(old(heap.bytes), heap.bytes, Neighbours(chains[level], k))
  {
    hide Load64, Put64;
    ghost var m, p := heap.bytes, chains[level];
    ChainBounded(m, p);
    assert NodeOk(m, p, k);
    var prev := heap.Load(node + 8);
    var next := heap.Load(node);
    if prev != NULL {
      heap.Store(prev, next);
    } else {
      heads[level] := next;
    }
    if next != NULL {
      heap.Store(next + 8, prev);
    }
    assert heap.bytes == RemoveStores(m, p, k);
    RemoveWrites(m, p, k);
    RemoveLinked(m, heap.bytes, old(heads[..]), chains, level, k);
    assert heads[..] == if k == 0 then old(heads[..])[level := At(p, 1)] else old(heads[..]);
  }
}
