/** One byte-addressed memory, shared by every allocator. Address 0 is NULL. */
module Memory {
  import opened Order

  type Byte = x: int | 0 <= x < 256

  const NULL: nat := 0

  /** The little-endian number in the n bytes at address a. */
  function LoadBytes(m: seq<Byte>, a: nat, n: nat): nat
    requires a + n <= |m|
    decreases n
  {
    if n == 0 then 0 else (m[a] as nat) + 256 * LoadBytes(m, a + 1, n - 1)
  }

  function Encode(v: nat, n: nat): (s: seq<Byte>)
    ensures |s| == n
  {
    if n == 0 then [] else [v % 256] + Encode(v / 256, n - 1)
  }

  lemma {:induction false} LoadStored(m: seq<Byte>, a: nat, v: nat, n: nat)
    requires a + n <= |m| && m[a..a + n] == Encode(v, n) && v < Pow2(8 * n)
    ensures LoadBytes(m, a, n) == v
    decreases n
  {
    if n > 0 {
      assert m[a] == m[a..a + n][0] == v % 256;
      assert m[a + 1..a + 1 + (n - 1)] == m[a..a + n][1..];
      WithoutLowByte(v, n);
      LoadStored(m, a + 1, v / 256, n - 1);
    }
  }

  lemma WithoutLowByte(v: nat, n: nat)
    requires n > 0 && v < Pow2(8 * n)
    ensures v / 256 < Pow2(8 * (n - 1))
  {
    Pow2Add(8, 8 * (n - 1));
    Pow2Values();
  }

  lemma {:induction false} LoadFrame(m: seq<Byte>, m': seq<Byte>, a: nat, n: nat)
    requires |m| == |m'| && a + n <= |m| && Same(m, m', a, a + n)
    ensures LoadBytes(m', a, n) == LoadBytes(m, a, n)
    decreases n
  {
    if n > 0 {
      LoadFrame(m, m', a + 1, n - 1);
    }
  }

  /** The same bytes at another address are the same number. */
  lemma {:induction false} LoadCopied(m: seq<Byte>, m': seq<Byte>, p: nat, q: nat, n: nat)
    requires p + n <= |m| && q + n <= |m'| && m'[q..q + n] == m[p..p + n]
    ensures LoadBytes(m', q, n) == LoadBytes(m, p, n)
    decreases n
  {
    if n > 0 {
      assert m'[q] == m'[q..q + n][0] == m[p..p + n][0] == m[p];
      assert m'[q + 1..q + 1 + (n - 1)] == m'[q..q + n][1..] == m[p + 1..p + 1 + (n - 1)];
      LoadCopied(m, m', p + 1, q + 1, n - 1);
    }
  }

  /** The pointer or word stored at address a. */
  function Load64(m: seq<Byte>, a: nat): (v: nat)
    requires a + 8 <= |m|
  {
    LoadBytes(m, a, 8)
  }

  lemma {:induction false} LoadBytesSmall(m: seq<Byte>, a: nat, n: nat)
    requires a + n <= |m|
    ensures LoadBytes(m, a, n) < Pow2(8 * n)
    decreases n
  {
    if n > 0 {
      LoadBytesSmall(m, a + 1, n - 1);
      Pow2Add(8, 8 * (n - 1));
      Pow2Values();
    }
  }

  /** A word is less than 2^64. */
  lemma Load64Small(m: seq<Byte>, a: nat)
    requires a + 8 <= |m|
    ensures Load64(m, a) < WORD
  {
    LoadBytesSmall(m, a, 8);
    Pow2Word();
  }

  /** m and m' hold the same bytes at the addresses from lo up to hi. */
  predicate Same(m: seq<Byte>, m': seq<Byte>, lo: int, hi: int)
    requires |m| == |m'|
  {
    forall i :: lo <= i < hi && 0 <= i < |m| ==> m'[i] == m[i]
  }

  /** The words at a and b share no byte. */
  predicate WordsApart(a: nat, b: nat)
  {
    a + 8 <= b || b + 8 <= a
  }

  function Put64(m: seq<Byte>, a: nat, v: nat): (m': seq<Byte>)
    requires a + 8 <= |m| && v < WORD
    ensures |m'| == |m|
  {
    m[..a] + Encode(v, 8) + m[a + 8..]
  }

  /** A store is read back, changes eight bytes, and leaves every other word alone. */
  lemma Put64Facts(m: seq<Byte>, a: nat, v: nat)
    requires a + 8 <= |m| && v < WORD
    ensures var m' := Put64(m, a, v);
            Load64(m', a) == v && Same(m, m', 0, a) && Same(m, m', a + 8, |m|) &&
            forall b: nat :: b + 8 <= |m| && WordsApart(a, b) ==> Load64(m', b) == Load64(m, b)
  {
    var m' := Put64(m, a, v);
    Pow2Word();
    assert m'[a..a + 8] == Encode(v, 8);
    LoadStored(m', a, v, 8);
    forall b: nat | b + 8 <= |m| && WordsApart(a, b)
      ensures Load64(m', b) == Load64(m, b)
    {
      LoadFrame(m, m', b, 8);
    }
  }

  /** allo_align_up for an alignment of 8. */
  function AlignUp8(n: nat): (r: nat)
    ensures n <= r < n + 8 && r % 8 == 0
  {
    (n + 7) / 8 * 8
  }

  function Min(a: nat, b: nat): nat { if a < b then a else b }

  /** The n bytes that stood at p now stand at q. */
  ghost predicate Copied(m: seq<Byte>, m': seq<Byte>, p: nat, q: nat, n: nat)
  {
    p + n <= |m| && q + n <= |m'| && m'[q..q + n] == m[p..p + n]
  }

  class Heap {
    var bytes: seq<Byte>

    ghost predicate Valid()
      reads this
    {
      |bytes| <= WORD
    }

    method Load(a: nat) returns (v: nat)
      requires a + 8 <= |bytes|
      ensures v == Load64(bytes, a)
    {
      v := Load64(bytes, a);
    }

    method Store(a: nat, v: nat)
      requires a + 8 <= |bytes| && v < WORD
      modifies this
      ensures bytes == Put64(old(bytes), a, v)
    {
      bytes := Put64(bytes, a, v);
    }

    /** The bytes data are stored from address a on. */
    method Write(a: nat, data: seq<Byte>)
      requires a + |data| <= |bytes|
      modifies this
      ensures bytes == old(bytes)[..a] + data + old(bytes)[a + |data|..]
      ensures |bytes| == |old(bytes)| && Same(old(bytes), bytes, 0, a) && Same(old(bytes), bytes, a + |data|, |bytes|)
    {
      bytes := bytes[..a] + data + bytes[a + |data|..];
    }

    /** allo_memcpy, with the non-overlap it asserts. */
    method Copy(dst: nat, src: nat, n: nat)
      requires dst + n <= |bytes| && src + n <= |bytes|
      requires dst + n <= src || src + n <= dst
      modifies this
      ensures |bytes| == |old(bytes)|
      ensures bytes[dst..dst + n] == old(bytes[src..src + n])
      ensures Same(old(bytes), bytes, 0, dst) && Same(old(bytes), bytes, dst + n, |bytes|)
    {
      bytes := bytes[..dst] + bytes[src..src + n] + bytes[dst + n..];
    }
  }
}
