/** A packed bitset: bit n is bit n % 8 of byte n / 8. */
module Bitset {

  /** 1 << k */
  function Mask(k: nat): (m: bv8)
    requires k < 8
  {
    if k == 0 then 0x01 else if k == 1 then 0x02 else if k == 2 then 0x04 else if k == 3 then 0x08
    else if k == 4 then 0x10 else if k == 5 then 0x20 else if k == 6 then 0x40 else 0x80
  }

  lemma MaskIsShift(k: nat)
    requires k < 8
    ensures Mask(k) == 1 << k
  {
    assert k == 0 || k == 1 || k == 2 || k == 3 || k == 4 || k == 5 || k == 6 || k == 7;
  }

  predicate ByteBit(b: bv8, k: nat)
    requires k < 8
  {
    b & Mask(k) != 0
  }

  lemma ByteBitIsShift(b: bv8, k: nat)
    requires k < 8
    ensures ByteBit(b, k) <==> (b >> k) & 1 == 1
  {
    assert k == 0 || k == 1 || k == 2 || k == 3 || k == 4 || k == 5 || k == 6 || k == 7;
  }

  lemma ByteBitUpdates(b: bv8, k: nat, j: nat)
    requires k < 8 && j < 8
    ensures ByteBit(b | Mask(k), j) <==> j == k || ByteBit(b, j)
    ensures ByteBit(b & !Mask(k), j) <==> j != k && ByteBit(b, j)
  {
  }

  /** get_bit */
  predicate GetBit(bits: seq<bv8>, n: nat)
    requires n / 8 < |bits|
  {
    ByteBit(bits[n / 8], n % 8)
  }

  /** Bit n now reads v, and every other bit reads as before. */
  ghost predicate BitWritten(was: seq<bv8>, bits: seq<bv8>, n: nat, v: bool)
  {
    && |bits| == |was|
    && forall k: nat :: k / 8 < |was| ==> (GetBit(bits, k) <==> if k == n then v else GetBit(was, k))
  }

  method SetBit(bits: array<bv8>, n: nat)
    requires n / 8 < bits.Length
    modifies bits
    ensures BitWritten(old(bits[..]), bits[..], n, true)
  {
    ghost var was := bits[..];
    bits[n / 8] := bits[n / 8] | Mask(n % 8);
    forall k: nat | k / 8 < |was|
      ensures GetBit(bits[..], k) <==> k == n || GetBit(was, k)
    {
      ByteBitUpdates(was[n / 8], n % 8, k % 8);
    }
  }

  method ClearBit(bits: array<bv8>, n: nat)
    requires n / 8 < bits.Length
    modifies bits
    ensures BitWritten(old(bits[..]), bits[..], n, false)
  {
    ghost var was := bits[..];
    bits[n / 8] := bits[n / 8] & !Mask(n % 8);
    forall k: nat | k / 8 < |was|
      ensures GetBit(bits[..], k) <==> k != n && GetBit(was, k)
    {
      ByteBitUpdates(was[n / 8], n % 8, k % 8);
    }
  }
}
