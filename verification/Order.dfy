/** Powers of two, bit lengths, and the order (ceiling of log2) of a request size. */
module Order {

  const WORD := 0x1_0000_0000_0000_0000

  function Pow2(n: nat): (p: nat)
    ensures p >= 1
  {
    if n == 0 then 1 else 2 * Pow2(n - 1)
  }

  lemma {:induction false} Pow2Monotone(a: nat, b: nat)
    requires a <= b
    ensures Pow2(a) <= Pow2(b)
    decreases b
  {
    if a < b {
      Pow2Monotone(a, b - 1);
    }
  }

  lemma {:induction false} Pow2Add(a: nat, b: nat)
    ensures Pow2(a + b) == Pow2(a) * Pow2(b)
  {
    if a > 0 {
      Pow2Add(a - 1, b);
      assert Pow2(a + b) == 2 * Pow2(a - 1 + b);
    }
  }

  lemma Pow2Values()
    ensures Pow2(1) == 2 && Pow2(2) == 4 && Pow2(4) == 16 && Pow2(5) == 32 && Pow2(8) == 256
    ensures Pow2(16) == 0x1_0000 && Pow2(24) == 0x100_0000 && Pow2(32) == 0x1_0000_0000
  {
  }

  lemma Pow2Word()
    ensures Pow2(63) == WORD / 2 && Pow2(64) == WORD
  {
    Pow2Values();
    Pow2Add(32, 32);
    assert Pow2(64) == 2 * Pow2(63);
  }

  /** The number of significant bits of v; a 64-bit v has 64 - BitLength(v) leading zeros. */
  function BitLength(v: nat): (n: nat)
  {
    if v == 0 then 0 else 1 + BitLength(v / 2)
  }

  lemma {:induction false} BitLengthBounds(v: nat)
    ensures v < Pow2(BitLength(v))
    ensures v > 0 ==> BitLength(v) > 0 && Pow2(BitLength(v) - 1) <= v
  {
    if v > 0 {
      BitLengthBounds(v / 2);
    }
  }

  lemma {:induction false} BitLengthUnique(v: nat, n: nat)
    requires v < Pow2(n) && (n > 0 ==> Pow2(n - 1) <= v)
    ensures BitLength(v) == n
  {
    if v > 0 {
      assert n > 0;
      if n > 1 {
        assert Pow2(n - 1) == 2 * Pow2(n - 2);
      }
      BitLengthUnique(v / 2, n - 1);
    }
  }

  /** Shifting k known bits out lowers the bit length by exactly k. */
  lemma {:induction false} BitLengthShift(v: nat, k: nat)
    requires v >= Pow2(k)
    ensures BitLength(v) == k + BitLength(v / Pow2(k))
  {
    if k > 0 {
      assert Pow2(k) == 2 * Pow2(k - 1);
      BitLengthShift(v / 2, k - 1);
      assert v / 2 / Pow2(k - 1) == v / Pow2(k) by {
        HalveThenDivide(v, Pow2(k - 1));
      }
    }
  }

  lemma HalveThenDivide(v: nat, d: nat)
    requires d > 0
    ensures v / 2 / d == v / (2 * d)
  {
    var q := v / 2 / d;
    var r := v / 2 % d;
    assert v / 2 == d * q + r;
    assert v == 2 * (d * q + r) + v % 2;
    assert v == (2 * d) * q + (2 * r + v % 2);
    assert 0 <= 2 * r + v % 2 < 2 * d;
    QuotientUnique(v, 2 * d, q, 2 * r + v % 2);
  }

  lemma QuotientUnique(v: int, d: int, q: int, r: int)
    requires d > 0 && v == d * q + r && 0 <= r < d
    ensures v / d == q && v % d == r
  {
    var q' := v / d;
    if q > q' {
      MulGe(d, q - q');
    } else if q < q' {
      MulGe(d, q' - q);
    }
  }

  lemma MulLe(i: nat, j: nat, size: nat)
    requires i <= j
    ensures i * size <= j * size
  {
  }

  lemma MulGe(d: int, k: int)
    requires d > 0 && k >= 1
    ensures d * k >= d
  {
  }

  /** The order of a size as the count-leading-zeros form computes it. */
  function GetOrder(size: nat): (order: nat)
  {
    if size <= 1 then 0 else BitLength(size - 1)
  }

  /** GetOrder is the ceiling of log2: the smallest power of two that holds the size. */
  lemma GetOrderIsCeilLog2(size: nat, order: nat)
    requires size > 0
    ensures order == GetOrder(size) <==> (size <= Pow2(order) && (order > 0 ==> Pow2(order - 1) < size))
  {
    BitLengthBounds(size - 1);
    if size <= Pow2(order) && (order > 0 ==> Pow2(order - 1) < size) {
      BitLengthUnique(size - 1, order);
    }
  }

  lemma GetOrderOfPow2(n: nat)
    ensures GetOrder(Pow2(n)) == n
  {
    if n > 0 {
      assert Pow2(n) == 2 * Pow2(n - 1);
    }
    GetOrderIsCeilLog2(Pow2(n), n);
  }

  /** The mask test of the portable cascade: some bit of val in [k, 2k) is set. */
  predicate HasBits(val: nat, k: nat)
  {
    val / Pow2(k) % Pow2(k) != 0
  }

  lemma HasBitsIsBound(val: nat, k: nat)
    requires val < Pow2(2 * k)
    ensures HasBits(val, k) <==> val >= Pow2(k)
    ensures val / Pow2(k) < Pow2(k)
  {
    Pow2Add(k, k);
    QuotientBelow(val, Pow2(k), Pow2(k));
    SmallRemainder(val / Pow2(k), Pow2(k));
  }

  lemma SmallRemainder(v: nat, d: nat)
    requires v < d
    ensures v % d == v
  {
  }

  lemma QuotientBelow(v: nat, d: nat, b: nat)
    requires d > 0 && v < d * b
    ensures v / d < b
    ensures v < d ==> v / d == 0
    ensures v >= d ==> v / d >= 1
  {
    if v / d > b {
      MulGe(d, v / d - b);
    }
  }

  /** One stage of the cascade: if the upper half of a 2k-bit value is not empty, shift it down. */
  method HalveBits(val: nat, k: nat, order: nat) returns (val': nat, order': nat)
    requires k > 0 && val < Pow2(2 * k)
    ensures val' < Pow2(k)
    ensures order' + BitLength(val') == order + BitLength(val)
  {
    val', order' := val, order;
    HasBitsIsBound(val, k);
    if HasBits(val, k) {
      BitLengthShift(val, k);
      val' := val / Pow2(k);
      order' := order + k;
    }
  }

  /** The portable shift cascade, for a 64-bit size. */
  method GetOrderPortable(size: nat) returns (order: nat)
    requires size < WORD
    ensures order == GetOrder(size)
  {
    if size <= 1 {
      return 0;
    }
    hide Pow2;
    Pow2Word();
    Pow2Values();
    var val := size - 1;
    order := 0;
    val, order := HalveBits(val, 32, order);
    val, order := HalveBits(val, 16, order);
    val, order := HalveBits(val, 8, order);
    val, order := HalveBits(val, 4, order);
    val, order := HalveBits(val, 2, order);
    val, order := HalveBits(val, 1, order);
    if val % 2 == 1 {
      order := order + 1;
    }
  }
}
