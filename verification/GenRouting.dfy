/** Which tier and which pool serves a size in the general allocator. */
module GenRouting {

  const POOL_COUNT: nat := 8
  const SMALL_OBJ_LIMIT: nat := 2048
  const MEDIUM_OBJ_LIMIT: nat := 1024 * 1024

  const POOL_SIZES: seq<nat> := [16, 32, 64, 128, 256, 512, 1024, 2048]
  const POOL_BLOCKS: seq<nat> := [4096, 2048, 1024, 512, 256, 128, 64, 32]

  /** n entries of pool_index_table in a row, all v. */
  function Row(v: nat, n: nat): seq<nat> { seq(n, _ => v) }

  /** pool_index_table, row by row: one entry for each 16 bytes of size. */
  const POOL_INDEX_TABLE: seq<nat> :=
    Row(0, 1) + Row(1, 1) + Row(2, 2) + Row(3, 4) + Row(4, 8) + Row(5, 16) + Row(6, 32) + Row(7, 64)

  /** get_pool_index */
  function PoolIndex(size: nat): (i: nat)
    ensures i < POOL_COUNT
  {
    if size == 0 then 0
    else if (size - 1) / 16 > 127 then 7
    else POOL_INDEX_TABLE[(size - 1) / 16]
  }

  /** A small size is routed to the smallest pool block that fits. */
  lemma PoolIndexIsBestFit(size: nat)
    requires 0 < size <= SMALL_OBJ_LIMIT
    ensures size <= POOL_SIZES[PoolIndex(size)]
    ensures forall i :: 0 <= i < PoolIndex(size) ==> POOL_SIZES[i] < size
  {
    var k := (size - 1) / 16;
    assert POOL_INDEX_TABLE[k] == if k < 1 then 0 else if k < 2 then 1 else if k < 4 then 2 else if k < 8 then 3
                                  else if k < 16 then 4 else if k < 32 then 5 else if k < 64 then 6 else 7;
  }

  /** Every pool fills one 64 KiB buffer. */
  lemma PoolBytes(i: nat)
    requires i < POOL_COUNT
    ensures POOL_SIZES[i] * POOL_BLOCKS[i] == 0x1_0000
    ensures POOL_SIZES[i] % 8 == 0 && POOL_SIZES[i] >= 16 && POOL_BLOCKS[i] > 0
  {
  }
}
