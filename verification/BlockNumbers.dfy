/**
 pos_to_block_num() of core/tee/tee_ree_fs.c takes the position as an `int`: which positions it
 turns into the right block, and what becomes of reads and writes at the others.
 */
module BlockNumbers {
  import opened Prelude
  import opened BlockBytes

  const INT_MAX: nat := 0x7FFF_FFFF
  const UINT_MAX: nat := 0xFFFF_FFFF
  const SIZE_MAX: nat := 0xFFFF_FFFF_FFFF_FFFF

  /** Number of blocks with positions that fit an int. */
  const MAX_BLOCKS: nat := 0x8_0000

  /** A size_t as an int: the low 32 bits, with a sign. */
  function AsInt(pos: nat): (n: int)
    ensures 0 - INT_MAX - 1 <= n <= INT_MAX
  {
    var low := pos % (UINT_MAX + 1);
    if low <= INT_MAX then low else low - (UINT_MAX + 1)
  }

  /** An int as a size_t. */
  function AsSize(n: int): nat
    requires 0 - SIZE_MAX - 1 <= n
  {
    if n < 0 then n + SIZE_MAX + 1 else n
  }

  /** pos_to_block_num(); the shift of a negative int rounds down. */
  function PosToBlockNum(pos: nat): (n: int)
    ensures 0 - INT_MAX - 1 <= n
  {
    AsInt(pos) / BLOCK_SIZE
  }

  /** The block is the right one exactly up to 2^31 - 1. */
  lemma RightBlock(pos: nat)
    requires pos <= SIZE_MAX
    ensures PosToBlockNum(pos) == pos / BLOCK_SIZE <==> pos <= INT_MAX
  {
    if INT_MAX < pos <= UINT_MAX {
      assert AsInt(pos) < 0;
    }
  }

  /** At 2^31 it is negative. */
  lemma FirstWrong()
    ensures PosToBlockNum(INT_MAX + 1) == -524288
  {
  }

  /** A range whose last byte has a position that fits an int. */
  predicate Addressable(pos: nat, len: nat) {
    len == 0 || pos + len - 1 <= INT_MAX
  }

  /** The first and the last block of a range are the right ones exactly when its last position fits. */
  lemma RightBlocks(pos: nat, len: nat)
    requires len > 0 && pos + len - 1 <= SIZE_MAX
    ensures PosToBlockNum(pos) == pos / BLOCK_SIZE && PosToBlockNum(pos + len - 1) == (pos + len - 1) / BLOCK_SIZE
       <==> Addressable(pos, len)
  {
    RightBlock(pos);
    RightBlock(pos + len - 1);
  }

  /** The assert in node_id_to_level() for the node of a block, numbered as a size_t. */
  predicate NodeAllowed(num: nat) {
    0 < (num + 1) % (SIZE_MAX + 1) < UINT_MAX
  }

  lemma Negative(pos: nat)
    requires INT_MAX < pos <= UINT_MAX
    ensures -524288 <= PosToBlockNum(pos) < 0
  {
    assert AsInt(pos) == pos - UINT_MAX - 1;
  }

  /** Other reads below 2^32 read nothing at all, or stop at the first block. */
  lemma ReadFails(pos: nat, len: nat)
    requires len > 0 && INT_MAX < pos + len - 1 <= UINT_MAX
    ensures if pos <= INT_MAX then PosToBlockNum(pos) > PosToBlockNum(pos + len - 1)
            else PosToBlockNum(pos) <= PosToBlockNum(pos + len - 1) < 0 && !NodeAllowed(AsSize(PosToBlockNum(pos)))
  {
    Negative(pos + len - 1);
    if pos > INT_MAX {
      Negative(pos);
      assert AsInt(pos) <= AsInt(pos + len - 1);
    }
  }
}
