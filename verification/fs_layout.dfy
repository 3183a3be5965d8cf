/** Sizes of the on-disk structures (fs/testfs.h, fs/inode.h) and the view of a block as an array of
    32-bit little-endian integers, through which index blocks are read and written. */
module Layout {

  const BLOCK_SIZE := 8192
  const NR_DIRECT_BLOCKS := 10
  const NR_INDIRECT_BLOCKS := 2048
  const MAX_BLOCK_NR := NR_DIRECT_BLOCKS + NR_INDIRECT_BLOCKS + NR_INDIRECT_BLOCKS * NR_INDIRECT_BLOCKS
  const MAX_FILE_SIZE := MAX_BLOCK_NR * BLOCK_SIZE

  const SUPER_BLOCK_SIZE := 1
  const INODE_FREEMAP_SIZE := 1
  const BLOCK_FREEMAP_SIZE := 16
  const NR_INODE_BLOCKS := 128
  const INODES_PER_BLOCK := 128

  /** Numbers of bits in the two free maps. */
  const NR_INODE_BITS := BLOCK_SIZE * INODE_FREEMAP_SIZE * 8
  const NR_BLOCK_BITS := BLOCK_SIZE * BLOCK_FREEMAP_SIZE * 8

  /** Inodes for which there is room in the inode blocks. */
  const NR_INODES := NR_INODE_BLOCKS * INODES_PER_BLOCK

  /** First physical block of the data area, and the first block number past it. */
  const DATA_START := SUPER_BLOCK_SIZE + INODE_FREEMAP_SIZE + BLOCK_FREEMAP_SIZE + NR_INODE_BLOCKS
  const DATA_LIMIT := DATA_START + NR_BLOCK_BITS

  const EFBIG := -27
  const ENOSPC := -28

  type byte = b: int | 0 <= b < 256
  type Block = b: seq<byte> | |b| == BLOCK_SIZE witness seq(BLOCK_SIZE, i => 0)

  function ZeroBlock(): Block { seq(BLOCK_SIZE, i => 0) }

  const TWO_31 := 0x8000_0000
  const TWO_32 := 0x1_0000_0000

  /** `((int *) block)[i]`. */
  function Ptr(b: Block, i: nat): (p: int)
    requires i < NR_INDIRECT_BLOCKS
    ensures -TWO_31 <= p < TWO_31
  {
    var u: int := b[4 * i] as int + 256 * b[4 * i + 1] as int + 65536 * b[4 * i + 2] as int + 16777216 * b[4 * i + 3] as int;
    if u < TWO_31 then u else u - TWO_32
  }

  /** `((int *) block)[i] = p`. */
  function SetPtr(b: Block, i: nat, p: int): Block
    requires i < NR_INDIRECT_BLOCKS && -TWO_31 <= p < TWO_31
  {
    var u := p % TWO_32;
    b[4 * i := u % 256][4 * i + 1 := u / 256 % 256][4 * i + 2 := u / 65536 % 256][4 * i + 3 := u / 16777216]
  }

  /** Storing a pointer and reading it back gives the pointer; its neighbours stay. */
  lemma PtrOfSetPtr(b: Block, i: nat, p: int, j: nat)
    requires i < NR_INDIRECT_BLOCKS && j < NR_INDIRECT_BLOCKS && -TWO_31 <= p < TWO_31
    ensures Ptr(SetPtr(b, i, p), j) == if j == i then p else Ptr(b, j)
  {
    var u := p % TWO_32;
    assert u == u % 256 + 256 * (u / 256 % 256) + 65536 * (u / 65536 % 256) + 16777216 * (u / 16777216);
  }

  lemma PtrOfZero(i: nat)
    requires i < NR_INDIRECT_BLOCKS
    ensures Ptr(ZeroBlock(), i) == 0
  {}

  /** The logical block of an offset, and the position in that block. */
  function BlockOf(off: nat): nat { off / BLOCK_SIZE }
  function IndexOf(off: nat): (k: nat) ensures k < BLOCK_SIZE { off % BLOCK_SIZE }

  lemma OffsetParts(n: nat, k: nat)
    requires k < BLOCK_SIZE
    ensures BlockOf(n * BLOCK_SIZE + k) == n && IndexOf(n * BLOCK_SIZE + k) == k
  {}

  lemma OffsetSum(off: nat)
    ensures IndexOf(off) < BLOCK_SIZE && off == BlockOf(off) * BLOCK_SIZE + IndexOf(off)
  {}

  /** The entry of the double-indirect block, and the entry of the indirect block below it. */
  function NodeOf(m: nat): nat { m / NR_INDIRECT_BLOCKS }
  function EntryOf(m: nat): (e: nat) ensures e < NR_INDIRECT_BLOCKS { m % NR_INDIRECT_BLOCKS }

  lemma EntryParts(m: nat)
    ensures m == NR_INDIRECT_BLOCKS * NodeOf(m) + EntryOf(m)
    ensures m < NR_INDIRECT_BLOCKS * NR_INDIRECT_BLOCKS <==> NodeOf(m) < NR_INDIRECT_BLOCKS
  {}
}
