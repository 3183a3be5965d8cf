/** The superblock object of fs/super.c: free maps in memory, written through to the device on every
    change. */
module SuperBlocks {
  import opened Layout
  import opened BitWords
  import opened Bitmaps
  import opened BlockTree
  import opened BlockAlloc

  /** `struct dsuper_block` without the constant layout fields. */
  datatype SuperRecord = SuperRecord(usedInodes: int, usedBlocks: int, maxBlocks: int)

  /** The device, region by region. */
  datatype Device = Device(super: SuperRecord, inodeMap: seq<Block>, blockMap: seq<Block>, inodes: seq<Dinode>, data: seq<Block>)

  predicate WellSized(dev: Device) {
    && |dev.inodeMap| == INODE_FREEMAP_SIZE && |dev.blockMap| == BLOCK_FREEMAP_SIZE
    && |dev.inodes| == NR_INODES && |dev.data| == NR_BLOCK_BITS
  }

  function ByteOfWord(w: bv8): byte { w as int }

  lemma WordOfByte(w: bv8)
    ensures (ByteOfWord(w) as bv8) == w
  {}

  lemma ByteOfByte(b: byte)
    ensures ByteOfWord(b as bv8) == b
  {}

  function WordByte(v: seq<bv8>, nr: nat, k: nat): byte
    requires (nr + 1) * BLOCK_SIZE <= |v| && k < BLOCK_SIZE
  {
    ByteOfWord(v[nr * BLOCK_SIZE + k])
  }

  /** One block of the in-memory free map, as bytes. */
  function MapBlockBytes(v: seq<bv8>, nr: nat): (b: Block)
    requires (nr + 1) * BLOCK_SIZE <= |v|
    ensures forall k :: 0 <= k < BLOCK_SIZE ==> b[k] == WordByte(v, nr, k)
  {
    seq<byte>(BLOCK_SIZE, k requires 0 <= k < BLOCK_SIZE => WordByte(v, nr, k))
  }

  /** The blocks on the device hold exactly the words in memory. */
  ghost predicate Mirrors(blocks: seq<Block>, v: seq<bv8>) {
    && |v| == |blocks| * BLOCK_SIZE
    && forall nr :: 0 <= nr < |blocks| ==> blocks[nr] == MapBlockBytes(v, nr)
  }

  /** A free map on the device determines the free map in memory. */
  lemma MirrorsDetermine(blocks: seq<Block>, v: seq<bv8>, u: seq<bv8>)
    requires Mirrors(blocks, v) && Mirrors(blocks, u)
    ensures v == u
  {
    forall i | 0 <= i < |v| ensures v[i] == u[i] {
      OffsetSum(i);
      var nr, k := BlockOf(i), IndexOf(i);
      assert blocks[nr][k] == WordByte(v, nr, k) == WordByte(u, nr, k);
      WordOfByte(v[i]);
      WordOfByte(u[i]);
    }
  }

  /** Writing back the one block that holds a changed word restores the mirror. */
  lemma MirrorsAfterWrite(blocks: seq<Block>, v: seq<bv8>, u: seq<bv8>, ix: nat)
    requires Mirrors(blocks, v) && |u| == |v| && ix < |v|
    requires forall i :: 0 <= i < |v| && i != ix ==> u[i] == v[i]
    ensures BlockOf(ix) < |blocks| && (BlockOf(ix) + 1) * BLOCK_SIZE <= |u|
    ensures Mirrors(blocks[BlockOf(ix) := MapBlockBytes(u, BlockOf(ix))], u)
  {
    OffsetSum(ix);
    forall nr | 0 <= nr < |blocks| && nr != BlockOf(ix) ensures MapBlockBytes(u, nr) == MapBlockBytes(v, nr) {
      forall k | 0 <= k < BLOCK_SIZE ensures WordByte(u, nr, k) == WordByte(v, nr, k) {
        OffsetParts(nr, k);
      }
    }
  }

  /** The block number in which `testfs_write_block_freemap` finds the bit. */
  lemma FreemapBlock(bit: nat)
    ensures bit / (BLOCK_SIZE * BITS_PER_WORD) == BlockOf(bit / BITS_PER_WORD)
  {}

  ghost function UsedBlocks(bits: set<nat>): set<int> {
    set p: int | DATA_START <= p < DATA_LIMIT && Marked(bits, p)
  }

  ghost predicate Marked(bits: set<nat>, p: int) {
    p >= DATA_START && p - DATA_START in bits
  }

  lemma FirstFreeIs(used: set<int>, p: int, r: int)
    requires DATA_START <= p <= r <= DATA_LIMIT
    requires forall q :: p <= q < r ==> q in used
    requires r < DATA_LIMIT ==> r !in used
    ensures FirstFree(used, p) == r
  {}

  lemma FirstFreeOfMap(used: set<int>, bits: set<nat>)
    requires used == UsedBlocks(bits)
    ensures forall p: int :: p in used <==> DATA_START <= p < DATA_LIMIT && p - DATA_START in bits
  {}

  class SuperBlock {
    var dev: Device
    const inodeFreemap: Bitmap
    const blockFreemap: Bitmap
    var usedInodes: int
    var usedBlocks: int
    var maxBlocks: int

    /** In memory and on the device the free maps and the counters agree. */
    ghost predicate Valid()
      reads this, inodeFreemap.v, blockFreemap.v
    {
      && WellSized(dev)
      && inodeFreemap.v != blockFreemap.v
      && inodeFreemap.Valid() && inodeFreemap.nbits == NR_INODE_BITS
      && blockFreemap.Valid() && blockFreemap.nbits == NR_BLOCK_BITS
      && Mirrors(dev.inodeMap, inodeFreemap.v[..])
      && Mirrors(dev.blockMap, blockFreemap.v[..])
      && dev.super == SuperRecord(usedInodes, usedBlocks, maxBlocks)
    }

    ghost function Vol(): Volume
      requires Valid()
      reads this, inodeFreemap.v, blockFreemap.v
    {
      Volume(dev.data, UsedBlocks(blockFreemap.Bits()), usedBlocks, maxBlocks)
    }

    /** The part of the superblock that block operations leave alone. */
    ghost function InodeSide(): (seq<Dinode>, int)
      reads this
    {
      (dev.inodes, usedInodes)
    }

    /** `testfs_init_super_block`: everything comes from the device. */
    constructor Open(dev: Device)
      requires WellSized(dev)
      ensures Valid() && this.dev == dev
      ensures fresh(inodeFreemap.v) && fresh(blockFreemap.v)
    {
      this.dev := dev;
      usedInodes, usedBlocks, maxBlocks := dev.super.usedInodes, dev.super.usedBlocks, dev.super.maxBlocks;
      inodeFreemap := new Bitmap(BLOCK_SIZE * INODE_FREEMAP_SIZE * BITS_PER_WORD);
      blockFreemap := new Bitmap(BLOCK_SIZE * BLOCK_FREEMAP_SIZE * BITS_PER_WORD);
      new;
      LoadFreemap(inodeFreemap, dev.inodeMap);
      LoadFreemap(blockFreemap, dev.blockMap);
    }

    /** `testfs_close_super_block`: after write-through there is nothing left to bring up to date. */
    method Close()
      requires Valid()
      modifies this
      ensures Valid() && dev == old(dev) && Vol() == old(Vol()) && usedInodes == old(usedInodes)
    {
      dev := dev.(super := SuperRecord(usedInodes, usedBlocks, maxBlocks));
      StoreInodeFreemap(0);
      for nr := 0 to BLOCK_FREEMAP_SIZE
        invariant Valid() && dev == old(dev) && usedInodes == old(usedInodes)
      {
        StoreBlockFreemap(nr);
      }
    }

    method StoreInodeFreemap(nr: nat)
      requires WellSized(dev) && inodeFreemap.v.Length == INODE_FREEMAP_SIZE * BLOCK_SIZE && nr < INODE_FREEMAP_SIZE
      modifies this`dev
      ensures dev == old(dev).(inodeMap := old(dev).inodeMap[nr := MapBlockBytes(inodeFreemap.v[..], nr)])
    {
      dev := dev.(inodeMap := dev.inodeMap[nr := MapBlockBytes(inodeFreemap.v[..], nr)]);
    }

    method StoreBlockFreemap(nr: nat)
      requires WellSized(dev) && blockFreemap.v.Length == BLOCK_FREEMAP_SIZE * BLOCK_SIZE && nr < BLOCK_FREEMAP_SIZE
      modifies this`dev
      ensures dev == old(dev).(blockMap := old(dev).blockMap[nr := MapBlockBytes(blockFreemap.v[..], nr)])
    {
      dev := dev.(blockMap := dev.blockMap[nr := MapBlockBytes(blockFreemap.v[..], nr)]);
    }

    /** `testfs_get_block_freemap`. */
    method GetBlockFreemap() returns (r: AllocResult)
      requires Valid()
      modifies this`dev, blockFreemap.v
      ensures Valid() && dev == old(dev).(blockMap := dev.blockMap)
      ensures inodeFreemap.v[..] == old(inodeFreemap.v[..])
      ensures r.Index? ==> r.value < NR_BLOCK_BITS && r.value !in old(blockFreemap.Bits()) &&
                           blockFreemap.Bits() == old(blockFreemap.Bits()) + {r.value} &&
                           forall i: nat :: i < r.value ==> i in old(blockFreemap.Bits())
      ensures r.NoSpace? ==> blockFreemap.v[..] == old(blockFreemap.v[..]) &&
                             forall i: nat :: i < NR_BLOCK_BITS ==> i in blockFreemap.Bits()
    {
      ghost var v := blockFreemap.v[..];
      r := blockFreemap.Alloc();
      if r.Index? {
        MirrorsAfterWrite(dev.blockMap, v, blockFreemap.v[..], r.value / BITS_PER_WORD);
        FreemapBlock(r.value);
        StoreBlockFreemap(r.value / (BLOCK_SIZE * BITS_PER_WORD));
      }
    }

    /** `testfs_put_block_freemap`. */
    method PutBlockFreemap(bit: nat)
      requires Valid() && bit < NR_BLOCK_BITS && bit in blockFreemap.Bits()
      modifies this`dev, blockFreemap.v
      ensures Valid() && dev == old(dev).(blockMap := dev.blockMap)
      ensures blockFreemap.Bits() == old(blockFreemap.Bits()) - {bit}
    {
      ghost var v := blockFreemap.v[..];
      blockFreemap.Unmark(bit);
      MirrorsAfterWrite(dev.blockMap, v, blockFreemap.v[..], bit / BITS_PER_WORD);
      FreemapBlock(bit);
      StoreBlockFreemap(bit / (BLOCK_SIZE * BITS_PER_WORD));
    }

    /** `testfs_alloc_block`. */
    method AllocBlock() returns (p: int)
      requires Valid()
      modifies this, blockFreemap.v
      ensures Valid() && (Vol(), p) == BlockAlloc.AllocBlock(old(Vol()))
      ensures InodeSide() == old(InodeSide())
    {
      FirstFreeOfMap(Vol().used, blockFreemap.Bits());
      if usedBlocks >= maxBlocks {
        return ENOSPC;
      }
      var r := GetBlockFreemap();
      if r.NoSpace? {
        FirstFreeIs(Vol().used, DATA_START, DATA_LIMIT);
        return ENOSPC;
      }
      usedBlocks := usedBlocks + 1;
      dev := dev.(super := SuperRecord(usedInodes, usedBlocks, maxBlocks));
      p := DATA_START + r.value;
      FirstFreeIs(old(Vol()).used, DATA_START, p);
      assert Vol().used == old(Vol()).used + {p};
    }

    /** `testfs_free_block`; its asserts hold for any block in use. */
    method FreeBlock(p: int)
      requires Valid() && p in Vol().used && usedBlocks > 0
      modifies this, blockFreemap.v
      ensures Valid() && Vol() == BlockAlloc.FreeBlock(old(Vol()), p)
      ensures InodeSide() == old(InodeSide())
    {
      WriteBlock(p, ZeroBlock());
      var bit := p - DATA_START;
      assert bit >= 0;
      PutBlockFreemap(bit);
      assert usedBlocks > 0;
      usedBlocks := usedBlocks - 1;
      dev := dev.(super := SuperRecord(usedInodes, usedBlocks, maxBlocks));
      assert Vol().used == old(Vol()).used - {p};
    }

    /** `testfs_get_inode_freemap`. */
    method GetInodeFreemap() returns (r: AllocResult)
      requires Valid()
      modifies this, inodeFreemap.v
      ensures Valid() && Vol() == old(Vol()) && dev.inodes == old(dev).inodes
      ensures r.Index? ==> r.value < NR_INODE_BITS && r.value !in old(inodeFreemap.Bits()) &&
                           inodeFreemap.Bits() == old(inodeFreemap.Bits()) + {r.value} &&
                           usedInodes == old(usedInodes) + 1 &&
                           forall i: nat :: i < r.value ==> i in old(inodeFreemap.Bits())
      ensures r.NoSpace? ==> inodeFreemap.Bits() == old(inodeFreemap.Bits()) && usedInodes == old(usedInodes) &&
                             forall i: nat :: i < NR_INODE_BITS ==> i in inodeFreemap.Bits()
    {
      ghost var v := inodeFreemap.v[..];
      r := inodeFreemap.Alloc();
      if r.Index? {
        MirrorsAfterWrite(dev.inodeMap, v, inodeFreemap.v[..], r.value / BITS_PER_WORD);
        FreemapBlock(r.value);
        StoreInodeFreemap(r.value / (BLOCK_SIZE * BITS_PER_WORD));
        usedInodes := usedInodes + 1;
        dev := dev.(super := SuperRecord(usedInodes, usedBlocks, maxBlocks));
      }
    }

    /** `testfs_put_inode_freemap`; the caller owes a number in use and a positive count. */
    method PutInodeFreemap(nr: nat)
      requires Valid() && nr < NR_INODE_BITS && nr in inodeFreemap.Bits() && usedInodes > 0
      modifies this, inodeFreemap.v
      ensures Valid() && Vol() == old(Vol()) && dev.inodes == old(dev).inodes
      ensures inodeFreemap.Bits() == old(inodeFreemap.Bits()) - {nr} && usedInodes == old(usedInodes) - 1
    {
      ghost var v := inodeFreemap.v[..];
      inodeFreemap.Unmark(nr);
      MirrorsAfterWrite(dev.inodeMap, v, inodeFreemap.v[..], nr / BITS_PER_WORD);
      FreemapBlock(nr);
      StoreInodeFreemap(nr / (BLOCK_SIZE * BITS_PER_WORD));
      usedInodes := usedInodes - 1;
      dev := dev.(super := SuperRecord(usedInodes, usedBlocks, maxBlocks));
    }

    /** `read_blocks` on the data area. */
    function ReadBlock(p: int): (b: Block)
      requires Valid() && DATA_START <= p < DATA_LIMIT
      reads this, inodeFreemap.v, blockFreemap.v
      ensures b == Blk(Vol(), p)
    {
      dev.data[p - DATA_START]
    }

    /** `write_blocks` on the data area. */
    method WriteBlock(p: int, b: Block)
      requires Valid() && DATA_START <= p < DATA_LIMIT
      modifies this`dev
      ensures Valid() && Vol() == Put(old(Vol()), p, b)
      ensures InodeSide() == old(InodeSide())
    {
      dev := dev.(data := dev.data[p - DATA_START := b]);
    }
  }

  /** Closing and opening again recovers the allocation state, in memory and in count. */
  method Remount(sb: SuperBlock) returns (again: SuperBlock)
    requires sb.Valid()
    modifies sb
    ensures sb.Valid() && again.Valid() && again.dev == old(sb.dev)
    ensures fresh(again) && fresh(again.inodeFreemap.v) && fresh(again.blockFreemap.v)
    ensures again.Vol() == old(sb.Vol())
    ensures again.inodeFreemap.Bits() == old(sb.inodeFreemap.Bits()) && again.usedInodes == old(sb.usedInodes)
  {
    sb.Close();
    again := new SuperBlock.Open(sb.dev);
    MirrorsDetermine(sb.dev.blockMap, sb.blockFreemap.v[..], again.blockFreemap.v[..]);
    MirrorsDetermine(sb.dev.inodeMap, sb.inodeFreemap.v[..], again.inodeFreemap.v[..]);
  }

  /** Reads a free map from the device over the bitmap's words; its size is a multiple of the word. */
  method LoadFreemap(b: Bitmap, blocks: seq<Block>)
    requires b.Valid() && b.nbits == |blocks| * BLOCK_SIZE * BITS_PER_WORD
    modifies b.v
    ensures b.Valid() && Mirrors(blocks, b.v[..])
  {
    assert b.v.Length == |blocks| * BLOCK_SIZE;
    forall i | 0 <= i < b.v.Length {
      b.v[i] := blocks[i / BLOCK_SIZE][i % BLOCK_SIZE] as bv8;
    }
    forall nr | 0 <= nr < |blocks| ensures blocks[nr] == MapBlockBytes(b.v[..], nr) {
      forall k | 0 <= k < BLOCK_SIZE ensures blocks[nr][k] == WordByte(b.v[..], nr, k) {
        OffsetParts(nr, k);
        ByteOfByte(blocks[nr][k]);
      }
    }
  }
}
