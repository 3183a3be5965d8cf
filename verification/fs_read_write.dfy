/** The methods of fs/read_write.c, on the mutable inode and superblock. */
module ReadWrite {
  import opened Layout
  import opened BlockTree
  import opened BlockAlloc
  import opened AllocProofs
  import opened FileContents
  import opened Teardown
  import opened SuperBlocks
  import opened Inodes

  ghost predicate TreeOk(f: File) {
    exists own, foreign :: TreeInv(f, own, foreign)
  }

  ghost predicate FileOk(f: File) {
    exists own, foreign :: FileInv(f, own, foreign)
  }

  /** Index blocks lie in the data area. */
  lemma PointersInRange(f: File, s: Slot)
    requires TreeOk(f)
    ensures At(f.vol, f.d, s) == 0 || (DATA_START <= At(f.vol, f.d, s) < DATA_LIMIT && At(f.vol, f.d, s) in f.vol.used)
    ensures f.vol.usedCount >= 0
  {
    var own, foreign :| TreeInv(f, own, foreign);
  }

  lemma DirectCase(f: File, n: nat)
    requires TreeOk(f) && n < NR_DIRECT_BLOCKS
    ensures |f.d.direct| == NR_DIRECT_BLOCKS && MapBlock(f, n) == f.d.direct[n]
  {}

  lemma SingleCase(f: File, n: nat)
    requires NR_DIRECT_BLOCKS <= n < NR_DIRECT_BLOCKS + NR_INDIRECT_BLOCKS
    ensures MapBlock(f, n) == PtrIn(f.vol, f.d.indirect, n - NR_DIRECT_BLOCKS)
  {}

  lemma DoubleCase(f: File, n: nat)
    requires NR_DIRECT_BLOCKS + NR_INDIRECT_BLOCKS <= n < MAX_BLOCK_NR
    ensures var m := n - NR_DIRECT_BLOCKS - NR_INDIRECT_BLOCKS;
      NodeOf(m) < NR_INDIRECT_BLOCKS && MapBlock(f, n) == PtrIn(f.vol, PtrIn(f.vol, f.d.dindirect, NodeOf(m)), EntryOf(m))
  {}

  /** Every pointer is zero or a block in use, in the data area. */
  ghost predicate InUse(f: File, p: int) {
    p == 0 || (DATA_START <= p < DATA_LIMIT && p in f.vol.used)
  }

  lemma PointersInUse(f: File, n: nat, i: nat)
    requires TreeOk(f)
    ensures InUse(f, f.d.indirect) && InUse(f, f.d.dindirect) && InUse(f, MapBlock(f, n))
    ensures InUse(f, PtrIn(f.vol, f.d.dindirect, i))
  {
    hide TreeOk, Ptr, Blk, LeafSlot;
    PointersInRange(f, Ind);
    PointersInRange(f, Dind);
    PointersInRange(f, LeafSlot(n));
    PointersInRange(f, DindNode(i));
  }

  /** The double-indirect part of `testfs_read_block`. */
  method ReadDoublePointer(node: Inode, n: nat) returns (phys: int)
    requires node.sb.Valid() && TreeOk(node.St())
    requires NodeOf(n) < NR_INDIRECT_BLOCKS
    ensures phys == PtrIn(node.sb.Vol(), PtrIn(node.sb.Vol(), node.d.dindirect, NodeOf(n)), EntryOf(n))
  {
    hide TreeOk, Ptr, Blk, MapBlock, NodeOf, EntryOf;
    phys := 0;
    ghost var f := node.St();
    var idBlockNr := NodeOf(n);
    PointersInUse(f, 0, idBlockNr);
    if idBlockNr <= NR_INDIRECT_BLOCKS {
      if node.d.dindirect > 0 {
        var block := node.sb.ReadBlock(node.d.dindirect);
        var idBlock := Ptr(block, idBlockNr);
        if idBlock > 0 {
          block := node.sb.ReadBlock(idBlock);
          phys := Ptr(block, EntryOf(n));
        }
      }
    }
  }

  /** `testfs_read_block`: the physical block of a logical block with its content, 0 and zeros for a
      hole. */
  method ReadBlock(node: Inode, logBlock: nat) returns (phys: int, block: Block)
    requires node.sb.Valid() && TreeOk(node.St())
    ensures logBlock >= MAX_BLOCK_NR ==> phys == EFBIG
    ensures logBlock < MAX_BLOCK_NR ==> phys == MapBlock(node.St(), logBlock) && phys >= 0 && block == BufferFor(node.St(), logBlock)
  {
    hide TreeOk, Ptr, Blk, MapBlock, ZeroBlock, SuperBlock.Valid, SuperBlock.Vol, NodeOf, EntryOf;
    if logBlock >= MAX_BLOCK_NR {
      return EFBIG, ZeroBlock();
    }
    phys := 0;
    ghost var f := node.St();
    PointersInUse(f, logBlock, 0);
    if logBlock < NR_DIRECT_BLOCKS {
      DirectCase(f, logBlock);
      phys := node.d.direct[logBlock];
    } else if logBlock - NR_DIRECT_BLOCKS >= NR_INDIRECT_BLOCKS {
      DoubleCase(f, logBlock);
      phys := ReadDoublePointer(node, logBlock - NR_DIRECT_BLOCKS - NR_INDIRECT_BLOCKS);
    } else {
      SingleCase(f, logBlock);
      if node.d.indirect > 0 {
        block := node.sb.ReadBlock(node.d.indirect);
        phys := Ptr(block, logBlock - NR_DIRECT_BLOCKS);
      }
    }
    assert phys == MapBlock(f, logBlock);
    if phys > 0 {
      block := node.sb.ReadBlock(phys);
    } else {
      block := ZeroBlock();
    }
  }

  /** The direct branch of `testfs_allocate_block`. */
  method AllocateDirect(node: Inode, n: nat) returns (phys: int)
    requires node.sb.Valid() && n < NR_DIRECT_BLOCKS && |node.d.direct| == NR_DIRECT_BLOCKS
    modifies node`d, node`dirty, node.sb, node.sb.blockFreemap.v
    ensures node.sb.Valid() && (node.St(), phys) == BlockAlloc.AllocDirect(old(node.St()), n)
    ensures node.sb.InodeSide() == old(node.sb.InodeSide())
  {
    hide SuperBlock.Valid, SuperBlock.Vol, AllocForInode;
    phys := node.AllocBlock();
    AllocForInodeFields(old(node.St()));
    if phys >= 0 {
      node.d := node.d.(direct := node.d.direct[n := phys]);
    }
  }

  lemma AllocForInodeFields(f: File)
    ensures var (f', p) := AllocForInode(f);
      && f'.d == f.d.(blockCount := f'.d.blockCount) && f'.vol.data == f.vol.data
      && (p >= 0 ==> p in f'.vol.used && f'.vol.usedCount == f.vol.usedCount + 1 && DATA_START <= p < DATA_LIMIT &&
                     p !in f.vol.used && f'.vol.used == f.vol.used + {p})
      && (p < 0 ==> f' == f)
  {}

  /** The single-indirect branch of `testfs_allocate_block`, with its undo. */
  method AllocateSingle(node: Inode, i: nat) returns (phys: int)
    requires node.sb.Valid() && i < NR_INDIRECT_BLOCKS && node.sb.usedBlocks >= 0
    requires InUse(node.St(), node.d.indirect)
    requires PtrIn(node.sb.Vol(), node.d.indirect, i) == 0
    modifies node`d, node`dirty, node.sb, node.sb.blockFreemap.v
    ensures node.sb.Valid() && (node.St(), phys) == BlockAlloc.AllocSingle(old(node.St()), i)
    ensures node.sb.InodeSide() == old(node.sb.InodeSide())
  {
    hide SuperBlock.Valid, AllocForInode, FreeFromInode, Put, Ptr, SetPtr, Blk, ZeroBlock;
    var indirectAllocated := false;
    var indirect;
    if node.d.indirect == 0 {
      indirect := ZeroBlock();
      AllocForInodeFields(node.St());
      phys := node.AllocBlock();
      if phys < 0 {
        return;
      }
      indirectAllocated := true;
      node.d := node.d.(indirect := phys);
    } else {
      indirect := node.sb.ReadBlock(node.d.indirect);
    }
    PtrOfZero(i);
    assert Ptr(indirect, i) == 0;
    AllocForInodeFields(node.St());
    phys := node.AllocBlock();
    if phys >= 0 {
      node.sb.WriteBlock(node.d.indirect, SetPtr(indirect, i, phys));
    } else if indirectAllocated {
      node.FreeBlock(node.d.indirect);
      node.d := node.d.(indirect := 0);
    }
  }

  /** The double-indirect branch of `testfs_allocate_block`: up to the double-indirect block. */
  method AllocateDouble(node: Inode, i: nat, j: nat) returns (phys: int)
    requires node.sb.Valid() && i < NR_INDIRECT_BLOCKS && j < NR_INDIRECT_BLOCKS && node.sb.usedBlocks >= 0
    requires InUse(node.St(), node.d.dindirect) && InUse(node.St(), PtrIn(node.sb.Vol(), node.d.dindirect, i))
    requires PtrIn(node.sb.Vol(), PtrIn(node.sb.Vol(), node.d.dindirect, i), j) == 0
    modifies node`d, node`dirty, node.sb, node.sb.blockFreemap.v
    ensures node.sb.Valid() && (node.St(), phys) == BlockAlloc.AllocDouble(old(node.St()), i, j)
    ensures node.sb.InodeSide() == old(node.sb.InodeSide())
  {
    hide SuperBlock.Valid, AllocForInode, FreeFromInode, Put, Ptr, SetPtr, Blk, ZeroBlock, AllocNode;
    PtrOfZero(i);
    if node.d.dindirect == 0 {
      AllocForInodeFields(node.St());
      phys := node.AllocBlock();
      if phys < 0 {
        return;
      }
      node.d := node.d.(dindirect := phys);
      phys := AllocateNode(node, i, j, ZeroBlock(), true);
    } else {
      var dindirect := node.sb.ReadBlock(node.d.dindirect);
      phys := AllocateNode(node, i, j, dindirect, false);
    }
  }

  /** From the indirect block on; `dindirectAllocated` says that the double-indirect block is new. */
  method AllocateNode(node: Inode, i: nat, j: nat, dindirect: Block, dindirectAllocated: bool) returns (phys: int)
    requires node.sb.Valid() && i < NR_INDIRECT_BLOCKS && j < NR_INDIRECT_BLOCKS
    requires DATA_START <= node.d.dindirect < DATA_LIMIT && node.d.dindirect in node.sb.Vol().used
    requires node.sb.usedBlocks >= if dindirectAllocated then 1 else 0
    requires InUse(node.St(), Ptr(dindirect, i)) && PtrIn(node.sb.Vol(), Ptr(dindirect, i), j) == 0
    modifies node`d, node`dirty, node.sb, node.sb.blockFreemap.v
    ensures node.sb.Valid() && (node.St(), phys) == BlockAlloc.AllocNode(old(node.St()), i, j, dindirect, dindirectAllocated)
    ensures node.sb.InodeSide() == old(node.sb.InodeSide())
  {
    hide SuperBlock.Valid, AllocForInode, FreeFromInode, Put, Ptr, SetPtr, Blk, ZeroBlock;
    var idBlock := Ptr(dindirect, i);
    var indirect;
    var indirectAllocated := false;
    var node1 := dindirect;
    AllocForInodeFields(node.St());
    if idBlock == 0 {
      indirect := ZeroBlock();
      phys := node.AllocBlock();
      if phys < 0 {
        if dindirectAllocated {
          node.FreeBlock(node.d.dindirect);
          node.d := node.d.(dindirect := 0);
        }
        return;
      }
      indirectAllocated := true;
      idBlock := phys;
      node1 := SetPtr(dindirect, i, idBlock);
    } else {
      indirect := node.sb.ReadBlock(idBlock);
    }
    PtrOfZero(j);
    assert Ptr(indirect, j) == 0;
    AllocForInodeFields(node.St());
    phys := node.AllocBlock();
    if phys >= 0 {
      node.sb.WriteBlock(idBlock, SetPtr(indirect, j, phys));
      if indirectAllocated {
        node.sb.WriteBlock(node.d.dindirect, node1);
      }
    } else if indirectAllocated {
      FreeFields(node.St(), idBlock);
      node.FreeBlock(idBlock);
      if dindirectAllocated {
        node.FreeBlock(node.d.dindirect);
        node.d := node.d.(dindirect := 0);
      }
    }
  }

  lemma FreeFields(f: File, p: int)
    requires p != 0
    ensures var g := FreeFromInode(f, p);
      g.vol.used == f.vol.used - {p} && g.vol.usedCount == f.vol.usedCount - 1 && g.d == f.d.(blockCount := g.d.blockCount)
  {}

  /** `testfs_allocate_block`: the method computes `BlockAlloc.AllocateBlock`, and the buffer it leaves
      holds the block's previous content or zeros. */
  method AllocateBlock(node: Inode, logBlock: nat) returns (phys: int, block: Block)
    requires node.sb.Valid() && TreeOk(node.St())
    modifies node`d, node`dirty, node.sb, node.sb.blockFreemap.v
    ensures node.sb.Valid() && (node.St(), phys) == BlockAlloc.AllocateBlock(old(node.St()), logBlock)
    ensures phys >= 0 ==> block == BufferFor(old(node.St()), logBlock)
    ensures node.sb.InodeSide() == old(node.sb.InodeSide())
  {
    hide TreeOk, SuperBlock.Valid, SuperBlock.Vol, AllocDirect, AllocSingle, AllocDouble, MapBlock, NodeOf, EntryOf;
    if logBlock >= MAX_BLOCK_NR {
      return EFBIG, ZeroBlock();
    }
    phys, block := ReadBlock(node, logBlock);
    if phys != 0 {
      return;
    }
    if logBlock < NR_DIRECT_BLOCKS {
      DirectCase(node.St(), logBlock);
      assert node.d.direct[logBlock] == 0;
      phys := AllocateDirect(node, logBlock);
    } else {
      phys := AllocateIndirect(node, logBlock);
    }
  }

  method AllocateIndirect(node: Inode, logBlock: nat) returns (phys: int)
    requires node.sb.Valid() && TreeOk(node.St()) && NR_DIRECT_BLOCKS <= logBlock < MAX_BLOCK_NR
    requires MapBlock(node.St(), logBlock) == 0
    modifies node`d, node`dirty, node.sb, node.sb.blockFreemap.v
    ensures node.sb.Valid() && (node.St(), phys) == BlockAlloc.AllocateBlock(old(node.St()), logBlock)
    ensures node.sb.InodeSide() == old(node.sb.InodeSide())
  {
    hide TreeOk, SuperBlock.Valid, AllocSingle, AllocDouble, MapBlock, NodeOf, EntryOf, PtrIn;
    var m := logBlock - NR_DIRECT_BLOCKS;
    PointersInRange(node.St(), Ind);
    if m >= NR_INDIRECT_BLOCKS {
      m := m - NR_INDIRECT_BLOCKS;
      PointersInUse(node.St(), logBlock, NodeOf(m));
      DoubleCase(node.St(), logBlock);
      phys := AllocateDouble(node, NodeOf(m), EntryOf(m));
    } else {
      PointersInUse(node.St(), logBlock, 0);
      SingleCase(node.St(), logBlock);
      phys := AllocateSingle(node, m);
    }
  }

  lemma ChunkKeepsOk(f: File, n: nat, ix: nat, w: seq<byte>)
    requires TreeOk(f) && ix + |w| <= BLOCK_SIZE
    ensures TreeOk(WriteChunk(f, n, ix, w).0)
    ensures var (f1, r) := BlockAlloc.AllocateBlock(f, n); r >= 0 ==> DATA_START <= r < DATA_LIMIT
  {
    var own, foreign :| TreeInv(f, own, foreign);
    var own' := ChunkSpec(f, n, ix, w, own, foreign);
    var own2 := AllocateBlockSpec(f, n, own, foreign);
    MappedInRange(f, n, own, own2, foreign);
  }

  lemma MappedInRange(f: File, n: nat, own: map<int, Slot>, own': map<int, Slot>, foreign: set<int>)
    ensures var (f1, r) := BlockAlloc.AllocateBlock(f, n);
      r >= 0 && Mapped(f, f1, n, r, own, own', foreign) ==> DATA_START <= r < DATA_LIMIT
  {
    hide At, BlockAlloc.AllocateBlock, NoEmptyIndex, Owns, Need, Available, Blk, LeafSlot;
  }

  /** The chunk after a full one starts at the next block. */
  lemma NextChunk(at: nat, remaining: nat)
    requires remaining > 0
    ensures var len := ChunkLength(at, remaining);
      len < remaining ==> BlockOf(at + len) == BlockOf(at) + 1 && IndexOf(at + len) == 0
  {
    OffsetSum(at);
    OffsetParts(BlockOf(at) + 1, 0);
  }

  /** One round: allocate, splice the bytes into the buffer, write the block. */
  method WriteOneChunk(node: Inode, blockNr: nat, blockIx: nat, w: seq<byte>) returns (ret: int)
    requires node.sb.Valid() && TreeOk(node.St()) && blockIx + |w| <= BLOCK_SIZE
    modifies node`d, node`dirty, node.sb, node.sb.blockFreemap.v
    ensures node.sb.Valid() && TreeOk(node.St())
    ensures (node.St(), ret) == WriteChunk(old(node.St()), blockNr, blockIx, w)
    ensures node.sb.InodeSide() == old(node.sb.InodeSide())
  {
    hide TreeOk, SuperBlock.Valid, BlockAlloc.AllocateBlock, BufferFor, Splice, Put, Blk;
    ChunkKeepsOk(node.St(), blockNr, blockIx, w);
    var block;
    ret, block := AllocateBlock(node, blockNr);
    if ret >= 0 {
      node.sb.WriteBlock(ret, Splice(block, blockIx, w));
    }
  }

  /** `goal` is what the write loop returns when it goes on from here. */
  ghost predicate Heading(f: File, start: nat, buf: seq<byte>, pos: nat, goal: (File, int)) {
    pos <= |buf| && WriteLoop(f, start, buf, pos) == goal
  }

  lemma HeadingStart(f: File, start: nat, buf: seq<byte>)
    ensures Heading(f, start, buf, 0, WriteLoop(f, start, buf, 0))
  {}

  lemma HeadingStep(f: File, start: nat, buf: seq<byte>, pos: nat, goal: (File, int))
    requires Heading(f, start, buf, pos, goal) && pos < |buf|
    ensures var at := start + pos;
      var len := ChunkLength(at, |buf| - pos);
      IndexOf(at) + len <= BLOCK_SIZE && 0 < len <= |buf| - pos &&
      var (f1, r) := WriteChunk(f, BlockOf(at), IndexOf(at), buf[pos..pos + len]);
      if r < 0 then goal == (Grown(f1, start, pos), r) else Heading(f1, start, buf, pos + len, goal)
  {
    hide WriteChunk, Grown, BlockOf, IndexOf;
  }

  lemma HeadingEnd(f: File, start: nat, buf: seq<byte>, goal: (File, int))
    requires Heading(f, start, buf, |buf|, goal)
    ensures goal == (Grown(f, start, |buf|).(dirty := true), |buf|)
  {
    hide Grown;
  }

  /** `testfs_write_data`: the method computes `FileContents.WriteData`. */
  method WriteData(node: Inode, buf: seq<byte>, start: nat) returns (ret: int)
    requires node.sb.Valid() && TreeOk(node.St())
    modifies node`d, node`dirty, node.sb, node.sb.blockFreemap.v
    ensures node.sb.Valid() && (node.St(), ret) == FileContents.WriteData(old(node.St()), start, buf)
    ensures node.sb.InodeSide() == old(node.sb.InodeSide())
  {
    hide TreeOk, SuperBlock.Valid, SuperBlock.Vol, BlockOf, IndexOf, WriteChunk, Grown, WriteLoop, Heading, Inode.St,
      SuperBlock.InodeSide;
    if start >= MAX_FILE_SIZE {
      return EFBIG;
    }
    ghost var goal := WriteLoop(node.St(), start, buf, 0);
    HeadingStart(node.St(), start, buf);
    var blockNr, blockIx := BlockOf(start), IndexOf(start);
    var pos, size := 0, |buf|;
    while size > 0
      invariant pos + size == |buf| && size >= 0
      invariant size > 0 ==> blockNr == BlockOf(start + pos) && blockIx == IndexOf(start + pos)
      invariant node.sb.Valid() && TreeOk(node.St()) && Heading(node.St(), start, buf, pos, goal)
      invariant node.sb.InodeSide() == old(node.sb.InodeSide())
    {
      var sizeToWrite := if BLOCK_SIZE - blockIx < size then BLOCK_SIZE - blockIx else size;
      NextChunk(start + pos, size);
      HeadingStep(node.St(), start, buf, pos, goal);
      ret := WriteOneChunk(node, blockNr, blockIx, buf[pos..pos + sizeToWrite]);
      if ret < 0 {
        GrowSize(node, start, pos);
        return;
      }
      pos := pos + sizeToWrite;
      size := size - sizeToWrite;
      blockNr := blockNr + 1;
      blockIx := 0;
    }
    HeadingEnd(node.St(), start, buf, goal);
    GrowSize(node, start, pos);
    SetDirty(node);
    ret := pos;
  }

  method SetDirty(node: Inode)
    requires node.sb.Valid()
    modifies node`dirty
    ensures node.sb.Valid() && node.St() == old(node.St()).(dirty := true)
    ensures node.sb.InodeSide() == old(node.sb.InodeSide())
  {
    node.dirty := true;
  }

  /** The size update, skipped when nothing was written. */
  method GrowSize(node: Inode, start: nat, pos: nat)
    requires node.sb.Valid()
    modifies node`d
    ensures node.sb.Valid() && node.St() == Grown(old(node.St()), start, pos)
    ensures node.sb.InodeSide() == old(node.sb.InodeSide())
  {
    if pos > 0 && node.d.size < start + pos {
      node.d := node.d.(size := start + pos);
    }
  }

  /** How many bytes there are to read. */
  function Clipped(f: File, start: nat, size: nat): int {
    if start + size > f.d.size then f.d.size - start else size
  }

  /** `testfs_read_data`: the slice of the contents, cut off at the end of the file. Only at the largest
      possible size does a read at the end report an error. */
  method ReadData(node: Inode, start: nat, size: nat) returns (ret: int, buf: seq<byte>)
    requires node.sb.Valid() && FileOk(node.St()) && start <= node.d.size
    ensures ret == if start == MAX_FILE_SIZE then EFBIG else Clipped(node.St(), start, size)
    ensures node.d.size >= 0 && (ret >= 0 ==> buf == Contents(node.St())[start..start + ret])
  {
    hide FileOk, TreeOk, SuperBlock.Valid, SuperBlock.Vol, BlockOf, IndexOf, BufferFor, ByteAt;
    ghost var f := node.St();
    FileOkFacts(f);
    buf := [];
    if start >= MAX_FILE_SIZE {
      return EFBIG, [];
    }
    var blockNr, blockIx := BlockOf(start), IndexOf(start);
    var left := if start + size > node.d.size then node.d.size - start else size;
    var pos := 0;
    while left > 0
      invariant pos + left == Clipped(f, start, size) && left >= 0
      invariant left > 0 ==> blockNr == BlockOf(start + pos) && blockIx == IndexOf(start + pos)
      invariant buf == Contents(f)[start..start + pos]
    {
      var phys, block := ReadBlock(node, blockNr);
      BlockLimit(start + pos);
      assert phys >= 0;
      var sizeToRead := if BLOCK_SIZE - blockIx < left then BLOCK_SIZE - blockIx else left;
      NextChunk(start + pos, left);
      BufferRun(f, start + pos, sizeToRead);
      buf := buf + block[blockIx..blockIx + sizeToRead];
      pos := pos + sizeToRead;
      left := left - sizeToRead;
      blockNr := blockNr + 1;
      blockIx := 0;
    }
    ret := pos;
  }

  lemma FileOkFacts(f: File)
    requires FileOk(f)
    ensures TreeOk(f) && 0 <= f.d.size <= MAX_FILE_SIZE
  {}

  lemma BufferRun(f: File, at: nat, len: nat)
    requires TreeOk(f) && IndexOf(at) + len <= BLOCK_SIZE && at + len <= f.d.size
    ensures BufferFor(f, BlockOf(at))[IndexOf(at)..IndexOf(at) + len] == Contents(f)[at..at + len]
  {
    hide TreeInv, BufferFor, ByteAt, BlockOf, IndexOf;
    var own, foreign :| TreeInv(f, own, foreign);
    var b := BufferFor(f, BlockOf(at));
    var run, slice := b[IndexOf(at)..IndexOf(at) + len], Contents(f)[at..at + len];
    forall k | 0 <= k < len ensures run[k] == slice[k] {
      BufferBytes(f, BlockOf(at), own, foreign, IndexOf(at) + k);
      OffsetSum(at);
    }
  }

  // ----- testfs_free_blocks -----

  /** `e_block_nr` after the direct blocks have been accounted for. */
  ghost predicate Freeing(f: File, g: File, own: map<int, Slot>, foreign: set<int>, r: nat) {
    FileInv(f, own, foreign) && Releasing(f, g, own, r)
  }

  lemma FreeingStart(f: File, own: map<int, Slot>, foreign: set<int>)
    requires FileInv(f, own, foreign)
    ensures Freeing(f, f, own, foreign, 0) && |f.d.direct| == NR_DIRECT_BLOCKS
    ensures forall s: Slot {:trigger At(f.vol, f.d, s)} :: InUse(f, At(f.vol, f.d, s))
  {
    hide At, Rank, Sized, NoEmptyIndex;
    GoneAll(f.vol, f.d, own);
    FreedNone(f);
  }

  /** Releases the block in slot `s`, when there is one. */
  lemma FreeingNext(f: File, g: File, own: map<int, Slot>, foreign: set<int>, s: Slot)
    requires Freeing(f, g, own, foreign, Rank(s)) && InTree(s)
    ensures var p := At(f.vol, f.d, s);
      if p == 0 then Freeing(f, g, own, foreign, Rank(s) + 1)
      else p in g.vol.used && g.vol.usedCount > 0 && Freeing(f, FreeFromInode(g, p), own, foreign, Rank(s) + 1)
  {
    hide At, Rank, InTree, Releasing, FreeFromInode, Sized, NoEmptyIndex;
    ReleaseNext(f, g, own, foreign, s);
  }

  lemma FreeingFields(f: File, g: File, g': File, own: map<int, Slot>, foreign: set<int>, r: nat)
    requires Freeing(f, g, own, foreign, r)
    requires g'.vol == g.vol && g'.d == g.d.(direct := g'.d.direct, indirect := g'.d.indirect, dindirect := g'.d.dindirect)
    ensures Freeing(f, g', own, foreign, r)
  {
    hide FileInv, Freed, Gone;
  }

  /** The loop over the direct blocks. */
  method FreeDirect(node: Inode, e: int, ghost f: File, ghost own: map<int, Slot>, ghost foreign: set<int>)
    requires node.sb.Valid() && Freeing(f, node.St(), own, foreign, 0) && e == EndBlock(f.d.size)
    requires node.d.direct == f.d.direct && |f.d.direct| == NR_DIRECT_BLOCKS
    modifies node`d, node`dirty, node.sb, node.sb.blockFreemap.v
    ensures node.sb.Valid() && Freeing(f, node.St(), own, foreign, NR_DIRECT_BLOCKS)
    ensures node.d.direct == NO_POINTERS && node.d.indirect == old(node.d.indirect) && node.d.dindirect == old(node.d.dindirect)
    ensures node.sb.InodeSide() == old(node.sb.InodeSide())
  {
    hide SuperBlock.Valid, SuperBlock.Vol, Freeing, FreeFromInode, EndBlock;
    var i := 0;
    while i < e && i < NR_DIRECT_BLOCKS
      invariant 0 <= i <= NR_DIRECT_BLOCKS
      invariant node.sb.Valid() && Freeing(f, node.St(), own, foreign, i)
      invariant node.d.indirect == old(node.d.indirect) && node.d.dindirect == old(node.d.dindirect)
      invariant |node.d.direct| == NR_DIRECT_BLOCKS
      invariant forall k :: 0 <= k < NR_DIRECT_BLOCKS ==> node.d.direct[k] == if k < i then 0 else f.d.direct[k]
      invariant node.sb.InodeSide() == old(node.sb.InodeSide())
    {
      FreeOneDirect(node, i, f, own, foreign);
      i := i + 1;
    }
    DirectDone(f, node.St(), own, foreign, i);
  }

  method FreeOneDirect(node: Inode, i: nat, ghost f: File, ghost own: map<int, Slot>, ghost foreign: set<int>)
    requires node.sb.Valid() && Freeing(f, node.St(), own, foreign, i) && i < NR_DIRECT_BLOCKS
    requires |node.d.direct| == |f.d.direct| == NR_DIRECT_BLOCKS && node.d.direct[i] == f.d.direct[i]
    modifies node`d, node`dirty, node.sb, node.sb.blockFreemap.v
    ensures node.sb.Valid() && Freeing(f, node.St(), own, foreign, i + 1)
    ensures node.d.indirect == old(node.d.indirect) && node.d.dindirect == old(node.d.dindirect)
    ensures node.d.direct == old(node.d.direct)[i := 0]
    ensures node.sb.InodeSide() == old(node.sb.InodeSide())
  {
    hide SuperBlock.Valid, Freeing, FreeFromInode;
    FreeingNext(f, node.St(), own, foreign, Direct(i));
    if node.d.direct[i] == 0 {
      return;
    }
    FreeKeepsPointers(node.St(), node.d.direct[i]);
    node.FreeBlock(node.d.direct[i]);
    ghost var g := node.St();
    node.d := node.d.(direct := node.d.direct[i := 0]);
    FreeingFields(f, g, node.St(), own, foreign, i + 1);
  }

  lemma FreeKeepsPointers(f: File, p: int)
    ensures var g := FreeFromInode(f, p);
      g.d == f.d.(blockCount := g.d.blockCount)
  {}

  /** Direct blocks past the end of the file are holes. */
  /** Direct pointers past the end of the file are empty. */
  lemma DirectEmpty(f: File, own: map<int, Slot>, foreign: set<int>, i: nat)
    requires FileInv(f, own, foreign) && (i == NR_DIRECT_BLOCKS || i >= EndBlock(f.d.size)) && |f.d.direct| == NR_DIRECT_BLOCKS
    ensures forall k :: i <= k < NR_DIRECT_BLOCKS ==> f.d.direct[k] == 0 && At(f.vol, f.d, Direct(k)) == 0
  {
    hide Sized, NoEmptyIndex, Ptr, Blk, EndBlock;
    SizeBoundsTree(f, own, foreign);
    forall k | i <= k < NR_DIRECT_BLOCKS ensures f.d.direct[k] == 0 && At(f.vol, f.d, Direct(k)) == 0 {
      assert At(f.vol, f.d, Direct(k)) == f.d.direct[k];
      assert LogicalOf(Direct(k)) == k;
    }
  }

  lemma DirectDone(f: File, g: File, own: map<int, Slot>, foreign: set<int>, i: nat)
    requires Freeing(f, g, own, foreign, i) && i <= NR_DIRECT_BLOCKS
    requires i == NR_DIRECT_BLOCKS || i >= EndBlock(f.d.size)
    requires |g.d.direct| == NR_DIRECT_BLOCKS == |f.d.direct|
    requires forall k :: 0 <= k < NR_DIRECT_BLOCKS ==> g.d.direct[k] == if k < i then 0 else f.d.direct[k]
    ensures Freeing(f, g, own, foreign, NR_DIRECT_BLOCKS) && g.d.direct == NO_POINTERS
  {
    hide Releasing, Sized, NoEmptyIndex, Ptr, Blk, EndBlock, NodeRank;
    DirectEmpty(f, own, foreign, i);
    forall s: Slot | InTree(s) && i <= Rank(s) < NR_DIRECT_BLOCKS ensures At(f.vol, f.d, s) == 0 {
      NodeRankOrder(NodeIndex(s), 0);
      assert s.Direct?;
    }
    SkipTo(f, g, own, i, NR_DIRECT_BLOCKS);
  }

  /** An index block of the original tree, read during the release, still holds its pointers. */
  lemma ReadWhileFreeing(f: File, g: File, own: map<int, Slot>, foreign: set<int>, r: nat, s: Slot)
    requires Freeing(f, g, own, foreign, r) && At(f.vol, f.d, s) != 0 && Rank(s) >= r
    ensures DATA_START <= At(f.vol, f.d, s) < DATA_LIMIT
    ensures Blk(g.vol, At(f.vol, f.d, s)) == Blk(f.vol, At(f.vol, f.d, s))
  {
    hide At, Rank, Releasing, NoEmptyIndex, Sized, Blk;
    NotYetReleased(f, g, own, foreign, r, s);
  }

  /** Frees the block that the original tree has in slot `s`; pointers in the inode are left as they
      are. */
  method FreeSlot(node: Inode, p: int, ghost s: Slot, ghost f: File, ghost own: map<int, Slot>, ghost foreign: set<int>)
    requires node.sb.Valid() && Freeing(f, node.St(), own, foreign, Rank(s)) && InTree(s)
    requires p == At(f.vol, f.d, s)
    modifies node`d, node`dirty, node.sb, node.sb.blockFreemap.v
    ensures node.sb.Valid() && Freeing(f, node.St(), own, foreign, Rank(s) + 1)
    ensures node.d == old(node.d).(blockCount := node.d.blockCount)
    ensures node.sb.InodeSide() == old(node.sb.InodeSide())
  {
    hide SuperBlock.Valid, Freeing, FreeFromInode, At, Rank, InTree;
    FreeingNext(f, node.St(), own, foreign, s);
    if p == 0 {
      return;
    }
    FreeKeepsPointers(node.St(), p);
    node.FreeBlock(p);
  }

  /** The loop over the entries of one index block, whose entry `k` has rank `base + k`. */
  method FreeLeaves(node: Inode, block: Block, e: int, ghost leaf: nat -> Slot, ghost base: nat,
                    ghost f: File, ghost own: map<int, Slot>, ghost foreign: set<int>)
    requires node.sb.Valid() && Freeing(f, node.St(), own, foreign, base)
    requires forall k: nat :: k < NR_INDIRECT_BLOCKS ==>
               InTree(leaf(k)) && Rank(leaf(k)) == base + k && Ptr(block, k) == At(f.vol, f.d, leaf(k))
    requires forall k: nat :: k < NR_INDIRECT_BLOCKS && k >= e ==> Ptr(block, k) == 0
    modifies node`d, node`dirty, node.sb, node.sb.blockFreemap.v
    ensures node.sb.Valid() && Freeing(f, node.St(), own, foreign, base + NR_INDIRECT_BLOCKS)
    ensures node.d == old(node.d).(blockCount := node.d.blockCount)
    ensures node.sb.InodeSide() == old(node.sb.InodeSide())
  {
    hide SuperBlock.Valid, SuperBlock.Vol, Freeing, FreeFromInode, At, Rank, InTree, Ptr;
    var i := 0;
    while i < e && i < NR_INDIRECT_BLOCKS
      invariant 0 <= i <= NR_INDIRECT_BLOCKS
      invariant node.sb.Valid() && Freeing(f, node.St(), own, foreign, base + i)
      invariant node.d == old(node.d).(blockCount := node.d.blockCount)
      invariant node.sb.InodeSide() == old(node.sb.InodeSide())
    {
      FreeSlot(node, Ptr(block, i), leaf(i), f, own, foreign);
      i := i + 1;
    }
    LeavesDone(f, node.St(), own, foreign, block, leaf, base, i, e);
  }

  lemma LeavesDone(f: File, g: File, own: map<int, Slot>, foreign: set<int>, block: Block, leaf: nat -> Slot, base: nat, i: nat, e: int)
    requires Freeing(f, g, own, foreign, base + i) && i <= NR_INDIRECT_BLOCKS && (i < NR_INDIRECT_BLOCKS ==> i >= e)
    requires forall k: nat :: k < NR_INDIRECT_BLOCKS ==>
               InTree(leaf(k)) && Rank(leaf(k)) == base + k && Ptr(block, k) == At(f.vol, f.d, leaf(k))
    requires forall k: nat :: k < NR_INDIRECT_BLOCKS && k >= e ==> Ptr(block, k) == 0
    ensures Freeing(f, g, own, foreign, base + NR_INDIRECT_BLOCKS)
  {
    hide At, Rank, InTree, Ptr, Releasing, Sized, NoEmptyIndex;
    forall s: Slot | InTree(s) && base + i <= Rank(s) < base + NR_INDIRECT_BLOCKS ensures At(f.vol, f.d, s) == 0 {
      RankInjective(s, leaf(Rank(s) - base));
    }
    SkipTo(f, g, own, base + i, base + NR_INDIRECT_BLOCKS);
  }

  /** The pointers in an index block of the original tree. */
  lemma LeafPointers(f: File, i: nat)
    ensures f.d.indirect > 0 ==> forall k: nat :: k < NR_INDIRECT_BLOCKS ==>
              Ptr(Blk(f.vol, f.d.indirect), k) == At(f.vol, f.d, IndLeaf(k))
    ensures f.d.dindirect > 0 ==> forall k: nat :: k < NR_INDIRECT_BLOCKS ==>
              Ptr(Blk(f.vol, f.d.dindirect), k) == At(f.vol, f.d, DindNode(k))
    ensures At(f.vol, f.d, DindNode(i)) > 0 ==> forall k: nat :: k < NR_INDIRECT_BLOCKS ==>
              Ptr(Blk(f.vol, At(f.vol, f.d, DindNode(i))), k) == At(f.vol, f.d, DindLeaf(i, k))
    ensures At(f.vol, f.d, Ind) == f.d.indirect && At(f.vol, f.d, Dind) == f.d.dindirect
  {
    hide Ptr, Blk;
  }

  lemma IndirectLeaves(f: File, own: map<int, Slot>, foreign: set<int>, k: nat)
    requires FileInv(f, own, foreign) && k < NR_INDIRECT_BLOCKS
    ensures InTree(IndLeaf(k)) && Rank(IndLeaf(k)) == NR_DIRECT_BLOCKS + k
    ensures k >= EndBlock(f.d.size) - NR_DIRECT_BLOCKS ==> At(f.vol, f.d, IndLeaf(k)) == 0
  {
    hide At, EndBlock, TreeInv, Sized;
    SizeBoundsTree(f, own, foreign);
    assert LogicalOf(IndLeaf(k)) == NR_DIRECT_BLOCKS + k;
  }

  /** Without an indirect block there is nothing to release at its ranks. */
  lemma NoIndirect(f: File, g: File, own: map<int, Slot>, foreign: set<int>)
    requires Freeing(f, g, own, foreign, NR_DIRECT_BLOCKS) && f.d.indirect == 0
    ensures Freeing(f, g, own, foreign, NodeRank(0))
  {
    hide Releasing, Sized, NoEmptyIndex;
    forall s: Slot | InTree(s) && NR_DIRECT_BLOCKS <= Rank(s) < NodeRank(0) ensures At(f.vol, f.d, s) == 0 {
      NodeRankOrder(0, NodeIndex(s));
      assert s.Ind? || s.IndLeaf?;
    }
    SkipTo(f, g, own, NR_DIRECT_BLOCKS, NodeRank(0));
  }

  /** The indirect block and what hangs below it; `e` counts the logical blocks from the indirect ones
      on. */
  method FreeIndirect(node: Inode, e: int, ghost f: File, ghost own: map<int, Slot>, ghost foreign: set<int>)
    requires node.sb.Valid() && Freeing(f, node.St(), own, foreign, NR_DIRECT_BLOCKS)
    requires e == EndBlock(f.d.size) - NR_DIRECT_BLOCKS && node.d.indirect == f.d.indirect >= 0
    modifies node`d, node`dirty, node.sb, node.sb.blockFreemap.v
    ensures node.sb.Valid() && Freeing(f, node.St(), own, foreign, NodeRank(0))
    ensures node.d == old(node.d).(blockCount := node.d.blockCount, indirect := 0)
    ensures node.sb.InodeSide() == old(node.sb.InodeSide())
  {
    hide SuperBlock.Valid, FreeFromInode, At, Ptr, Blk, EndBlock, NodeRank, FileInv, Releasing;
    LeafPointers(f, 0);
    if node.d.indirect > 0 {
      SizeBoundsTree(f, own, foreign);
      assert e > 0;
      ReadWhileFreeing(f, node.St(), own, foreign, NR_DIRECT_BLOCKS, Ind);
      var block := node.sb.ReadBlock(node.d.indirect);
      forall k: nat | k < NR_INDIRECT_BLOCKS
        ensures InTree(IndLeaf(k)) && Rank(IndLeaf(k)) == NR_DIRECT_BLOCKS + k
        ensures k >= e ==> At(f.vol, f.d, IndLeaf(k)) == 0
      {
        IndirectLeaves(f, own, foreign, k);
      }
      FreeLeaves(node, block, e, (k: nat) => IndLeaf(k), NR_DIRECT_BLOCKS, f, own, foreign);
      FreeSlot(node, node.d.indirect, Ind, f, own, foreign);
      RankAfterIndirect();
      ClearPointers(node, 0, node.d.dindirect, NodeRank(0), f, own, foreign);
    } else {
      NoIndirect(f, node.St(), own, foreign);
    }
  }

  lemma RankAfterIndirect()
    ensures Rank(Ind) + 1 == NodeRank(0)
  {}

  method ClearPointers(node: Inode, indirect: int, dindirect: int, ghost r: nat, ghost f: File, ghost own: map<int, Slot>, ghost foreign: set<int>)
    requires node.sb.Valid() && Freeing(f, node.St(), own, foreign, r)
    modifies node`d
    ensures node.sb.Valid() && Freeing(f, node.St(), own, foreign, r)
    ensures node.d == old(node.d).(indirect := indirect, dindirect := dindirect)
    ensures node.sb.InodeSide() == old(node.sb.InodeSide())
  {
    hide SuperBlock.Valid, SuperBlock.Vol, Freeing;
    ghost var g := node.St();
    node.d := node.d.(indirect := indirect, dindirect := dindirect);
    FreeingFields(f, g, node.St(), own, foreign, r);
  }

  lemma NodeLeaves(f: File, own: map<int, Slot>, foreign: set<int>, i: nat, k: nat)
    requires FileInv(f, own, foreign) && i < NR_INDIRECT_BLOCKS && k < NR_INDIRECT_BLOCKS
    ensures InTree(DindLeaf(i, k)) && Rank(DindLeaf(i, k)) == NodeRank(i) + k
    ensures k >= EndBlock(f.d.size) - NR_DIRECT_BLOCKS - NR_INDIRECT_BLOCKS - NR_INDIRECT_BLOCKS * i ==>
              At(f.vol, f.d, DindLeaf(i, k)) == 0
  {
    hide At, EndBlock, TreeInv, Sized, NodeRank;
    SizeBoundsTree(f, own, foreign);
    assert LogicalOf(DindLeaf(i, k)) == NR_DIRECT_BLOCKS + NR_INDIRECT_BLOCKS + NR_INDIRECT_BLOCKS * i + k;
  }

  /** An empty entry of the double-indirect block has nothing below it. */
  lemma NoNode(f: File, g: File, own: map<int, Slot>, foreign: set<int>, i: nat)
    requires Freeing(f, g, own, foreign, NodeRank(i)) && i < NR_INDIRECT_BLOCKS && At(f.vol, f.d, DindNode(i)) == 0
    ensures Freeing(f, g, own, foreign, NodeRank(i + 1))
  {
    hide Releasing, Sized, NoEmptyIndex, PtrIn, NodeRank, Blk;
    NodeRankOrder(i, i + 1);
    forall s: Slot | InTree(s) && NodeRank(i) <= Rank(s) < NodeRank(i + 1) ensures At(f.vol, f.d, s) == 0 {
      NodeRankOrder(NodeIndex(s), i);
      NodeRankOrder(i + 1, NodeIndex(s));
      NodeRankOrder(i, NodeIndex(s));
      assert NodeIndex(s) == i && (s.DindLeaf? || s.DindNode?);
      NothingBelow(f, i);
    }
    SkipTo(f, g, own, NodeRank(i), NodeRank(i + 1));
  }

  lemma NothingBelow(f: File, i: nat)
    requires At(f.vol, f.d, DindNode(i)) == 0
    ensures forall j: nat :: At(f.vol, f.d, DindLeaf(i, j)) == 0
  {}

  /** Entries of the double-indirect block past the end of the file are empty. */
  lemma NoMoreNodes(f: File, g: File, own: map<int, Slot>, foreign: set<int>, i: nat)
    requires Freeing(f, g, own, foreign, NodeRank(i)) && i <= NR_INDIRECT_BLOCKS
    requires i == NR_INDIRECT_BLOCKS || EndBlock(f.d.size) <= NR_DIRECT_BLOCKS + NR_INDIRECT_BLOCKS + NR_INDIRECT_BLOCKS * i
    ensures Freeing(f, g, own, foreign, Rank(Dind))
  {
    hide Releasing, Sized, NoEmptyIndex, PtrIn, Blk, EndBlock;
    if i < NR_INDIRECT_BLOCKS {
      SizeBoundsTree(f, own, foreign);
      NodeRankOrder(i, NR_INDIRECT_BLOCKS);
      forall s: Slot | InTree(s) && NodeRank(i) <= Rank(s) < Rank(Dind) ensures At(f.vol, f.d, s) == 0 {
        NodeAfter(f, i, s);
      }
      SkipTo(f, g, own, NodeRank(i), Rank(Dind));
    }
  }

  lemma NodeAfter(f: File, i: nat, s: Slot)
    requires InTree(s) && i < NR_INDIRECT_BLOCKS && NodeRank(i) <= Rank(s) < Rank(Dind)
    requires forall k: nat :: k >= i ==> At(f.vol, f.d, DindNode(k)) == 0
    ensures At(f.vol, f.d, s) == 0
  {
    hide PtrIn, Blk, NodeRank;
    NodeRankOrder(NodeIndex(s), i);
    NodeRankOrder(i, NodeIndex(s));
    assert (s.DindLeaf? || s.DindNode?) && s.i >= i;
    NothingBelow(f, s.i);
  }

  /** One entry of the double-indirect block; `e` counts the logical blocks from this entry on. */
  method FreeNode(node: Inode, id: int, i: nat, e: int, ghost f: File, ghost own: map<int, Slot>, ghost foreign: set<int>)
    requires node.sb.Valid() && Freeing(f, node.St(), own, foreign, NodeRank(i)) && i < NR_INDIRECT_BLOCKS
    requires id == At(f.vol, f.d, DindNode(i)) >= 0
    requires e == EndBlock(f.d.size) - NR_DIRECT_BLOCKS - NR_INDIRECT_BLOCKS - NR_INDIRECT_BLOCKS * i
    modifies node`d, node`dirty, node.sb, node.sb.blockFreemap.v
    ensures node.sb.Valid() && Freeing(f, node.St(), own, foreign, NodeRank(i + 1))
    ensures node.d == old(node.d).(blockCount := node.d.blockCount)
    ensures node.sb.InodeSide() == old(node.sb.InodeSide())
  {
    hide SuperBlock.Valid, FreeFromInode, At, Ptr, Blk, EndBlock, NodeRank, FileInv, Releasing;
    if id == 0 {
      NoNode(f, node.St(), own, foreign, i);
      return;
    }
    ReadWhileFreeing(f, node.St(), own, foreign, NodeRank(i), DindNode(i));
    var block := node.sb.ReadBlock(id);
    LeafPointers(f, i);
    forall k: nat | k < NR_INDIRECT_BLOCKS
      ensures InTree(DindLeaf(i, k)) && Rank(DindLeaf(i, k)) == NodeRank(i) + k
      ensures k >= e ==> At(f.vol, f.d, DindLeaf(i, k)) == 0
    {
      NodeLeaves(f, own, foreign, i, k);
    }
    FreeLeaves(node, block, e, (k: nat) => DindLeaf(i, k), NodeRank(i), f, own, foreign);
    FreeSlot(node, id, DindNode(i), f, own, foreign);
    NextNodeRank(i);
  }

  lemma NextNodeRank(i: nat)
    ensures Rank(DindNode(i)) + 1 == NodeRank(i + 1)
  {}

  /** The double-indirect block and what hangs below it; `e` counts the logical blocks from there on. */
  method FreeDouble(node: Inode, e: int, ghost f: File, ghost own: map<int, Slot>, ghost foreign: set<int>)
    requires node.sb.Valid() && Freeing(f, node.St(), own, foreign, NodeRank(0))
    requires e == EndBlock(f.d.size) - NR_DIRECT_BLOCKS - NR_INDIRECT_BLOCKS && node.d.dindirect == f.d.dindirect
    requires forall s: Slot {:trigger At(f.vol, f.d, s)} :: InUse(f, At(f.vol, f.d, s))
    modifies node`d, node`dirty, node.sb, node.sb.blockFreemap.v
    ensures node.sb.Valid() && Freeing(f, node.St(), own, foreign, Rank(Dind) + 1)
    ensures node.d == old(node.d).(blockCount := node.d.blockCount, dindirect := 0)
    ensures node.sb.InodeSide() == old(node.sb.InodeSide())
  {
    hide SuperBlock.Valid, FreeFromInode, At, Ptr, Blk, EndBlock, NodeRank, FileInv, Releasing;
    LeafPointers(f, 0);
    SizeBoundsTree(f, own, foreign);
    var eBlockNr := e;
    if eBlockNr > 0 {
      if node.d.dindirect > 0 {
        RankOfDind(0);
        ReadWhileFreeing(f, node.St(), own, foreign, NodeRank(0), Dind);
        var didBlock := node.sb.ReadBlock(node.d.dindirect);
        var i := 0;
        while i < NR_INDIRECT_BLOCKS && eBlockNr > 0
          invariant 0 <= i <= NR_INDIRECT_BLOCKS && eBlockNr == e - NR_INDIRECT_BLOCKS * i
          invariant node.sb.Valid() && Freeing(f, node.St(), own, foreign, NodeRank(i))
          invariant node.d == old(node.d).(blockCount := node.d.blockCount)
          invariant node.sb.InodeSide() == old(node.sb.InodeSide())
        {
          FreeNode(node, Ptr(didBlock, i), i, eBlockNr, f, own, foreign);
          eBlockNr := eBlockNr - NR_INDIRECT_BLOCKS;
          i := i + 1;
        }
        NoMoreNodes(f, node.St(), own, foreign, i);
        FreeSlot(node, node.d.dindirect, Dind, f, own, foreign);
        ClearPointers(node, node.d.indirect, 0, Rank(Dind) + 1, f, own, foreign);
      }
    } else {
      NoDouble(f, node.St(), own, foreign);
    }
    assert eBlockNr <= 0;
  }

  lemma RankOfDind(i: nat)
    requires i <= NR_INDIRECT_BLOCKS
    ensures NodeRank(i) <= Rank(Dind)
  {
    NodeRankOrder(i, NR_INDIRECT_BLOCKS);
  }

  lemma NoDouble(f: File, g: File, own: map<int, Slot>, foreign: set<int>)
    requires Freeing(f, g, own, foreign, NodeRank(0)) && f.d.dindirect == 0
    ensures Freeing(f, g, own, foreign, Rank(Dind) + 1)
  {
    hide Releasing, Sized, NoEmptyIndex, Blk, NodeRank, Ptr;
    RankOfDind(0);
    forall s: Slot | InTree(s) && NodeRank(0) <= Rank(s) < Rank(Dind) + 1 ensures At(f.vol, f.d, s) == 0 {
      NodeRankOrder(0, NodeIndex(s));
      assert s.DindLeaf? || s.DindNode? || s.Dind?;
    }
    SkipTo(f, g, own, NodeRank(0), Rank(Dind) + 1);
  }

  /** `testfs_free_blocks`: everything the file owns is released and nothing else, every pointer and the
      size are zero. */
  method FreeBlocks(node: Inode)
    requires node.sb.Valid() && FileOk(node.St())
    modifies node`d, node`dirty, node.sb, node.sb.blockFreemap.v
    ensures node.sb.Valid() && node.dirty
    ensures node.St() == Emptied(old(node.St()), Reachable(old(node.St())))
    ensures node.sb.InodeSide() == old(node.sb.InodeSide())
  {
    hide SuperBlock.Valid, SuperBlock.Vol, Freeing, FileInv, EndBlock, At, Emptied, Reachable;
    ghost var f := node.St();
    ghost var own, foreign :| FileInv(f, own, foreign);
    FreeingStart(f, own, foreign);
    SizedNow(f, own, foreign);
    OwnedNow(f, own, foreign);
    var eBlockNr := EndBlock(node.d.size);
    FreeDirect(node, eBlockNr, f, own, foreign);
    LeafPointers(f, 0);
    FreeIndirect(node, eBlockNr - NR_DIRECT_BLOCKS, f, own, foreign);
    FreeDouble(node, eBlockNr - NR_DIRECT_BLOCKS - NR_INDIRECT_BLOCKS, f, own, foreign);
    FreeingDone(f, node.St(), own, foreign);
    node.d := node.d.(size := 0);
    node.dirty := true;
  }

  lemma SizedNow(f: File, own: map<int, Slot>, foreign: set<int>)
    requires FileInv(f, own, foreign)
    ensures f.d.size >= 0
  {}

  lemma FreeingDone(f: File, g: File, own: map<int, Slot>, foreign: set<int>)
    requires Freeing(f, g, own, foreign, Rank(Dind) + 1)
    requires g.d.direct == NO_POINTERS && g.d.indirect == 0 && g.d.dindirect == 0
    ensures File(g.vol, g.d.(size := 0), true) == Emptied(f, own.Keys)
  {
    hide At, Rank, Sized, NoEmptyIndex;
    GoneAll(f.vol, f.d, own);
  }

  lemma OwnedNow(f: File, own: map<int, Slot>, foreign: set<int>)
    requires FileInv(f, own, foreign)
    ensures Reachable(f) == own.Keys
  {
    hide At, Sized, NoEmptyIndex, Reachable, Owns;
    ReachableIsOwned(f, own, foreign);
  }
}
