/** The dirty flag of an inode during a write: it never influences the write, and when a write that
    changes the inode leaves it unset. */
module DirtyFlags {
  import opened Layout
  import opened BlockTree
  import opened BlockAlloc
  import opened FileContents

  /** The same file, whatever the flags say. */
  predicate Alike(f: File, g: File) { f.vol == g.vol && f.d == g.d }

  // ----- the flag does not matter -----

  lemma AllocAlike(f: File, g: File)
    requires Alike(f, g)
    ensures Alike(AllocForInode(f).0, AllocForInode(g).0) && AllocForInode(f).1 == AllocForInode(g).1 < DATA_LIMIT
  {}

  lemma FreeAlike(f: File, g: File, p: int)
    requires Alike(f, g)
    ensures Alike(FreeFromInode(f, p), FreeFromInode(g, p))
  {}

  lemma SingleAlike(f: File, g: File, i: nat)
    requires Alike(f, g) && i < NR_INDIRECT_BLOCKS
    ensures Alike(AllocSingle(f, i).0, AllocSingle(g, i).0) && AllocSingle(f, i).1 == AllocSingle(g, i).1
  {
    hide AllocForInode, FreeFromInode, FillSingle;
    AllocAlike(f, g);
    var (f1, q) := AllocForInode(f);
    var (g1, _) := AllocForInode(g);
    if f.d.indirect == 0 {
      FillSingleAlike(f1.(d := f1.d.(indirect := q)), g1.(d := g1.d.(indirect := q)), i, ZeroBlock(), true);
    } else {
      FillSingleAlike(f, g, i, Blk(f.vol, f.d.indirect), false);
    }
  }

  lemma FillSingleAlike(f: File, g: File, i: nat, b: Block, here: bool)
    requires Alike(f, g) && i < NR_INDIRECT_BLOCKS
    ensures Alike(FillSingle(f, i, b, here).0, FillSingle(g, i, b, here).0) && FillSingle(f, i, b, here).1 == FillSingle(g, i, b, here).1
  {
    hide AllocForInode, FreeFromInode, Put, SetPtr;
    AllocAlike(f, g);
    var (f1, p) := AllocForInode(f);
    var (g1, _) := AllocForInode(g);
    FreeAlike(f1, g1, f1.d.indirect);
  }

  lemma UndoAlike(f: File, g: File, here: bool)
    requires Alike(f, g)
    ensures Alike(UndoDouble(f, here), UndoDouble(g, here))
  {
    hide FreeFromInode;
    FreeAlike(f, g, f.d.dindirect);
  }

  lemma FillDoubleAlike(f: File, g: File, j: nat, id: int, d: Block, b: Block, x: bool, y: bool)
    requires Alike(f, g) && j < NR_INDIRECT_BLOCKS
    ensures Alike(FillDouble(f, j, id, d, b, x, y).0, FillDouble(g, j, id, d, b, x, y).0)
    ensures FillDouble(f, j, id, d, b, x, y).1 == FillDouble(g, j, id, d, b, x, y).1
  {
    hide AllocForInode, FreeFromInode, UndoDouble, Put, SetPtr;
    AllocAlike(f, g);
    var (f1, p) := AllocForInode(f);
    var (g1, _) := AllocForInode(g);
    FreeAlike(f1, g1, id);
    UndoAlike(FreeFromInode(f1, id), FreeFromInode(g1, id), y);
  }

  lemma NodeAlike(f: File, g: File, i: nat, j: nat, d: Block, y: bool)
    requires Alike(f, g) && i < NR_INDIRECT_BLOCKS && j < NR_INDIRECT_BLOCKS
    ensures Alike(AllocNode(f, i, j, d, y).0, AllocNode(g, i, j, d, y).0) && AllocNode(f, i, j, d, y).1 == AllocNode(g, i, j, d, y).1
  {
    hide AllocForInode, FillDouble, UndoDouble, Put, SetPtr, Ptr, Blk;
    AllocAlike(f, g);
    var id := Ptr(d, i);
    var (f1, q) := AllocForInode(f);
    var (g1, _) := AllocForInode(g);
    if id == 0 {
      if q < 0 { UndoAlike(f1, g1, y); } else { FillDoubleAlike(f1, g1, j, q, SetPtr(d, i, q), ZeroBlock(), true, y); }
    } else {
      FillDoubleAlike(f, g, j, id, d, Blk(f.vol, id), false, y);
    }
  }

  lemma DoubleAlike(f: File, g: File, i: nat, j: nat)
    requires Alike(f, g) && i < NR_INDIRECT_BLOCKS && j < NR_INDIRECT_BLOCKS
    ensures Alike(AllocDouble(f, i, j).0, AllocDouble(g, i, j).0) && AllocDouble(f, i, j).1 == AllocDouble(g, i, j).1
  {
    hide AllocForInode, AllocNode, Blk;
    AllocAlike(f, g);
    var (f1, q) := AllocForInode(f);
    var (g1, _) := AllocForInode(g);
    if f.d.dindirect == 0 {
      NodeAlike(f1.(d := f1.d.(dindirect := q)), g1.(d := g1.d.(dindirect := q)), i, j, ZeroBlock(), true);
    } else {
      NodeAlike(f, g, i, j, Blk(f.vol, f.d.dindirect), false);
    }
  }

  lemma BlockAlike(f: File, g: File, n: nat)
    requires Alike(f, g)
    ensures Alike(AllocateBlock(f, n).0, AllocateBlock(g, n).0) && AllocateBlock(f, n).1 == AllocateBlock(g, n).1
  {
    hide AllocSingle, AllocDouble, AllocForInode, At, NodeOf, EntryOf;
    if n < MAX_BLOCK_NR && MapBlock(f, n) == 0 {
      if n < NR_DIRECT_BLOCKS {
        AllocAlike(f, g);
      } else if n - NR_DIRECT_BLOCKS < NR_INDIRECT_BLOCKS {
        SingleAlike(f, g, n - NR_DIRECT_BLOCKS);
      } else {
        var m := n - NR_DIRECT_BLOCKS - NR_INDIRECT_BLOCKS;
        EntryParts(m);
        DoubleAlike(f, g, NodeOf(m), EntryOf(m));
      }
    }
  }

  lemma {:induction false} LoopAlike(f: File, g: File, start: nat, buf: seq<byte>, pos: nat)
    requires Alike(f, g) && pos <= |buf|
    ensures Alike(WriteLoop(f, start, buf, pos).0, WriteLoop(g, start, buf, pos).0)
    ensures WriteLoop(f, start, buf, pos).1 == WriteLoop(g, start, buf, pos).1
    decreases |buf| - pos
  {
    hide AllocateBlock, BlockOf, IndexOf, Splice, Put, MapBlock, Blk;
    if pos < |buf| {
      var at := start + pos;
      var len := ChunkLength(at, |buf| - pos);
      BlockAlike(f, g, BlockOf(at));
      BufferAlike(f, g, BlockOf(at));
      var (f1, r) := WriteChunk(f, BlockOf(at), IndexOf(at), buf[pos..pos + len]);
      var (g1, _) := WriteChunk(g, BlockOf(at), IndexOf(at), buf[pos..pos + len]);
      if r >= 0 { LoopAlike(f1, g1, start, buf, pos + len); }
    }
  }

  lemma BufferAlike(f: File, g: File, n: nat)
    requires Alike(f, g)
    ensures BufferFor(f, n) == BufferFor(g, n)
  {}

  /** A write does the same to the inode and the volume whatever the flag was. */
  lemma WriteAlike(f: File, g: File, start: nat, buf: seq<byte>)
    requires Alike(f, g)
    ensures Alike(WriteData(f, start, buf).0, WriteData(g, start, buf).0) && WriteData(f, start, buf).1 == WriteData(g, start, buf).1
  {
    hide WriteLoop;
    if start < MAX_FILE_SIZE { LoopAlike(f, g, start, buf, 0); }
  }

  // ----- when the flag stays unset -----

  /** No block can be had for logical block `n`, not even the first of those it needs. */
  predicate Blocked(f: File, n: nat) {
    n >= MAX_BLOCK_NR || Available(f.vol) <= 0
  }

  /** `g` has the flag set, or is the file before the call with nothing allocated. */
  predicate Noted(f: File, g: File) {
    g.dirty || (g == f && Available(f.vol) <= 0)
  }

  lemma AllocNoted(f: File)
    requires forall p :: p in f.vol.used ==> DATA_START <= p < DATA_LIMIT
    ensures Noted(f, AllocForInode(f).0) && (AllocForInode(f).1 >= 0 <==> Available(f.vol) > 0)
    ensures AllocForInode(f).1 >= 0 ==> AllocForInode(f).0.dirty
  {
    AllocForInodeSpec(f);
  }

  lemma FillSingleNoted(f: File, i: nat, b: Block, here: bool)
    requires i < NR_INDIRECT_BLOCKS
    ensures f.dirty ==> FillSingle(f, i, b, here).0.dirty
    ensures AllocForInode(f).1 >= 0 ==> FillSingle(f, i, b, here).0.dirty
    ensures !here && AllocForInode(f).1 < 0 ==> FillSingle(f, i, b, here) == AllocForInode(f)
  {
    hide FirstFree, Put, SetPtr, FreeBlock;
  }

  lemma FillDoubleNoted(f: File, j: nat, id: int, d: Block, b: Block, x: bool, y: bool)
    requires j < NR_INDIRECT_BLOCKS
    ensures f.dirty ==> FillDouble(f, j, id, d, b, x, y).0.dirty
    ensures AllocForInode(f).1 >= 0 ==> FillDouble(f, j, id, d, b, x, y).0.dirty
    ensures !x && AllocForInode(f).1 < 0 ==> FillDouble(f, j, id, d, b, x, y) == AllocForInode(f)
  {
    hide FirstFree, Put, SetPtr, FreeBlock;
  }

  lemma NodeNoted(f: File, i: nat, j: nat, d: Block, y: bool)
    requires i < NR_INDIRECT_BLOCKS && j < NR_INDIRECT_BLOCKS
    ensures f.dirty ==> AllocNode(f, i, j, d, y).0.dirty
    ensures AllocForInode(f).1 >= 0 ==> AllocNode(f, i, j, d, y).0.dirty
    ensures !y && AllocForInode(f).1 < 0 ==> AllocNode(f, i, j, d, y) == AllocForInode(f)
  {
    hide FirstFree, Put, SetPtr, FreeBlock, FillDouble, Ptr, Blk;
    var id := Ptr(d, i);
    var (f1, q) := AllocForInode(f);
    if id == 0 {
      if q >= 0 { FillDoubleNoted(f1, j, q, SetPtr(d, i, q), ZeroBlock(), true, y); }
    } else {
      FillDoubleNoted(f, j, id, d, Blk(f.vol, id), false, y);
    }
  }

  /** Trying to map an unmapped block sets the flag exactly when some block was available; otherwise
      the call changes nothing. */
  lemma AllocateNoted(f: File, n: nat)
    requires forall p :: p in f.vol.used ==> DATA_START <= p < DATA_LIMIT
    requires MapBlock(f, n) == 0
    ensures var (g, r) := AllocateBlock(f, n);
      if Blocked(f, n) then g == f && r < 0 else g.dirty
  {
    hide AllocForInode, FillSingle, AllocNode, At, NodeOf, EntryOf, Available, Blk, Put;
    AllocNoted(f);
    AllocFails(f);
    var (f1, q) := AllocForInode(f);
    if n < MAX_BLOCK_NR && n >= NR_DIRECT_BLOCKS {
      if n - NR_DIRECT_BLOCKS < NR_INDIRECT_BLOCKS {
        var i := n - NR_DIRECT_BLOCKS;
        FillSingleNoted(f1.(d := f1.d.(indirect := q)), i, ZeroBlock(), true);
        FillSingleNoted(f, i, Blk(f.vol, f.d.indirect), false);
      } else {
        var m := n - NR_DIRECT_BLOCKS - NR_INDIRECT_BLOCKS;
        EntryParts(m);
        NodeNoted(f1.(d := f1.d.(dindirect := q)), NodeOf(m), EntryOf(m), ZeroBlock(), true);
        NodeNoted(f, NodeOf(m), EntryOf(m), Blk(f.vol, f.d.dindirect), false);
      }
    }
  }

  lemma AllocFails(f: File)
    requires forall p :: p in f.vol.used ==> DATA_START <= p < DATA_LIMIT
    ensures Available(f.vol) <= 0 ==> AllocForInode(f) == (f, ENOSPC)
  {
    AllocForInodeSpec(f);
  }

  lemma AllocateStaysDirty(f: File, n: nat)
    requires f.dirty
    ensures AllocateBlock(f, n).0.dirty
  {
    hide AllocForInode, FillSingle, AllocNode, At, NodeOf, EntryOf, Blk, Put;
    AllocStaysDirty(f);
    var (f1, q) := AllocForInode(f);
    if n < MAX_BLOCK_NR && n >= NR_DIRECT_BLOCKS {
      if n - NR_DIRECT_BLOCKS < NR_INDIRECT_BLOCKS {
        var i := n - NR_DIRECT_BLOCKS;
        FillSingleNoted(f1.(d := f1.d.(indirect := q)), i, ZeroBlock(), true);
        FillSingleNoted(f, i, Blk(f.vol, f.d.indirect), false);
      } else {
        var m := n - NR_DIRECT_BLOCKS - NR_INDIRECT_BLOCKS;
        EntryParts(m);
        NodeNoted(f1.(d := f1.d.(dindirect := q)), NodeOf(m), EntryOf(m), ZeroBlock(), true);
        NodeNoted(f, NodeOf(m), EntryOf(m), Blk(f.vol, f.d.dindirect), false);
      }
    }
  }

  lemma AllocStaysDirty(f: File)
    requires f.dirty
    ensures AllocForInode(f).0.dirty
  {}

  lemma {:induction false} LoopStaysDirty(f: File, start: nat, buf: seq<byte>, pos: nat)
    requires f.dirty && pos <= |buf|
    ensures WriteLoop(f, start, buf, pos).0.dirty
    decreases |buf| - pos
  {
    hide AllocateBlock, BlockOf, IndexOf, Splice, Put, MapBlock, Blk, BufferFor;
    if pos < |buf| {
      var at := start + pos;
      var len := ChunkLength(at, |buf| - pos);
      AllocateStaysDirty(f, BlockOf(at));
      var (f1, r) := WriteChunk(f, BlockOf(at), IndexOf(at), buf[pos..pos + len]);
      if r >= 0 { LoopStaysDirty(f1, start, buf, pos + len); }
    }
  }

  /** From `pos` on, the write runs over mapped blocks until it meets block `b`, which cannot be had. */
  ghost predicate StopsAt(f: File, start: nat, buf: seq<byte>, pos: nat, b: nat) {
    && pos < |buf| && BlockOf(start + pos) <= b <= BlockOf(start + |buf| - 1)
    && (forall c: nat :: BlockOf(start + pos) <= c < b ==> MapBlock(f, c) != 0)
    && MapBlock(f, b) == 0 && Blocked(f, b)
  }

  /** How many bytes were written before block `b`. */
  function Before(start: nat, b: nat): nat {
    if b * BLOCK_SIZE > start then b * BLOCK_SIZE - start else 0
  }

  /** A round over a mapped block changes neither the inode nor what is mapped or available. */
  lemma MappedRound(f: File, start: nat, buf: seq<byte>, pos: nat, own: map<int, Slot>, foreign: set<int>) returns (f1: File, len: nat)
    requires TreeInv(f, own, foreign) && pos < |buf| && MapBlock(f, BlockOf(start + pos)) != 0
    ensures 0 < len <= |buf| - pos && len == ChunkLength(start + pos, |buf| - pos)
    ensures (f1, MapBlock(f, BlockOf(start + pos))) == WriteChunk(f, BlockOf(start + pos), IndexOf(start + pos), buf[pos..pos + len])
    ensures MapBlock(f, BlockOf(start + pos)) > 0
    ensures WriteLoop(f, start, buf, pos) == WriteLoop(f1, start, buf, pos + len)
    ensures TreeInv(f1, own, foreign) && f1.d == f.d && f1.dirty == f.dirty && Available(f1.vol) == Available(f.vol)
    ensures forall c: nat :: MapBlock(f1, c) == MapBlock(f, c)
    ensures pos + len == |buf| || (IndexOf(start + pos + len) == 0 && BlockOf(start + pos + len) == BlockOf(start + pos) + 1)
    ensures pos + len == |buf| ==> BlockOf(start + |buf| - 1) == BlockOf(start + pos)
  {
    hide At, TreeInv, MapBlock, BlockOf, IndexOf, Put, Splice, BufferFor, ChunkLength, Available, WriteLoop,
      AllocateBlock;
    var n := BlockOf(start + pos);
    MappedPositive(f, n, own, foreign);
    len := RoundEnds(start + pos, |buf| - pos);
    var w := buf[pos..pos + len];
    f1 := f.(vol := Put(f.vol, MapBlock(f, n), Splice(BufferFor(f, n), IndexOf(start + pos), w)));
    MappedChunk(f, n, IndexOf(start + pos), w);
    WriteLoopRound(f, start, buf, pos);
    StoreBlock(f, n, Splice(BufferFor(f, n), IndexOf(start + pos), w), own, foreign);
    PutKeeps(f.vol, MapBlock(f, n), Splice(BufferFor(f, n), IndexOf(start + pos), w));
  }

  lemma MappedPositive(f: File, n: nat, own: map<int, Slot>, foreign: set<int>)
    requires TreeInv(f, own, foreign) && MapBlock(f, n) != 0
    ensures MapBlock(f, n) > 0 && n < MAX_BLOCK_NR
  {
    hide At, LeafSlot, Blk, NoEmptyIndex;
    assert MapBlock(f, n) in own && MapBlock(f, n) in f.vol.used;
    MappedBelowMax(f, n);
  }

  lemma MappedChunk(f: File, n: nat, ix: nat, w: seq<byte>)
    requires MapBlock(f, n) > 0 && n < MAX_BLOCK_NR && ix + |w| <= BLOCK_SIZE
    ensures WriteChunk(f, n, ix, w) == (f.(vol := Put(f.vol, MapBlock(f, n), Splice(BufferFor(f, n), ix, w))), MapBlock(f, n))
  {
    hide MapBlock, Put, Splice, BufferFor;
  }

  lemma PutKeeps(v: Volume, p: int, b: Block)
    ensures Available(Put(v, p, b)) == Available(v)
  {}

  lemma MappedBelowMax(f: File, n: nat)
    requires MapBlock(f, n) != 0
    ensures n < MAX_BLOCK_NR
  {
    LeafSlotBijection(n, Ind);
  }

  lemma RoundEnds(at: nat, remaining: nat) returns (len: nat)
    requires remaining > 0
    ensures len == ChunkLength(at, remaining) && 0 < len <= remaining && IndexOf(at) + len <= BLOCK_SIZE
    ensures len == remaining || (IndexOf(at + len) == 0 && BlockOf(at + len) == BlockOf(at) + 1)
    ensures len == remaining ==> BlockOf(at + len - 1) == BlockOf(at)
  {
    len := ChunkLength(at, remaining);
    OffsetSum(at);
    OffsetParts(BlockOf(at) + 1, 0);
    OffsetParts(BlockOf(at), IndexOf(at) + len - 1);
  }

  /** If the flag is unset at the end, the write stopped at a blocked block after mapped ones only. */
  lemma {:induction false} QuietStops(f: File, start: nat, buf: seq<byte>, pos: nat, own: map<int, Slot>, foreign: set<int>) returns (b: nat)
    requires TreeInv(f, own, foreign) && pos <= |buf|
    ensures !WriteLoop(f, start, buf, pos).0.dirty ==> StopsAt(f, start, buf, pos, b)
    decreases |buf| - pos
  {
    hide *;
    b := 0;
    LoopEnds(f, start, buf);
    if pos < |buf| {
      var n := BlockOf(start + pos);
      if MapBlock(f, n) != 0 {
        var f1, len := MappedRound(f, start, buf, pos, own, foreign);
        b := QuietStops(f1, start, buf, pos + len, own, foreign);
        if !WriteLoop(f, start, buf, pos).0.dirty { StopsLater(f, f1, start, buf, pos, len, b); }
      } else {
        b := n;
        RoundUnmapped(f, start, buf, pos, own, foreign);
        if Blocked(f, n) { StopsHere(f, start, buf, pos); }
      }
    }
  }

  lemma StopsHere(f: File, start: nat, buf: seq<byte>, pos: nat)
    requires pos < |buf| && MapBlock(f, BlockOf(start + pos)) == 0 && Blocked(f, BlockOf(start + pos))
    ensures StopsAt(f, start, buf, pos, BlockOf(start + pos))
  {
    hide MapBlock, Blocked;
    BlockOrder(start + pos, start + |buf| - 1);
  }

  lemma StopsLater(f: File, f1: File, start: nat, buf: seq<byte>, pos: nat, len: nat, b: nat)
    requires pos < |buf| && StopsAt(f1, start, buf, pos + len, b) && MapBlock(f, BlockOf(start + pos)) != 0
    requires pos + len == |buf| || BlockOf(start + pos + len) == BlockOf(start + pos) + 1
    requires Available(f1.vol) == Available(f.vol) && forall c: nat :: MapBlock(f1, c) == MapBlock(f, c)
    ensures StopsAt(f, start, buf, pos, b)
  {
    hide MapBlock, BlockOf, Available;
  }

  lemma LoopEnds(f: File, start: nat, buf: seq<byte>)
    ensures WriteLoop(f, start, buf, |buf|).0.dirty
  {}

  lemma BlockOrder(a: nat, b: nat)
    requires a <= b
    ensures BlockOf(a) <= BlockOf(b)
  {}

  /** A round over an unmapped block. */
  lemma RoundUnmapped(f: File, start: nat, buf: seq<byte>, pos: nat, own: map<int, Slot>, foreign: set<int>)
    requires TreeInv(f, own, foreign) && pos < |buf| && MapBlock(f, BlockOf(start + pos)) == 0
    ensures var (g, r) := WriteLoop(f, start, buf, pos);
      if Blocked(f, BlockOf(start + pos)) then g == Grown(f, start, pos) && r < 0 else g.dirty
  {
    hide At, LeafSlot, AllocateBlock, NoEmptyIndex, Owns, BlockOf, IndexOf, Available, MapBlock, BufferFor, Splice,
      Put;
    var n := BlockOf(start + pos);
    AllocateNoted(f, n);
    var len := ChunkLength(start + pos, |buf| - pos);
    var (f1, r) := WriteChunk(f, n, IndexOf(start + pos), buf[pos..pos + len]);
    if r >= 0 { LoopStaysDirty(f1, start, buf, pos + len); }
  }

  /** Where the write stops at a blocked block after mapped ones only, the flag is as it was, and only
      the size of the inode can have changed. */
  lemma {:induction false} StopsQuiet(f: File, start: nat, buf: seq<byte>, pos: nat, b: nat, own: map<int, Slot>, foreign: set<int>)
    requires TreeInv(f, own, foreign) && StopsAt(f, start, buf, pos, b) && (pos > 0 ==> IndexOf(start + pos) == 0)
    ensures var (g, r) := WriteLoop(f, start, buf, pos);
      g.dirty == f.dirty && g.d == Grown(f, start, Before(start, b)).d && r < 0
    decreases |buf| - pos
  {
    hide At, LeafSlot, AllocateBlock, TreeInv, BlockOf, IndexOf, Available, MapBlock, BufferFor, Splice, Put,
      ChunkLength, WriteLoop, Before;
    var n := BlockOf(start + pos);
    if n == b {
      RoundUnmapped(f, start, buf, pos, own, foreign);
      BeforeHere(start, pos);
    } else {
      var f1, len := MappedRound(f, start, buf, pos, own, foreign);
      StopsQuiet(f1, start, buf, pos + len, b, own, foreign);
    }
  }

  lemma BeforeHere(start: nat, pos: nat)
    requires pos > 0 ==> IndexOf(start + pos) == 0
    ensures Before(start, BlockOf(start + pos)) == pos
  {
    OffsetSum(start + pos);
  }

  // ----- when the new size is lost -----

  /** The inode has changed and the flag does not say so. */
  predicate Unsaved(f: File, f': File) { !f'.dirty && f'.d != f.d }

  /** The number of blocks that a file of this size reaches into. */
  function BlocksOf(size: nat): nat { if size == 0 then 0 else BlockOf(size - 1) + 1 }

  /** Before the call: the file ends inside a block, the write begins in that block or earlier and goes
      beyond it, there is no hole in between, and no block is left for the next one. */
  ghost predicate WillLoseSize(f: File, start: nat, buf: seq<byte>) {
    && f.d.size > 0 && IndexOf(f.d.size) != 0
    && BlockOf(start) < BlocksOf(f.d.size) && start + |buf| > BlocksOf(f.d.size) * BLOCK_SIZE
    && (forall c: nat :: BlockOf(start) <= c < BlocksOf(f.d.size) ==> MapBlock(f, c) != 0)
    && Blocked(f, BlocksOf(f.d.size))
  }

  lemma BlocksAround(size: nat)
    requires size > 0
    ensures (BlocksOf(size) - 1) * BLOCK_SIZE < size <= BlocksOf(size) * BLOCK_SIZE
    ensures size == BlocksOf(size) * BLOCK_SIZE <==> IndexOf(size) == 0
  {
    OffsetSum(size - 1);
    OffsetSum(size);
  }

  lemma BlockStarts(off: nat, b: nat)
    ensures BlockOf(off) < b <==> off < b * BLOCK_SIZE
  {
    OffsetSum(off);
  }

  /** A write that fails part way loses the new size exactly then: the size in memory has grown, but the
      inode is not marked to be written back. In every other case a change of the inode is marked. */
  lemma SizeLostIff(f: File, start: nat, buf: seq<byte>, own: map<int, Slot>, foreign: set<int>)
    requires FileInv(f, own, foreign) && !f.dirty
    ensures Unsaved(f, WriteData(f, start, buf).0) <==> start < MAX_FILE_SIZE && WillLoseSize(f, start, buf)
  {
    hide TreeInv, BlockOf, IndexOf, MapBlock, ByteAt, Available, WriteLoop, StopsAt, WillLoseSize;
    if start < MAX_FILE_SIZE {
      var g := WriteLoop(f, start, buf, 0).0;
      var b := QuietStops(f, start, buf, 0, own, foreign);
      if Unsaved(f, g) {
        StopsQuiet(f, start, buf, 0, b, own, foreign);
        GrownLoses(f, start, buf, b);
      }
      if WillLoseSize(f, start, buf) {
        LosesStops(f, start, buf);
        StopsQuiet(f, start, buf, 0, BlocksOf(f.d.size), own, foreign);
        LosesGrows(f, start, buf);
      }
    }
  }

  lemma GrownLoses(f: File, start: nat, buf: seq<byte>, b: nat)
    requires Sized(f) && StopsAt(f, start, buf, 0, b) && Grown(f, start, Before(start, b)).d != f.d
    ensures WillLoseSize(f, start, buf)
  {
    hide BlockOf, IndexOf, MapBlock, ByteAt, Available;
    BlockStarts(start, b);
    assert start < b * BLOCK_SIZE && f.d.size < b * BLOCK_SIZE;
    assert MapBlock(f, b - 1) != 0;
    assert f.d.size > (b - 1) * BLOCK_SIZE;
    BlocksAround(f.d.size);
    assert b == BlocksOf(f.d.size);
    BlockStarts(start + |buf| - 1, b);
  }

  lemma LosesStops(f: File, start: nat, buf: seq<byte>)
    requires Sized(f) && WillLoseSize(f, start, buf)
    ensures StopsAt(f, start, buf, 0, BlocksOf(f.d.size))
  {
    hide BlockOf, IndexOf, MapBlock, ByteAt, Available;
    BlocksAround(f.d.size);
    BlockStarts(start, BlocksOf(f.d.size));
    BlockStarts(start + |buf| - 1, BlocksOf(f.d.size));
  }

  lemma LosesGrows(f: File, start: nat, buf: seq<byte>)
    requires WillLoseSize(f, start, buf)
    ensures Grown(f, start, Before(start, BlocksOf(f.d.size))).d != f.d
  {
    hide MapBlock, Available;
    BlocksAround(f.d.size);
    BlockStarts(start, BlocksOf(f.d.size));
  }

  /** Whatever a write leaves unmarked is the size alone: the pointers and the count agree with the disk. */
  lemma UnmarkedIsSize(f: File, start: nat, buf: seq<byte>, own: map<int, Slot>, foreign: set<int>)
    requires FileInv(f, own, foreign)
    ensures var f' := WriteData(f, start, buf).0; !f'.dirty ==> !f.dirty && f'.d == f.d.(size := f'.d.size)
  {
    hide TreeInv, Sized, WriteLoop, StopsAt;
    if start < MAX_FILE_SIZE {
      var b := QuietStops(f, start, buf, 0, own, foreign);
      if !WriteLoop(f, start, buf, 0).0.dirty { StopsQuiet(f, start, buf, 0, b, own, foreign); }
    }
  }

  /** When the new size has been lost, the shorter file is a sound one, without bytes beyond its end, if and
      only if the bytes written beyond the old end were all zero. */
  lemma LostSizeSound(f: File, start: nat, buf: seq<byte>, own: map<int, Slot>, foreign: set<int>)
    requires FileInv(f, own, foreign) && !f.dirty && start < MAX_FILE_SIZE && WillLoseSize(f, start, buf)
    ensures Sized(WriteData(f, start, buf).0.(d := f.d)) <==>
              forall i :: 0 <= i < |buf| && f.d.size <= start + i < BlocksOf(f.d.size) * BLOCK_SIZE ==> buf[i] == 0
  {
    hide TreeInv, Sized, BlockOf, IndexOf, MapBlock, ByteAt, Available, WriteLoop, StopsAt, Contents, Overwrite,
      SameTree, Need;
    var end := BlocksOf(f.d.size) * BLOCK_SIZE;
    var (f', r) := WriteData(f, start, buf);
    LosesStops(f, start, buf);
    StopsQuiet(f, start, buf, 0, BlocksOf(f.d.size), own, foreign);
    SizedNonNegative(f);
    BlocksAround(f.d.size);
    BlockStarts(start, BlocksOf(f.d.size));
    assert f'.d == f.d.(size := end);
    var k, own' := WriteDataSpec(f, start, buf, own, foreign);
    ShorterSized(f', f.d);
    ContentsAt(f, 0);
    ContentsAt(f', 0);
    WrittenTo(Contents(f), start, buf, k, end);
    TailBytes(Contents(f), start, buf, k, end);
    forall off: nat | f.d.size <= off < end ensures ByteAt(f', off) == Overwrite(Contents(f), start, buf[..k])[off] {
      ContentsAt(f', off);
    }
  }

  lemma ContentsAt(f: File, off: nat)
    requires f.d.size >= 0 && off < f.d.size
    ensures |Contents(f)| == f.d.size && ByteAt(f, off) == Contents(f)[off]
  {
    hide ByteAt;
  }

  lemma WrittenTo(b: seq<byte>, start: nat, buf: seq<byte>, k: nat, end: nat)
    requires k <= |buf| && |Overwrite(b, start, buf[..k])| == end > |b|
    ensures start + k == end
  {}

  lemma TailBytes(b: seq<byte>, start: nat, buf: seq<byte>, k: nat, end: nat)
    requires k <= |buf| && start + k == end > |b| && start < end && |Overwrite(b, start, buf[..k])| == end
    ensures (forall off: nat :: |b| <= off < end ==> Overwrite(b, start, buf[..k])[off] == 0) <==>
            forall i :: 0 <= i < |buf| && |b| <= start + i < end ==> buf[i] == 0
  {
    var o := Overwrite(b, start, buf[..k]);
    if forall off: nat :: |b| <= off < end ==> o[off] == 0 {
      forall i | 0 <= i < |buf| && |b| <= start + i < end ensures buf[i] == 0 { assert o[start + i] == buf[i]; }
    }
  }

  /** Taking back the size of a file that ends with a block, to a size within that block. */
  lemma ShorterSized(f: File, d: Dinode)
    requires Sized(f) && d == f.d.(size := d.size) && d.size > 0 && f.d.size == BlocksOf(d.size) * BLOCK_SIZE
    ensures Sized(f.(d := d)) <==> forall off: nat :: d.size <= off < f.d.size ==> ByteAt(f, off) == 0
  {
    hide BlockOf, IndexOf;
    var g := f.(d := d);
    BlocksAround(d.size);
    forall n: nat ensures MapBlock(g, n) == MapBlock(f, n) {}
    forall off: nat ensures ByteAt(g, off) == ByteAt(f, off) {}
    hide MapBlock, ByteAt;
    OffsetSum(f.d.size - 1);
    OffsetSum(d.size - 1);
    assert BlockOf(f.d.size - 1) == BlockOf(d.size - 1);
  }

  /** A file of one byte on a volume whose quota is one block. */
  function SmallFile(data: seq<Block>): File {
    File(Volume(data, {DATA_START}, 1, 1), ZERO_DINODE.(kind := RegularFile, direct := NO_POINTERS[0 := DATA_START], blockCount := 1, size := 1), false)
  }

  lemma SmallFileSlots(data: seq<Block>, s: Slot)
    ensures At(SmallFile(data).vol, SmallFile(data).d, s) == if s == Direct(0) then DATA_START else 0
  {}

  lemma SmallFileInv(data: seq<Block>)
    requires |data| == NR_BLOCK_BITS && data[0] == ZeroBlock()
    ensures FileInv(SmallFile(data), map[DATA_START := Direct(0)], {})
  {
    var f := SmallFile(data);
    forall s: Slot ensures At(f.vol, f.d, s) == if s == Direct(0) then DATA_START else 0 { SmallFileSlots(data, s); }
    assert map[DATA_START := Direct(0)].Keys == {DATA_START};
    SmallFileSized(data);
  }

  lemma SmallFileSized(data: seq<Block>)
    requires |data| == NR_BLOCK_BITS && data[0] == ZeroBlock()
    ensures Sized(SmallFile(data))
  {
    var f := SmallFile(data);
    forall n: nat ensures MapBlock(f, n) == if n == 0 then DATA_START else 0 { SmallFileSlots(data, LeafSlot(n)); }
    OffsetParts(0, 0);
  }

  /** Such a case: a second block is needed and cannot be had, and the size that has grown to a whole
      block is not going to be written back. */
  lemma SizeIsLost(data: seq<Block>, buf: seq<byte>)
    requires |data| == NR_BLOCK_BITS && data[0] == ZeroBlock() && |buf| == BLOCK_SIZE
    ensures var (f', r) := WriteData(SmallFile(data), 1, buf);
      r < 0 && f'.d.size == BLOCK_SIZE && Unsaved(SmallFile(data), f')
  {
    hide MapBlock, WriteLoop, FileInv;
    var f := SmallFile(data);
    SmallFileInv(data);
    assert MapBlock(f, 0) == DATA_START && MapBlock(f, 1) == 0 by { SmallFileSlots(data, LeafSlot(0)); SmallFileSlots(data, LeafSlot(1)); SmallMap(f); }
    SmallStops(f, buf);
    StopsQuiet(f, 1, buf, 0, 1, map[DATA_START := Direct(0)], {});
  }

  lemma SmallMap(f: File)
    ensures MapBlock(f, 0) == At(f.vol, f.d, LeafSlot(0)) && MapBlock(f, 1) == At(f.vol, f.d, LeafSlot(1))
  {}

  lemma SmallStops(f: File, buf: seq<byte>)
    requires |buf| == BLOCK_SIZE && MapBlock(f, 0) != 0 && MapBlock(f, 1) == 0 && f.vol.usedCount == f.vol.maxBlocks == 1
    ensures StopsAt(f, 1, buf, 0, 1) && Before(1, 1) == BLOCK_SIZE - 1
  {
    hide MapBlock;
  }

  // ----- writing over what exists -----

  lemma {:induction false} MappedWrite(f: File, start: nat, buf: seq<byte>, pos: nat, own: map<int, Slot>, foreign: set<int>)
    requires TreeInv(f, own, foreign) && pos <= |buf|
    requires forall c: nat :: c * BLOCK_SIZE < start + |buf| ==> MapBlock(f, c) != 0
    ensures WriteLoop(f, start, buf, pos).1 == |buf|
    decreases |buf| - pos
  {
    hide TreeInv, BlockOf, IndexOf, MapBlock, Available, WriteLoop, WriteChunk;
    if pos < |buf| {
      BlockStarts(start + pos, BlockOf(start + pos) + 1);
      OffsetSum(start + pos);
      var f1, len := MappedRound(f, start, buf, pos, own, foreign);
      MappedWrite(f1, start, buf, pos + len, own, foreign);
    } else {
      LoopReturns(f, start, buf);
    }
  }

  lemma LoopReturns(f: File, start: nat, buf: seq<byte>)
    ensures WriteLoop(f, start, buf, |buf|).1 == |buf|
  {}

  /** Writing inside a file without holes needs no block, and so cannot fail. */
  lemma RewriteSucceeds(f: File, start: nat, buf: seq<byte>, own: map<int, Slot>, foreign: set<int>)
    requires FileInv(f, own, foreign) && NoHoles(f) && start + |buf| <= f.d.size && buf != []
    ensures WriteData(f, start, buf).1 == |buf|
  {
    hide TreeInv, WriteLoop, MapBlock, ByteAt;
    MappedWrite(f, start, buf, 0, own, foreign);
  }
}
