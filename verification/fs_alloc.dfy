/** Block allocation: the global counter and free map (fs/super.c), the per-inode counter
    (fs/inode.c), and `testfs_allocate_block` with its undo paths (fs/read_write.c). */
module BlockAlloc {
  import opened Layout
  import opened BlockTree

  /** The least free block at or after `p`. */
  function FirstFree(used: set<int>, p: int): (r: int)
    requires DATA_START <= p <= DATA_LIMIT
    ensures p <= r <= DATA_LIMIT
    ensures forall q :: p <= q < r ==> q in used
    ensures r < DATA_LIMIT ==> r !in used
    decreases DATA_LIMIT - p
  {
    if p == DATA_LIMIT || p !in used then p else FirstFree(used, p + 1)
  }

  /** `testfs_alloc_block`. */
  function AllocBlock(v: Volume): (Volume, int) {
    var p := FirstFree(v.used, DATA_START);
    if v.usedCount >= v.maxBlocks || p == DATA_LIMIT then (v, ENOSPC)
    else (v.(used := v.used + {p}, usedCount := v.usedCount + 1), p)
  }

  /** `testfs_free_block`. */
  function FreeBlock(v: Volume, p: int): Volume {
    Put(v, p, ZeroBlock()).(used := v.used - {p}, usedCount := v.usedCount - 1)
  }

  /** `testfs_alloc_block_for_inode`. */
  function AllocForInode(f: File): (File, int) {
    var (v, p) := AllocBlock(f.vol);
    if p >= 0 then (File(v, f.d.(blockCount := f.d.blockCount + 1), true), p) else (f, p)
  }

  /** `testfs_free_block_from_inode`. */
  function FreeFromInode(f: File, p: int): File {
    if p == 0 then f else File(FreeBlock(f.vol, p), f.d.(blockCount := f.d.blockCount - 1), true)
  }

  /** `testfs_allocate_block`. */
  function AllocateBlock(f: File, n: nat): (File, int) {
    if n >= MAX_BLOCK_NR then (f, EFBIG)
    else if MapBlock(f, n) != 0 then (f, MapBlock(f, n))
    else if n < NR_DIRECT_BLOCKS then AllocDirect(f, n)
    else if n - NR_DIRECT_BLOCKS < NR_INDIRECT_BLOCKS then AllocSingle(f, n - NR_DIRECT_BLOCKS)
    else
      var m := n - NR_DIRECT_BLOCKS - NR_INDIRECT_BLOCKS;
      AllocDouble(f, NodeOf(m), EntryOf(m))
  }

  function AllocDirect(f: File, n: nat): (File, int) {
    var (f1, p) := AllocForInode(f);
    if p >= 0 && n < |f1.d.direct| then (f1.(d := f1.d.(direct := f1.d.direct[n := p])), p) else (f1, p)
  }

  /** The indirect block first if there is none, then the data block. */
  function AllocSingle(f: File, i: nat): (File, int)
    requires i < NR_INDIRECT_BLOCKS
  {
    if f.d.indirect == 0 then
      var (f1, q) := AllocForInode(f);
      if q < 0 then (f1, q)
      else FillSingle(f1.(d := f1.d.(indirect := q)), i, ZeroBlock(), true)
    else FillSingle(f, i, Blk(f.vol, f.d.indirect), false)
  }

  function FillSingle(f: File, i: nat, indirect: Block, indirectAllocated: bool): (File, int)
    requires i < NR_INDIRECT_BLOCKS
  {
    var (f1, p) := AllocForInode(f);
    if p >= 0 then (f1.(vol := Put(f1.vol, f1.d.indirect, SetPtr(indirect, i, p))), p)
    else if indirectAllocated then
      var f2 := FreeFromInode(f1, f1.d.indirect);
      (f2.(d := f2.d.(indirect := 0)), p)
    else (f1, p)
  }

  /** The double-indirect block if there is none, then the indirect block, then the data block. */
  function AllocDouble(f: File, i: nat, j: nat): (File, int)
    requires i < NR_INDIRECT_BLOCKS && j < NR_INDIRECT_BLOCKS
  {
    if f.d.dindirect == 0 then
      var (f1, q) := AllocForInode(f);
      if q < 0 then (f1, q)
      else AllocNode(f1.(d := f1.d.(dindirect := q)), i, j, ZeroBlock(), true)
    else AllocNode(f, i, j, Blk(f.vol, f.d.dindirect), false)
  }

  function AllocNode(f: File, i: nat, j: nat, dindirect: Block, dindirectAllocated: bool): (File, int)
    requires i < NR_INDIRECT_BLOCKS && j < NR_INDIRECT_BLOCKS
  {
    var id := Ptr(dindirect, i);
    if id == 0 then
      var (f1, q) := AllocForInode(f);
      if q < 0 then (UndoDouble(f1, dindirectAllocated), q)
      else FillDouble(f1, j, q, SetPtr(dindirect, i, q), ZeroBlock(), true, dindirectAllocated)
    else FillDouble(f, j, id, dindirect, Blk(f.vol, id), false, dindirectAllocated)
  }

  function FillDouble(f: File, j: nat, id: int, dindirect: Block, indirect: Block,
                      indirectAllocated: bool, dindirectAllocated: bool): (File, int)
    requires j < NR_INDIRECT_BLOCKS
  {
    var (f1, p) := AllocForInode(f);
    if p >= 0 then
      var v1 := Put(f1.vol, id, SetPtr(indirect, j, p));
      (f1.(vol := if indirectAllocated then Put(v1, f1.d.dindirect, dindirect) else v1), p)
    else if indirectAllocated then (UndoDouble(FreeFromInode(f1, id), dindirectAllocated), p)
    else (f1, p)
  }

  /** Releases a double-indirect block that this very call allocated. */
  function UndoDouble(f: File, dindirectAllocated: bool): File {
    if dindirectAllocated then
      var f1 := FreeFromInode(f, f.d.dindirect);
      f1.(d := f1.d.(dindirect := 0))
    else f
  }

  // ----- properties -----

  /** Blocks that can still be handed out. */
  function Available(v: Volume): int {
    var byQuota := v.maxBlocks - v.usedCount;
    var byMap := NR_BLOCK_BITS - |v.used|;
    if byQuota <= byMap then byQuota else byMap
  }

  /** Blocks that mapping logical block `n` takes. */
  function Need(f: File, n: nat): nat {
    if MapBlock(f, n) != 0 then 0
    else if n < NR_DIRECT_BLOCKS then 1
    else if n - NR_DIRECT_BLOCKS < NR_INDIRECT_BLOCKS then if f.d.indirect == 0 then 2 else 1
    else if f.d.dindirect == 0 then 3
    else if At(f.vol, f.d, DindNode(NodeOf(n - NR_DIRECT_BLOCKS - NR_INDIRECT_BLOCKS))) == 0 then 2
    else 1
  }

  /** Nothing a later operation can see has changed. */
  ghost predicate SameTree(f: File, f': File) {
    && f'.d == f.d
    && f'.vol.used == f.vol.used && f'.vol.usedCount == f.vol.usedCount && f'.vol.maxBlocks == f.vol.maxBlocks
    && |f'.vol.data| == |f.vol.data|
    && forall p :: p in f.vol.used ==> Blk(f'.vol, p) == Blk(f.vol, p)
  }

  lemma CountBelow(used: set<int>, lo: int, hi: int)
    requires lo <= hi
    requires forall p :: p in used ==> lo <= p < hi
    ensures |used| <= hi - lo
    ensures |used| == hi - lo <==> (forall p :: lo <= p < hi ==> p in used)
    decreases hi - lo
  {
    if lo < hi {
      var rest := used - {hi - 1};
      CountBelow(rest, lo, hi - 1);
      assert forall p :: lo <= p < hi - 1 ==> (p in rest <==> p in used);
      if hi - 1 in used {
        assert |rest| == |used| - 1;
      } else {
        assert rest == used;
      }
    } else {
      assert forall p :: p !in used;
      assert used == {};
    }
  }

  /** A block is handed out if and only if one is available, and it is a fresh one. */
  lemma AllocBlockSpec(v: Volume)
    requires forall p :: p in v.used ==> DATA_START <= p < DATA_LIMIT
    ensures var (v', p) := AllocBlock(v);
      if Available(v) > 0 then DATA_START <= p < DATA_LIMIT && p !in v.used &&
                               v' == v.(used := v.used + {p}, usedCount := v.usedCount + 1) &&
                               Available(v') == Available(v) - 1
      else p == ENOSPC && v' == v
  {
    CountBelow(v.used, DATA_START, DATA_LIMIT);
  }

  lemma AllocForInodeSpec(f: File)
    requires forall p :: p in f.vol.used ==> DATA_START <= p < DATA_LIMIT
    ensures var (f', p) := AllocForInode(f);
      if Available(f.vol) > 0 then
        DATA_START <= p < DATA_LIMIT && p !in f.vol.used && Available(f'.vol) == Available(f.vol) - 1 &&
        f' == File(f.vol.(used := f.vol.used + {p}, usedCount := f.vol.usedCount + 1),
                   f.d.(blockCount := f.d.blockCount + 1), true)
      else p == ENOSPC && f' == f
  {
    AllocBlockSpec(f.vol);
  }
}
