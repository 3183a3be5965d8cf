/** The bytes of a file: what reading a sparse file means, and the write loop of fs/read_write.c. */
module FileContents {
  import opened Layout
  import opened BlockTree
  import opened BlockAlloc
  import opened AllocProofs

  /** The byte at an offset; holes read as zero. */
  function ByteAt(f: File, off: nat): byte {
    var p := MapBlock(f, BlockOf(off));
    if p == 0 then 0 else Blk(f.vol, p)[IndexOf(off)]
  }

  /** The file as a reader sees it. */
  function Contents(f: File): seq<byte>
    requires f.d.size >= 0
  {
    seq(f.d.size, i requires 0 <= i < f.d.size => ByteAt(f, i))
  }

  /** The recorded size covers the tree, and its last byte lies in a block that exists. */
  ghost predicate Sized(f: File) {
    && 0 <= f.d.size <= MAX_FILE_SIZE
    && (forall n: nat :: MapBlock(f, n) != 0 ==> n * BLOCK_SIZE < f.d.size)
    && (f.d.size > 0 ==> MapBlock(f, BlockOf(f.d.size - 1)) != 0)
    && (forall off: nat :: off >= f.d.size ==> ByteAt(f, off) == 0)
  }

  ghost predicate FileInv(f: File, own: map<int, Slot>, foreign: set<int>) {
    TreeInv(f, own, foreign) && Sized(f)
  }

  /** The abstract effect of a write: replace, extend, and zero-fill any gap. */
  function Overwrite(s: seq<byte>, start: nat, w: seq<byte>): seq<byte> {
    if w == [] then s
    else
      var len := if |s| >= start + |w| then |s| else start + |w|;
      seq(len, i requires 0 <= i < len =>
        if start <= i < start + |w| then w[i - start] else if i < |s| then s[i] else 0)
  }

  function Splice(b: Block, ix: nat, w: seq<byte>): Block
    requires ix + |w| <= BLOCK_SIZE
  {
    b[..ix] + w + b[ix + |w|..]
  }

  /** The buffer that `testfs_allocate_block` leaves behind for logical block `n`. */
  function BufferFor(f: File, n: nat): Block {
    if MapBlock(f, n) > 0 then Blk(f.vol, MapBlock(f, n)) else ZeroBlock()
  }

  /** One round of the write loop. */
  function WriteChunk(f: File, n: nat, ix: nat, w: seq<byte>): (File, int)
    requires ix + |w| <= BLOCK_SIZE
  {
    var (f1, r) := AllocateBlock(f, n);
    if r < 0 then (f1, r)
    else (f1.(vol := Put(f1.vol, r, Splice(BufferFor(f, n), ix, w))), r)
  }

  function Grow(f: File, end: int): File {
    if f.d.size >= end then f else f.(d := f.d.(size := end))
  }

  /** The size update on every way out of the loop. */
  function Grown(f: File, start: nat, pos: nat): File {
    if pos > 0 then Grow(f, start + pos) else f
  }

  function ChunkLength(at: nat, remaining: nat): nat {
    var room := BLOCK_SIZE - IndexOf(at);
    if room < remaining then room else remaining
  }

  /** The loop of `testfs_write_data`, `pos` bytes being done. */
  function WriteLoop(f: File, start: nat, buf: seq<byte>, pos: nat): (File, int)
    requires pos <= |buf|
    decreases |buf| - pos
  {
    if pos == |buf| then (Grown(f, start, pos).(dirty := true), pos)
    else
      var at := start + pos;
      var len := ChunkLength(at, |buf| - pos);
      var (f1, r) := WriteChunk(f, BlockOf(at), IndexOf(at), buf[pos..pos + len]);
      if r < 0 then (Grown(f1, start, pos), r)
      else WriteLoop(f1, start, buf, pos + len)
  }

  /** `testfs_write_data`. */
  function WriteData(f: File, start: nat, buf: seq<byte>): (File, int) {
    if start >= MAX_FILE_SIZE then (f, EFBIG) else WriteLoop(f, start, buf, 0)
  }

  // ----- one round -----

  lemma LeafMapInjective(f: File, own: map<int, Slot>, n: nat, m: nat)
    requires Owns(f.vol, f.d, own) && n != m && MapBlock(f, n) != 0
    ensures MapBlock(f, n) != MapBlock(f, m)
  {
    LeafSlotBijection(n, Ind);
    LeafSlotBijection(m, Ind);
    assert own[MapBlock(f, n)] == LeafSlot(n);
  }

  /** Rewriting a data block changes the bytes of one logical block only and no pointer. */
  lemma StoreBlock(f: File, n: nat, b: Block, own: map<int, Slot>, foreign: set<int>)
    requires TreeInv(f, own, foreign) && MapBlock(f, n) > 0
    ensures var f' := f.(vol := Put(f.vol, MapBlock(f, n), b));
      && TreeInv(f', own, foreign)
      && (forall m: nat :: MapBlock(f', m) == MapBlock(f, m))
      && (forall p {:trigger Blk(f'.vol, p)} :: p != MapBlock(f, n) ==> Blk(f'.vol, p) == Blk(f.vol, p))
      && (forall off: nat :: ByteAt(f', off) == if BlockOf(off) == n then b[IndexOf(off)] else ByteAt(f, off))
  {
    var r := MapBlock(f, n);
    var f' := f.(vol := Put(f.vol, r, b));
    LeafSlotBijection(n, Ind);
    assert own[r] == LeafSlot(n);
    BlkOfPut(f.vol, r, b);
    TreeFrame(f.vol, f'.vol, f.d, own);
    forall off: nat ensures ByteAt(f', off) == if BlockOf(off) == n then b[IndexOf(off)] else ByteAt(f, off) {
      if BlockOf(off) != n {
        LeafMapInjective(f, own, n, BlockOf(off));
      }
    }
  }

  /** Bytes outside logical block `n` survive the allocation of block `n`. */
  lemma AllocKeepsBytes(f: File, f': File, n: nat, r: int, own: map<int, Slot>, own': map<int, Slot>, foreign: set<int>)
    requires TreeInv(f, own, foreign) && Mapped(f, f', n, r, own, own', foreign)
    ensures forall m: nat :: m != n ==> MapBlock(f', m) == MapBlock(f, m)
    ensures forall off: nat :: BlockOf(off) != n ==> ByteAt(f', off) == ByteAt(f, off)
  {
    hide At, LeafSlot, NoEmptyIndex, Blk, Accounted, Need, Available;
    forall m: nat | m != n ensures MapBlock(f', m) == MapBlock(f, m) {
      LeafSlotBijection(n, Ind);
      LeafSlotBijection(m, Ind);
    }
    forall off: nat | BlockOf(off) != n ensures ByteAt(f', off) == ByteAt(f, off) {
      var m := BlockOf(off);
      var p := MapBlock(f, m);
      if p != 0 {
        LeafSlotBijection(m, Ind);
        assert own[p] == LeafSlot(m);
      }
    }
  }

  lemma BufferBytes(f: File, n: nat, own: map<int, Slot>, foreign: set<int>, k: nat)
    requires TreeInv(f, own, foreign) && k < BLOCK_SIZE
    ensures BufferFor(f, n)[k] == ByteAt(f, n * BLOCK_SIZE + k)
  {
    OffsetParts(n, k);
    if MapBlock(f, n) != 0 { assert MapBlock(f, n) in own; assert MapBlock(f, n) in f.vol.used; }
  }

  /** What one round of the write loop does, as seen by a reader. */
  ghost predicate ChunkWritten(f: File, f': File, n: nat, ix: nat, w: seq<byte>) {
    && f'.d.size == f.d.size && f'.d.kind == f.d.kind && f'.vol.maxBlocks == f.vol.maxBlocks
    && n < MAX_BLOCK_NR
    && (forall m: nat :: MapBlock(f', m) != 0 <==> m == n || MapBlock(f, m) != 0)
    && (forall off: nat :: ByteAt(f', off) ==
          if BlockOf(off) == n && ix <= IndexOf(off) < ix + |w| then w[IndexOf(off) - ix] else ByteAt(f, off))
  }

  lemma SpliceAt(b: Block, ix: nat, w: seq<byte>, k: nat)
    requires ix + |w| <= BLOCK_SIZE && k < BLOCK_SIZE
    ensures Splice(b, ix, w)[k] == if ix <= k < ix + |w| then w[k - ix] else b[k]
  {}

  lemma ChunkBytes(f: File, f1: File, f': File, n: nat, ix: nat, w: seq<byte>, own: map<int, Slot>, foreign: set<int>, off: nat)
    requires TreeInv(f, own, foreign) && ix + |w| <= BLOCK_SIZE
    requires BlockOf(off) != n ==> ByteAt(f1, off) == ByteAt(f, off)
    requires ByteAt(f', off) ==
               if BlockOf(off) == n then Splice(BufferFor(f, n), ix, w)[IndexOf(off)] else ByteAt(f1, off)
    ensures ByteAt(f', off) ==
      if BlockOf(off) == n && ix <= IndexOf(off) < ix + |w| then w[IndexOf(off) - ix] else ByteAt(f, off)
  {
    hide ByteAt, TreeInv, BufferFor, Splice;
    if BlockOf(off) == n {
      SpliceAt(BufferFor(f, n), ix, w, IndexOf(off));
      BufferBytes(f, n, own, foreign, IndexOf(off));
    }
  }

  lemma ChunkStored(f: File, f1: File, n: nat, ix: nat, w: seq<byte>, r: int, own: map<int, Slot>, own': map<int, Slot>, foreign: set<int>)
    requires TreeInv(f, own, foreign) && ix + |w| <= BLOCK_SIZE
    requires r > 0 && n < MAX_BLOCK_NR && Mapped(f, f1, n, r, own, own', foreign)
    ensures var f' := f1.(vol := Put(f1.vol, r, Splice(BufferFor(f, n), ix, w)));
      && TreeInv(f', own', foreign) && ChunkWritten(f, f', n, ix, w)
      && (forall p :: p in foreign ==> Blk(f'.vol, p) == Blk(f.vol, p))
  {
    hide At, LeafSlot, Blk, Put, Need, Available, TreeInv, MapBlock, ByteAt, Splice, BufferFor, Mapped, BlockOf,
      IndexOf;
    var b := Splice(BufferFor(f, n), ix, w);
    var f' := f1.(vol := Put(f1.vol, r, b));
    ForeignNotMine(f, f1, n, r, own, own', foreign);
    AllocKeepsBytes(f, f1, n, r, own, own', foreign);
    StoreBlock(f1, n, b, own', foreign);
    PutFields(f1.vol, r, b);
    forall off: nat ensures ByteAt(f', off) ==
        if BlockOf(off) == n && ix <= IndexOf(off) < ix + |w| then w[IndexOf(off) - ix] else ByteAt(f, off)
    {
      ChunkBytes(f, f1, f', n, ix, w, own, foreign, off);
    }
  }

  lemma PutFields(v: Volume, p: int, b: Block)
    ensures Put(v, p, b).maxBlocks == v.maxBlocks
  {}

  lemma ForeignNotMine(f: File, f': File, n: nat, r: int, own: map<int, Slot>, own': map<int, Slot>, foreign: set<int>)
    requires Mapped(f, f', n, r, own, own', foreign)
    ensures TreeInv(f', own', foreign) && MapBlock(f', n) == r && r !in foreign
    ensures f'.d.size == f.d.size && f'.d.kind == f.d.kind && f'.vol.maxBlocks == f.vol.maxBlocks
    ensures forall p :: p in foreign ==> Blk(f'.vol, p) == Blk(f.vol, p)
  {
    hide At, LeafSlot, Blk, Need, Available, NoEmptyIndex, Owns;
  }

  lemma SameTreeBytes(f: File, f': File, own: map<int, Slot>, foreign: set<int>)
    requires TreeInv(f, own, foreign) && SameTree(f, f')
    ensures forall m: nat :: MapBlock(f', m) == MapBlock(f, m)
    ensures forall off: nat :: ByteAt(f', off) == ByteAt(f, off)
  {
    SameTreeKeeps(f, f', own, foreign);
    forall off: nat ensures ByteAt(f', off) == ByteAt(f, off) {
      var p := MapBlock(f, BlockOf(off));
      assert p != 0 ==> p in own && p in f.vol.used;
    }
  }

  lemma ChunkSpec(f: File, n: nat, ix: nat, w: seq<byte>, own: map<int, Slot>, foreign: set<int>) returns (own': map<int, Slot>)
    requires TreeInv(f, own, foreign) && ix + |w| <= BLOCK_SIZE
    ensures var (f', r) := WriteChunk(f, n, ix, w);
      && TreeInv(f', own', foreign)
      && (forall p :: p in foreign ==> Blk(f'.vol, p) == Blk(f.vol, p))
      && (r >= 0 ==> ChunkWritten(f, f', n, ix, w))
      && (r < 0 ==> SameTree(f, f') && own' == own && r == (if n >= MAX_BLOCK_NR then EFBIG else ENOSPC) &&
                    (n < MAX_BLOCK_NR ==> Need(f', n) > Available(f'.vol)))
  {
    var (f1, r) := AllocateBlock(f, n);
    own' := AllocateBlockSpec(f, n, own, foreign);
    if r >= 0 {
      hide TreeInv, Blk, Put, Need, Available;
      ChunkStored(f, f1, n, ix, w, r, own, own', foreign);
    } else {
      SameTreeKeeps(f, f1, own, foreign);
    }
  }

  // ----- the whole write -----

  /** The state of the write loop after `pos` bytes, relative to the file before the call. */
  ghost predicate Progress(f0: File, f: File, start: nat, buf: seq<byte>, pos: nat) {
    && pos <= |buf|
    && f.d.size == f0.d.size && f.d.kind == f0.d.kind && f.vol.maxBlocks == f0.vol.maxBlocks
    && (pos > 0 ==> start + pos <= MAX_FILE_SIZE)
    && (0 < pos < |buf| ==> IndexOf(start + pos) == 0)
    && (forall m: nat :: MapBlock(f, m) != 0 <==>
          MapBlock(f0, m) != 0 || (pos > 0 && BlockOf(start) <= m && m * BLOCK_SIZE < start + pos))
    && (forall off: nat :: ByteAt(f, off) == if start <= off < start + pos then buf[off - start] else ByteAt(f0, off))
  }

  /** The bytes and the block that one round touches. */
  lemma ChunkRange(start: nat, pos: nat, remaining: nat, off: nat, m: nat)
    requires remaining > 0 && (pos > 0 ==> IndexOf(start + pos) == 0)
    ensures var at := start + pos; var len := ChunkLength(at, remaining);
      && 0 < len <= remaining && IndexOf(at) + len <= BLOCK_SIZE
      && (len < remaining ==> IndexOf(at + len) == 0)
      && at + len <= (BlockOf(at) + 1) * BLOCK_SIZE
      && (at <= off < at + len <==> BlockOf(off) == BlockOf(at) && IndexOf(at) <= IndexOf(off) < IndexOf(at) + len)
      && (at <= off < at + len ==> IndexOf(off) - IndexOf(at) == off - at)
      && (BlockOf(start) <= m && m * BLOCK_SIZE < at + len <==>
            m == BlockOf(at) || (pos > 0 && BlockOf(start) <= m && m * BLOCK_SIZE < at))
  {
    var at := start + pos;
    OffsetSum(at);
    OffsetSum(off);
    OffsetSum(start);
    var n := BlockOf(at);
    var len := ChunkLength(at, remaining);
    if len < remaining {
      assert at + len == (n + 1) * BLOCK_SIZE + 0;
      OffsetParts(n + 1, 0);
    }
  }

  lemma ProgressBytes(f0: File, f: File, f': File, start: nat, buf: seq<byte>, pos: nat, off: nat)
    requires Progress(f0, f, start, buf, pos) && pos < |buf|
    requires var at := start + pos; var len := ChunkLength(at, |buf| - pos);
      ChunkWritten(f, f', BlockOf(at), IndexOf(at), buf[pos..pos + len])
    ensures ByteAt(f', off) ==
      if start <= off < start + pos + ChunkLength(start + pos, |buf| - pos) then buf[off - start] else ByteAt(f0, off)
  {
    hide ByteAt, MapBlock, BlockOf, IndexOf, ChunkLength;
    ChunkRange(start, pos, |buf| - pos, off, 0);
    var at := start + pos;
    var w := buf[pos..pos + ChunkLength(at, |buf| - pos)];
    assert ByteAt(f', off) ==
      if BlockOf(off) == BlockOf(at) && IndexOf(at) <= IndexOf(off) < IndexOf(at) + |w| then w[IndexOf(off) - IndexOf(at)]
      else ByteAt(f, off);
  }

  lemma ProgressBlocks(f0: File, f: File, f': File, start: nat, buf: seq<byte>, pos: nat, m: nat)
    requires Progress(f0, f, start, buf, pos) && pos < |buf|
    requires var at := start + pos; var len := ChunkLength(at, |buf| - pos);
      ChunkWritten(f, f', BlockOf(at), IndexOf(at), buf[pos..pos + len])
    ensures MapBlock(f', m) != 0 <==>
      (MapBlock(f0, m) != 0 ||
       (BlockOf(start) <= m && m * BLOCK_SIZE < start + pos + ChunkLength(start + pos, |buf| - pos)))
  {
    hide ByteAt, MapBlock, BlockOf, IndexOf, ChunkLength;
    ChunkRange(start, pos, |buf| - pos, 0, m);
  }

  lemma ProgressStep(f0: File, f: File, f': File, start: nat, buf: seq<byte>, pos: nat)
    requires Progress(f0, f, start, buf, pos) && pos < |buf|
    requires var at := start + pos; var len := ChunkLength(at, |buf| - pos);
      ChunkWritten(f, f', BlockOf(at), IndexOf(at), buf[pos..pos + len])
    ensures Progress(f0, f', start, buf, pos + ChunkLength(start + pos, |buf| - pos))
  {
    hide ByteAt, MapBlock, BlockOf, IndexOf, ChunkLength;
    ChunkRange(start, pos, |buf| - pos, 0, 0);
    forall off: nat { ProgressBytes(f0, f, f', start, buf, pos, off); }
    forall m: nat { ProgressBlocks(f0, f, f', start, buf, pos, m); }
  }

  lemma GrowKeeps(f: File, end: int, own: map<int, Slot>, foreign: set<int>)
    requires TreeInv(f, own, foreign)
    ensures TreeInv(Grow(f, end), own, foreign)
    ensures forall m: nat :: MapBlock(Grow(f, end), m) == MapBlock(f, m)
    ensures forall off: nat :: ByteAt(Grow(f, end), off) == ByteAt(f, off)
  {
    var g := Grow(f, end);
    forall s: Slot ensures At(g.vol, g.d, s) == At(f.vol, f.d, s) {}
    assert NoEmptyIndex(g.vol, g.d) by { NonEmptyFields(f.vol, f.d, g.d); }
  }

  lemma NonEmptyFields(v: Volume, d: Dinode, d': Dinode)
    requires d'.indirect == d.indirect && d'.dindirect == d.dindirect && d'.direct == d.direct
    requires NoEmptyIndex(v, d)
    ensures NoEmptyIndex(v, d')
  {
    hide PtrIn;
    if d.indirect != 0 { var i: nat :| At(v, d, IndLeaf(i)) != 0; assert At(v, d', IndLeaf(i)) != 0; }
    if d.dindirect != 0 { var i: nat :| At(v, d, DindNode(i)) != 0; assert At(v, d', DindNode(i)) != 0; }
    forall i: nat | At(v, d', DindNode(i)) != 0 ensures exists j: nat :: At(v, d', DindLeaf(i, j)) != 0 {
      assert At(v, d, DindNode(i)) != 0;
      var j: nat :| At(v, d, DindLeaf(i, j)) != 0;
      assert At(v, d', DindLeaf(i, j)) != 0;
    }
  }

  ghost predicate SameBytes(f: File, g: File) {
    && (forall m: nat :: MapBlock(g, m) == MapBlock(f, m))
    && (forall off: nat :: ByteAt(g, off) == ByteAt(f, off))
  }

  /** Growing the size to the end of what was written restores the invariant. */
  lemma ProgressSized(f0: File, f: File, g: File, start: nat, buf: seq<byte>, pos: nat)
    requires Sized(f0) && Progress(f0, f, start, buf, pos) && SameBytes(f, g)
    requires g.d.size == if pos > 0 && f.d.size < start + pos then start + pos else f.d.size
    ensures Sized(g)
  {
    hide ByteAt, MapBlock;
    if pos > 0 {
      var last := start + pos - 1;
      OffsetSum(last);
      OffsetSum(start);
      assert MapBlock(g, BlockOf(last)) != 0;
    }
    forall m: nat | MapBlock(g, m) != 0 ensures m * BLOCK_SIZE < g.d.size {
      assert MapBlock(f, m) != 0;
    }
  }

  lemma ProgressContents(f0: File, f: File, g: File, start: nat, buf: seq<byte>, pos: nat)
    requires Sized(f0) && Progress(f0, f, start, buf, pos) && SameBytes(f, g)
    requires g.d.size == if pos > 0 && f.d.size < start + pos then start + pos else f.d.size
    ensures Contents(g) == Overwrite(Contents(f0), start, buf[..pos])
  {
    hide ByteAt, MapBlock, BlockOf, IndexOf;
    var o := Overwrite(Contents(f0), start, buf[..pos]);
    assert |Contents(g)| == |o|;
    forall i | 0 <= i < |o| ensures Contents(g)[i] == o[i] {
      assert Contents(g)[i] == ByteAt(g, i) == ByteAt(f, i);
    }
  }

  /** A call that wrote the first `k` bytes of `buf` and returned `r`. */
  ghost predicate WriteOutcome(f: File, f': File, r: int, start: nat, buf: seq<byte>, k: nat) {
    && k <= |buf| && f.d.size >= 0 && f'.d.size >= 0
    && Contents(f') == Overwrite(Contents(f), start, buf[..k])
    && f'.d.kind == f.d.kind && f'.vol.maxBlocks == f.vol.maxBlocks
    && (r >= 0 ==> r == k == |buf| && f'.dirty)
    && (r < 0 ==> k < |buf| && (k > 0 ==> IndexOf(start + k) == 0))
    && (r < 0 ==> r == if start + k >= MAX_FILE_SIZE then EFBIG else ENOSPC)
    && (r == ENOSPC ==> Need(f', BlockOf(start + k)) > Available(f'.vol))
    && (r < 0 && k == 0 ==> SameTree(f, f'))
  }

  lemma WriteLoopSpec(f0: File, f: File, start: nat, buf: seq<byte>, pos: nat, own: map<int, Slot>, foreign: set<int>)
    returns (k: nat, own': map<int, Slot>)
    requires Sized(f0) && TreeInv(f, own, foreign) && Progress(f0, f, start, buf, pos)
    requires pos == 0 ==> f == f0
    ensures var (f', r) := WriteLoop(f, start, buf, pos);
      && FileInv(f', own', foreign) && pos <= k && WriteOutcome(f0, f', r, start, buf, k)
      && (forall p :: p in foreign ==> Blk(f'.vol, p) == Blk(f.vol, p))
    decreases |buf| - pos
  {
    hide ByteAt, MapBlock, BlockOf, IndexOf, ChunkLength, TreeInv, Blk, Need, Available, At, Contents, Overwrite,
      Progress, Sized, WriteOutcome, WriteLoop, WriteChunk, ChunkWritten, SameTree;
    ProgressAt(f0, f, start, buf, pos);
    SizedNonNegative(f0);
    if pos == |buf| {
      k, own' := pos, own;
      WriteLoopDone(f0, f, start, buf, own, foreign);
      SizedNonNegative(WriteLoop(f, start, buf, pos).0);
      OutcomeDone(f0, WriteLoop(f, start, buf, pos).0, start, buf);
    } else {
      var at := start + pos;
      ChunkRange(start, pos, |buf| - pos, 0, 0);
      var len := ChunkLength(at, |buf| - pos);
      own' := ChunkSpec(f, BlockOf(at), IndexOf(at), buf[pos..pos + len], own, foreign);
      var (f1, r1) := WriteChunk(f, BlockOf(at), IndexOf(at), buf[pos..pos + len]);
      WriteLoopRound(f, start, buf, pos);
      if r1 < 0 {
        k := pos;
        WriteLoopFails(f0, f, f1, start, buf, pos, r1, own, foreign);
      } else {
        ProgressStep(f0, f, f1, start, buf, pos);
        k, own' := WriteLoopSpec(f0, f1, start, buf, pos + len, own', foreign);
      }
    }
  }

  lemma OutcomeDone(f0: File, f': File, start: nat, buf: seq<byte>)
    requires f0.d.size >= 0 && f'.d.size >= 0 && Contents(f') == Overwrite(Contents(f0), start, buf[..|buf|])
    requires f'.d.kind == f0.d.kind && f'.vol.maxBlocks == f0.vol.maxBlocks && f'.dirty
    ensures WriteOutcome(f0, f', |buf|, start, buf, |buf|)
  {
    hide Contents, Overwrite;
  }

  lemma ProgressAt(f0: File, f: File, start: nat, buf: seq<byte>, pos: nat)
    requires Progress(f0, f, start, buf, pos)
    ensures pos <= |buf| && (0 < pos < |buf| ==> IndexOf(start + pos) == 0)
    ensures f.d.size == f0.d.size && f.d.kind == f0.d.kind && f.vol.maxBlocks == f0.vol.maxBlocks
  {
    hide ByteAt, MapBlock, BlockOf, IndexOf;
  }

  lemma WriteLoopRound(f: File, start: nat, buf: seq<byte>, pos: nat)
    requires pos < |buf|
    ensures var at := start + pos;
      var len := ChunkLength(at, |buf| - pos);
      var (f1, r) := WriteChunk(f, BlockOf(at), IndexOf(at), buf[pos..pos + len]);
      WriteLoop(f, start, buf, pos) == if r < 0 then (Grown(f1, start, pos), r) else WriteLoop(f1, start, buf, pos + len)
  {
    hide WriteChunk, BlockOf, IndexOf, Grown;
  }

  lemma GrownDone(f0: File, f: File, start: nat, buf: seq<byte>, pos: nat, own: map<int, Slot>, foreign: set<int>)
    requires Sized(f0) && TreeInv(f, own, foreign) && Progress(f0, f, start, buf, pos)
    ensures var g := Grown(f, start, pos);
      && FileInv(g, own, foreign) && g.vol == f.vol && g.d.kind == f0.d.kind
      && Contents(g) == Overwrite(Contents(f0), start, buf[..pos])
  {
    hide ByteAt, MapBlock, BlockOf, IndexOf, Overwrite, TreeInv, Contents, Progress, Sized, At;
    var g := Grown(f, start, pos);
    GrowKeeps(f, start + pos, own, foreign);
    ProgressAt(f0, f, start, buf, pos);
    ProgressSized(f0, f, g, start, buf, pos);
    ProgressContents(f0, f, g, start, buf, pos);
  }

  lemma WriteLoopDone(f0: File, f: File, start: nat, buf: seq<byte>, own: map<int, Slot>, foreign: set<int>)
    requires Sized(f0) && TreeInv(f, own, foreign) && Progress(f0, f, start, buf, |buf|)
    ensures var (f', r) := WriteLoop(f, start, buf, |buf|);
      && FileInv(f', own, foreign) && r == |buf| && f'.dirty && f'.vol == f.vol && f'.d.kind == f0.d.kind
      && Contents(f') == Overwrite(Contents(f0), start, buf[..|buf|])
  {
    hide ByteAt, MapBlock, BlockOf, IndexOf, Overwrite, TreeInv, Contents, Sized, Progress;
    GrownDone(f0, f, start, buf, |buf|, own, foreign);
    SizedNonNegative(f0);
    DirtyIrrelevant(Grown(f, start, |buf|), true, own, foreign);
  }

  lemma DirtyIrrelevant(f: File, dirty: bool, own: map<int, Slot>, foreign: set<int>)
    ensures TreeInv(f, own, foreign) ==> TreeInv(f.(dirty := dirty), own, foreign)
    ensures Sized(f) ==> Sized(f.(dirty := dirty)) && Contents(f.(dirty := dirty)) == Contents(f)
  {
    var g := f.(dirty := dirty);
    assert forall m: nat :: MapBlock(g, m) == MapBlock(f, m);
    assert forall off: nat :: ByteAt(g, off) == ByteAt(f, off);
    if Sized(f) { assert Contents(g) == Contents(f); }
  }

  lemma WriteLoopFails(f0: File, f: File, f1: File, start: nat, buf: seq<byte>, pos: nat, r: int, own: map<int, Slot>, foreign: set<int>)
    requires Sized(f0) && TreeInv(f, own, foreign) && Progress(f0, f, start, buf, pos) && pos < |buf|
    requires pos == 0 ==> f == f0
    requires SameTree(f, f1) && TreeInv(f1, own, foreign)
    requires var n := BlockOf(start + pos);
      r == (if n >= MAX_BLOCK_NR then EFBIG else ENOSPC) && (n < MAX_BLOCK_NR ==> Need(f1, n) > Available(f1.vol))
    ensures var f' := Grown(f1, start, pos);
      FileInv(f', own, foreign) && WriteOutcome(f0, f', r, start, buf, pos) && f'.vol == f1.vol
  {
    hide ByteAt, MapBlock, BlockOf, IndexOf, Overwrite, TreeInv, Contents, Sized, Need, Available, At;
    var f' := Grown(f1, start, pos);
    BlockLimit(start + pos);
    ProgressSame(f0, f, f1, start, buf, pos, own, foreign);
    GrowNeed(f1, start + pos, BlockOf(start + pos));
    GrownDone(f0, f1, start, buf, pos, own, foreign);
    SizedNonNegative(f0);
    SizedNonNegative(f');
    assert f'.vol.maxBlocks == f0.vol.maxBlocks;
  }

  lemma SizedNonNegative(f: File)
    requires Sized(f)
    ensures f.d.size >= 0
  {}

  lemma BlockLimit(off: nat)
    ensures BlockOf(off) >= MAX_BLOCK_NR <==> off >= MAX_FILE_SIZE
  {}

  lemma ProgressSame(f0: File, f: File, f1: File, start: nat, buf: seq<byte>, pos: nat, own: map<int, Slot>, foreign: set<int>)
    requires TreeInv(f, own, foreign) && SameTree(f, f1) && Progress(f0, f, start, buf, pos)
    ensures Progress(f0, f1, start, buf, pos)
  {
    hide ByteAt, MapBlock, BlockOf, IndexOf, TreeInv, Blk;
    SameTreeBytes(f, f1, own, foreign);
  }

  lemma GrowNeed(f: File, end: int, n: nat)
    ensures Need(Grow(f, end), n) == Need(f, n)
  {
    hide PtrIn, LeafSlot;
  }

  /** Writing refines `Overwrite` on the file's bytes. A call that fails part way has applied exactly
      the whole blocks before the first block that could not be supplied. */
  lemma WriteDataSpec(f: File, start: nat, buf: seq<byte>, own: map<int, Slot>, foreign: set<int>)
    returns (k: nat, own': map<int, Slot>)
    requires FileInv(f, own, foreign)
    ensures var (f', r) := WriteData(f, start, buf);
      && FileInv(f', own', foreign)
      && (start < MAX_FILE_SIZE ==> WriteOutcome(f, f', r, start, buf, k))
      && (start >= MAX_FILE_SIZE ==> r == EFBIG && f' == f)
      && (forall p :: p in foreign ==> Blk(f'.vol, p) == Blk(f.vol, p))
  {
    k, own' := 0, own;
    if start < MAX_FILE_SIZE {
      assert Progress(f, f, start, buf, 0) by { hide ByteAt, MapBlock, BlockOf, IndexOf; }
      k, own' := WriteLoopSpec(f, f, start, buf, 0, own, foreign);
    }
  }

  // ----- files without holes -----

  /** Every block below `end` exists. */
  ghost predicate FilledTo(f: File, end: int) {
    forall m: nat :: m * BLOCK_SIZE < end ==> MapBlock(f, m) != 0
  }

  ghost predicate NoHoles(f: File) { FilledTo(f, f.d.size) }

  function Larger(a: int, b: int): int { if a >= b then a else b }

  /** A write that starts inside a file without holes, or at its end, leaves none, however far it gets. */
  lemma {:induction false} LoopFills(f: File, start: nat, buf: seq<byte>, pos: nat, own: map<int, Slot>, foreign: set<int>)
    requires TreeInv(f, own, foreign) && pos <= |buf| && FilledTo(f, Larger(f.d.size, start + pos)) && start <= f.d.size
    requires 0 < pos < |buf| ==> IndexOf(start + pos) == 0
    ensures NoHoles(WriteLoop(f, start, buf, pos).0)
    decreases |buf| - pos
  {
    hide TreeInv, BlockOf, IndexOf, MapBlock, ByteAt, ChunkLength, WriteLoop, WriteChunk, SameTree, ChunkWritten,
      FilledTo, NoHoles, Grown;
    GrownFilled(f, start, pos);
    if pos < |buf| {
      var at := start + pos;
      ChunkRange(start, pos, |buf| - pos, 0, 0);
      var len := ChunkLength(at, |buf| - pos);
      var own' := ChunkSpec(f, BlockOf(at), IndexOf(at), buf[pos..pos + len], own, foreign);
      var (f1, r1) := WriteChunk(f, BlockOf(at), IndexOf(at), buf[pos..pos + len]);
      WriteLoopRound(f, start, buf, pos);
      if r1 < 0 {
        SameTreeBytes(f, f1, own, foreign);
        SameTreeFilled(f, f1, Larger(f.d.size, start + pos));
        GrownFilled(f1, start, pos);
      } else {
        ChunkFills(f, f1, at, len, buf[pos..pos + len]);
        LoopFills(f1, start, buf, pos + len, own', foreign);
      }
    } else {
      LoopDoneIs(f, start, buf);
    }
  }

  lemma LoopDoneIs(f: File, start: nat, buf: seq<byte>)
    ensures WriteLoop(f, start, buf, |buf|).0 == Grown(f, start, |buf|).(dirty := true)
    ensures NoHoles(Grown(f, start, |buf|)) ==> NoHoles(Grown(f, start, |buf|).(dirty := true))
  {
    var g := Grown(f, start, |buf|);
    assert forall m: nat :: MapBlock(g.(dirty := true), m) == MapBlock(g, m);
  }

  lemma GrownFilled(f: File, start: nat, pos: nat)
    requires start <= f.d.size && FilledTo(f, Larger(f.d.size, start + pos))
    ensures NoHoles(Grown(f, start, pos))
  {
    hide LeafSlot;
    var g := Grown(f, start, pos);
    forall m: nat ensures MapBlock(g, m) == MapBlock(f, m) { GrownMaps(f, start, pos, m); }
    hide At;
  }

  lemma GrownMaps(f: File, start: nat, pos: nat, m: nat)
    ensures MapBlock(Grown(f, start, pos), m) == MapBlock(f, m)
  {
    hide LeafSlot, Blk, Ptr;
  }

  lemma SameTreeFilled(f: File, f1: File, end: int)
    requires FilledTo(f, end) && SameTree(f, f1) && forall m: nat :: MapBlock(f1, m) == MapBlock(f, m)
    ensures FilledTo(f1, end) && f1.d.size == f.d.size
  {
    hide MapBlock, Blk;
  }

  lemma ChunkFills(f: File, f1: File, at: nat, len: nat, w: seq<byte>)
    requires FilledTo(f, Larger(f.d.size, at)) && ChunkWritten(f, f1, BlockOf(at), IndexOf(at), w)
    requires at + len <= (BlockOf(at) + 1) * BLOCK_SIZE
    ensures FilledTo(f1, Larger(f1.d.size, at + len)) && f1.d.size == f.d.size
  {
    hide MapBlock, ByteAt;
    OffsetSum(at);
    hide BlockOf, IndexOf;
  }

  lemma WriteFills(f: File, start: nat, buf: seq<byte>, own: map<int, Slot>, foreign: set<int>)
    requires FileInv(f, own, foreign) && NoHoles(f) && start <= f.d.size
    ensures NoHoles(WriteData(f, start, buf).0)
  {
    hide TreeInv, Sized, WriteLoop, FilledTo;
    if start < MAX_FILE_SIZE {
      assert Larger(f.d.size, start + 0) == f.d.size;
      LoopFills(f, start, buf, 0, own, foreign);
    }
  }
}
