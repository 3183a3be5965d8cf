/** When adding a directory entry fails and leaves the directory's inode dirty: `testfs_create_file_or_dir`
    then returns without writing it back, and the assert of the next `testfs_put_inode` on it fails. */
module Unsynced {
  import opened Layout
  import opened BlockTree
  import opened BlockAlloc
  import opened AllocProofs
  import opened FileContents
  import opened DirtyFlags
  import opened WriteSpace
  import opened Dirents
  import opened Directories

  lemma MappedPrefix(f: File, n: nat)
    requires Sized(f) && NoHoles(f)
    ensures MapBlock(f, n) != 0 <==> n < BlocksOf(f.d.size)
  {
    hide MapBlock, ByteAt, BlockOf, IndexOf;
    if f.d.size > 0 { BlocksAround(f.d.size); }
  }

  lemma EndBlocks(size: nat)
    ensures BlockOf(size) <= BlocksOf(size) <= BlockOf(size) + 1
    ensures size >= MAX_FILE_SIZE ==> BlocksOf(size) >= MAX_BLOCK_NR
  {
    if size > 0 {
      OffsetSum(size);
      OffsetSum(size - 1);
    }
  }

  /** A failed append to a clean file without holes marks it dirty exactly if the block after its end can
      be tried for at all: a block was taken, and given back or kept. */
  lemma FailedAppendMarks(f: File, buf: seq<byte>, own: map<int, Slot>, foreign: set<int>)
    requires FileInv(f, own, foreign) && NoHoles(f) && !f.dirty && buf != []
    ensures var (f', r) := WriteData(f, f.d.size, buf);
      r < 0 ==> (f'.dirty <==> BlocksOf(f.d.size) < MAX_BLOCK_NR && Available(f.vol) > 0)
  {
    hide TreeInv, Sized, NoHoles, BlockOf, IndexOf, MapBlock, Available, WriteLoop, StopsAt, BlocksOf;
    var size := f.d.size;
    SizedNonNegative(f);
    EndBlocks(size);
    if size < MAX_FILE_SIZE {
      var b := QuietStops(f, size, buf, 0, own, foreign);
      if !WriteLoop(f, size, buf, 0).0.dirty { StopIsEnd(f, buf, b); }
      if Blocked(f, BlocksOf(size)) && WriteLoop(f, size, buf, 0).1 < 0 {
        EndIsStop(f, buf, own, foreign);
        StopsQuiet(f, size, buf, 0, BlocksOf(size), own, foreign);
      }
    }
  }

  lemma StopIsEnd(f: File, buf: seq<byte>, b: nat)
    requires Sized(f) && NoHoles(f) && StopsAt(f, f.d.size, buf, 0, b)
    ensures Blocked(f, BlocksOf(f.d.size))
  {
    hide Sized, NoHoles, MapBlock, BlockOf, IndexOf, BlocksOf, Available;
    SizedNonNegative(f);
    EndBlocks(f.d.size);
    MappedPrefix(f, b);
    MappedPrefix(f, BlocksOf(f.d.size));
  }

  lemma EndIsStop(f: File, buf: seq<byte>, own: map<int, Slot>, foreign: set<int>)
    requires FileInv(f, own, foreign) && NoHoles(f) && buf != [] && Blocked(f, BlocksOf(f.d.size))
    requires WriteLoop(f, f.d.size, buf, 0).1 < 0
    ensures StopsAt(f, f.d.size, buf, 0, BlocksOf(f.d.size))
  {
    hide Sized, NoHoles, TreeInv, MapBlock, BlockOf, IndexOf, BlocksOf, WriteLoop, Available;
    SizedNonNegative(f);
    var size, n := f.d.size, BlocksOf(f.d.size);
    EndBlocks(size);
    forall c: nat ensures MapBlock(f, c) != 0 <==> c < n { MappedPrefix(f, c); }
    if n > BlockOf(size + |buf| - 1) {
      forall c: nat | c * BLOCK_SIZE < size + |buf| ensures MapBlock(f, c) != 0 { BlockStarts(size + |buf| - 1, c); }
      MappedWrite(f, size, buf, 0, own, foreign);
    }
  }

  /** `space` blocks are too little for an append: before the call, in terms of the file. */
  ghost predicate TooLittle(f: File, len: nat, space: int)
    requires len > 0 && f.d.size >= 0
  {
    f.d.size + len > MAX_FILE_SIZE ||
    TotalNeed(f, BlockOf(f.d.size), BlockOf(f.d.size), EndBlockOf(f.d.size, len)) > space
  }

  /** Adding an entry at the end of a directory fails if and only if there is too little space. */
  lemma AddFailsIff(f: File, es: Log, e: Entry)
    requires Holds(f, es) && ValidEntry(e)
    ensures WriteData(f, f.d.size, Encode(e)).1 < 0 <==> TooLittle(f, |Encode(e)|, Available(f.vol))
  {
    hide FileInv, NoHoles, Encode, Bytes, Contents, WriteData, Available, BlockOf, TotalNeed;
    var own, foreign :| FileInv(f, own, foreign);
    WriteSucceedsIff(f, f.d.size, Encode(e), own, foreign);
  }

  /** An append that fails and leaves the directory dirty. */
  ghost predicate LeavesDirty(f: File, len: nat, space: int)
    requires len > 0 && f.d.size >= 0
  {
    TooLittle(f, len, space) && BlocksOf(f.d.size) < MAX_BLOCK_NR && space > 0
  }

  /** Adding an entry at the end of a clean directory fails and leaves it dirty if and only if the record
      needs more than the volume can supply and yet some block is left for the directory's next one. In
      that case, and only then, the directory is put without having been written back. */
  lemma AddLeavesDirtyIff(f: File, es: Log, e: Entry)
    requires Holds(f, es) && !f.dirty && ValidEntry(e)
    ensures var (f', r) := WriteData(f, f.d.size, Encode(e));
      r < 0 && f'.dirty <==> LeavesDirty(f, |Encode(e)|, Available(f.vol))
  {
    hide FileInv, NoHoles, Encode, Bytes, Contents, WriteData, BlocksOf, Available, BlockOf, TotalNeed;
    var own, foreign :| FileInv(f, own, foreign);
    WriteSucceedsIff(f, f.d.size, Encode(e), own, foreign);
    FailedAppendMarks(f, Encode(e), own, foreign);
    EndBlocks(f.d.size);
  }

  /** An append that fails after it has filled the block in which it begins. */
  ghost predicate Tears(f: File, len: nat, space: int)
    requires len > 0 && f.d.size >= 0
  {
    TooLittle(f, len, space) && Room(f.d.size) < len && !TooLittle(f, Room(f.d.size), space)
  }

  function Room(size: nat): (r: nat)
    ensures r > 0
  {
    BLOCK_SIZE - IndexOf(size)
  }

  lemma {:induction false} LoopGrows(f: File, start: nat, buf: seq<byte>, pos: nat)
    requires 0 < pos <= |buf|
    ensures WriteLoop(f, start, buf, pos).0.d.size >= start + pos
    decreases |buf| - pos
  {
    hide WriteChunk, BlockOf, IndexOf;
    if pos < |buf| {
      var at := start + pos;
      var len := ChunkLength(at, |buf| - pos);
      var (f1, r) := WriteChunk(f, BlockOf(at), IndexOf(at), buf[pos..pos + len]);
      if r >= 0 { LoopGrows(f1, start, buf, pos + len); }
    }
  }

  /** The first round decides whether anything is transferred. */
  lemma FirstRound(f: File, buf: seq<byte>, own: map<int, Slot>, foreign: set<int>)
    requires FileInv(f, own, foreign) && 0 <= f.d.size < MAX_FILE_SIZE && buf != []
    ensures var len := ChunkLength(f.d.size, |buf|);
      var first := WriteChunk(f, BlockOf(f.d.size), IndexOf(f.d.size), buf[..len]).1;
      && (first >= 0 <==> WriteData(f, f.d.size, buf[..len]).1 >= 0)
      && (first < 0 ==> WriteData(f, f.d.size, buf).1 < 0)
      && (first >= 0 <==> WriteData(f, f.d.size, buf).0.d.size > f.d.size)
  {
    hide AllocateBlock, BlockOf, IndexOf, TreeInv, Sized, WriteChunk;
    var start := f.d.size;
    var len := ChunkLength(start, |buf|);
    var head := buf[..len];
    assert head[0..len] == head == buf[0..len];
    assert ChunkLength(start, |head|) == len;
    var (f1, r) := WriteChunk(f, BlockOf(start), IndexOf(start), head);
    if r >= 0 {
      assert WriteLoop(f, start, head, 0) == WriteLoop(f1, start, head, len) == (Grown(f1, start, len).(dirty := true), len);
      assert WriteLoop(f, start, buf, 0) == WriteLoop(f1, start, buf, len);
      LoopGrows(f1, start, buf, len);
    } else {
      ChunkFails(f, BlockOf(start), IndexOf(start), head, own, foreign);
    }
  }

  lemma ChunkFails(f: File, n: nat, ix: nat, w: seq<byte>, own: map<int, Slot>, foreign: set<int>)
    requires TreeInv(f, own, foreign) && ix + |w| <= BLOCK_SIZE && WriteChunk(f, n, ix, w).1 < 0
    ensures WriteChunk(f, n, ix, w).0.d.size == f.d.size
  {
    hide AllocateBlock, TreeInv, Available, Need;
    var own' := AllocateBlockSpec(f, n, own, foreign);
  }

  /** Adding an entry at the end of a directory leaves part of the record behind if and only if the whole
      needs more than there is, and it goes beyond a block up to whose end there is enough. */
  lemma AddTearsIff(f: File, es: Log, e: Entry)
    requires Holds(f, es) && ValidEntry(e)
    ensures var (f', r) := WriteData(f, f.d.size, Encode(e));
      r < 0 && f'.d.size > f.d.size <==> Tears(f, |Encode(e)|, Available(f.vol))
  {
    hide FileInv, NoHoles, Encode, Bytes, Contents, WriteData, Available, BlockOf, TotalNeed, IndexOf, WriteChunk;
    var own, foreign :| FileInv(f, own, foreign);
    var buf := Encode(e);
    WriteSucceedsIff(f, f.d.size, buf, own, foreign);
    if f.d.size < MAX_FILE_SIZE {
      var len := ChunkLength(f.d.size, |buf|);
      WriteSucceedsIff(f, f.d.size, buf[..len], own, foreign);
      FirstRound(f, buf, own, foreign);
      assert len == |buf| ==> buf[..len] == buf;
    } else {
      TooBig(f, buf);
    }
  }

  lemma TooBig(f: File, buf: seq<byte>)
    requires f.d.size >= MAX_FILE_SIZE
    ensures WriteData(f, f.d.size, buf) == (f, EFBIG)
  {}

  // ----- such a directory -----

  function TenBlocks(): int { NR_DIRECT_BLOCKS * BLOCK_SIZE }

  function TenPointers(): seq<int> {
    [DATA_START, DATA_START + 1, DATA_START + 2, DATA_START + 3, DATA_START + 4,
     DATA_START + 5, DATA_START + 6, DATA_START + 7, DATA_START + 8, DATA_START + 9]
  }

  /** The smallest file system that `mktestfs` makes, of 1 MB. */
  const SMALLEST := 128

  /** The first `n` data blocks. */
  function FirstBlocks(n: nat): set<int> { set p: int | DATA_START <= p < DATA_START + n && Among(p, n) }

  predicate Among(p: int, n: nat) { DATA_START <= p < DATA_START + n }

  /** A directory that fills its direct blocks, on a volume on which one block is left. */
  function FullDirectory(data: seq<Block>): File {
    File(Volume(data, FirstBlocks(SMALLEST - 1), SMALLEST - 1, SMALLEST),
         ZERO_DINODE.(kind := Directory, direct := TenPointers(), blockCount := 10, size := TenBlocks()), false)
  }

  ghost function TenOwned(): map<int, Slot> {
    map p | p in TenPointers() :: Direct(p - DATA_START)
  }

  lemma FullSlots(data: seq<Block>, s: Slot)
    ensures At(FullDirectory(data).vol, FullDirectory(data).d, s) == if s.Direct? && s.i < 10 then DATA_START + s.i else 0
  {}

  /** The blocks that others hold. */
  function Rest(): set<int> { FirstBlocks(SMALLEST - 1) - FirstBlocks(10) }

  lemma TenSize()
    ensures |FirstBlocks(10)| == 10 && TenOwned().Keys == FirstBlocks(10)
    ensures |FirstBlocks(SMALLEST - 1)| == SMALLEST - 1 && FirstBlocks(SMALLEST - 1) == FirstBlocks(10) + Rest()
  {
    CountBelow(FirstBlocks(10), DATA_START, DATA_START + 10);
    CountBelow(FirstBlocks(SMALLEST - 1), DATA_START, DATA_START + (SMALLEST - 1));
  }

  lemma FullDirectoryInv(data: seq<Block>)
    requires |data| == NR_BLOCK_BITS
    ensures FileInv(FullDirectory(data), TenOwned(), Rest()) && NoHoles(FullDirectory(data))
  {
    hide Sized, NoHoles;
    var f := FullDirectory(data);
    forall s: Slot ensures At(f.vol, f.d, s) == if s.Direct? && s.i < 10 then DATA_START + s.i else 0 { FullSlots(data, s); }
    FullOwns(data);
    TenSize();
    FullSized(data);
  }

  lemma FullOwns(data: seq<Block>)
    ensures Owns(FullDirectory(data).vol, FullDirectory(data).d, TenOwned()) && NoEmptyIndex(FullDirectory(data).vol, FullDirectory(data).d)
  {
    hide At;
    var f := FullDirectory(data);
    forall s: Slot ensures At(f.vol, f.d, s) == if s.Direct? && s.i < 10 then DATA_START + s.i else 0 { FullSlots(data, s); }
  }

  lemma FullMap(data: seq<Block>, n: nat)
    ensures MapBlock(FullDirectory(data), n) == if n < 10 then DATA_START + n else 0
  {
    FullSlots(data, LeafSlot(n));
  }

  lemma FullSized(data: seq<Block>)
    ensures Sized(FullDirectory(data)) && NoHoles(FullDirectory(data))
  {
    hide MapBlock;
    var f := FullDirectory(data);
    forall n: nat ensures MapBlock(f, n) == if n < 10 then DATA_START + n else 0 { FullMap(data, n); }
    OffsetSum(TenBlocks() - 1);
  }

  /** The log of a directory below the root that holds one file with a name so long that the log fills
      ten blocks exactly. */
  function TenBlockLog(nr: nat): Log {
    [Entry(DOT, nr), Entry(DOTDOT, 0), Entry(seq(TenBlocks() - 3 * HEADER - 6, i => 97), 1)]
  }

  lemma TenBlockLogIs(nr: nat)
    requires nr < TWO_31
    ensures ValidLog(TenBlockLog(nr)) && UniqueNames(TenBlockLog(nr)) && |Bytes(TenBlockLog(nr))| == TenBlocks()
    ensures Lookup(TenBlockLog(nr), DOT) == nr && Lookup(TenBlockLog(nr), DOTDOT) == 0
  {
    hide Encode, Bytes, Lookup;
    var es := TenBlockLog(nr);
    NoBytes();
    BytesAppend([], es[0]);
    BytesAppend([es[0]], es[1]);
    BytesAppend([es[0], es[1]], es[2]);
    assert [] + [es[0]] == [es[0]] && [es[0]] + [es[1]] == [es[0], es[1]] && [es[0], es[1]] + [es[2]] == es;
    LookupIs(es, DOT, 0);
    LookupIs(es, DOTDOT, 1);
  }

  lemma NoBytes()
    ensures Bytes([]) == []
  {}

  /** Data blocks that begin with these bytes. */
  function DataOf(bytes: seq<byte>): (data: seq<Block>)
    ensures |data| == NR_BLOCK_BITS
  {
    seq<Block>(NR_BLOCK_BITS, b requires 0 <= b => BlockAt(bytes, b * BLOCK_SIZE))
  }

  function BlockAt(bytes: seq<byte>, at: nat): Block {
    seq<byte>(BLOCK_SIZE, i requires 0 <= i => if at + i < |bytes| then bytes[at + i] else 0)
  }

  lemma DataHolds(bytes: seq<byte>)
    ensures forall off: nat :: off < |bytes| && BlockOf(off) < NR_BLOCK_BITS ==> DataOf(bytes)[BlockOf(off)][IndexOf(off)] == bytes[off]
  {
    forall off: nat | off < |bytes| && BlockOf(off) < NR_BLOCK_BITS ensures DataOf(bytes)[BlockOf(off)][IndexOf(off)] == bytes[off] {
      OffsetSum(off);
    }
  }

  /** It happens: on the smallest file system, with one block left, adding any entry of at most a block to
      this directory fails with ENOSPC, leaves its tree as it was, and leaves it dirty. */
  lemma AddLeavesDirty(nr: nat, e: Entry) returns (f: File)
    requires nr < TWO_31 && ValidEntry(e) && |Encode(e)| <= BLOCK_SIZE
    ensures Holds(f, TenBlockLog(nr)) && !f.dirty && f.vol.maxBlocks == SMALLEST
    ensures var (f', r) := WriteData(f, f.d.size, Encode(e)); r == ENOSPC && SameTree(f, f') && f'.dirty
  {
    hide Encode, Bytes, WriteData, FileInv, NoHoles, SameTree, TooLittle, WriteOutcome, DataOf, Holds;
    var es := TenBlockLog(nr);
    TenBlockLogIs(nr);
    var data := DataOf(Bytes(es));
    DataHolds(Bytes(es));
    f := FullDirectory(data);
    FullDirectoryInv(data);
    BlocksSmall();
    FullHolds(data, es);
    FullSpace(data, |Encode(e)|);
    AddLeavesDirtyIff(f, es, e);
    var k, own' := WriteDataSpec(f, f.d.size, Encode(e), TenOwned(), Rest());
    OutcomeIs(f, WriteData(f, f.d.size, Encode(e)).0, WriteData(f, f.d.size, Encode(e)).1, Encode(e), k);
  }

  lemma BlocksSmall()
    ensures forall off: nat :: off < TenBlocks() ==> BlockOf(off) < NR_BLOCK_BITS
  {}

  lemma OutcomeIs(f: File, f': File, r: int, buf: seq<byte>, k: nat)
    requires f.d.size == TenBlocks() && WriteOutcome(f, f', r, f.d.size, buf, k) && r < 0 && |buf| <= BLOCK_SIZE
    ensures r == ENOSPC && SameTree(f, f')
  {
    hide Contents, Overwrite, SameTree, Need, Available;
    OffsetSum(TenBlocks() + k);
  }

  lemma FullHolds(data: seq<Block>, es: Log)
    requires |data| == NR_BLOCK_BITS && ValidLog(es) && |Bytes(es)| == TenBlocks()
    requires forall off: nat :: off < TenBlocks() ==> data[BlockOf(off)][IndexOf(off)] == Bytes(es)[off]
    ensures Holds(FullDirectory(data), es)
  {
    hide Bytes, NoHoles, FileInv;
    var f := FullDirectory(data);
    FullDirectoryInv(data);
    forall off | 0 <= off < TenBlocks() ensures Contents(f)[off] == Bytes(es)[off] {
      OffsetSum(off);
      FullMap(data, BlockOf(off));
    }
    assert Contents(f) == Bytes(es);
  }

  lemma FullSpace(data: seq<Block>, len: nat)
    requires 0 < len <= BLOCK_SIZE
    ensures TooLittle(FullDirectory(data), len, 1) && BlocksOf(TenBlocks()) == 10 && Available(FullDirectory(data).vol) == 1
  {
    hide MapBlock;
    var f := FullDirectory(data);
    FullMap(data, 10);
    TenSize();
    OffsetSum(TenBlocks());
    OffsetSum(TenBlocks() - 1);
    OffsetSum(TenBlocks() + len - 1);
    assert TotalNeed(f, 10, 10, 11) == NeedAfter(f, 10, 10) + TotalNeed(f, 10, 11, 11);
  }
}
