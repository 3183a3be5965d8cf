/** How many blocks a whole write takes, and when a whole write succeeds. */
module WriteSpace {
  import opened Layout
  import opened BlockTree
  import opened BlockAlloc
  import opened AllocProofs
  import opened FileContents

  const SINGLE_START := NR_DIRECT_BLOCKS
  const DOUBLE_START := NR_DIRECT_BLOCKS + NR_INDIRECT_BLOCKS

  function NodeStart(i: nat): nat { DOUBLE_START + NR_INDIRECT_BLOCKS * i }

  function NodeAbove(n: nat): nat
    requires n >= DOUBLE_START
  {
    NodeOf(n - DOUBLE_START)
  }

  /** `n` is the first block of a region to be written, when writing begins at block `lo`. */
  predicate FirstOf(lo: nat, region: nat, n: nat) {
    n == if lo >= region then lo else region
  }

  /** Blocks that block `n` takes once the blocks from `lo` up to it are there: itself, and each missing
      index block above it that no block before it in the range has brought along. */
  function NeedAfter(f: File, lo: nat, n: nat): nat {
    if MapBlock(f, n) != 0 then 0
    else if n < SINGLE_START then 1
    else if n < DOUBLE_START then 1 + (if f.d.indirect == 0 && FirstOf(lo, SINGLE_START, n) then 1 else 0)
    else
      var i := NodeAbove(n);
      1 + (if f.d.dindirect == 0 && FirstOf(lo, DOUBLE_START, n) then 1 else 0)
        + (if At(f.vol, f.d, DindNode(i)) == 0 && FirstOf(lo, NodeStart(i), n) then 1 else 0)
  }

  /** Blocks that mapping the logical blocks from `k` to `hi` takes, of a range that begins at `lo`. */
  function TotalNeed(f: File, lo: nat, k: nat, hi: nat): nat
    decreases hi - k
  {
    if k >= hi then 0 else NeedAfter(f, lo, k) + TotalNeed(f, lo, k + 1, hi)
  }

  /** The missing index blocks are determined by which logical blocks are mapped. */
  lemma IndexFromLeaves(f: File, own: map<int, Slot>, foreign: set<int>)
    requires TreeInv(f, own, foreign)
    ensures f.d.indirect != 0 <==> exists n: nat :: SINGLE_START <= n < DOUBLE_START && MapBlock(f, n) != 0
    ensures f.d.dindirect != 0 <==> exists n: nat :: n >= DOUBLE_START && MapBlock(f, n) != 0
    ensures forall i: nat :: At(f.vol, f.d, DindNode(i)) != 0 <==> exists n: nat :: n >= DOUBLE_START && NodeAbove(n) == i && MapBlock(f, n) != 0
  {
    hide At, Shape, NodeOf, EntryOf;
    SingleFromLeaves(f);
    NoNegatives(f, own, foreign);
    forall i: nat ensures At(f.vol, f.d, DindNode(i)) != 0 <==> exists n: nat :: n >= DOUBLE_START && NodeAbove(n) == i && MapBlock(f, n) != 0 {
      NodeFromLeaves(f, i);
    }
    DoubleFromNodes(f);
  }

  ghost predicate Positive(f: File) {
    forall s: Slot :: At(f.vol, f.d, s) >= 0
  }

  lemma NoNegatives(f: File, own: map<int, Slot>, foreign: set<int>)
    requires TreeInv(f, own, foreign)
    ensures Positive(f)
  {
    hide At, NoEmptyIndex;
    forall s: Slot ensures At(f.vol, f.d, s) >= 0 {
      if At(f.vol, f.d, s) != 0 { assert At(f.vol, f.d, s) in own; assert At(f.vol, f.d, s) in f.vol.used; }
    }
  }

  lemma LeafIs(f: File, n: nat)
    ensures SINGLE_START <= n < DOUBLE_START ==> MapBlock(f, n) == At(f.vol, f.d, IndLeaf(n - SINGLE_START))
    ensures n >= DOUBLE_START ==> MapBlock(f, n) == At(f.vol, f.d, DindLeaf(NodeAbove(n), EntryOf(n - DOUBLE_START)))
  {
    hide At, NodeOf, EntryOf;
  }

  lemma SingleFromLeaves(f: File)
    requires NoEmptyIndex(f.vol, f.d)
    ensures f.d.indirect != 0 <==> exists n: nat :: SINGLE_START <= n < DOUBLE_START && MapBlock(f, n) != 0
  {
    hide MapBlock, Ptr, Blk;
    if f.d.indirect != 0 {
      var i: nat :| At(f.vol, f.d, IndLeaf(i)) != 0;
      LeafIs(f, SINGLE_START + i);
      assert MapBlock(f, SINGLE_START + i) != 0;
    }
    if exists n: nat :: SINGLE_START <= n < DOUBLE_START && MapBlock(f, n) != 0 {
      var n: nat :| SINGLE_START <= n < DOUBLE_START && MapBlock(f, n) != 0;
      LeafIs(f, n);
    }
  }

  lemma NodeFromLeaves(f: File, i: nat)
    requires NoEmptyIndex(f.vol, f.d)
    ensures At(f.vol, f.d, DindNode(i)) != 0 <==> exists n: nat :: n >= DOUBLE_START && NodeAbove(n) == i && MapBlock(f, n) != 0
  {
    hide MapBlock, Ptr, Blk, NodeOf, EntryOf;
    if At(f.vol, f.d, DindNode(i)) != 0 {
      var j: nat :| At(f.vol, f.d, DindLeaf(i, j)) != 0;
      var n := NodeStart(i) + j;
      LeafIs(f, n);
      NodePlace(i, j);
      assert MapBlock(f, n) != 0;
    }
    if exists n: nat :: n >= DOUBLE_START && NodeAbove(n) == i && MapBlock(f, n) != 0 {
      var n: nat :| n >= DOUBLE_START && NodeAbove(n) == i && MapBlock(f, n) != 0;
      LeafIs(f, n);
    }
  }

  lemma NodePlace(i: nat, j: nat)
    requires j < NR_INDIRECT_BLOCKS
    ensures NodeAbove(NodeStart(i) + j) == i && EntryOf(NodeStart(i) + j - DOUBLE_START) == j
  {}

  lemma DoubleFromNodes(f: File)
    requires NoEmptyIndex(f.vol, f.d)
    requires forall i: nat :: At(f.vol, f.d, DindNode(i)) != 0 <==> exists n: nat :: n >= DOUBLE_START && NodeAbove(n) == i && MapBlock(f, n) != 0
    ensures f.d.dindirect != 0 <==> exists n: nat :: n >= DOUBLE_START && MapBlock(f, n) != 0
  {
    hide MapBlock, NodeOf, EntryOf, Blk, Ptr;
    if exists n: nat :: n >= DOUBLE_START && MapBlock(f, n) != 0 {
      var n: nat :| n >= DOUBLE_START && MapBlock(f, n) != 0;
      assert At(f.vol, f.d, DindNode(NodeAbove(n))) != 0;
    }
  }

  // ----- one block after the other -----

  lemma NeedFirst(f: File, n: nat)
    ensures NeedAfter(f, n, n) == Need(f, n)
  {
    hide MapBlock, Ptr, Blk;
    if n >= DOUBLE_START { EntryParts(n - DOUBLE_START); }
  }

  /** Once block `n` is there, the rest of the range takes what it would have taken after `n`. */
  lemma NeedShift(f: File, f1: File, n: nat, m: nat, own: map<int, Slot>, own1: map<int, Slot>, foreign: set<int>)
    requires TreeInv(f, own, foreign) && TreeInv(f1, own1, foreign) && m > n
    requires forall c: nat :: MapBlock(f1, c) != 0 <==> c == n || MapBlock(f, c) != 0
    ensures NeedAfter(f1, n + 1, m) == NeedAfter(f, n, m)
  {
    hide MapBlock, At, TreeInv, NodeOf;
    IndexShift(f, f1, n, if m >= DOUBLE_START then NodeAbove(m) else 0, own, own1, foreign);
    if m >= DOUBLE_START {
      NodeBounds(m);
      if n >= DOUBLE_START { NodeBounds(n); }
    }
  }

  /** Mapping block `n` brings along exactly the index blocks above it. */
  lemma IndexShift(f: File, f1: File, n: nat, i: nat, own: map<int, Slot>, own1: map<int, Slot>, foreign: set<int>)
    requires TreeInv(f, own, foreign) && TreeInv(f1, own1, foreign)
    requires forall c: nat :: MapBlock(f1, c) != 0 <==> c == n || MapBlock(f, c) != 0
    ensures f1.d.indirect != 0 <==> f.d.indirect != 0 || SINGLE_START <= n < DOUBLE_START
    ensures f1.d.dindirect != 0 <==> f.d.dindirect != 0 || n >= DOUBLE_START
    ensures At(f1.vol, f1.d, DindNode(i)) != 0 <==> At(f.vol, f.d, DindNode(i)) != 0 || (n >= DOUBLE_START && NodeAbove(n) == i)
  {
    hide MapBlock, At, TreeInv, NodeOf;
    IndexFromLeaves(f, own, foreign);
    IndexFromLeaves(f1, own1, foreign);
    assert MapBlock(f1, n) != 0;
  }

  lemma NodeBounds(n: nat)
    requires n >= DOUBLE_START
    ensures NodeStart(NodeAbove(n)) <= n < NodeStart(NodeAbove(n) + 1)
  {
    EntryParts(n - DOUBLE_START);
  }

  lemma {:induction false} TotalShift(f: File, f1: File, n: nat, k: nat, hi: nat, own: map<int, Slot>, own1: map<int, Slot>, foreign: set<int>)
    requires TreeInv(f, own, foreign) && TreeInv(f1, own1, foreign) && k > n
    requires forall c: nat :: MapBlock(f1, c) != 0 <==> c == n || MapBlock(f, c) != 0
    ensures TotalNeed(f1, n + 1, k, hi) == TotalNeed(f, n, k, hi)
    decreases hi - k
  {
    hide MapBlock, TreeInv, NeedAfter;
    if k < hi {
      NeedShift(f, f1, n, k, own, own1, foreign);
      TotalShift(f, f1, n, k + 1, hi, own, own1, foreign);
    }
  }

  /** What a round of the write loop does to the space. */
  lemma RoundSpace(f: File, n: nat, ix: nat, w: seq<byte>, own: map<int, Slot>, foreign: set<int>) returns (own1: map<int, Slot>)
    requires TreeInv(f, own, foreign) && ix + |w| <= BLOCK_SIZE
    ensures var (f1, r) := WriteChunk(f, n, ix, w);
      && (r >= 0 <==> n < MAX_BLOCK_NR && Need(f, n) <= Available(f.vol))
      && TreeInv(f1, own1, foreign)
      && (r >= 0 ==> Available(f1.vol) == Available(f.vol) - Need(f, n) &&
                     forall c: nat :: MapBlock(f1, c) != 0 <==> c == n || MapBlock(f, c) != 0)
  {
    hide TreeInv, MapBlock, ByteAt, Splice, BufferFor, Blk, Need, Available, AllocateBlock, SameTree;
    own1 := ChunkSpec(f, n, ix, w, own, foreign);
    var own2 := AllocateBlockSpec(f, n, own, foreign);
    var (g, r) := AllocateBlock(f, n);
    if r >= 0 {
      MappedSpace(f, g, n, r, own, own2, foreign);
      PutSpace(g.vol, r, Splice(BufferFor(f, n), ix, w));
    }
  }

  lemma MappedSpace(f: File, g: File, n: nat, r: int, own: map<int, Slot>, own': map<int, Slot>, foreign: set<int>)
    requires Mapped(f, g, n, r, own, own', foreign)
    ensures Available(g.vol) == Available(f.vol) - Need(f, n)
  {
    hide TreeInv, Need, Available, At;
  }

  lemma PutSpace(v: Volume, p: int, b: Block)
    ensures Available(Put(v, p, b)) == Available(v)
  {}

  /** The blocks of a range of bytes end before this one. */
  function EndBlockOf(start: nat, len: nat): nat
    requires len > 0
  {
    BlockOf(start + len - 1) + 1
  }

  lemma {:induction false} LoopSucceedsIff(f: File, start: nat, buf: seq<byte>, pos: nat, own: map<int, Slot>, foreign: set<int>)
    requires TreeInv(f, own, foreign) && pos < |buf| && (pos > 0 ==> IndexOf(start + pos) == 0)
    ensures var n := BlockOf(start + pos);
      WriteLoop(f, start, buf, pos).1 >= 0 <==>
        start + |buf| <= MAX_FILE_SIZE && TotalNeed(f, n, n, EndBlockOf(start, |buf|)) <= Available(f.vol)
    decreases |buf| - pos
  {
    hide TreeInv, MapBlock, BlockOf, IndexOf, ChunkLength, WriteLoop, WriteChunk, Need, NeedAfter, Available,
      TotalNeed;
    var at := start + pos;
    var n, hi := BlockOf(at), EndBlockOf(start, |buf|);
    ChunkRange(start, pos, |buf| - pos, 0, 0);
    var len := ChunkLength(at, |buf| - pos);
    var own1 := RoundSpace(f, n, IndexOf(at), buf[pos..pos + len], own, foreign);
    var (f1, r) := WriteChunk(f, n, IndexOf(at), buf[pos..pos + len]);
    WriteLoopRound(f, start, buf, pos);
    RangeFacts(start, |buf|, pos, len);
    TotalSplit(f, n, hi);
    if r >= 0 {
      TotalShift(f, f1, n, n + 1, hi, own, own1, foreign);
      if pos + len == |buf| {
        LoopEndReturns(f1, start, buf);
        TotalNothing(f, n, hi);
      } else {
        LoopSucceedsIff(f1, start, buf, pos + len, own1, foreign);
      }
    }
  }

  lemma LoopEndReturns(f: File, start: nat, buf: seq<byte>)
    ensures WriteLoop(f, start, buf, |buf|).1 == |buf|
  {}

  lemma TotalSplit(f: File, n: nat, hi: nat)
    requires n < hi
    ensures TotalNeed(f, n, n, hi) == Need(f, n) + TotalNeed(f, n, n + 1, hi)
  {
    hide NeedAfter, Need;
    NeedFirst(f, n);
  }

  lemma TotalNothing(f: File, lo: nat, k: nat)
    ensures TotalNeed(f, lo, k, k) == 0
  {}

  lemma RangeFacts(start: nat, size: nat, pos: nat, len: nat)
    requires pos < size && len == ChunkLength(start + pos, size - pos)
    ensures var n := BlockOf(start + pos);
      && n < EndBlockOf(start, size)
      && (n >= MAX_BLOCK_NR ==> start + size > MAX_FILE_SIZE)
      && (pos + len == size ==> EndBlockOf(start, size) == n + 1 && (n < MAX_BLOCK_NR ==> start + size <= MAX_FILE_SIZE))
      && (pos + len < size ==> BlockOf(start + (pos + len)) == n + 1 && IndexOf(start + (pos + len)) == 0)
  {
    OffsetSum(start + pos);
    OffsetSum(start + size - 1);
    OffsetParts(BlockOf(start + pos) + 1, 0);
    OffsetParts(BlockOf(start + pos), IndexOf(start + pos) + len - 1);
    hide BlockOf, IndexOf;
  }

  /** A whole write succeeds if and only if it begins and ends within the largest file and the volume can
      supply every data block and every index block it is going to need. */
  lemma WriteSucceedsIff(f: File, start: nat, buf: seq<byte>, own: map<int, Slot>, foreign: set<int>)
    requires FileInv(f, own, foreign)
    ensures WriteData(f, start, buf).1 >= 0 <==>
      start < MAX_FILE_SIZE && start + |buf| <= MAX_FILE_SIZE &&
      (buf == [] || TotalNeed(f, BlockOf(start), BlockOf(start), EndBlockOf(start, |buf|)) <= Available(f.vol))
  {
    hide TreeInv, Sized, MapBlock, WriteLoop, TotalNeed, Available, BlockOf;
    if start < MAX_FILE_SIZE {
      if buf == [] { LoopEndReturns(f, start, buf); } else { LoopSucceedsIff(f, start, buf, 0, own, foreign); }
    }
  }

  lemma {:induction false} LoopTakes(f: File, start: nat, buf: seq<byte>, pos: nat, own: map<int, Slot>, foreign: set<int>)
    requires TreeInv(f, own, foreign) && pos < |buf| && (pos > 0 ==> IndexOf(start + pos) == 0)
    ensures var n := BlockOf(start + pos);
      var (f', r) := WriteLoop(f, start, buf, pos);
      r >= 0 ==> Available(f'.vol) == Available(f.vol) - TotalNeed(f, n, n, EndBlockOf(start, |buf|))
    decreases |buf| - pos
  {
    hide TreeInv, MapBlock, BlockOf, IndexOf, ChunkLength, WriteLoop, WriteChunk, Need, NeedAfter, Available,
      TotalNeed;
    var at := start + pos;
    var n, hi := BlockOf(at), EndBlockOf(start, |buf|);
    ChunkRange(start, pos, |buf| - pos, 0, 0);
    var len := ChunkLength(at, |buf| - pos);
    var own1 := RoundSpace(f, n, IndexOf(at), buf[pos..pos + len], own, foreign);
    var (f1, r) := WriteChunk(f, n, IndexOf(at), buf[pos..pos + len]);
    WriteLoopRound(f, start, buf, pos);
    RangeFacts(start, |buf|, pos, len);
    TotalSplit(f, n, hi);
    if r >= 0 {
      TotalShift(f, f1, n, n + 1, hi, own, own1, foreign);
      if pos + len == |buf| {
        LoopEndVolume(f1, start, buf);
        TotalNothing(f, n, hi);
      } else {
        LoopTakes(f1, start, buf, pos + len, own1, foreign);
      }
    }
  }

  lemma LoopEndVolume(f: File, start: nat, buf: seq<byte>)
    ensures WriteLoop(f, start, buf, |buf|).0.vol == f.vol
  {}

  /** A whole write that succeeds takes exactly what its blocks need. */
  lemma WriteTakes(f: File, start: nat, buf: seq<byte>, own: map<int, Slot>, foreign: set<int>)
    requires FileInv(f, own, foreign) && buf != []
    ensures var (f', r) := WriteData(f, start, buf);
      r >= 0 ==> Available(f'.vol) == Available(f.vol) - TotalNeed(f, BlockOf(start), BlockOf(start), EndBlockOf(start, |buf|))
  {
    hide TreeInv, Sized, MapBlock, WriteLoop, TotalNeed, Available, BlockOf;
    if start < MAX_FILE_SIZE { LoopTakes(f, start, buf, 0, own, foreign); }
  }

  /** What a range takes is decided by the block numbers in the tree. */
  lemma {:induction false} TotalSame(f: File, g: File, lo: nat, k: nat, hi: nat)
    requires g.d.indirect == f.d.indirect && g.d.dindirect == f.d.dindirect
    requires forall a: Slot :: At(g.vol, g.d, a) == At(f.vol, f.d, a)
    ensures TotalNeed(g, lo, k, hi) == TotalNeed(f, lo, k, hi)
    decreases hi - k
  {
    hide At, NodeOf, EntryOf;
    if k < hi { TotalSame(f, g, lo, k + 1, hi); }
  }
}
