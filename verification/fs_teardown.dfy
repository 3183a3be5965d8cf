/** Releasing every block of a file: the result of `testfs_free_blocks`, and the facts about the
    recorded size that its loops depend on. */
module Teardown {
  import opened Layout
  import opened BlockTree
  import opened BlockAlloc
  import opened FileContents

  function WipedBlock(data: seq<Block>, gone: set<int>, i: nat): Block
    requires i < |data|
  {
    if DATA_START + i in gone then ZeroBlock() else data[i]
  }

  /** The volume and file after the blocks `gone` have been released. */
  ghost function Freed(f: File, gone: set<int>): File {
    File(
      Volume(
        seq<Block>(|f.vol.data|, i requires 0 <= i < |f.vol.data| => WipedBlock(f.vol.data, gone, i)),
        f.vol.used - gone, f.vol.usedCount - |gone|, f.vol.maxBlocks),
      f.d.(blockCount := f.d.blockCount - |gone|),
      f.dirty || gone != {})
  }

  /** The file with all of `mine` released and no pointers or size left. */
  ghost function Emptied(f: File, mine: set<int>): File {
    var g := Freed(f, mine);
    File(g.vol, g.d.(direct := NO_POINTERS, indirect := 0, dindirect := 0, size := 0), true)
  }

  lemma FreedNone(f: File)
    ensures Freed(f, {}) == f
  {
    assert Freed(f, {}).vol.data == f.vol.data;
    assert f.vol.used - {} == f.vol.used;
  }

  /** Releasing one more block. */
  lemma FreedOneMore(f: File, gone: set<int>, p: int)
    requires |f.vol.data| == NR_BLOCK_BITS && DATA_START <= p < DATA_LIMIT && p !in gone
    ensures FreeFromInode(Freed(f, gone), p) == Freed(f, gone + {p})
  {
    var g := FreeFromInode(Freed(f, gone), p);
    var h := Freed(f, gone + {p});
    assert g.vol.data == h.vol.data;
    assert g.vol.used == h.vol.used;
    assert |gone + {p}| == |gone| + 1;
  }

  lemma BlkOfFreed(f: File, gone: set<int>, p: int)
    requires |f.vol.data| == NR_BLOCK_BITS
    ensures Blk(Freed(f, gone).vol, p) == if p in gone then ZeroBlock() else Blk(f.vol, p)
  {}

  /** The last logical block is one below this. */
  function EndBlock(size: nat): nat {
    (size + BLOCK_SIZE - 1) / BLOCK_SIZE
  }

  /** Why the loops of `testfs_free_blocks`, bounded by the size alone, meet every block: leaves lie
      below the end, an indirect block implies an end beyond the direct blocks, and an end beyond the
      indirect blocks implies a double-indirect block. */
  lemma SizeBoundsTree(f: File, own: map<int, Slot>, foreign: set<int>)
    requires FileInv(f, own, foreign)
    ensures EndBlock(f.d.size) <= MAX_BLOCK_NR
    ensures forall s: Slot :: IsLeaf(s) && At(f.vol, f.d, s) != 0 ==> InTree(s) && LogicalOf(s) < EndBlock(f.d.size)
    ensures f.d.indirect != 0 ==> EndBlock(f.d.size) > NR_DIRECT_BLOCKS
    ensures f.d.dindirect != 0 <==> EndBlock(f.d.size) > NR_DIRECT_BLOCKS + NR_INDIRECT_BLOCKS
    ensures forall i: nat :: At(f.vol, f.d, DindNode(i)) != 0 ==>
              i < NR_INDIRECT_BLOCKS && NR_DIRECT_BLOCKS + NR_INDIRECT_BLOCKS + NR_INDIRECT_BLOCKS * i < EndBlock(f.d.size)
  {
    hide Ptr, Blk, Accounted, MapBlock, ByteAt;
    forall s: Slot | IsLeaf(s) && At(f.vol, f.d, s) != 0 ensures InTree(s) && LogicalOf(s) < EndBlock(f.d.size) {
      LeafBelowEnd(f, s);
    }
    if f.d.indirect != 0 {
      var i: nat :| At(f.vol, f.d, IndLeaf(i)) != 0;
      assert LogicalOf(IndLeaf(i)) < EndBlock(f.d.size);
    }
    forall i: nat | At(f.vol, f.d, DindNode(i)) != 0
      ensures i < NR_INDIRECT_BLOCKS && NR_DIRECT_BLOCKS + NR_INDIRECT_BLOCKS + NR_INDIRECT_BLOCKS * i < EndBlock(f.d.size)
    {
      var j: nat :| At(f.vol, f.d, DindLeaf(i, j)) != 0;
      assert LogicalOf(DindLeaf(i, j)) < EndBlock(f.d.size);
    }
    if f.d.dindirect != 0 {
      var i: nat :| At(f.vol, f.d, DindNode(i)) != 0;
    } else if EndBlock(f.d.size) > NR_DIRECT_BLOCKS + NR_INDIRECT_BLOCKS {
      LastBlockMapped(f);
    }
  }

  lemma SlotInTree(v: Volume, d: Dinode, s: Slot)
    requires At(v, d, s) != 0 && |d.direct| == NR_DIRECT_BLOCKS
    ensures InTree(s)
  {}

  lemma LeafBelowEnd(f: File, s: Slot)
    requires Sized(f) && |f.d.direct| == NR_DIRECT_BLOCKS
    requires IsLeaf(s) && At(f.vol, f.d, s) != 0
    ensures InTree(s) && LogicalOf(s) < EndBlock(f.d.size)
  {
    SlotInTree(f.vol, f.d, s);
    LeafSlotBijection(0, s);
    assert MapBlock(f, LogicalOf(s)) != 0;
  }

  /** Past the indirect blocks, the block of the last byte hangs off the double-indirect block. */
  lemma LastBlockMapped(f: File)
    requires Sized(f) && EndBlock(f.d.size) > NR_DIRECT_BLOCKS + NR_INDIRECT_BLOCKS
    ensures f.d.dindirect != 0
  {
    var n := BlockOf(f.d.size - 1);
    assert n >= NR_DIRECT_BLOCKS + NR_INDIRECT_BLOCKS;
    assert MapBlock(f, n) != 0;
  }

  /** A file without pointers owns nothing. */
  lemma NoPointers(v: Volume, d: Dinode)
    requires d.direct == NO_POINTERS && d.indirect == 0 && d.dindirect == 0
    ensures forall s: Slot :: At(v, d, s) == 0
    ensures Owns(v, d, map[]) && NoEmptyIndex(v, d)
  {}

  /** A live file whose pointers and size are all zero. */
  lemma EmptyFileSized(f: File)
    requires f.d.direct == NO_POINTERS && f.d.indirect == 0 && f.d.dindirect == 0 && f.d.size == 0
    ensures Sized(f) && Contents(f) == []
  {
    NoPointers(f.vol, f.d);
    assert forall n: nat :: MapBlock(f, n) == 0;
  }

  /** Teardown is exact: what was owned becomes free and nothing else changes hands, the per-file
      count ends at zero, other files' blocks keep their content. */
  lemma EmptiedSpec(f: File, own: map<int, Slot>, foreign: set<int>)
    requires FileInv(f, own, foreign)
    ensures var g := Emptied(f, own.Keys);
      && FileInv(g, map[], foreign) && g.d == ZERO_DINODE.(kind := f.d.kind) && g.vol.used == foreign
      && Contents(g) == [] && g.vol.maxBlocks == f.vol.maxBlocks
      && (forall p :: p in foreign ==> Blk(g.vol, p) == Blk(f.vol, p))
  {
    var g := Emptied(f, own.Keys);
    NoPointers(g.vol, g.d);
    EmptyFileSized(g);
    EmptiedAccounted(f, own, foreign);
    forall p | p in foreign ensures Blk(g.vol, p) == Blk(f.vol, p) { BlkOfFreed(f, own.Keys, p); }
    var none: map<int, Slot> := map[];
    assert none.Keys == {};
  }

  lemma EmptiedAccounted(f: File, own: map<int, Slot>, foreign: set<int>)
    requires Shape(f, own, foreign)
    ensures var g := Emptied(f, own.Keys);
      Accounted(g.vol, {}, foreign) && g.vol.used == foreign && g.d.blockCount == 0
  {
    hide At, Owns;
    assert f.vol.used - own.Keys == foreign;
    assert |f.vol.used| == |own.Keys| + |foreign|;
  }

  // ----- the order of release -----

  /** The position of a slot in the order in which `testfs_free_blocks` releases: direct blocks, leaves
      below the indirect block, that block, then for each indirect block below the double-indirect one
      its leaves and itself, and last the double-indirect block. */
  function Rank(s: Slot): nat {
    match s
    case Direct(i) => i
    case IndLeaf(i) => NR_DIRECT_BLOCKS + i
    case Ind => NR_DIRECT_BLOCKS + NR_INDIRECT_BLOCKS
    case DindLeaf(i, j) => NodeRank(i) + j
    case DindNode(i) => NodeRank(i) + NR_INDIRECT_BLOCKS
    case Dind => NodeRank(NR_INDIRECT_BLOCKS)
  }

  function NodeRank(i: nat): nat {
    NR_DIRECT_BLOCKS + NR_INDIRECT_BLOCKS + 1 + (NR_INDIRECT_BLOCKS + 1) * i
  }

  lemma NodeRankOrder(i: nat, k: nat)
    ensures NodeRank(i) > NR_DIRECT_BLOCKS + NR_INDIRECT_BLOCKS
    ensures i < k ==> NodeRank(i) + NR_INDIRECT_BLOCKS < NodeRank(k)
  {
    assert (NR_INDIRECT_BLOCKS + 1) * i >= 0;
  }

  /** The node whose ranks a double-indirect slot uses. */
  function NodeIndex(s: Slot): nat {
    if s.DindLeaf? || s.DindNode? then s.i else if s.Dind? then NR_INDIRECT_BLOCKS else 0
  }

  lemma RankInjective(s: Slot, t: Slot)
    requires InTree(s) && InTree(t) && Rank(s) == Rank(t)
    ensures s == t
  {
    hide NodeRank;
    NodeRankOrder(NodeIndex(s), NodeIndex(t));
    NodeRankOrder(NodeIndex(t), NodeIndex(s));
    assert NodeIndex(s) == NodeIndex(t);
    match s
    case Direct(i) => assert t.Direct?;
    case IndLeaf(i) => assert t.IndLeaf?;
    case Ind => assert t.Ind?;
    case DindLeaf(i, j) => assert t.DindLeaf?;
    case DindNode(i) => assert t.DindNode?;
    case Dind => assert t.Dind?;
  }

  /** The owned blocks that come before rank `r`. */
  ghost function Gone(own: map<int, Slot>, r: nat): set<int> {
    set p | p in own && Rank(own[p]) < r
  }

  lemma GoneStep(v: Volume, d: Dinode, own: map<int, Slot>, s: Slot)
    requires Owns(v, d, own) && InTree(s)
    ensures var p := At(v, d, s);
      if p == 0 then Gone(own, Rank(s) + 1) == Gone(own, Rank(s))
      else p !in Gone(own, Rank(s)) && Gone(own, Rank(s) + 1) == Gone(own, Rank(s)) + {p}
  {
    var p := At(v, d, s);
    forall q | q in own && Rank(own[q]) == Rank(s) ensures q == p {
      SlotInTree(v, d, own[q]);
      RankInjective(own[q], s);
    }
    assert p != 0 ==> own[p] == s;
  }

  lemma GoneSkip(own: map<int, Slot>, lo: nat, hi: nat)
    requires lo <= hi
    requires forall p {:trigger own[p]} :: p in own ==> !(lo <= Rank(own[p]) < hi)
    ensures Gone(own, lo) == Gone(own, hi)
  {
    hide Rank;
    forall p ensures p in Gone(own, lo) <==> p in Gone(own, hi) {
      assert p in own ==> !(lo <= Rank(own[p]) < hi);
    }
  }

  lemma GoneAll(v: Volume, d: Dinode, own: map<int, Slot>)
    requires Owns(v, d, own)
    ensures Gone(own, Rank(Dind) + 1) == own.Keys && Gone(own, 0) == {}
  {
    forall p | p in own ensures Rank(own[p]) <= Rank(Dind) {
      assert At(v, d, own[p]) == p;
      SlotInTree(v, d, own[p]);
    }
  }

  /** `g` is `f` with everything before rank `r` released; its pointers may be out of date. */
  ghost predicate Releasing(f: File, g: File, own: map<int, Slot>, r: nat) {
    && g.vol == Freed(f, Gone(own, r)).vol
    && g.d.blockCount == f.d.blockCount - |Gone(own, r)|
    && g.d.size == f.d.size && g.d.kind == f.d.kind
  }

  /** Releasing the block in the next slot, if there is one, is allowed and moves on by one rank. */
  lemma ReleaseNext(f: File, g: File, own: map<int, Slot>, foreign: set<int>, s: Slot)
    requires Shape(f, own, foreign) && InTree(s) && Releasing(f, g, own, Rank(s))
    ensures var p := At(f.vol, f.d, s);
      if p == 0 then Releasing(f, g, own, Rank(s) + 1)
      else p in g.vol.used && g.vol.usedCount > 0 && Releasing(f, FreeFromInode(g, p), own, Rank(s) + 1)
  {
    hide At, Rank, InTree, Gone, Blk, NoEmptyIndex;
    var p := At(f.vol, f.d, s);
    GoneStep(f.vol, f.d, own, s);
    if p != 0 {
      var gone := Gone(own, Rank(s));
      FreedOneMore(f, gone, p);
      GoneOwned(own, Rank(s));
      FreedCount(f, own, foreign, gone, p);
      FreeSameVolume(Freed(f, gone), g, p);
      assert |gone + {p}| == |gone| + 1;
    }
  }

  lemma GoneOwned(own: map<int, Slot>, r: nat)
    ensures Gone(own, r) <= own.Keys
  {}

  lemma FreedCount(f: File, own: map<int, Slot>, foreign: set<int>, gone: set<int>, p: int)
    requires Accounted(f.vol, own.Keys, foreign) && gone <= own.Keys && p in own && p !in gone
    ensures p in Freed(f, gone).vol.used && Freed(f, gone).vol.usedCount > 0 && DATA_START <= p < DATA_LIMIT
  {
    assert gone + {p} <= f.vol.used;
    SubsetSize(gone + {p}, f.vol.used);
    assert |gone + {p}| == |gone| + 1;
  }

  lemma SubsetSize(a: set<int>, b: set<int>)
    requires a <= b
    ensures |a| <= |b|
  {
    assert b == a + (b - a);
    assert |a + (b - a)| == |a| + |b - a|;
  }

  lemma FreeSameVolume(f: File, g: File, p: int)
    requires g.vol == f.vol && p != 0
    ensures FreeFromInode(g, p).vol == FreeFromInode(f, p).vol
    ensures FreeFromInode(g, p).d == g.d.(blockCount := g.d.blockCount - 1)
  {}

  /** An index block is read before it is released, so its content is still the original one. */
  lemma NotYetReleased(f: File, g: File, own: map<int, Slot>, foreign: set<int>, r: nat, s: Slot)
    requires Shape(f, own, foreign) && Releasing(f, g, own, r)
    requires At(f.vol, f.d, s) != 0 && Rank(s) >= r
    ensures Blk(g.vol, At(f.vol, f.d, s)) == Blk(f.vol, At(f.vol, f.d, s))
    ensures DATA_START <= At(f.vol, f.d, s) < DATA_LIMIT
  {
    hide At, Rank, Blk, Freed;
    var p := At(f.vol, f.d, s);
    assert own[p] == s;
    BlkOfFreed(f, Gone(own, r), p);
  }

  /** Slots that are empty need no release. */
  lemma SkipTo(f: File, g: File, own: map<int, Slot>, lo: nat, hi: nat)
    requires Owns(f.vol, f.d, own) && Releasing(f, g, own, lo) && lo <= hi
    requires forall s: Slot {:trigger Rank(s)} :: InTree(s) && lo <= Rank(s) < hi ==> At(f.vol, f.d, s) == 0
    ensures Releasing(f, g, own, hi)
  {
    forall p | p in own ensures !(lo <= Rank(own[p]) < hi) {
      assert At(f.vol, f.d, own[p]) == p;
      SlotInTree(f.vol, f.d, own[p]);
    }
    GoneSkip(own, lo, hi);
  }

  /** The blocks reachable from a file's inode. */
  ghost function Reachable(f: File): set<int> {
    set p | p in f.vol.used && exists s: Slot :: At(f.vol, f.d, s) == p
  }

  lemma ReachableIsOwned(f: File, own: map<int, Slot>, foreign: set<int>)
    requires Shape(f, own, foreign)
    ensures Reachable(f) == own.Keys
  {
    hide At;
    forall p ensures p in Reachable(f) <==> p in own {
      if p in own { assert At(f.vol, f.d, own[p]) == p; }
    }
  }
}
