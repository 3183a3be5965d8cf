/** A file as a tree of physical blocks: direct, indirect and double-indirect pointers, and which
    blocks of the volume the tree owns. */
module BlockTree {
  import opened Layout

  datatype Kind = NoType | RegularFile | Directory

  /** `struct dinode`. */
  datatype Dinode = Dinode(kind: Kind, direct: seq<int>, indirect: int, dindirect: int, blockCount: int, size: int)

  const NO_POINTERS: seq<int> := [0, 0, 0, 0, 0, 0, 0, 0, 0, 0]
  const ZERO_DINODE := Dinode(NoType, NO_POINTERS, 0, 0, 0, 0)

  /** The data area with its free map, usage counter and quota. `used` holds physical numbers. */
  datatype Volume = Volume(data: seq<Block>, used: set<int>, usedCount: int, maxBlocks: int)

  /** One live inode on its volume. */
  datatype File = File(vol: Volume, d: Dinode, dirty: bool)

  function Blk(v: Volume, p: int): Block {
    if DATA_START <= p < DATA_LIMIT && |v.data| == NR_BLOCK_BITS then v.data[p - DATA_START] else ZeroBlock()
  }

  function Put(v: Volume, p: int, b: Block): Volume {
    if DATA_START <= p < DATA_LIMIT && |v.data| == NR_BLOCK_BITS then v.(data := v.data[p - DATA_START := b]) else v
  }

  lemma BlkOfPut(v: Volume, p: int, b: Block)
    requires DATA_START <= p < DATA_LIMIT && |v.data| == NR_BLOCK_BITS
    ensures forall q {:trigger Blk(Put(v, p, b), q)} :: Blk(Put(v, p, b), q) == if q == p then b else Blk(v, q)
    ensures Put(v, p, b).(data := v.data) == v && |Put(v, p, b).data| == |v.data|
  {}

  /** The places where a file can hold a block number. */
  datatype Slot =
    | Direct(i: nat)
    | Ind
    | IndLeaf(i: nat)
    | Dind
    | DindNode(i: nat)
    | DindLeaf(i: nat, j: nat)

  function PtrIn(v: Volume, p: int, i: nat): int {
    if p > 0 && i < NR_INDIRECT_BLOCKS then Ptr(Blk(v, p), i) else 0
  }

  /** The block number in a slot, 0 when there is none. */
  function At(v: Volume, d: Dinode, s: Slot): int {
    match s
    case Direct(i) => if i < NR_DIRECT_BLOCKS && i < |d.direct| then d.direct[i] else 0
    case Ind => d.indirect
    case IndLeaf(i) => PtrIn(v, d.indirect, i)
    case Dind => d.dindirect
    case DindNode(i) => PtrIn(v, d.dindirect, i)
    case DindLeaf(i, j) => PtrIn(v, PtrIn(v, d.dindirect, i), j)
  }

  predicate IsLeaf(s: Slot) {
    s.Direct? || s.IndLeaf? || s.DindLeaf?
  }

  /** The slot of a logical block. */
  function LeafSlot(n: nat): Slot {
    if n < NR_DIRECT_BLOCKS then Direct(n)
    else if n < NR_DIRECT_BLOCKS + NR_INDIRECT_BLOCKS then IndLeaf(n - NR_DIRECT_BLOCKS)
    else
      var m := n - NR_DIRECT_BLOCKS - NR_INDIRECT_BLOCKS;
      DindLeaf(NodeOf(m), EntryOf(m))
  }

  /** The logical block of a leaf slot. */
  function LogicalOf(s: Slot): nat
    requires IsLeaf(s)
  {
    match s
    case Direct(i) => i
    case IndLeaf(i) => NR_DIRECT_BLOCKS + i
    case DindLeaf(i, j) => NR_DIRECT_BLOCKS + NR_INDIRECT_BLOCKS + NR_INDIRECT_BLOCKS * i + j
  }

  predicate InTree(s: Slot) {
    match s
    case Direct(i) => i < NR_DIRECT_BLOCKS
    case Ind => true
    case IndLeaf(i) => i < NR_INDIRECT_BLOCKS
    case Dind => true
    case DindNode(i) => i < NR_INDIRECT_BLOCKS
    case DindLeaf(i, j) => i < NR_INDIRECT_BLOCKS && j < NR_INDIRECT_BLOCKS
  }

  /** Logical blocks below the maximum and leaf slots of the tree correspond one to one. */
  lemma LeafSlotBijection(n: nat, s: Slot)
    ensures IsLeaf(LeafSlot(n)) && LogicalOf(LeafSlot(n)) == n
    ensures InTree(LeafSlot(n)) <==> n < MAX_BLOCK_NR
    ensures IsLeaf(s) && InTree(s) ==> LogicalOf(s) < MAX_BLOCK_NR && LeafSlot(LogicalOf(s)) == s
  {
    if s.DindLeaf? && InTree(s) {
      var m := NR_INDIRECT_BLOCKS * s.i + s.j;
      assert NodeOf(m) == s.i && EntryOf(m) == s.j;
    }
  }

  /** The physical block of a logical block, 0 for a hole. */
  function MapBlock(f: File, n: nat): int {
    At(f.vol, f.d, LeafSlot(n))
  }

  // ----- ownership -----

  /** `own` sends each block of the tree to the one slot that holds it. */
  ghost predicate Owns(v: Volume, d: Dinode, own: map<int, Slot>) {
    && |d.direct| == NR_DIRECT_BLOCKS
    && (forall s: Slot {:trigger At(v, d, s)} :: At(v, d, s) != 0 ==> At(v, d, s) in own)
    && (forall s: Slot, p: int {:trigger At(v, d, s), own[p]} :: p in own && At(v, d, s) == p ==> own[p] == s)
    && (forall p: int {:trigger own[p]} :: p in own ==> p != 0 && At(v, d, own[p]) == p)
  }

  /** The blocks in use are those of this tree and those of the rest of the volume. */
  ghost predicate Accounted(v: Volume, mine: set<int>, foreign: set<int>) {
    && |v.data| == NR_BLOCK_BITS
    && mine !! foreign
    && v.used == mine + foreign
    && (forall p :: p in v.used ==> DATA_START <= p < DATA_LIMIT)
    && v.usedCount == |v.used| <= v.maxBlocks
  }

  ghost predicate Shape(f: File, own: map<int, Slot>, foreign: set<int>) {
    && Owns(f.vol, f.d, own)
    && Accounted(f.vol, own.Keys, foreign)
    && f.d.blockCount == |own.Keys|
  }

  /** No index block is empty. */
  ghost predicate NoEmptyIndex(v: Volume, d: Dinode) {
    && (d.indirect != 0 ==> exists i: nat :: At(v, d, IndLeaf(i)) != 0)
    && (d.dindirect != 0 ==> exists i: nat :: At(v, d, DindNode(i)) != 0)
    && (forall i: nat :: At(v, d, DindNode(i)) != 0 ==> exists j: nat :: At(v, d, DindLeaf(i, j)) != 0)
  }

  /** Everything the block code relies on and keeps. */
  ghost predicate TreeInv(f: File, own: map<int, Slot>, foreign: set<int>) {
    Shape(f, own, foreign) && NoEmptyIndex(f.vol, f.d)
  }

  /** A tree sees only its own index blocks. */
  lemma AtFrame(v: Volume, v': Volume, d: Dinode, own: map<int, Slot>, s: Slot)
    requires Owns(v, d, own)
    requires forall p {:trigger own[p]} :: p in own && !IsLeaf(own[p]) ==> Blk(v', p) == Blk(v, p)
    ensures At(v', d, s) == At(v, d, s)
  {
    hide Ptr, Blk;
    assert At(v, d, Ind) == d.indirect && At(v, d, Dind) == d.dindirect;
    assert d.indirect != 0 ==> own[d.indirect] == Ind;
    assert d.dindirect != 0 ==> own[d.dindirect] == Dind;
    if s.DindLeaf? {
      var q := At(v, d, DindNode(s.i));
      assert q == PtrIn(v, d.dindirect, s.i);
      assert q != 0 ==> own[q] == DindNode(s.i);
    }
  }

  lemma TreeFrame(v: Volume, v': Volume, d: Dinode, own: map<int, Slot>)
    requires Owns(v, d, own)
    requires forall p {:trigger own[p]} :: p in own && !IsLeaf(own[p]) ==> Blk(v', p) == Blk(v, p)
    ensures Owns(v', d, own)
    ensures forall s: Slot :: At(v', d, s) == At(v, d, s)
    ensures NoEmptyIndex(v, d) ==> NoEmptyIndex(v', d)
  {
    hide At, Blk, IsLeaf;
    forall s: Slot ensures At(v', d, s) == At(v, d, s) { AtFrame(v, v', d, own, s); }
    if NoEmptyIndex(v, d) {
      NonEmptyFrame(v, v', d);
    }
  }

  lemma NonEmptyFrame(v: Volume, v': Volume, d: Dinode)
    requires forall s: Slot :: At(v', d, s) == At(v, d, s)
    requires NoEmptyIndex(v, d)
    ensures NoEmptyIndex(v', d)
  {
    hide At;
    forall i: nat | At(v', d, DindNode(i)) != 0 ensures exists j: nat :: At(v', d, DindLeaf(i, j)) != 0 {
      assert At(v, d, DindNode(i)) != 0;
      var j: nat :| At(v, d, DindLeaf(i, j)) != 0;
      assert At(v', d, DindLeaf(i, j)) != 0;
    }
    if d.indirect != 0 { var i: nat :| At(v, d, IndLeaf(i)) != 0; assert At(v', d, IndLeaf(i)) != 0; }
    if d.dindirect != 0 { var i: nat :| At(v, d, DindNode(i)) != 0; assert At(v', d, DindNode(i)) != 0; }
  }
}
