/** A file system from its making to the end of a session and back from the device. */
module Shell {
  import opened Layout
  import opened BlockTree
  import opened BlockAlloc
  import opened FileSystem
  import opened Mounts
  import opened BitWords
  import opened Bitmaps
  import opened SuperBlocks
  import opened InodeTables
  import opened Commands
  import opened Dirents
  import Namespace

  /** What `mktestfs` writes before it makes the root; the data blocks are left as they are. */
  function FreshDevice(data: seq<Block>, maxBlocks: nat): (dev: Device)
    requires |data| == NR_BLOCK_BITS
    ensures WellSized(dev)
  {
    Device(SuperRecord(0, 0, maxBlocks), seq(INODE_FREEMAP_SIZE, i => ZeroBlock()), seq(BLOCK_FREEMAP_SIZE, i => ZeroBlock()),
           seq(NR_INODES, i => ZERO_DINODE), data)
  }

  lemma NoBits(blocks: seq<Block>, v: seq<bv8>, nbits: nat)
    requires Mirrors(blocks, v) && nbits <= BITS_PER_WORD * |v| && forall nr :: 0 <= nr < |blocks| ==> blocks[nr] == ZeroBlock()
    ensures Members(v, nbits) == {}
  {
    forall i: nat | i < |v| ensures v[i] == 0 {
      OffsetSum(i);
      assert blocks[BlockOf(i)][IndexOf(i)] == WordByte(v, BlockOf(i), IndexOf(i));
      WordOfByte(v[i]);
    }
    forall i: nat | i < nbits ensures !IsSet(v, i) { NoMask(i % BITS_PER_WORD); }
  }

  lemma NoMask(k: nat)
    requires k < BITS_PER_WORD
    ensures !TestBit(0, k)
  {}

  /** The free maps of a fresh device are empty. */
  lemma FreshStored(sb: SuperBlock, data: seq<Block>, maxBlocks: nat)
    requires |data| == NR_BLOCK_BITS && sb.Valid() && sb.dev == FreshDevice(data, maxBlocks)
    ensures Stored(sb) == Formatted(data, maxBlocks) && sb.usedInodes == |sb.inodeFreemap.Bits()| == 0
  {
    hide Mirrors, Members, IsSet;
    NoBits(sb.dev.inodeMap, sb.inodeFreemap.v[..], sb.inodeFreemap.nbits);
    NoBits(sb.dev.blockMap, sb.blockFreemap.v[..], sb.blockFreemap.nbits);
    assert UsedBlocks({}) == {};
  }

  lemma FormattedMounted(data: seq<Block>, maxBlocks: nat)
    requires |data| == NR_BLOCK_BITS
    ensures Mounted(Formatted(data, maxBlocks), NoNames()) && (Available(Formatted(data, maxBlocks).vol) >= 1 <==> maxBlocks >= 1)
  {
    hide Inv;
    FormattedInv(data, maxBlocks);
  }

  lemma FreshTable(table: InodeTable)
    requires table.Valid() && table.nodes == map[]
    ensures table.sb.Valid() && table.Live() == Stored(table.sb) && table.sb.usedInodes == |table.sb.inodeFreemap.Bits()|
  {
    hide SuperBlock.Valid, SuperBlock.Vol, Bitmap.Valid, Bitmap.Bits, Mirrors;
    AllStored(table);
  }

  /** `mktestfs`: with room for one block, a file system whose root is empty is on the device. */
  method MakeFileSystem(data: seq<Block>, maxBlocks: nat) returns (ret: int, sb: SuperBlock)
    requires |data| == NR_BLOCK_BITS
    ensures sb.Valid() && fresh(sb) && fresh(sb.inodeFreemap.v) && fresh(sb.blockFreemap.v)
    ensures if maxBlocks >= 1 then ret == 0 else ret == ENOSPC
    ensures sb.usedInodes == |sb.inodeFreemap.Bits()| && Mounted(Stored(sb), if ret == 0 then Namespace.Fresh() else NoNames())
  {
    hide SuperBlock.Valid, SuperBlock.Vol, Bitmap.Valid, Bitmap.Bits, Mirrors, Mounted, InodeTable.Valid,
      InodeTable.Live, Namespace.Fresh, Formatted, FreshDevice, Available;
    sb := new SuperBlock.Open(FreshDevice(data, maxBlocks));
    FreshStored(sb, data, maxBlocks);
    FormattedMounted(data, maxBlocks);
    var table := new InodeTable(sb);
    EmptyTable(table);
    FreshTable(table);
    ret := MakeRootDir(table);
    FreshTable(table);
    sb.Close();
  }

  lemma EmptyTable(table: InodeTable)
    requires table.sb.Valid() && table.nodes == map[] && table.sb.usedInodes == |table.sb.inodeFreemap.Bits()|
    ensures table.Valid()
  {}

  /** Make a file system, open it, run a session, close it and open it again: if the session ends well, the
      device holds the tree of names that the session's steps make of an empty root. */
  method MakeAndRun(data: seq<Block>, maxBlocks: nat, qs: seq<Request>)
    returns (n: nat, end: Ending, failed: bool, sb: SuperBlock, ghost cs: seq<Namespace.Cmd>, ghost g: Namespace.Shape)
    requires |data| == NR_BLOCK_BITS && maxBlocks >= 1 && forall i :: 0 <= i < |qs| ==> CName(qs[i].name)
    ensures n == |cs| <= |qs| && Stand(cs, qs) && (end == Finished <==> n == |qs|) && Namespace.Tree(Namespace.After(Namespace.Fresh(), cs, n), g)
    ensures end == Finished && !failed ==> sb.Valid() && Mounted(Stored(sb), Namespace.After(Namespace.Fresh(), cs, n))
  {
    hide SuperBlock.Valid, SuperBlock.Vol, Bitmap.Valid, Bitmap.Bits, Mirrors, Mounted, InodeTable.Valid,
      InodeTable.Live, Namespace.Fresh, Namespace.After, Namespace.Tree, CName, Stand, Context.Torn, Namespace.Enter;
    var made;
    var ret;
    ret, made := MakeFileSystem(data, maxBlocks);
    sb := Remount(made);
    RootFresh();
    Namespace.FreshTree();
    var c := new Context.Start(sb, Namespace.Fresh());
    n, end, cs := c.Session(qs, Namespace.Fresh(), Namespace.Shape(map[], map[Namespace.ROOT := 0]));
    StandValid(cs, qs);
    g := Namespace.SessionKeepsTree(Namespace.Fresh(), Namespace.Shape(map[], map[Namespace.ROOT := 0]), cs, n);
    failed := false;
    if end == Finished {
      failed := c.Quit(Namespace.After(Namespace.Fresh(), cs, n));
      if !failed {
        sb := Remount(c.table.sb);
      }
    }
  }

  lemma RootFresh()
    ensures Namespace.Fresh().cur == Namespace.ROOT && Namespace.ROOT in Namespace.Fresh().dirs
  {}
}
