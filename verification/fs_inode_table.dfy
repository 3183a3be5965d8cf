/** The table of in-memory inodes (fs/inode.c): reading, writing back and reference counts; each operation
    is proved against the live file system, in which an inode in memory stands for the one on disk. */
module InodeTables {
  import opened Layout
  import opened BlockTree
  import opened FileContents
  import opened Teardown
  import opened FileSystem
  import opened DirtyFlags
  import opened Bitmaps
  import opened SuperBlocks
  import opened Inodes
  import RW = ReadWrite

  /** The pointers, the count and the type agree; the size may not (see `DirtyFlags.SizeLostIff`). */
  predicate AgreesButSize(a: Dinode, b: Dinode) {
    a == b.(size := a.size)
  }

  /** The inode block that holds inode `nr`, and the device's inodes after that block has been written. */
  function InodeBlock(inodes: seq<Dinode>, nr: nat): (block: seq<Dinode>)
    requires |inodes| == NR_INODES && nr < NR_INODES
    ensures |block| == INODES_PER_BLOCK && block[nr % INODES_PER_BLOCK] == inodes[nr]
  {
    InodePlace(nr);
    var start := nr / INODES_PER_BLOCK * INODES_PER_BLOCK;
    inodes[start..start + INODES_PER_BLOCK]
  }

  function WithInodeBlock(inodes: seq<Dinode>, nr: nat, block: seq<Dinode>): seq<Dinode>
    requires |inodes| == NR_INODES && nr < NR_INODES && |block| == INODES_PER_BLOCK
  {
    InodePlace(nr);
    var start := nr / INODES_PER_BLOCK * INODES_PER_BLOCK;
    inodes[..start] + block + inodes[start + INODES_PER_BLOCK..]
  }

  lemma InodePlace(nr: nat)
    requires nr < NR_INODES
    ensures nr / INODES_PER_BLOCK < NR_INODE_BLOCKS
    ensures nr / INODES_PER_BLOCK * INODES_PER_BLOCK + nr % INODES_PER_BLOCK == nr
    ensures nr / INODES_PER_BLOCK * INODES_PER_BLOCK + INODES_PER_BLOCK <= NR_INODES
  {}

  /** Reading the block of an inode, replacing the inode in it and writing the block back changes that inode
      on the device and none of the others in the block. */
  lemma PatchedBlock(inodes: seq<Dinode>, nr: nat, d: Dinode)
    requires |inodes| == NR_INODES && nr < NR_INODES
    ensures WithInodeBlock(inodes, nr, InodeBlock(inodes, nr)[nr % INODES_PER_BLOCK := d]) == inodes[nr := d]
  {
    InodePlace(nr);
    var start, at := nr / INODES_PER_BLOCK * INODES_PER_BLOCK, nr % INODES_PER_BLOCK;
    var after := WithInodeBlock(inodes, nr, InodeBlock(inodes, nr)[at := d]);
    forall k | 0 <= k < NR_INODES ensures after[k] == inodes[nr := d][k] {
      if start <= k < start + INODES_PER_BLOCK {
        assert after[k] == InodeBlock(inodes, nr)[at := d][k - start];
      }
    }
  }

  class InodeTable {
    const sb: SuperBlock
    /** The hash table, by inode number. */
    var nodes: map<nat, Inode>

    constructor (sb: SuperBlock)
      ensures this.sb == sb && nodes == map[]
    {
      this.sb, nodes := sb, map[];
    }

    /** Every inode in memory is referenced, and one that is not dirty agrees with the disk. */
    ghost predicate Cached(n: nat)
      reads this, sb, nodes.Values
    {
      n in nodes ==>
        && nodes[n].nr == n < NR_INODES && nodes[n].sb == sb && nodes[n].refs > 0
        && n < |sb.dev.inodes| && (nodes[n].dirty || AgreesButSize(nodes[n].d, sb.dev.inodes[n]))
    }

    ghost predicate Valid()
      reads this, sb, sb.inodeFreemap.v, sb.blockFreemap.v, nodes.Values
    {
      && sb.Valid()
      && sb.usedInodes == |sb.inodeFreemap.Bits()|
      && forall n: nat :: Cached(n)
    }

    /** Nothing in memory that the disk does not have. */
    ghost predicate OnDisk(n: nat)
      reads this, sb, nodes.Values
    {
      n in nodes ==> !nodes[n].dirty && n < |sb.dev.inodes| && nodes[n].d == sb.dev.inodes[n]
    }

    /** The inode in memory if there is one, or else the one on disk. */
    ghost function DinodeOf(n: nat): Dinode
      reads this, sb, nodes.Values
    {
      if n in nodes then nodes[n].d else if n < |sb.dev.inodes| then sb.dev.inodes[n] else ZERO_DINODE
    }

    /** The file system as its users see it. */
    ghost function Live(): FileSystem.State
      requires sb.Valid()
      reads this, sb, sb.inodeFreemap.v, sb.blockFreemap.v, nodes.Values
    {
      FileSystem.State(sb.Vol(), seq(NR_INODES, n requires 0 <= n reads this, sb, nodes.Values => DinodeOf(n)), sb.inodeFreemap.Bits())
    }

    /** `testfs_get_inode`. */
    method Get(nr: nat) returns (node: Inode)
      requires Valid() && nr < NR_INODES
      modifies this`nodes, set n | n in nodes && n == nr :: nodes[n]`refs
      ensures Valid() && nr in nodes && node == nodes[nr] && node.nr == nr && Live() == old(Live())
      ensures old(nr in nodes) ==> nodes == old(nodes) && node.refs == old(node.refs) + 1
      ensures !old(nr in nodes) ==> fresh(node) && nodes == old(nodes)[nr := node] && node.refs == 1
      ensures !old(nr in nodes) ==> node.sb == sb
      ensures forall n: nat :: old(OnDisk(n)) ==> OnDisk(n)
      ensures forall n {:trigger nodes[n]} :: n in nodes && n != nr ==> nodes[n].refs == old(nodes[n].refs)
    {
      hide SuperBlock.Vol, Bitmap.Valid, Mirrors, Bitmap.Bits;
      assert forall n: nat :: Cached(n);
      if nr in nodes {
        node := nodes[nr];
        forall n: nat | n in nodes && n != nr ensures nodes[n] != node { assert Cached(n) && Cached(nr); }
        node.refs := node.refs + 1;
      } else {
        var block := InodeBlock(sb.dev.inodes, nr);
        node := new Inode(sb, nr, block[nr % INODES_PER_BLOCK]);
        nodes := nodes[nr := node];
      }
      assert forall n: nat :: old(Cached(n)) ==> Cached(n);
      assert forall n: nat :: DinodeOf(n) == old(DinodeOf(n));
      assert Live().inodes == old(Live()).inodes;
      assert Cached(nr);
    }

    /** `testfs_sync_inode`. */
    method Sync(node: Inode)
      requires Valid() && node.nr in nodes && nodes[node.nr] == node
      modifies node`dirty, sb`dev
      ensures Valid() && Live() == old(Live()) && !node.dirty
      ensures forall n: nat :: old(OnDisk(n)) || (n == node.nr && old(node.dirty)) ==> OnDisk(n)
      ensures node.nr < |sb.dev.inodes| == |old(sb.dev).inodes|
      ensures sb.dev == if old(node.dirty) then old(sb.dev).(inodes := old(sb.dev).inodes[node.nr := node.d]) else old(sb.dev)
    {
      hide Bitmap.Valid, Mirrors, Bitmap.Bits;
      assert Cached(node.nr);
      if !node.dirty {
        return;
      }
      var block := InodeBlock(sb.dev.inodes, node.nr);
      block := block[node.nr % INODES_PER_BLOCK := node.d];
      PatchedBlock(sb.dev.inodes, node.nr, node.d);
      sb.dev := sb.dev.(inodes := WithInodeBlock(sb.dev.inodes, node.nr, block));
      node.dirty := false;
      assert forall n: nat :: old(Cached(n)) ==> Cached(n);
      assert forall n: nat :: DinodeOf(n) == old(DinodeOf(n));
      assert Live().inodes == old(Live()).inodes;
    }

    /** `testfs_put_inode`. Dropping the last reference loses nothing exactly when the inode in memory
        equals the one on disk. */
    method Put(node: Inode)
      requires Valid() && node.nr in nodes && nodes[node.nr] == node && !node.dirty
      modifies this`nodes, node`refs
      ensures Valid() && node.nr < |sb.dev.inodes|
      ensures if old(node.refs) > 1 then nodes == old(nodes) else nodes == old(nodes) - {node.nr}
      ensures Live() == old(Live()) <==> old(node.refs) > 1 || node.d == sb.dev.inodes[node.nr]
      ensures forall n: nat :: old(OnDisk(n)) ==> OnDisk(n)
      ensures node.refs == old(node.refs) - 1
      ensures forall n {:trigger nodes[n]} :: n in nodes && n != node.nr ==> nodes[n].refs == old(nodes[n].refs)
      ensures old(Sound(Live())) ==> (Sound(Live()) <==> Sized(FileOf(Live(), node.nr)))
    {
      hide SuperBlock.Vol, Bitmap.Valid, Mirrors, Bitmap.Bits, Sound, Sized;
      NodeKnown(node);
      assert Cached(node.nr);
      node.refs := node.refs - 1;
      if node.refs == 0 {
        nodes := nodes - {node.nr};
      }
      assert forall n: nat :: old(Cached(n)) ==> Cached(n);
      assert forall n: nat :: n != node.nr ==> DinodeOf(n) == old(DinodeOf(n));
      assert Live().inodes[node.nr] == DinodeOf(node.nr);
      assert DinodeOf(node.nr) == node.d ==> Live().inodes == old(Live()).inodes;
      if old(Sound(Live())) { PutSound(old(Live()), Live(), node.nr); }
    }
  
    /** Nothing in the table changed but `node`, and it is still coherent. */
    twostate lemma OnlyNode(node: Inode)
      requires old(Valid()) && sb.Valid() && nodes == old(nodes) && sb.dev.inodes == old(sb.dev.inodes)
      requires sb.usedInodes == |sb.inodeFreemap.Bits()|
      requires node.nr in nodes && nodes[node.nr] == node && node.refs == old(node.refs)
      requires forall n {:trigger nodes[n]} :: n in nodes && nodes[n] != node ==>
                 nodes[n].d == old(nodes[n].d) && nodes[n].dirty == old(nodes[n].dirty) && nodes[n].refs == old(nodes[n].refs)
      requires node.dirty || (node.nr < |sb.dev.inodes| && AgreesButSize(node.d, sb.dev.inodes[node.nr]))
      ensures Valid() && node.nr < NR_INODES
      ensures Live() == FileSystem.State(sb.Vol(), old(Live()).inodes[node.nr := node.d], sb.inodeFreemap.Bits())
    {
      hide SuperBlock.Vol, Bitmap.Valid, Bitmap.Bits, AgreesButSize, Mirrors;
      assert old(Cached(node.nr));
      forall n: nat ensures Cached(n) { assert old(Cached(n)); }
      forall n: nat | n != node.nr ensures DinodeOf(n) == old(DinodeOf(n)) { assert old(Cached(n)); }
      assert Live().inodes == old(Live()).inodes[node.nr := node.d];
    }

    /** No inode changed. */
    twostate lemma NoNode()
      requires old(Valid()) && sb.Valid() && nodes == old(nodes) && sb.dev.inodes == old(sb.dev.inodes)
      requires sb.usedInodes == |sb.inodeFreemap.Bits()|
      requires forall n {:trigger nodes[n]} :: n in nodes ==>
                 nodes[n].d == old(nodes[n].d) && nodes[n].dirty == old(nodes[n].dirty) && nodes[n].refs == old(nodes[n].refs)
      ensures Valid()
      ensures Live() == FileSystem.State(sb.Vol(), old(Live()).inodes, sb.inodeFreemap.Bits())
    {
      hide SuperBlock.Vol, Bitmap.Valid, Bitmap.Bits, AgreesButSize, Mirrors;
      forall n: nat ensures Cached(n) { assert old(Cached(n)); }
      assert forall n: nat :: DinodeOf(n) == old(DinodeOf(n));
      assert Live().inodes == old(Live()).inodes;
    }

    /** What is known of an inode of the table. */
    lemma NodeKnown(node: Inode)
      requires Valid() && node.nr in nodes && nodes[node.nr] == node
      ensures node.sb == sb && node.nr < NR_INODES && node.nr < |sb.dev.inodes| && node.refs > 0
      ensures node.dirty || AgreesButSize(node.d, sb.dev.inodes[node.nr])
      ensures Live().inodes[node.nr] == node.d
      ensures forall n {:trigger nodes[n]} :: n in nodes && n != node.nr ==> nodes[n] != node
    {
      hide SuperBlock.Vol, Bitmap.Valid, Bitmap.Bits, AgreesButSize, Mirrors;
      assert Cached(node.nr);
      forall n | n in nodes && n != node.nr ensures nodes[n] != node { assert Cached(n); }
    }

    /** The inode's tree is in order if the live file system is. */
    lemma NodeFileOk(node: Inode)
      requires Valid() && node.nr in nodes && nodes[node.nr] == node && node.sb == sb && Sound(Live())
      ensures RW.FileOk(node.St())
    {
      hide SuperBlock.Valid, SuperBlock.Vol, Bitmap.Valid, Bitmap.Bits, AgreesButSize, InodeTable.Cached,
        InodeTable.DinodeOf, Inv, RW.FileOk;
      NodeKnown(node);
      var owns :| Inv(Live(), owns);
      InvSizes(Live(), owns);
      InvFile(Live(), owns, node.nr);
      FileOkAlike(FileOf(Live(), node.nr), node.dirty, owns[node.nr], Others(Live().vol, owns[node.nr]));
      assert FileOf(Live(), node.nr).(dirty := node.dirty) == node.St();
    }

    /** What was known of it before. */
    twostate lemma WasKnown(node: Inode)
      requires old(Valid()) && old(node.nr in nodes && nodes[node.nr] == node) && node.sb == sb && old(Sound(Live()))
      ensures old(RW.FileOk(node.St())) && node.nr < NR_INODES && |old(Live()).inodes| == NR_INODES
      ensures old(node.St()).vol == old(Live()).vol && old(node.St()).d == old(Live()).inodes[node.nr] == old(node.d)
      ensures node.nr < |old(sb.dev.inodes)| && (old(node.dirty) || AgreesButSize(old(node.d), old(sb.dev.inodes)[node.nr]))
    {
      hide SuperBlock.Valid, SuperBlock.Vol, Bitmap.Valid, Bitmap.Bits, AgreesButSize, Inv, RW.FileOk;
      assert old(Cached(node.nr));
      assert old(DinodeOf(node.nr)) == old(node.d);
      var owns :| Inv(old(Live()), owns);
      InvSizes(old(Live()), owns);
      InvFile(old(Live()), owns, node.nr);
      FileOkAlike(FileOf(old(Live()), node.nr), old(node.dirty), owns[node.nr], Others(old(Live()).vol, owns[node.nr]));
      assert FileOf(old(Live()), node.nr).(dirty := old(node.dirty)) == old(node.St());
    }

    /** A write to an inode of the table is a write to the live file system. */
    twostate lemma Wrote(op: Op)
      requires old(Valid()) && old(Sound(Live())) && sb.Valid() && nodes == old(nodes)
      requires op.Write? && op.nr in nodes && nodes[op.nr].nr == op.nr && nodes[op.nr].sb == sb && op.nr in old(sb.inodeFreemap.Bits())
      requires sb.InodeSide() == old(sb.InodeSide()) && sb.inodeFreemap.v[..] == old(sb.inodeFreemap.v[..])
      requires forall n {:trigger nodes[n]} :: n in nodes ==>
                 nodes[n].refs == old(nodes[n].refs) && (nodes[n] != nodes[op.nr] ==> nodes[n].d == old(nodes[n].d) && nodes[n].dirty == old(nodes[n].dirty))
      requires nodes[op.nr].St() == FileContents.WriteData(old(nodes[op.nr].St()), op.start, op.buf).0
      ensures Valid() && Sound(Live()) && Live() == Apply(old(Live()), op).0
      ensures Apply(old(Live()), op).1 == FileContents.WriteData(old(nodes[op.nr].St()), op.start, op.buf).1
    {
      hide SuperBlock.Valid, SuperBlock.Vol, Bitmap.Valid, RW.FileOk, FileContents.WriteData, AgreesButSize,
        InodeTable.Cached, InodeTable.DinodeOf;
      var node := nodes[op.nr];
      MapsApart(sb);
      WasKnown(node);
      SoundApply(old(Live()), op);
      WriteMarks(old(node.St()), op.start, op.buf);
      WriteAlike(old(node.St()), FileOf(old(Live()), node.nr), op.start, op.buf);
      AgreesTwice(node.d, old(node.d), sb.dev.inodes[node.nr]);
      OnlyNode(node);
    }

    /** `testfs_write_data` on an inode of the table. */
    method WriteData(node: Inode, buf: seq<byte>, start: nat) returns (ret: int)
      requires Valid() && node.nr in nodes && nodes[node.nr] == node && node.sb == sb
      requires node.nr in sb.inodeFreemap.Bits() && Sound(Live())
      modifies node`d, node`dirty, sb, sb.blockFreemap.v
      ensures Valid() && Sound(Live()) && (Live(), ret) == Apply(old(Live()), Op.Write(node.nr, start, buf))
    {
      hide SuperBlock.Valid, SuperBlock.Vol, Bitmap.Valid, Bitmap.Bits, RW.FileOk, FileContents.WriteData,
        AgreesButSize, InodeTable.Cached, InodeTable.DinodeOf;
      MapsApart(sb);
      NodeKnown(node);
      NodeFileOk(node);
      RW.FileOkFacts(node.St());
      ret := RW.WriteData(node, buf, start);
      Wrote(Op.Write(node.nr, start, buf));
    }

    /** `testfs_create_inode`; the free map may have more bits than there is room for inodes. */
    method CreateInode(kind: Kind) returns (ret: int, node: Inode?)
      requires Valid() && Sound(Live())
      modifies this`nodes, nodes.Values, sb, sb.inodeFreemap.v
      ensures Valid() && Sound(Live()) && Live() == Apply(old(Live()), Op.Create(kind)).0
      ensures if node == null then ret == ENOSPC == Apply(old(Live()), Op.Create(kind)).1
              else ret == 0 && node.nr == Apply(old(Live()), Op.Create(kind)).1 && node.dirty && node.sb == sb
      ensures node != null ==> if node.nr in old(nodes) then node == old(nodes)[node.nr] else fresh(node) && node.refs == 1
      ensures sb.dev.inodes == old(sb.dev).inodes && nodes == if node == null then old(nodes) else old(nodes)[node.nr := node]
      ensures forall n {:trigger old(nodes)[n]} :: n in old(nodes) && (node == null || n != node.nr) ==>
                old(nodes)[n].d == old(nodes[n].d) && old(nodes)[n].dirty == old(nodes[n].dirty) && old(nodes)[n].refs == old(nodes[n].refs)
      ensures forall n: nat :: old(OnDisk(n)) && (node == null || n != node.nr) ==> OnDisk(n)
    {
      hide SuperBlock.Valid, SuperBlock.Vol, Bitmap.Valid, Bitmap.Bits, AgreesButSize, InodeTable.Cached,
        InodeTable.DinodeOf;
      SoundApply(Live(), Op.Create(kind));
      var nr := TakeNumber();
      if nr < 0 {
        return nr, null;
      }
      node := Get(nr);
      NodeKnown(node);
      SetKind(node, kind);
      ret := 0;
    }

    /** The part of `testfs_create_inode` that finds an inode number. */
    method TakeNumber() returns (nr: int)
      requires Valid()
      modifies sb, sb.inodeFreemap.v
      ensures Valid() && sb.Vol() == old(sb.Vol()) && sb.dev.inodes == old(sb.dev).inodes
      ensures var used := old(sb.inodeFreemap.Bits());
        var free := FirstFreeInode(used, 0);
        if free == NR_INODES then nr == ENOSPC && Live() == old(Live())
        else nr == free && Live() == old(Live()).(usedInodes := used + {free})
    {
      hide SuperBlock.Valid, SuperBlock.Vol, Bitmap.Valid, Bitmap.Bits, AgreesButSize, InodeTable.Cached,
        InodeTable.DinodeOf, FirstFreeInode;
      MapsApart(sb);
      ghost var used := sb.inodeFreemap.Bits();
      var r := sb.GetInodeFreemap();
      if r.NoSpace? {
        FirstFreeInodeIs(used, NR_INODES);
        NoNode();
        return ENOSPC;
      }
      if r.value / INODES_PER_BLOCK >= NR_INODE_BLOCKS {
        FirstFreeInodeIs(used, NR_INODES);
        sb.PutInodeFreemap(r.value);
        MapsApart(sb);
        assert sb.inodeFreemap.Bits() == used;
        NoNode();
        return ENOSPC;
      }
      FirstFreeInodeIs(used, r.value);
      NoNode();
      nr := r.value;
    }

    method SetKind(node: Inode, kind: Kind)
      requires Valid() && node.nr in nodes && nodes[node.nr] == node
      modifies node`d, node`dirty
      ensures Valid() && node.nr < NR_INODES && node.dirty
      ensures Live() == old(Live()).(inodes := old(Live()).inodes[node.nr := old(Live()).inodes[node.nr].(kind := kind)])
    {
      hide SuperBlock.Valid, SuperBlock.Vol, Bitmap.Valid, Bitmap.Bits, AgreesButSize, InodeTable.Cached,
        InodeTable.DinodeOf;
      NodeKnown(node);
      node.d := node.d.(kind := kind);
      node.dirty := true;
      OnlyNode(node);
    }

    /** The part of `testfs_remove_inode` before the inode is written back: its assert holds. */
    method Erase(node: Inode)
      requires Valid() && node.nr in nodes && nodes[node.nr] == node && node.sb == sb
      requires node.nr in sb.inodeFreemap.Bits() && Sound(Live())
      modifies node`d, node`dirty, sb, sb.blockFreemap.v, sb.inodeFreemap.v
      ensures Valid() && Sound(Live()) && Live() == Apply(old(Live()), Op.Remove(node.nr)).0
      ensures node.d == ZERO_DINODE && node.dirty && sb.dev.inodes == old(sb.dev).inodes
    {
      hide SuperBlock.Valid, SuperBlock.Vol, Bitmap.Valid, Bitmap.Bits, RW.FileOk, AgreesButSize, InodeTable.Cached,
        InodeTable.DinodeOf, Emptied, Reachable, Sound;
      MapsApart(sb);
      NodeKnown(node);
      NodeFileOk(node);
      SoundApply(Live(), Op.Remove(node.nr));
      ghost var f := node.St();
      NothingLeft(f);
      SameReach(f, FileOf(Live(), node.nr));
      RW.FreeBlocks(node);
      assert node.d.blockCount == 0;
      node.d := ZERO_DINODE;
      node.dirty := true;
      MapsApart(sb);
      assert |sb.inodeFreemap.Bits()| > 0;
      sb.PutInodeFreemap(node.nr);
      OnlyNode(node);
    }

    /** `testfs_remove_inode`; it gives up the caller's reference. */
    method RemoveInode(node: Inode)
      requires Valid() && node.nr in nodes && nodes[node.nr] == node && node.sb == sb
      requires node.nr in sb.inodeFreemap.Bits() && Sound(Live())
      modifies this`nodes, node, sb, sb.blockFreemap.v, sb.inodeFreemap.v
      ensures Valid() && Sound(Live()) && Live() == Apply(old(Live()), Op.Remove(node.nr)).0
      ensures if old(node.refs) > 1 then nodes == old(nodes) else nodes == old(nodes) - {node.nr}
      ensures node.nr < |old(sb.dev).inodes| && sb.dev.inodes == old(sb.dev).inodes[node.nr := ZERO_DINODE]
      ensures forall n: nat :: old(OnDisk(n)) || n == node.nr ==> OnDisk(n)
    {
      hide SuperBlock.Valid, SuperBlock.Vol, Bitmap.Valid, Bitmap.Bits, AgreesButSize, InodeTable.Cached,
        InodeTable.DinodeOf, InodeTable.Valid, InodeTable.Live, Apply, Sound, Sized;
      TableMaps();
      NodeKnown(node);
      Erase(node);
      NodeKnown(node);
      Sync(node);
      Put(node);
    }

    lemma TableMaps()
      requires Valid()
      ensures sb.Valid() && sb.inodeFreemap.v != sb.blockFreemap.v
    {
      hide InodeTable.Cached;
      MapsApart(sb);
    }
  }

  lemma PutSound(st: State, st': State, n: nat)
    requires Sound(st) && n < |st.inodes| && n < |st'.inodes| && AgreesButSize(st'.inodes[n], st.inodes[n])
    requires st' == st.(inodes := st.inodes[n := st'.inodes[n]])
    ensures Sound(st') <==> Sized(FileOf(st', n))
  {
    hide Sound, Sized;
    ResizedSound(st, n, st'.inodes[n]);
  }

  lemma FileOkAlike(f: File, dirty: bool, own: map<int, Slot>, foreign: set<int>)
    requires FileInv(f, own, foreign)
    ensures RW.FileOk(f.(dirty := dirty))
  {
    hide TreeInv, Sized;
    DirtyIrrelevant(f, dirty, own, foreign);
    assert FileInv(f.(dirty := dirty), own, foreign);
  }

  lemma NothingLeft(f: File)
    requires RW.FileOk(f)
    ensures Emptied(f, Reachable(f)).d.blockCount == 0
  {
    hide Emptied, Reachable, FileInv;
    var own, foreign :| FileInv(f, own, foreign);
    EmptiedSpec(f, own, foreign);
    FileShape(f, own, foreign);
    ReachableIsOwned(f, own, foreign);
  }

  lemma FileShape(f: File, own: map<int, Slot>, foreign: set<int>)
    requires FileInv(f, own, foreign)
    ensures Shape(f, own, foreign)
  {}

  lemma SameReach(f: File, g: File)
    requires Alike(f, g)
    ensures Emptied(f, Reachable(f)).vol == Emptied(g, Reachable(g)).vol
  {
    hide At;
  }

  lemma MapsApart(sb: SuperBlock)
    requires sb.Valid()
    ensures sb.inodeFreemap.v != sb.blockFreemap.v && sb.inodeFreemap.Valid() && sb.blockFreemap.Valid()
  {}

  lemma WriteMarks(f: File, start: nat, buf: seq<byte>)
    requires RW.FileOk(f)
    ensures var f' := FileContents.WriteData(f, start, buf).0; !f'.dirty ==> !f.dirty && f'.d == f.d.(size := f'.d.size)
  {
    hide FileInv, FileContents.WriteData;
    var own, foreign :| FileInv(f, own, foreign);
    UnmarkedIsSize(f, start, buf, own, foreign);
  }

  lemma AgreesTwice(c: Dinode, b: Dinode, a: Dinode)
    ensures c == b.(size := c.size) && AgreesButSize(b, a) ==> AgreesButSize(c, a)
  {}

  lemma FirstFreeInodeIs(used: set<nat>, r: nat)
    requires r <= NR_INODES && (forall m: nat :: m < r ==> m in used) && (r < NR_INODES ==> r !in used)
    ensures FirstFreeInode(used, 0) == r
  {}
}
