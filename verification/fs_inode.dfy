/** The in-memory inode object of fs/inode.c. */
module Inodes {
  import opened BlockTree
  import opened BlockAlloc
  import opened SuperBlocks

  class Inode {
    var d: Dinode
    var dirty: bool
    var refs: nat
    const nr: nat
    const sb: SuperBlock

    constructor (sb: SuperBlock, nr: nat, d: Dinode)
      ensures this.sb == sb && this.nr == nr && this.d == d && !dirty && refs == 1
    {
      this.sb, this.nr, this.d := sb, nr, d;
      dirty, refs := false, 1;
    }

    /** This inode on its volume. */
    ghost function St(): File
      requires sb.Valid()
      reads this, sb, sb.inodeFreemap.v, sb.blockFreemap.v
    {
      File(sb.Vol(), d, dirty)
    }

    /** `testfs_alloc_block_for_inode`. */
    method AllocBlock() returns (p: int)
      requires sb.Valid()
      modifies this`d, this`dirty, sb, sb.blockFreemap.v
      ensures sb.Valid() && (St(), p) == AllocForInode(old(St()))
      ensures sb.InodeSide() == old(sb.InodeSide())
    {
      p := sb.AllocBlock();
      if p >= 0 {
        d := d.(blockCount := d.blockCount + 1);
        dirty := true;
      }
    }

    /** `testfs_free_block_from_inode`. */
    method FreeBlock(p: int)
      requires sb.Valid() && (p == 0 || (p in sb.Vol().used && sb.usedBlocks > 0))
      modifies this`d, this`dirty, sb, sb.blockFreemap.v
      ensures sb.Valid() && St() == FreeFromInode(old(St()), p)
      ensures sb.InodeSide() == old(sb.InodeSide())
    {
      if p == 0 {
        return;
      }
      sb.FreeBlock(p);
      d := d.(blockCount := d.blockCount - 1);
      dirty := true;
    }
  }
}
