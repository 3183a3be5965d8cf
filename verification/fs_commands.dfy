/** The commands of fs/dir.c on inodes in memory: each is proved against its step on the names. */
module Commands {
  import opened Layout
  import opened BlockTree
  import opened BlockAlloc
  import opened FileContents
  import opened DirtyFlags
  import opened FileSystem
  import opened Dirents
  import opened Directories
  import opened Mounts
  import opened SuperBlocks
  import opened Bitmaps
  import opened Inodes
  import opened InodeTables
  import opened Unsynced
  import opened Adding
  import Namespace
  import RW = ReadWrite

  lemma LiveNode(table: InodeTable, node: Inode)
    requires table.Valid() && node.nr in table.nodes && table.nodes[node.nr] == node
    ensures node.sb == table.sb && table.sb.Valid() && node.nr < NR_INODES == |table.Live().inodes|
    ensures Alike(node.St(), FileOf(table.Live(), node.nr)) && table.Live().inodes[node.nr] == node.d
    ensures table.Live().usedInodes == table.sb.inodeFreemap.Bits()
  {
    hide SuperBlock.Valid, SuperBlock.Vol, Bitmap.Valid, Bitmap.Bits, InodeTable.DinodeOf;
    table.NodeKnown(node);
  }

  /** `testfs_dir_name_to_inode_nr` on an inode of the table. */
  method LookupIn(table: InodeTable, node: Inode, name: seq<byte>, ghost s: Names) returns (ret: int)
    requires table.Valid() && node.nr in table.nodes && table.nodes[node.nr] == node && node.nr in s.dirs && Mounted(table.Live(), s)
    ensures ret == Lookup(s.dirs[node.nr], name)
  {
    hide InodeTable.Valid, InodeTable.Live, Holds, Lookup, SuperBlock.Valid, SuperBlock.Vol, Bitmap.Bits, Mounted,
      Inode.St;
    LiveNode(table, node);
    FitsAt(table.Live(), s, node.nr);
    NodeHolds(table, node, s.dirs[node.nr]);
    ret := DirNameToInodeNr(node, name, s.dirs[node.nr]);
  }

  /** The name that `testfs_find_dirent` finds for an inode number. */
  method NameIn(table: InodeTable, node: Inode, nr: nat, ghost s: Names) returns (name: seq<byte>)
    requires table.Valid() && node.nr in table.nodes && table.nodes[node.nr] == node && node.nr in s.dirs && Mounted(table.Live(), s)
    requires FirstWithNr(s.dirs[node.nr], nr, 0) < |s.dirs[node.nr]|
    ensures name == s.dirs[node.nr][FirstWithNr(s.dirs[node.nr], nr, 0)].name
  {
    hide InodeTable.Valid, InodeTable.Live, Holds, FirstWithNr, SuperBlock.Valid, SuperBlock.Vol, Bitmap.Bits,
      Mounted, Inode.St, StringAt;
    LiveNode(table, node);
    FitsAt(table.Live(), s, node.nr);
    NodeHolds(table, node, s.dirs[node.nr]);
    HoldsValid(node.St(), s.dirs[node.nr]);
    var d := FindDirent(node, nr, s.dirs[node.nr]);
    assert d.Dirent?;
    NameCompares(d, s.dirs[node.nr][FirstWithNr(s.dirs[node.nr], nr, 0)]);
    name := StringAt(d.chars);
  }

  lemma KeyKnown(table: InodeTable, n: nat)
    requires table.Valid() && n in table.nodes
    ensures table.nodes[n].nr == n && table.nodes[n].refs > 0
  {
    hide SuperBlock.Valid, Bitmap.Valid, Bitmap.Bits;
    assert table.Cached(n);
  }

  lemma AbsentOnDisk(table: InodeTable, n: nat)
    ensures n !in table.nodes ==> table.OnDisk(n)
  {}

  /** An inode with nothing to write back can be put without a loss. */
  lemma CleanNode(table: InodeTable, node: Inode)
    requires node.nr in table.nodes && table.nodes[node.nr] == node && table.OnDisk(node.nr)
    ensures !node.dirty && node.nr < |table.sb.dev.inodes| && node.d == table.sb.dev.inodes[node.nr]
  {}

  lemma NodeHolds(table: InodeTable, node: Inode, es: Log)
    requires table.Valid() && node.nr in table.nodes && table.nodes[node.nr] == node
    requires node.nr < NR_INODES && Holds(FileOf(table.Live(), node.nr), es)
    ensures node.sb == table.sb && node.sb.Valid() && Holds(node.St(), es)
  {
    hide SuperBlock.Valid, SuperBlock.Vol, Bitmap.Valid, Bitmap.Bits, InodeTable.Cached, InodeTable.Live,
      InodeTable.Valid, Holds, Inode.St;
    LiveNode(table, node);
    HoldsAlike(FileOf(table.Live(), node.nr), node.St(), es);
  }

  lemma HoldsOk(f: File, es: Log)
    requires Holds(f, es)
    ensures RW.FileOk(f)
  {}

  /** A write that succeeds marks the inode, and one that fails leaves at most the size unmarked. */
  lemma WriteLeaves(f: File, start: nat, buf: seq<byte>)
    requires RW.FileOk(f)
    ensures var (f', r) := FileContents.WriteData(f, start, buf);
      !f'.dirty ==> r < 0 && !f.dirty && f'.d == f.d.(size := f'.d.size)
  {
    hide FileInv, FileContents.WriteData;
    WriteMarks(f, start, buf);
    var own, foreign :| FileInv(f, own, foreign);
    var k, own' := WriteDataSpec(f, start, buf, own, foreign);
  }

  /** `testfs_add_dirent` on an inode of the table: one write to the live file system, or none. */
  method AddEntry(table: InodeTable, node: Inode, name: seq<byte>, nr: nat, ghost es: Log) returns (ret: int)
    requires table.Valid() && Sound(table.Live()) && node.nr in table.nodes && table.nodes[node.nr] == node
    requires node.nr in table.Live().usedInodes && node.nr < NR_INODES && Holds(FileOf(table.Live(), node.nr), es)
    requires ValidEntry(Entry(name, nr)) && Lookup(es, name) < 0
    modifies node`d, node`dirty, table.sb, table.sb.blockFreemap.v
    ensures table.Valid() && Sound(table.Live()) && table.sb.dev.inodes == old(table.sb.dev).inodes && ValidLog(es)
    ensures (table.Live(), ret) == Apply(old(table.Live()), Op.Write(node.nr, Offset(es, FirstFit(es, name, 0)), Encode(Entry(name, nr))))
    ensures !node.dirty ==> ret < 0 && !old(node.dirty) && node.d == old(node.d).(size := node.d.size)
    ensures !old(node.dirty) ==>
              node.dirty == FileContents.WriteData(FileOf(old(table.Live()), node.nr), Offset(es, FirstFit(es, name, 0)), Encode(Entry(name, nr))).0.dirty
  {
    hide SuperBlock.Valid, SuperBlock.Vol, Bitmap.Valid, Bitmap.Bits, InodeTable.Cached, InodeTable.DinodeOf,
      InodeTable.Live, InodeTable.Valid, Sound, Apply, Holds, Inode.St, Offset, Encode, FirstFit, Lookup,
      PartlyWritten, Added, ValidEntry;
    LiveNode(table, node);
    NodeHolds(table, node, es);
    HoldsValid(node.St(), es);
    FitIsDead(es, name);
    HoldsOk(node.St(), es);
    MapsApart(table.sb);
    StFields(node);
    WriteLeaves(node.St(), Offset(es, FirstFit(es, name, 0)), Encode(Entry(name, nr)));
    ret := AddDirent(node, name, nr, es);
    StFields(node);
    table.Wrote(Op.Write(node.nr, Offset(es, FirstFit(es, name, 0)), Encode(Entry(name, nr))));
  }

  /** `testfs_create_empty_dir`. */
  method CreateEmptyDir(table: InodeTable, node: Inode, parentNr: nat, ghost s: Names) returns (ret: int)
    requires table.Valid() && Mounted(table.Live(), s) && node.nr in table.nodes && table.nodes[node.nr] == node && node.dirty
    requires node.nr in s.dirs && s.dirs[node.nr] == [] && parentNr < NR_INODES
    modifies node`d, node`dirty, table.sb, table.sb.blockFreemap.v
    ensures table.Valid() && table.sb.dev.inodes == old(table.sb.dev).inodes && node.dirty
    ensures node.nr < NR_INODES && (table.Live(), ret) == EmptyDirApplied(old(table.Live()), node.nr, parentNr)
    ensures if ret < 0 then MountedBut(table.Live(), s, node.nr)
            else ret == 0 && Mounted(table.Live(), s.(dirs := s.dirs[node.nr := NewLog(node.nr, parentNr)]))
  {
    hide InodeTable.Cached, InodeTable.DinodeOf, InodeTable.Live, InodeTable.Valid, Sound, Fits, Apply, Holds, Offset,
      Encode, Lookup, FirstFit, PartOf, SuperBlock.Valid, SuperBlock.Vol, Bitmap.Bits, Inode.St, InodeTable.OnDisk,
      Mounted, MountedBut, ValidEntry, Added;
    ghost var nr := node.nr;
    LiveNode(table, node);
    FitsAt(table.Live(), s, nr);
    NewLogAdded(nr, parentNr);
    NewOffsets(nr, parentNr);
    MountedSound(table.Live(), s);
    ghost var j := EntryApplied(table.Live(), s, nr, DOT, nr);
    ret := AddEntry(table, node, DOT, node.nr, []);
    if ret < 0 {
      return;
    }
    ghost var s1 := s.(dirs := s.dirs[nr := [Entry(DOT, nr)]]);
    LiveNode(table, node);
    FitsAt(table.Live(), s1, nr);
    MountedSound(table.Live(), s1);
    j := EntryApplied(table.Live(), s1, nr, DOTDOT, parentNr);
    ret := AddEntry(table, node, DOTDOT, parentNr, s1.dirs[nr]);
    if ret < 0 {
      // Removing "." again is refused by testfs_remove_dirent, which changes nothing.
      LiveNode(table, node);
      Loosened(table.Live(), s1, nr, []);
      assert s1.(dirs := s1.dirs[nr := []]) == s;
      return;
    }
    assert s1.(dirs := s1.dirs[nr := NewLog(nr, parentNr)]) == s.(dirs := s.dirs[nr := NewLog(nr, parentNr)]);
    ret := 0;
  }

  /** When a new inode is given up again, no other changes. */
  lemma Undone(st: State, s: Names, x: int, nr: nat)
    requires MountedBut(st, s, x) && nr in Namespace.Used(s)
    ensures |st.inodes| == NR_INODES
    ensures MountedBut(Apply(st, Op.Remove(nr)).0, Without(s, nr), if x == nr then -1 else x)
    ensures x in Namespace.Used(s) && x != nr ==> SameFile(st, Apply(st, Op.Remove(nr)).0, x)
    ensures Spared(st, Apply(st, Op.Remove(nr)).0, Namespace.Used(s) - {nr})
  {
    hide Sound, Fits, Apply, SameFile;
    SparedBy(st, Op.Remove(nr), Namespace.Used(s) - {nr});
    RemoveMounts(st, s, x, nr);
    if x in Namespace.Used(s) && x != nr { OthersKept(st, Op.Remove(nr), x); }
  }

  /** A file without bytes. */
  ghost predicate EmptyFile(st: State, n: nat) {
    n < |st.inodes| && st.inodes[n].kind == RegularFile && st.inodes[n].size == 0
  }

  /** The files after a command: those that were there are as they were, and a new one is empty. */
  ghost predicate FilesAfter(st: State, st': State, s: Names, s': Names) {
    forall n {:trigger n in s'.files} :: n in s'.files ==> if n in s.files then SameFile(st, st', n) else EmptyFile(st', n)
  }

  lemma MadeFiles(st: State, st': State, s: Names, name: seq<byte>, kind: Kind, ret: int)
    requires Spared(st, st', Namespace.Used(s) - {s.cur}) && s.cur !in s.files && kind != NoType
    requires ret >= 0 && kind == RegularFile ==> EmptyFile(st', FirstFreeInode(Namespace.Used(s), 0))
    requires ret == Namespace.Make(s, name, kind == Directory, ret).1
    ensures FilesAfter(st, st', s, Namespace.Make(s, name, kind == Directory, ret).0)
  {
    hide SameFile, EmptyFile, FirstFreeInode, Lookup, Added;
  }

  lemma SparedFiles(st: State, st': State, s: Names, s': Names)
    requires Spared(st, st', Namespace.Used(s') - {s.cur}) && s'.files <= s.files && s.cur !in s.files
    ensures FilesAfter(st, st', s, s')
  {
    hide SameFile, EmptyFile;
  }

  lemma UnlinkFiles(s: Names, name: seq<byte>)
    ensures var s' := Namespace.Unlink(s, name).0; s'.files <= s.files && (Namespace.Unlink(s, name).1 < 0 ==> s' == s)
  {
    hide Lookup, Removed, EmptyLog;
  }

  lemma EnterFiles(s: Names, name: seq<byte>)
    ensures Namespace.Enter(s, name).0.files == s.files && Namespace.Used(Namespace.Enter(s, name).0) == Namespace.Used(s)
  {
    hide Lookup;
  }

  /** Making the two entries of a new directory spares what was there before. */
  lemma MadeSpares(st: State, s: Names, nr: nat, kind: Kind)
    requires Mounted(st, With(s, nr, kind)) && nr !in Namespace.Used(s) && nr < NR_INODES && s.cur in Namespace.Used(s)
    ensures |st.inodes| == NR_INODES && s.cur < NR_INODES && Spared(st, Furnished(st, nr, s.cur, kind).0, Namespace.Used(s) - {s.cur})
    ensures Namespace.Used(s) - {s.cur} <= Namespace.Used(With(s, nr, kind)) - {nr}
    ensures Namespace.Used(s) - {s.cur} <= Namespace.Used(Made(s, nr, kind)) - {nr}
    ensures Namespace.Used(s) - {s.cur} <= Namespace.Used(Made(s, nr, kind)) - {s.cur}
  {
    hide Mounted, SameFile, EmptyDirApplied;
    var t := With(s, nr, kind);
    MountedSound(st, t);
    SoundSizes(st);
    assert s.cur in Namespace.Used(t);
    SparedSelf(st, Namespace.Used(s) - {s.cur});
    if kind == Directory { EmptyDirSpace(st, t, nr, s.cur); }
  }

  lemma CreateSpares(st: State, s: Names, kind: Kind)
    requires Mounted(st, s)
    ensures |st.inodes| == NR_INODES && Spared(st, Apply(st, Op.Create(kind)).0, Namespace.Used(s) - {s.cur})
    ensures var nr := FirstFreeInode(Namespace.Used(s), 0);
      nr < NR_INODES && kind == RegularFile ==> EmptyFile(Apply(st, Op.Create(kind)).0, nr)
  {
    hide Mounted, Spared, Apply, Inv, FirstFreeInode;
    MountedSound(st, s);
    var nr := FirstFreeInode(Namespace.Used(s), 0);
    if nr < NR_INODES {
      var owns :| Inv(st, owns);
      CreatedFile(st, owns, nr, kind);
      CreatedIs(st, kind, nr);
    }
    SparedBy(st, Op.Create(kind), Namespace.Used(s) - {s.cur});
  }

  lemma StillEmpty(st: State, st': State, keep: set<nat>, n: nat)
    requires Spared(st, st', keep) && n in keep
    ensures EmptyFile(st, n) ==> EmptyFile(st', n)
  {
    hide Contents, NoHoles, At;
    assert SameFile(st, st', n);
  }

  lemma SparedThen(a: State, b: State, c: State, keep: set<nat>, fewer: set<nat>)
    requires Spared(a, b, fewer) && Spared(b, c, keep) && fewer <= keep
    ensures Spared(a, c, fewer)
  {
    hide Spared;
    SparedLess(b, c, keep, fewer);
    SparedTwice(a, b, c, fewer);
  }

  /** Writing to one inode spares the others. */
  lemma RecordSpares(st: State, s: Names, n: nat, at: nat, record: seq<byte>)
    requires Mounted(st, s)
    ensures |st.inodes| == NR_INODES && Spared(st, Apply(st, Op.Write(n, at, record)).0, Namespace.Used(s) - {n})
  {
    hide Mounted, Spared, Apply;
    MountedSound(st, s);
    SparedBy(st, Op.Write(n, at, record), Namespace.Used(s) - {n});
  }

  function Without(s: Names, nr: nat): Names {
    s.(dirs := s.dirs - {nr}, files := s.files - {nr})
  }

  /** The names once the new inode `nr` is made, and once it has its name. */
  function Made(s: Names, nr: nat, kind: Kind): Names {
    if kind == Directory then s.(dirs := s.dirs[nr := NewLog(nr, s.cur)]) else s.(files := s.files + {nr})
  }

  function Named(s: Names, nr: nat, kind: Kind, name: seq<byte>): Names
    requires s.cur in s.dirs
  {
    var t := Made(s, nr, kind);
    t.(dirs := t.dirs[s.cur := Added(s.dirs[s.cur], name, nr)])
  }

  lemma NamedIs(s: Names, kind: Kind, name: seq<byte>, err: int)
    requires s.cur in s.dirs && Lookup(s.dirs[s.cur], name) < 0
    ensures var nr := FirstFreeInode(Namespace.Used(s), 0);
      Namespace.Make(s, name, kind == Directory, err) ==
      if nr == NR_INODES then (s, ENOSPC) else if err < 0 then (s, err) else (Named(s, nr, kind, name), 0)
  {
    hide Lookup, Added, FirstFreeInode;
    var nr := FirstFreeInode(Namespace.Used(s), 0);
    if nr != NR_INODES {
      assert nr !in Namespace.Used(s);
      assert s.dirs[s.cur := Added(s.dirs[s.cur], name, nr)][nr := NewLog(nr, s.cur)]
          == s.dirs[nr := NewLog(nr, s.cur)][s.cur := Added(s.dirs[s.cur], name, nr)];
    }
  }

  lemma MadeUndone(s: Names, nr: nat, kind: Kind)
    requires nr !in Namespace.Used(s)
    ensures Without(Made(s, nr, kind), nr) == s && Without(With(s, nr, kind), nr) == s
    ensures nr in Namespace.Used(Made(s, nr, kind)) && nr in Namespace.Used(With(s, nr, kind))
  {}

  /** The file system as it lies on the device. */
  ghost function Stored(sb: SuperBlock): State
    requires sb.Valid()
    reads sb, sb.inodeFreemap.v, sb.blockFreemap.v
  {
    State(sb.Vol(), sb.dev.inodes, sb.inodeFreemap.Bits())
  }

  /** What is typed. */
  datatype Request = Create(name: seq<byte>) | Mkdir(name: seq<byte>) | Rm(name: seq<byte>) | Cd(name: seq<byte>)

  /** The step on the names that a request which returned `ret` stands for. */
  function Step(q: Request, ret: int): (c: Namespace.Cmd)
    ensures c.name == q.name && (c.Create? || c.Mkdir? ==> c.err == ret)
    ensures c.Create? == q.Create? && c.Mkdir? == q.Mkdir? && c.Rm? == q.Rm? && c.Cd? == q.Cd?
  {
    match q
    case Create(name) => Namespace.Create(name, ret)
    case Mkdir(name) => Namespace.Mkdir(name, ret)
    case Rm(name) => Namespace.Rm(name)
    case Cd(name) => Namespace.Cd(name)
  }

  /** The steps stand for the first requests, one each. */
  ghost predicate Stand(cs: seq<Namespace.Cmd>, qs: seq<Request>) {
    |cs| <= |qs| && forall i :: 0 <= i < |cs| ==> StandsFor(cs[i], qs[i])
  }

  ghost predicate StandsFor(c: Namespace.Cmd, q: Request) {
    exists ret :: c == Step(q, ret)
  }

  lemma StandValid(cs: seq<Namespace.Cmd>, qs: seq<Request>)
    requires Stand(cs, qs) && forall i :: 0 <= i < |qs| ==> CName(qs[i].name)
    ensures forall i :: 0 <= i < |cs| ==> Namespace.ValidCmd(cs[i])
  {
    hide Step;
  }

  lemma IsStep(q: Request, ret: int)
    ensures StandsFor(Step(q, ret), q)
  {
    hide Step;
  }

  lemma StandMore(s0: Names, cs: seq<Namespace.Cmd>, qs: seq<Request>, ret: int)
    requires Stand(cs, qs) && |cs| < |qs|
    ensures Stand(cs + [Step(qs[|cs|], ret)], qs)
    ensures Namespace.After(s0, cs + [Step(qs[|cs|], ret)], |cs| + 1) == Namespace.Run(Namespace.After(s0, cs, |cs|), Step(qs[|cs|], ret)).0
  {
    hide Step, Namespace.Run, Namespace.After, StandsFor;
    Namespace.AfterOneMore(s0, cs, Step(qs[|cs|], ret));
    IsStep(qs[|cs|], ret);
  }

  lemma SessionStarts(st: State, s0: Names, qs: seq<Request>)
    requires Mounted(st, s0)
    ensures Stand([], qs) && Namespace.After(s0, [], 0) == s0 && FilesKept(st, st, s0, [])
  {
    hide SameFile, Mounted;
    MountedSound(st, s0);
    SparedSelf(st, s0.files);
  }

  /** File `m` has been there all along. */
  ghost predicate Stays(s0: Names, cs: seq<Namespace.Cmd>, m: nat) {
    forall k: nat {:trigger Namespace.After(s0, cs, k)} :: k <= |cs| ==> m in Namespace.After(s0, cs, k).files
  }

  /** The files after a stretch of a session: those that were there all along are as they were, and all others,
      made on the way, are empty. */
  ghost predicate FilesKept(st: State, st': State, s0: Names, cs: seq<Namespace.Cmd>) {
    forall m: nat {:trigger m in Namespace.After(s0, cs, |cs|).files} :: m in Namespace.After(s0, cs, |cs|).files ==>
      if Stays(s0, cs, m) then SameFile(st, st', m) else EmptyFile(st', m)
  }

  lemma StaysMore(s0: Names, cs: seq<Namespace.Cmd>, c: Namespace.Cmd, m: nat)
    ensures Stays(s0, cs + [c], m) <==> Stays(s0, cs, m) && m in Namespace.After(s0, cs + [c], |cs| + 1).files
  {
    hide Namespace.After;
    forall k: nat | k <= |cs| ensures Namespace.After(s0, cs + [c], k) == Namespace.After(s0, cs, k) { Namespace.AfterPrefix(s0, cs, c, k); }
  }

  lemma FilesMore(a: State, b: State, d: State, s0: Names, cs: seq<Namespace.Cmd>, c: Namespace.Cmd)
    requires FilesKept(a, b, s0, cs)
    requires FilesAfter(b, d, Namespace.After(s0, cs, |cs|), Namespace.After(s0, cs + [c], |cs| + 1))
    ensures FilesKept(a, d, s0, cs + [c])
  {
    hide Namespace.After, SameFile, EmptyFile, Stays;
    forall m: nat | m in Namespace.After(s0, cs + [c], |cs| + 1).files
      ensures if Stays(s0, cs + [c], m) then SameFile(a, d, m) else EmptyFile(d, m) {
      StaysMore(s0, cs, c, m);
      StaysNow(s0, cs, m);
      if m in Namespace.After(s0, cs, |cs|).files { SameOrEmpty(a, b, d, m); }
    }
  }

  lemma StaysNow(s0: Names, cs: seq<Namespace.Cmd>, m: nat)
    ensures Stays(s0, cs, m) ==> m in Namespace.After(s0, cs, |cs|).files
  {
    hide Namespace.After;
  }

  lemma SameOrEmpty(a: State, b: State, d: State, m: nat)
    requires SameFile(b, d, m)
    ensures (SameFile(a, b, m) ==> SameFile(a, d, m)) && (EmptyFile(b, m) ==> EmptyFile(d, m))
  {
    hide Contents, NoHoles, At;
    if SameFile(a, b, m) { SameFileTwice(a, b, d, m); }
  }

  /** How a session ends. */
  datatype Ending = Finished | DirectoryTorn | AssertFailed

  /** If all inodes in memory are on the device, so is the live file system. */
  lemma AllStored(table: InodeTable)
    requires table.Valid() && table.sb.Valid() && forall n: nat :: n in table.nodes ==> table.OnDisk(n)
    ensures table.Live() == Stored(table.sb)
  {
    hide SuperBlock.Vol, Bitmap.Valid, Bitmap.Bits, Mirrors;
    forall n: nat | n < NR_INODES ensures table.DinodeOf(n) == table.sb.dev.inodes[n] {
      assert n in table.nodes ==> table.OnDisk(n);
    }
    assert table.Live().inodes == Stored(table.sb).inodes;
  }

  class Context {
    const table: InodeTable
    /** The current directory. */
    var cur: Inode

    /** Everything in memory is on the disk, except perhaps the inode of `x` and changes to the current
        directory that are marked. */
    ghost predicate SteadyBut(x: int)
      reads this, table, table.sb, table.sb.inodeFreemap.v, table.sb.blockFreemap.v, table.nodes.Values
    {
      && table.Valid() && cur.nr in table.nodes && table.nodes[cur.nr] == cur && cur.nr != x
      && forall n: nat :: n in table.nodes && n != x ==> (n == cur.nr && cur.dirty) || table.OnDisk(n)
    }

    /** Between commands: the live file system holds the names `s`. */
    ghost predicate Ready(s: Names)
      reads this, table, table.sb, table.sb.inodeFreemap.v, table.sb.blockFreemap.v, table.nodes.Values
    {
      SteadyBut(-1) && cur.nr == s.cur && s.cur in s.dirs && Mounted(table.Live(), s)
    }

    /** The table holds no inode object but new ones and those it held. */
    twostate predicate Known()
      reads this, table
    {
      forall n {:trigger table.nodes[n]} :: n in table.nodes ==> fresh(table.nodes[n]) || (n in old(table.nodes) && table.nodes[n] == old(table.nodes)[n])
    }

    /** The start of the shell: the root directory becomes the current one. */
    constructor Start(sb: SuperBlock, ghost s: Names)
      requires sb.Valid() && sb.usedInodes == |sb.inodeFreemap.Bits()| && Mounted(Stored(sb), s)
      requires s.cur == Namespace.ROOT && s.cur in s.dirs
      ensures table.sb == sb && Ready(s) && !cur.dirty && fresh(table) && fresh(table.nodes.Values)
    {
      hide Bitmap.Valid, Bitmap.Bits, Mirrors, Mounted, SuperBlock.Vol;
      var t := new InodeTable(sb);
      assert t.Live().inodes == Stored(sb).inodes;
      AbsentOnDisk(t, Namespace.ROOT);
      var root := t.Get(Namespace.ROOT);
      CleanNode(t, root);
      table, cur := t, root;
    }

    /** The way out of `testfs_create_file_or_dir` when it fails: the new inode goes. */
    method Undo(node: Inode, ghost s: Names, ghost x: int)
      requires table.Valid() && node.nr in table.nodes && table.nodes[node.nr] == node
      requires MountedBut(table.Live(), s, x) && node.nr in Namespace.Used(s)
      modifies table`nodes, node, table.sb, table.sb.blockFreemap.v, table.sb.inodeFreemap.v
      ensures table.Valid() && MountedBut(table.Live(), Without(s, node.nr), if x == node.nr then -1 else x)
      ensures x in Namespace.Used(s) && x != node.nr ==> SameFile(old(table.Live()), table.Live(), x)
      ensures Spared(old(table.Live()), table.Live(), Namespace.Used(s) - {node.nr})
      ensures table.nodes == old(table.nodes) || table.nodes == old(table.nodes) - {node.nr}
      ensures old(SteadyBut(node.nr)) ==> SteadyBut(-1)
    {
      hide InodeTable.Valid, InodeTable.Cached, InodeTable.OnDisk, InodeTable.DinodeOf, InodeTable.Live, Sound, Fits,
        Apply, SameFile, Spared, SuperBlock.Valid, SuperBlock.Vol, Bitmap.Bits;
      LiveNode(table, node);
      Undone(table.Live(), s, x, node.nr);
      table.RemoveInode(node);
    }

    /** Adds an entry to the current directory. If that fails, `j` bytes of the record are there. */
    method AddName(name: seq<byte>, nr: nat, ghost s: Names, ghost x: int) returns (ret: int, ghost j: nat)
      requires SteadyBut(x) && cur.nr == s.cur && s.cur in s.dirs && Mounted(table.Live(), s)
      requires ValidEntry(Entry(name, nr)) && Lookup(s.dirs[s.cur], name) < 0
      modifies cur`d, cur`dirty, table.sb, table.sb.blockFreemap.v
      ensures table.Valid() && table.sb.dev.inodes == old(table.sb.dev).inodes
      ensures ret >= 0 ==> SteadyBut(x) && cur.dirty && Mounted(table.Live(), s.(dirs := s.dirs[s.cur := Added(s.dirs[s.cur], name, nr)]))
      ensures ret < 0 ==> MountedBut(table.Live(), s, s.cur) && PartOf(table.Live(), s.cur, s.dirs[s.cur], Entry(name, nr), j)
      ensures ret < 0 && j == 0 ==> SteadyBut(x) && Mounted(table.Live(), s)
      ensures Exactly(old(table.Live()), s, name, nr, Available(old(table.Live()).vol), ret, j, !old(cur.dirty), cur.dirty)
      ensures Spared(old(table.Live()), table.Live(), Namespace.Used(s) - {s.cur})
    {
      hide InodeTable.Valid, InodeTable.Cached, InodeTable.DinodeOf, InodeTable.Live, Sound, Fits, Apply, Holds,
        Offset, Encode, Lookup, FirstFit, Added, PartOf, SuperBlock.Valid, SuperBlock.Vol, Bitmap.Bits, ValidEntry,
        InodeTable.OnDisk, Exactly, FileContents.WriteData, Spared;
      LiveNode(table, cur);
      FitsAt(table.Live(), s, s.cur);
      SizeIs(table, cur, s);
      j := EntryApplied(table.Live(), s, s.cur, name, nr);
      ghost var before := table.Live();
      ret := AddEntry(table, cur, name, nr, s.dirs[s.cur]);
      RecordSpares(before, s, s.cur, Offset(s.dirs[s.cur], FirstFit(s.dirs[s.cur], name, 0)), Encode(Entry(name, nr)));
      LiveNode(table, cur);
      ExactlyWhen(before, s, name, nr, ret, j, !old(cur.dirty), cur.dirty, table.Live());
      if ret < 0 && j == 0 && !cur.dirty { SizeIs(table, cur, s); }
      KeptOnDisk(x);
    }

    /** The way out of `testfs_create_file_or_dir` when it succeeds: both inodes are written back. */
    method Finish(node: Inode)
      requires SteadyBut(node.nr) && node.nr in table.nodes && table.nodes[node.nr] == node && node.dirty && cur.dirty
      modifies table`nodes, node`dirty, node`refs, cur`dirty, table.sb`dev
      ensures SteadyBut(-1) && !cur.dirty && table.Live() == old(table.Live())
      ensures table.nodes == old(table.nodes) || table.nodes == old(table.nodes) - {node.nr}
    {
      hide InodeTable.Valid, InodeTable.Cached, InodeTable.DinodeOf, InodeTable.Live, SuperBlock.Valid,
        SuperBlock.Vol, Bitmap.Bits;
      LiveNode(table, node);
      table.Sync(cur);
      table.Sync(node);
      assert table.OnDisk(node.nr) && table.OnDisk(cur.nr);
      table.Put(node);
    }

    /** `testfs_create_file_or_dir` from where it has the new inode. */
    method NameInode(node: Inode, kind: Kind, name: seq<byte>, ghost s: Names) returns (ret: int, ghost j: nat)
      requires SteadyBut(node.nr) && node.nr in table.nodes && table.nodes[node.nr] == node && node.dirty
      requires cur.nr == s.cur && s.cur in s.dirs && node.nr !in Namespace.Used(s) && Mounted(table.Live(), With(s, node.nr, kind))
      requires CName(name) && Lookup(s.dirs[s.cur], name) < 0
      modifies table`nodes, node, cur`d, cur`dirty, table.sb, table.sb.blockFreemap.v, table.sb.inodeFreemap.v
      ensures table.nodes == old(table.nodes) || table.nodes == old(table.nodes) - {node.nr}
      ensures ret >= 0 ==> ret == 0 && j == 0 && !cur.dirty && Ready(Named(s, node.nr, kind, name))
      ensures ret < 0 && j == 0 ==> Ready(s)
      ensures ret < 0 && j > 0 ==> table.Valid() && MountedBut(table.Live(), s, s.cur) && PartOf(table.Live(), s.cur, s.dirs[s.cur], Entry(name, node.nr), j)
      ensures node.nr < NR_INODES && s.cur < NR_INODES
      ensures Spared(old(table.Live()), table.Live(), Namespace.Used(s) - {s.cur})
      ensures ret >= 0 && kind == RegularFile && EmptyFile(old(table.Live()), node.nr) ==> EmptyFile(table.Live(), node.nr)
      ensures Outcome(old(table.Live()), s, name, node.nr, kind, ret, j, old(cur.dirty), cur.dirty)
    {
      hide InodeTable.Valid, InodeTable.Cached, InodeTable.OnDisk, InodeTable.DinodeOf, InodeTable.Live, Sound, Fits,
        Apply, Holds, Lookup, Added, PartOf, SuperBlock.Valid, SuperBlock.Vol, Bitmap.Bits, SameFile, MountedBut,
        Exactly, EmptyDirApplied, Outcome, Spared, EmptyFile;
      ghost var nr, keep := node.nr, Namespace.Used(s) - {s.cur};
      LiveNode(table, node);
      LiveNode(table, cur);
      table.NodeKnown(node);
      MadeSpares(table.Live(), s, nr, kind);
      MadeUndone(s, nr, kind);
      j := 0;
      if kind == Directory {
        ret := CreateEmptyDir(table, node, cur.nr, With(s, nr, kind));
        KeptOnDisk(nr);
        if ret < 0 {
          TableBlocks(table);
          ghost var begun := table.Live();
          Undo(node, With(s, nr, kind), nr);
          TableBlocks(table);
          SparedThen(old(table.Live()), begun, table.Live(), Namespace.Used(With(s, nr, kind)) - {nr}, keep);
          FurnishedOutcome(old(table.Live()), s, name, nr, kind, ret, j, old(cur.dirty), cur.dirty);
          return;
        }
        assert With(s, nr, kind).dirs[nr := NewLog(nr, s.cur)] == s.dirs[nr := NewLog(nr, s.cur)];
      }
      ghost var t := Made(s, nr, kind);
      LiveNode(table, cur);
      ret, j := AddName(name, node.nr, t, nr);
      ghost var made := Furnished(old(table.Live()), nr, s.cur, kind).0;
      TableBlocks(table);
      ghost var st := table.Live();
      SparedThen(old(table.Live()), made, st, Namespace.Used(t) - {s.cur}, keep);
      SameExactly(made, t, s, name, nr, Available(made.vol), ret, j, !old(cur.dirty), cur.dirty);
      if ret >= 0 {
        StillEmpty(made, st, Namespace.Used(t) - {s.cur}, nr);
        FurnishedOutcome(old(table.Live()), s, name, nr, kind, 0, 0, old(cur.dirty), false);
        Finish(node);
        ret, j := 0, 0;
        return;
      }
      FurnishedOutcome(old(table.Live()), s, name, nr, kind, ret, j, old(cur.dirty), cur.dirty);
      LiveNode(table, cur);
      Undo(node, t, if j == 0 then -1 else s.cur);
      TableBlocks(table);
      SparedThen(old(table.Live()), st, table.Live(), Namespace.Used(t) - {nr}, keep);
      LiveNode(table, cur);
      if j > 0 { PartStays(st, table.Live(), s.cur, s.dirs[s.cur], Entry(name, nr), j); }
    }

    /** `testfs_create_inode` between commands: the new inode is in memory and not yet named. */
    method NewInode(kind: Kind, ghost s: Names) returns (ret: int, node: Inode?)
      requires Ready(s) && kind != NoType
      modifies table`nodes, table.nodes.Values, table.sb, table.sb.inodeFreemap.v
      ensures table.Valid() && Known() && s.cur < NR_INODES && |old(table.Live()).inodes| == NR_INODES
      ensures cur.nr in table.nodes && table.nodes[cur.nr] == cur && cur.dirty == old(cur.dirty)
      ensures old(table.Live()).usedInodes == Namespace.Used(s) && table.Live() == Apply(old(table.Live()), Op.Create(kind)).0
      ensures Spared(old(table.Live()), table.Live(), Namespace.Used(s) - {s.cur})
      ensures var nr := FirstFreeInode(Namespace.Used(s), 0);
        if node == null then Ready(s) && ret == ENOSPC && nr == NR_INODES
        else ret == 0 && node.nr == nr < NR_INODES && SteadyBut(nr) && nr in table.nodes && table.nodes[nr] == node && node.dirty
             && Mounted(table.Live(), With(s, nr, kind)) && (kind == RegularFile ==> EmptyFile(table.Live(), nr))
      ensures node != null ==> fresh(node) || (node.nr in old(table.nodes) && node == old(table.nodes)[node.nr])
    {
      hide InodeTable.Valid, InodeTable.Cached, InodeTable.OnDisk, InodeTable.DinodeOf, InodeTable.Live, Sound, Fits,
        Apply, Holds, SuperBlock.Valid, SuperBlock.Vol, Bitmap.Bits, FirstFreeInode, Mounted, Spared, EmptyFile;
      LiveNode(table, cur);
      FitsAt(table.Live(), s, s.cur);
      MountedSound(table.Live(), s);
      CreateMounts(table.Live(), s, kind);
      CreateSpares(table.Live(), s, kind);
      ret, node := table.CreateInode(kind);
    }

    /** `testfs_create_file_or_dir` for a name that is not there. */
    method MakeInode(kind: Kind, name: seq<byte>, ghost s: Names) returns (ret: int, ghost j: nat)
      requires Ready(s) && CName(name) && kind != NoType && Lookup(s.dirs[s.cur], name) < 0
      modifies table`nodes, table.nodes.Values, table.sb, table.sb.blockFreemap.v, table.sb.inodeFreemap.v
      ensures table.Valid() && Known() && s.cur < NR_INODES && cur.nr in table.nodes && table.nodes[cur.nr] == cur
      ensures j == 0 ==> Ready(Namespace.Make(s, name, kind == Directory, ret).0) && ret == Namespace.Make(s, name, kind == Directory, ret).1
      ensures (ret >= 0 ==> !cur.dirty) && (j > 0 ==> ret < 0 && MountedBut(table.Live(), s, s.cur))
      ensures j > 0 ==> PartOf(table.Live(), s.cur, s.dirs[s.cur], Entry(name, FirstFreeInode(Namespace.Used(s), 0)), j)
      ensures Ends(old(table.Live()), s, name, kind, ret, j, old(cur.dirty), cur.dirty)
      ensures Spared(old(table.Live()), table.Live(), Namespace.Used(s) - {s.cur})
      ensures ret >= 0 && kind == RegularFile ==> EmptyFile(table.Live(), FirstFreeInode(Namespace.Used(s), 0))
    {
      hide InodeTable.Valid, InodeTable.Cached, InodeTable.OnDisk, InodeTable.DinodeOf, InodeTable.Live, Apply,
        Lookup, Added, PartOf, SuperBlock.Valid, SuperBlock.Vol, Bitmap.Bits, Namespace.Make, SameFile, MountedBut,
        FirstFreeInode, Named, Outcome, Ends, Mounted, Spared, EmptyFile;
      ghost var keep := Namespace.Used(s) - {s.cur};
      SteadyTable(-1);
      j := 0;
      var node;
      ret, node := NewInode(kind, s);
      NamedIs(s, kind, name, ret);
      if node == null {
        CreatedEnds(old(table.Live()), s, name, kind, ret, j, old(cur.dirty), cur.dirty);
        return;
      }
      TableBlocks(table);
      ghost var before := table.Live();
      ret, j := NameInode(node, kind, name, s);
      TableBlocks(table);
      SparedThen(old(table.Live()), before, table.Live(), keep, keep);
      CreatedEnds(old(table.Live()), s, name, kind, ret, j, old(cur.dirty), cur.dirty);
      NamedIs(s, kind, name, ret);
    }

    /** `testfs_create_file_or_dir` below a directory: the command's step on the names, unless part of the new
        record is left at the end of the directory; `Ends` says when that is, when it fails at all, and
        when the directory is left dirty. */
    method CreateFileOrDir(kind: Kind, name: seq<byte>, ghost s: Names) returns (ret: int, ghost j: nat)
      requires Ready(s) && CName(name) && kind != NoType
      modifies table`nodes, table.nodes.Values, table.sb, table.sb.blockFreemap.v, table.sb.inodeFreemap.v
      ensures table.Valid() && cur == old(cur) && Known() && s.cur < NR_INODES
      ensures ret < 0 ==> cur.d.size == old(cur.d.size) + j
      ensures j == 0 ==> Ready(Namespace.Make(s, name, kind == Directory, ret).0) && ret == Namespace.Make(s, name, kind == Directory, ret).1
      ensures (ret >= 0 ==> !cur.dirty) && (j > 0 ==> ret < 0 && MountedBut(table.Live(), s, s.cur))
      ensures j > 0 ==> PartOf(table.Live(), s.cur, s.dirs[s.cur], Entry(name, FirstFreeInode(Namespace.Used(s), 0)), j)
      ensures if Lookup(s.dirs[s.cur], name) >= 0 then j == 0 && cur.dirty == old(cur.dirty)
              else Ends(old(table.Live()), s, name, kind, ret, j, old(cur.dirty), cur.dirty)
      ensures Spared(old(table.Live()), table.Live(), Namespace.Used(s) - {s.cur})
      ensures ret >= 0 && kind == RegularFile ==> EmptyFile(table.Live(), FirstFreeInode(Namespace.Used(s), 0))
    {
      hide InodeTable.Valid, InodeTable.Cached, InodeTable.OnDisk, InodeTable.DinodeOf, InodeTable.Live, Holds,
        Lookup, PartOf, SuperBlock.Valid, SuperBlock.Vol, Bitmap.Bits, Mounted, MountedBut, FirstFreeInode, Ends,
        Inode.St, Spared, EmptyFile;
      LiveNode(table, cur);
      ReadySpares(s);
      FitsAt(table.Live(), s, s.cur);
      ret := LookupIn(table, cur, name, s);
      if ret >= 0 {
        ret, j := EEXIST, 0;
      } else {
        SizeIs(table, cur, s);
        ret, j := MakeInode(kind, name, s);
        LiveNode(table, cur);
        if ret < 0 { GrownBy(table, cur, s, name, kind, ret, j); }
      }
    }

    lemma SteadyTable(x: int)
      requires SteadyBut(x)
      ensures table.Valid() && table.sb.Valid() && cur.nr in table.nodes && table.nodes[cur.nr] == cur
    {
      hide InodeTable.Cached, SuperBlock.Valid;
    }

    /** `testfs_get_inode` of another inode of the file system, between commands. */
    method Take(nr: nat, ghost s: Names) returns (node: Inode)
      requires Ready(s) && nr in Namespace.Used(s) && nr != cur.nr
      modifies table`nodes, set n | n in table.nodes && n == nr :: table.nodes[n]`refs
      ensures Ready(s) && node.nr == nr && table.nodes == old(table.nodes)[nr := node] && node.refs > 0
      ensures table.Live() == old(table.Live())
      ensures if nr in old(table.nodes) then node == old(table.nodes)[nr] && node.refs == old(table.nodes[nr].refs) + 1 > 1
              else fresh(node) && node.refs == 1
      ensures forall n {:trigger table.nodes[n]} :: n in table.nodes && n != nr ==> table.nodes[n].refs == old(table.nodes[n].refs)
    {
      hide InodeTable.Valid, InodeTable.Cached, InodeTable.DinodeOf, InodeTable.Live, SuperBlock.Valid,
        SuperBlock.Vol, Bitmap.Bits, Mounted, InodeTable.OnDisk;
      LiveNode(table, cur);
      KindTells(table.Live(), s, nr);
      if nr in table.nodes { KeyKnown(table, nr); }
      AbsentOnDisk(table, nr);
      node := table.Get(nr);
      LiveNode(table, cur);
    }

    /** `testfs_put_inode` of such an inode: its assert holds. */
    method Give(node: Inode, ghost s: Names)
      requires Ready(s) && node.nr in table.nodes && table.nodes[node.nr] == node && node.nr != cur.nr
      modifies table`nodes, node`refs
      ensures Ready(s) && table.nodes == if old(node.refs) > 1 then old(table.nodes) else old(table.nodes) - {node.nr}
      ensures node.refs == old(node.refs) - 1 && table.Live() == old(table.Live())
      ensures forall n {:trigger table.nodes[n]} :: n in table.nodes && n != node.nr ==> table.nodes[n].refs == old(table.nodes[n].refs)
    {
      hide InodeTable.Valid, InodeTable.Cached, InodeTable.DinodeOf, InodeTable.Live, SuperBlock.Valid,
        SuperBlock.Vol, Bitmap.Bits, Mounted, InodeTable.OnDisk;
      LiveNode(table, node);
      CleanNode(table, node);
      table.Put(node);
      LiveNode(table, cur);
    }

    /** `testfs_remove_dirent_allowed`. */
    method RemoveDirentAllowed(nr: nat, ghost s: Names) returns (ret: int)
      requires Ready(s) && nr in Namespace.Used(s) && nr != cur.nr
      modifies table`nodes, set n | n in table.nodes && n == nr :: table.nodes[n]`refs
      ensures Ready(s) && table.nodes == old(table.nodes) && table.Live() == old(table.Live())
      ensures ret == if nr in s.dirs && !EmptyLog(s.dirs[nr]) then ENOTEMPTY else 0
    {
      hide InodeTable.Valid, InodeTable.Cached, InodeTable.DinodeOf, InodeTable.Live, Holds, SuperBlock.Valid,
        SuperBlock.Vol, Bitmap.Bits, Mounted, Inode.St, EmptyLog, InodeTable.OnDisk, SteadyBut;
      var dir := Take(nr, s);
      SteadyTable(-1);
      LiveNode(table, dir);
      KindTells(table.Live(), s, nr);
      if nr in s.dirs { NodeHolds(table, dir, s.dirs[nr]); }
      ret := CheckEmpty(dir, Namespace.LogOf(s, nr));
      Give(dir, s);
    }

    /** Writes the tombstone of the first live entry called `name`. */
    method Tombstone(name: seq<byte>, at: nat, ghost s: Names) returns (ret: int)
      requires Ready(s) && Lookup(s.dirs[s.cur], name) >= 0 && ValidLog(s.dirs[s.cur]) && at == Offset(s.dirs[s.cur], FirstLive(s.dirs[s.cur], name, 0))
      modifies cur`d, cur`dirty, table.sb, table.sb.blockFreemap.v
      ensures ret >= 0 && SteadyBut(-1) && cur.dirty && Mounted(table.Live(), s.(dirs := s.dirs[s.cur := Removed(s.dirs[s.cur], name)]))
      ensures Spared(old(table.Live()), table.Live(), Namespace.Used(s) - {s.cur})
    {
      hide InodeTable.Valid, InodeTable.Cached, InodeTable.DinodeOf, InodeTable.Live, Sound, Apply, Holds, Offset,
        Encode, FirstLive, Lookup, Removed, SuperBlock.Valid, SuperBlock.Vol, Bitmap.Bits, Fits, Inode.St, ValidEntry,
        InodeTable.OnDisk, PartlyWritten, WithEntry, Mounted, FileContents.WriteData, RW.FileOk, Namespace.Used,
        Spared;
      ghost var es, e := s.dirs[s.cur], Entry(name, INVALID_INODE_NR);
      LiveNode(table, cur);
      FitsAt(table.Live(), s, s.cur);
      NodeHolds(table, cur, es);
      HoldsOk(cur.St(), es);
      MapsApart(table.sb);
      StFields(cur);
      LookupIsLive(es, name);
      TombstoneOf(es, name);
      MountedSound(table.Live(), s);
      TombstoneApplied(table.Live(), s, s.cur, name);
      RecordSpares(table.Live(), s, s.cur, at, Encode(e));
      WriteLeaves(cur.St(), at, Encode(e));
      ret := WriteRecord(cur, Entry(name, INVALID_INODE_NR), at, es, FirstLive(es, name, 0));
      StFields(cur);
      table.Wrote(Op.Write(cur.nr, at, Encode(e)));
      KeptOnDisk(-1);
    }

    lemma ReadySpares(s: Names)
      requires Ready(s)
      ensures Spared(table.Live(), table.Live(), Namespace.Used(s)) && Spared(table.Live(), table.Live(), Namespace.Used(s) - {s.cur})
    {
      hide Spared, Mounted, InodeTable.Cached, InodeTable.OnDisk;
      MountedSound(table.Live(), s);
      SparedSelf(table.Live(), Namespace.Used(s));
      SparedLess(table.Live(), table.Live(), Namespace.Used(s), Namespace.Used(s) - {s.cur});
    }

    /** `testfs_remove_dirent`: `.` and `..` are refused, and so is a directory that is not empty; otherwise
        the entry becomes a tombstone where it stands, which takes no space and always succeeds. */
    method RemoveDirent(name: seq<byte>, ghost s: Names, ghost g: Namespace.Shape) returns (ret: int)
      requires Ready(s) && Namespace.Tree(s, g)
      modifies table`nodes, table.nodes.Values, table.sb, table.sb.blockFreemap.v
      ensures var t := Lookup(s.dirs[s.cur], name);
        if name == DOT || name == DOTDOT then ret == EINVAL
        else if t < 0 then ret == ENOENT
        else if t in s.dirs && !EmptyLog(s.dirs[t]) then ret == ENOTEMPTY
        else ret == t && t in Namespace.Used(s) && t != s.cur
      ensures SteadyBut(-1) && table.nodes == old(table.nodes) && cur.dirty == (ret >= 0 || old(cur.dirty))
      ensures ret < 0 ==> cur.d == old(cur.d)
      ensures if ret < 0 then Ready(s) && table.Live() == old(table.Live())
              else Mounted(table.Live(), s.(dirs := s.dirs[s.cur := Removed(s.dirs[s.cur], name)]))
      ensures Spared(old(table.Live()), table.Live(), Namespace.Used(s) - {s.cur})
    {
      hide Spared, InodeTable.Valid, InodeTable.Cached, InodeTable.DinodeOf, InodeTable.Live, Holds, Offset,
        FirstLive, Lookup, Removed, SuperBlock.Valid, SuperBlock.Vol, Bitmap.Bits, Mounted, Inode.St,
        InodeTable.OnDisk, Namespace.Tree, EmptyLog;
      ReadySpares(s);
      if name == DOT || name == DOTDOT {
        return EINVAL;
      }
      LiveNode(table, cur);
      FitsAt(table.Live(), s, s.cur);
      NodeHolds(table, cur, s.dirs[s.cur]);
      LookupIsLive(s.dirs[s.cur], name);
      var at, inodeNr := FindLive(cur, name, s.dirs[s.cur]);
      if inodeNr < 0 {
        return ENOENT;
      }
      Namespace.TargetKnown(s, g, name);
      table.NodeKnown(cur);
      ret := RemoveDirentAllowed(inodeNr, s);
      if ret < 0 {
        return;
      }
      ret := Tombstone(name, at, s);
      if ret >= 0 {
        ret := inodeNr;
      }
    }

    /** Gets an inode and removes it. */
    method Drop(nr: nat, ghost s: Names)
      requires Ready(s) && nr in Namespace.Used(s) && nr != s.cur
      modifies table`nodes, table.nodes.Values, table.sb, table.sb.blockFreemap.v, table.sb.inodeFreemap.v
      ensures Ready(Without(s, nr)) && Known() && cur.dirty == old(cur.dirty)
      ensures Spared(old(table.Live()), table.Live(), Namespace.Used(s) - {nr})
    {
      hide Spared, InodeTable.Valid, InodeTable.Cached, InodeTable.DinodeOf, InodeTable.Live, InodeTable.OnDisk,
        Sound, Apply, SuperBlock.Valid, SuperBlock.Vol, Bitmap.Bits, Mounted;
      var node := Take(nr, s);
      LiveNode(table, node);
      MountedSound(table.Live(), s);
      RemoveMounted(table.Live(), s, nr);
      SparedBy(table.Live(), Op.Remove(nr), Namespace.Used(s) - {nr});
      table.NodeKnown(node);
      table.RemoveInode(node);
    }

    /** Writes the current directory's inode back. */
    method Flush(ghost s: Names)
      requires Ready(s)
      modifies cur`dirty, table.sb`dev
      ensures Ready(s) && !cur.dirty && table.Live() == old(table.Live())
    {
      hide InodeTable.Valid, InodeTable.Cached, InodeTable.DinodeOf, InodeTable.Live, InodeTable.OnDisk,
        SuperBlock.Valid, SuperBlock.Vol, Bitmap.Bits, Mounted;
      table.Sync(cur);
      LiveNode(table, cur);
    }

    /** `cmd_rm`. */
    method Rm(name: seq<byte>, ghost s: Names, ghost g: Namespace.Shape) returns (ret: int)
      requires Ready(s) && Namespace.Tree(s, g)
      modifies table`nodes, table.nodes.Values, table.sb, table.sb.blockFreemap.v, table.sb.inodeFreemap.v
      ensures Ready(Namespace.Unlink(s, name).0) && ret == Namespace.Unlink(s, name).1
      ensures cur.dirty == (ret < 0 && old(cur.dirty)) && Known() && (ret < 0 ==> cur.d == old(cur.d))
      ensures if ret < 0 then table.Live() == old(table.Live())
              else Spared(old(table.Live()), table.Live(), Namespace.Used(Namespace.Unlink(s, name).0) - {s.cur})
    {
      hide Spared, Lookup, Removed, EmptyLog, Namespace.Tree, SteadyBut, Mounted, SuperBlock.Valid;
      ghost var es := s.dirs[s.cur];
      SteadyTable(-1);
      LookupIsLive(es, name);
      ret := RemoveDirent(name, s, g);
      if ret < 0 {
        return;
      }
      ghost var s1 := s.(dirs := s.dirs[s.cur := Removed(es, name)]);
      assert Namespace.Used(s1) == Namespace.Used(s);
      SteadyTable(-1);
      ghost var before, keep := table.Live(), Namespace.Used(Without(s1, ret)) - {s.cur};
      SparedLess(old(table.Live()), before, Namespace.Used(s) - {s.cur}, keep);
      Drop(ret, s1);
      SteadyTable(-1);
      SparedLess(before, table.Live(), Namespace.Used(s) - {ret}, keep);
      SparedTwice(old(table.Live()), before, table.Live(), keep);
      Flush(Without(s1, ret));
      ret := 0;
    }

    /** The current directory is given up for `dir`. */
    method Switch(dir: Inode)
      requires SteadyBut(-1) && !cur.dirty && dir.nr in table.nodes && table.nodes[dir.nr] == dir && (dir == cur ==> cur.refs > 1)
      modifies this`cur, table`nodes, cur`refs
      ensures SteadyBut(-1) && cur == dir && !cur.dirty && table.Live() == old(table.Live())
      ensures table.nodes == old(table.nodes) || table.nodes == old(table.nodes) - {old(cur).nr}
    {
      hide InodeTable.Valid, InodeTable.Cached, InodeTable.DinodeOf, InodeTable.Live, SuperBlock.Valid,
        SuperBlock.Vol, Bitmap.Bits, InodeTable.OnDisk;
      LiveNode(table, cur);
      LiveNode(table, dir);
      CleanNode(table, cur);
      CleanNode(table, dir);
      table.Put(cur);
      cur := dir;
    }

    /** `cmd_cd`. The assert of `testfs_put_inode` on the directory that is left fails, and nothing more is
        said, exactly when that directory is dirty and the command would leave it. */
    method Cd(name: seq<byte>, ghost s: Names, ghost g: Namespace.Shape) returns (ret: int, failed: bool)
      requires Ready(s) && Namespace.Tree(s, g)
      modifies this`cur, table`nodes, table.nodes.Values
      ensures failed <==> old(cur.dirty) && Namespace.Enter(s, name).1 == 0
      ensures !failed ==> Ready(Namespace.Enter(s, name).0) && ret == Namespace.Enter(s, name).1
      ensures !failed ==> cur.dirty == (ret < 0 && old(cur.dirty)) && table.Live() == old(table.Live())
      ensures Known() && (ret < 0 ==> cur == old(cur) && cur.d == old(cur.d))
    {
      hide InodeTable.Valid, InodeTable.Cached, InodeTable.DinodeOf, InodeTable.Live, Lookup, Holds, SuperBlock.Valid,
        SuperBlock.Vol, Bitmap.Bits, Namespace.Tree, Inode.St, Mounted, InodeTable.OnDisk;
      failed := false;
      var nr := LookupIn(table, cur, name, s);
      LiveNode(table, cur);
      if nr < 0 {
        return nr, false;
      }
      Namespace.TargetKnown(s, g, name);
      KindTells(table.Live(), s, nr);
      Moved(table.Live(), s, nr);
      KeyKnown(table, cur.nr);
      AbsentOnDisk(table, nr);
      var dir := table.Get(nr);
      LiveNode(table, dir);
      if dir.d.kind != Directory {
        Give(dir, s);
        return Namespace.ENOTDIR, false;
      }
      ret := 0;
      if cur.dirty {
        failed := true;
      } else {
        Switch(dir);
      }
    }

    /** `testfs_pwd`: its asserts hold, it ends at the root, each parent is got and put again, and the path it
        prints leads from the root to the directory. */
    method Pwd(node: Inode, ghost s: Names, ghost g: Namespace.Shape) returns (ret: int, text: seq<byte>, ghost path: seq<seq<byte>>)
      requires Ready(s) && Namespace.Tree(s, g) && node.nr in table.nodes && table.nodes[node.nr] == node && node.nr in s.dirs
      requires node == cur || Namespace.Depth(g, node.nr) < Namespace.Depth(g, cur.nr)
      modifies table`nodes, table.nodes.Values`refs
      ensures Ready(s) && table.nodes == old(table.nodes) && SameRefs() && table.Live() == old(table.Live())
      ensures ret == if node.nr == Namespace.ROOT then 1 else 0
      ensures text == Namespace.Printed(path) && Namespace.Resolve(s, Namespace.ROOT, path) == node.nr
      ensures path == [] <==> node.nr == Namespace.ROOT
      decreases Namespace.Depth(g, node.nr), 0
    {
      hide InodeTable.Valid, InodeTable.Cached, InodeTable.OnDisk, InodeTable.DinodeOf, InodeTable.Live, Lookup,
        FirstWithNr, SuperBlock.Valid, SuperBlock.Vol, Bitmap.Bits, Mounted, Namespace.Tree, Namespace.Resolve,
        Namespace.Printed;
      var p := LookupIn(table, node, DOTDOT, s);
      Namespace.ParentNumber(s, g, node.nr);
      assert p >= 0;
      if p == node.nr {
        Namespace.ResolveRoot(s);
        return 1, [Namespace.SLASH], [];
      }
      Namespace.ParentEntry(s, g, node.nr);
      var name;
      ret, name, text, path := PwdAbove(p, node.nr, s, g);
      Namespace.ResolveOneMore(s, Namespace.ROOT, path, name);
      Namespace.PrintedOneMore(path, name);
      text := text + (if ret == 1 then [] else [Namespace.SLASH]) + name;
      path := path + [name];
      ret := 0;
    }

    /** The part of `testfs_pwd` between getting the parent and putting it. */
    method PwdAbove(p: nat, nr: nat, ghost s: Names, ghost g: Namespace.Shape)
      returns (ret: int, name: seq<byte>, text: seq<byte>, ghost path: seq<seq<byte>>)
      requires Ready(s) && Namespace.Tree(s, g) && p in s.dirs && Namespace.Depth(g, p) < Namespace.Depth(g, cur.nr) && p != cur.nr
      requires var k := FirstWithNr(s.dirs[p], nr, 0); k < |s.dirs[p]|
      modifies table`nodes, table.nodes.Values`refs
      ensures Ready(s) && table.nodes == old(table.nodes) && SameRefs() && table.Live() == old(table.Live())
      ensures name == s.dirs[p][FirstWithNr(s.dirs[p], nr, 0)].name && ret == if p == Namespace.ROOT then 1 else 0
      ensures text == Namespace.Printed(path) && Namespace.Resolve(s, Namespace.ROOT, path) == p
      ensures path == [] <==> p == Namespace.ROOT
      decreases Namespace.Depth(g, p), 1
    {
      hide InodeTable.Valid, InodeTable.Cached, InodeTable.OnDisk, InodeTable.DinodeOf, InodeTable.Live, FirstWithNr,
        SuperBlock.Valid, SuperBlock.Vol, Bitmap.Bits, Mounted, Namespace.Tree, Namespace.Resolve, Namespace.Printed,
        SteadyBut;
      var parent := Take(p, s);
      SteadyTable(-1);
      name := NameIn(table, parent, nr, s);
      ret, text, path := Pwd(parent, s, g);
      Give(parent, s);
    }

    twostate predicate SameRefs()
      reads table, table.nodes.Values
    {
      forall n {:trigger table.nodes[n]} :: n in table.nodes && n in old(table.nodes) ==> table.nodes[n].refs == old(table.nodes[n].refs)
    }

    /** `handle_command` for the commands that change names. */
    method Handle(q: Request, ghost s: Names, ghost g: Namespace.Shape) returns (ret: int, failed: bool, ghost j: nat)
      requires Ready(s) && Namespace.Tree(s, g) && CName(q.name)
      modifies this`cur, table`nodes, table.nodes.Values, table.sb, table.sb.blockFreemap.v, table.sb.inodeFreemap.v
      ensures Known() && (failed <==> q.Cd? && old(cur.dirty) && Namespace.Enter(s, q.name).1 == 0)
      ensures !failed && j == 0 ==> Ready(Namespace.Run(s, Step(q, ret)).0) && ret == Namespace.Run(s, Step(q, ret)).1
      ensures ret < 0 ==> cur == old(cur) && cur.d.size == old(cur.d.size) + j
      ensures j > 0 ==> ret < 0 && Torn(q, s, j)
      ensures !failed && j == 0 ==> FilesAfter(old(table.Live()), table.Live(), s, Namespace.Run(s, Step(q, ret)).0)
    {
      hide SteadyBut, Mounted, MountedBut, Namespace.Tree, Namespace.Make, Namespace.Unlink, Namespace.Enter, PartOf,
        Tears, LeavesDirty, TooLittle, Lookup, InodeTable.Valid, SuperBlock.Valid, Spared, FilesAfter, EmptyFile,
        Ends;
      j, failed := 0, false;
      LookupEnds(s.dirs[s.cur], q.name);
      SteadyTable(-1);
      ReadySpares(s);
      CurrentIsDir(s, g);
      match q {
        case Create(name) =>
          ret, j := CreateFileOrDir(RegularFile, name, s);
          TableBlocks(table);
          if j == 0 { MadeFiles(old(table.Live()), table.Live(), s, name, RegularFile, ret); }
        case Mkdir(name) =>
          ret, j := CreateFileOrDir(Directory, name, s);
          TableBlocks(table);
          if j == 0 { MadeFiles(old(table.Live()), table.Live(), s, name, Directory, ret); }
        case Rm(name) =>
          ret := Rm(name, s, g);
          SteadyTable(-1);
          UnlinkFiles(s, name);
          SparedFiles(old(table.Live()), table.Live(), s, Namespace.Unlink(s, name).0);
        case Cd(name) =>
          ret, failed := Cd(name, s, g);
          if !failed {
            SteadyTable(-1);
            EnterFiles(s, name);
            SparedFiles(old(table.Live()), table.Live(), s, Namespace.Enter(s, name).0);
          }
      }
    }

    lemma CurrentIsDir(s: Names, g: Namespace.Shape)
      requires Namespace.Tree(s, g)
      ensures s.cur in s.dirs && s.cur !in s.files
    {
      hide Namespace.Logs, Namespace.Homes, Namespace.Upward;
    }

    /** The request has left `j` bytes of a record at the end of the current directory. */
    ghost predicate Torn(q: Request, s: Names, j: nat)
      reads this, table, table.sb, table.sb.inodeFreemap.v, table.sb.blockFreemap.v, table.nodes.Values
    {
      && (q.Create? || q.Mkdir?) && j > 0 && table.sb.Valid() && MountedBut(table.Live(), s, s.cur) && s.cur in s.dirs
      && PartOf(table.Live(), s.cur, s.dirs[s.cur], Entry(q.name, FirstFreeInode(Namespace.Used(s), 0)), j)
    }

    /** The loop of the shell. It goes on until the requests are done, part of a record is left in a directory,
        or the assert of `testfs_put_inode` fails; as long as it goes on, the names on the volume are what
        the commands' steps make of them, and every file that stays keeps its bytes. */
    method Session(qs: seq<Request>, ghost s0: Names, ghost g0: Namespace.Shape)
      returns (n: nat, end: Ending, ghost cs: seq<Namespace.Cmd>)
      requires Ready(s0) && Namespace.Tree(s0, g0) && forall i :: 0 <= i < |qs| ==> CName(qs[i].name)
      modifies this`cur, table`nodes, table.nodes.Values, table.sb, table.sb.blockFreemap.v, table.sb.inodeFreemap.v
      ensures n == |cs| <= |qs| && Stand(cs, qs) && Known() && (end == Finished <==> n == |qs|)
      ensures end == Finished ==> Ready(Namespace.After(s0, cs, n)) && FilesKept(old(table.Live()), table.Live(), s0, cs)
      ensures end == DirectoryTorn ==> exists j: nat :: Torn(qs[n], Namespace.After(s0, cs, n), j)
      ensures end == AssertFailed ==> qs[n].Cd? && Namespace.Enter(Namespace.After(s0, cs, n), qs[n].name).1 == 0
    {
      hide SteadyBut, Mounted, Torn, Namespace.Tree, Namespace.Run, Namespace.Enter, Step, Namespace.After, Stand,
        CName, FilesKept, FilesAfter, SuperBlock.Valid;
      n, cs, end := 0, [], Finished;
      SteadyTable(-1);
      SessionStarts(table.Live(), s0, qs);
      while n < |qs|
        invariant n == |cs| <= |qs| && Stand(cs, qs) && Known() && end == Finished
        invariant Ready(Namespace.After(s0, cs, n)) && table.sb.Valid() && FilesKept(old(table.Live()), table.Live(), s0, cs)
      {
        StandValid(cs, qs);
        ghost var g := Namespace.SessionKeepsTree(s0, g0, cs, n);
        ghost var before, j := table.Live(), 0;
        var size, ret, failed := cur.d.size, 0, false;
        ret, failed, j := Handle(qs[n], Namespace.After(s0, cs, n), g);
        if failed {
          return n, AssertFailed, cs;
        }
        if ret < 0 && cur.d.size > size {
          return n, DirectoryTorn, cs;
        }
        SteadyTable(-1);
        StandMore(s0, cs, qs, ret);
        FilesMore(old(table.Live()), before, table.Live(), s0, cs, Step(qs[n], ret));
        cs := cs + [Step(qs[n], ret)];
        n := n + 1;
      }
    }

    /** The end of the shell. If the assert on the current directory holds, the names are on the device. */
    method Quit(ghost s: Names) returns (failed: bool)
      requires Ready(s)
      modifies table`nodes, cur`refs, table.sb
      ensures failed == old(cur.dirty)
      ensures !failed ==> table.sb.Valid() && Mounted(Stored(table.sb), s) && table.sb.usedInodes == |table.sb.inodeFreemap.Bits()|
    {
      hide InodeTable.Cached, InodeTable.DinodeOf, InodeTable.Live, SuperBlock.Valid, SuperBlock.Vol, Bitmap.Bits,
        Mounted, InodeTable.OnDisk;
      failed := cur.dirty;
      if !failed {
        LiveNode(table, cur);
        AllStored(table);
        CleanNode(table, cur);
        table.Put(cur);
        table.sb.Close();
      }
    }

    /** What was on the disk still is, where the inode and the inode region are as before. */
    twostate lemma KeptOnDisk(x: int)
      requires old(SteadyBut(x)) && table.nodes == old(table.nodes) && table.sb.dev.inodes == old(table.sb.dev).inodes && cur == old(cur)
      requires forall n {:trigger table.nodes[n]} :: n in table.nodes && n != x && table.nodes[n] != cur ==>
                 table.nodes[n].d == old(table.nodes[n].d) && table.nodes[n].dirty == old(table.nodes[n].dirty)
      ensures forall n: nat :: n in table.nodes && n != x && n != cur.nr ==> table.OnDisk(n)
      ensures cur.d == old(cur.d) && cur.dirty == old(cur.dirty) && !cur.dirty ==> table.OnDisk(cur.nr)
    {
      hide InodeTable.DinodeOf, InodeTable.Live, SuperBlock.Valid;
      forall n: nat | n in table.nodes && n != x && n != cur.nr ensures table.OnDisk(n) {
        assert old(table.OnDisk(n)) && old(table.Cached(n)) && old(table.Cached(cur.nr));
      }
      assert !cur.dirty && !old(cur.dirty) ==> old(table.OnDisk(cur.nr));
    }
  }

  lemma GrownBy(table: InodeTable, node: Inode, s: Names, name: seq<byte>, kind: Kind, ret: int, j: nat)
    requires table.Valid() && node.nr in table.nodes && table.nodes[node.nr] == node && node.nr == s.cur && s.cur in s.dirs && ret < 0
    requires if j == 0 then Mounted(table.Live(), Namespace.Make(s, name, kind == Directory, ret).0)
             else exists e: Entry :: PartOf(table.Live(), s.cur, s.dirs[s.cur], e, j)
    ensures ValidLog(s.dirs[s.cur]) && node.d.size == |Bytes(s.dirs[s.cur])| + j
  {
    hide InodeTable.Valid, InodeTable.Live, Mounted, Bytes, Encode, ValidEntry, ByteAt, Inode.St;
    LiveNode(table, node);
    if j == 0 { SizeIs(table, node, s); }
  }

  function NoNames(): Names { Namespace.Names(map[], {}, Namespace.ROOT) }

  /** `testfs_make_root_dir` on a fresh file system: its root is its own parent. */
  method MakeRootDir(table: InodeTable) returns (ret: int)
    requires table.Valid() && table.nodes == map[] && Mounted(table.Live(), NoNames())
    modifies table`nodes, table.sb, table.sb.blockFreemap.v, table.sb.inodeFreemap.v
    ensures table.Valid() && table.nodes == map[]
    ensures if ret < 0 then Mounted(table.Live(), NoNames()) else ret == 0 && Mounted(table.Live(), Namespace.Fresh())
    ensures if Available(old(table.Live()).vol) >= 1 then ret == 0 else ret == ENOSPC
  {
    hide InodeTable.Valid, InodeTable.Cached, InodeTable.DinodeOf, InodeTable.Live, Sound, Apply, SuperBlock.Valid,
      SuperBlock.Vol, Bitmap.Bits, EmptyDirApplied, Fits, Available;
    TableBlocks(table);
    MountedSound(table.Live(), NoNames());
    CreateMounts(table.Live(), NoNames(), Directory);
    CreatedVolume(table.Live(), Directory);
    EmptyDirSpace(Apply(table.Live(), Op.Create(Directory)).0, With(NoNames(), 0, Directory), 0, 0);
    var node;
    ret, node := table.CreateInode(Directory);
    assert node != null && node.nr == 0;
    ghost var s := With(NoNames(), 0, Directory);
    ret := CreateEmptyDir(table, node, node.nr, s);
    LiveNode(table, node);
    table.NodeKnown(node);
    if ret < 0 {
      Undone(table.Live(), s, 0, 0);
      table.RemoveInode(node);
      return;
    }
    assert s.(dirs := s.dirs[0 := NewLog(0, 0)]) == Namespace.Fresh();
    table.Sync(node);
    CleanNode(table, node);
    table.Put(node);
    ret := 0;
  }

  lemma CreatedVolume(st: State, kind: Kind)
    requires |st.inodes| == NR_INODES
    ensures Apply(st, Op.Create(kind)).0.vol == st.vol
  {}

  lemma TableBlocks(table: InodeTable)
    requires table.Valid()
    ensures table.sb.Valid()
  {}

  lemma SizeIs(table: InodeTable, node: Inode, s: Names)
    requires table.Valid() && node.nr in table.nodes && table.nodes[node.nr] == node && Mounted(table.Live(), s) && node.nr in s.dirs
    ensures ValidLog(s.dirs[node.nr]) && node.d.size == |Bytes(s.dirs[node.nr])|
  {
    hide InodeTable.Valid, InodeTable.Live, Holds, Bytes, MountedBut, Inode.St;
    LiveNode(table, node);
    FitsAt(table.Live(), s, node.nr);
    HoldsValid(FileOf(table.Live(), node.nr), s.dirs[node.nr]);
    HoldsSize(FileOf(table.Live(), node.nr), s.dirs[node.nr], 0);
  }
}
