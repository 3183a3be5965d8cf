/** The whole file system: every inode's tree over one volume, and whole runs of operations. */
module FileSystem {
  import opened Layout
  import opened BlockTree
  import opened BlockAlloc
  import opened FileContents
  import opened Teardown

  /** The volume, the live dinode of every inode number, and the inode free map. */
  datatype State = State(vol: Volume, inodes: seq<Dinode>, usedInodes: set<nat>)

  type Owners = seq<map<int, Slot>>

  function FileOf(s: State, nr: nat): File
    requires nr < |s.inodes|
  {
    File(s.vol, s.inodes[nr], false)
  }

  /** The rest of the volume, from the point of view of one file. */
  ghost function Others(v: Volume, own: map<int, Slot>): set<int> { v.used - own.Keys }

  ghost predicate OwnedOnce(s: State, owns: Owners) {
    && (forall n, m {:trigger owns[n], owns[m]} :: 0 <= n < m < |owns| ==> owns[n].Keys !! owns[m].Keys)
    && (forall p :: p in s.vol.used ==> exists n :: 0 <= n < |owns| && p in owns[n])
  }

  /** The invariant of the block layer, over all inodes at once. */
  ghost predicate Inv(s: State, owns: Owners) {
    && |s.inodes| == |owns| == NR_INODES
    && (forall n :: 0 <= n < NR_INODES ==> FileInv(FileOf(s, n), owns[n], Others(s.vol, owns[n])))
    && OwnedOnce(s, owns)
    && (forall n :: 0 <= n < NR_INODES && n !in s.usedInodes ==> s.inodes[n] == ZERO_DINODE)
    && (forall n :: n in s.usedInodes ==> n < NR_INODES)
  }

  /** Puts one file's new state back; the other inodes see the new volume. */
  function Store(s: State, nr: nat, f: File): State
    requires nr < |s.inodes|
  {
    s.(vol := f.vol, inodes := s.inodes[nr := f.d])
  }

  /** The tree below an inode holds the same block numbers. */
  ghost predicate SameSlots(v: Volume, v': Volume, d: Dinode) {
    forall a: Slot {:trigger At(v', d, a)} :: At(v', d, a) == At(v, d, a)
  }

  lemma OtherFile(f: File, v': Volume, own: map<int, Slot>)
    requires FileInv(f, own, Others(f.vol, own))
    requires Accounted(v', own.Keys, Others(v', own))
    requires forall p :: p in own ==> Blk(v', p) == Blk(f.vol, p)
    ensures FileInv(f.(vol := v'), own, Others(v', own))
    ensures f.d.size >= 0 && Contents(f.(vol := v')) == Contents(f)
    ensures NoHoles(f) ==> NoHoles(f.(vol := v'))
    ensures SameSlots(f.vol, v', f.d)
  {
    hide At, Blk, LeafSlot, NoEmptyIndex, BlockOf, IndexOf;
    var g := f.(vol := v');
    TreeFrame(f.vol, v', f.d, own);
    forall off: nat ensures ByteAt(g, off) == ByteAt(f, off) {
      var p := MapBlock(f, BlockOf(off));
      assert p != 0 ==> p in own;
    }
    assert forall n: nat :: MapBlock(g, n) == MapBlock(f, n);
    assert Sized(g);
    assert Contents(g) == Contents(f);
  }

  /** An operation on one file that keeps that file's invariant and leaves foreign blocks alone keeps
      the global invariant and every other file's bytes. */
  lemma StoreKeeps(s: State, owns: Owners, nr: nat, f': File, own': map<int, Slot>)
    requires Inv(s, owns) && nr < NR_INODES
    requires FileInv(f', own', Others(s.vol, owns[nr]))
    requires forall p :: p in Others(s.vol, owns[nr]) ==> Blk(f'.vol, p) == Blk(s.vol, p)
    requires nr in s.usedInodes || f'.d == ZERO_DINODE
    ensures Inv(Store(s, nr, f'), owns[nr := own'])
    ensures forall n :: 0 <= n < NR_INODES && n != nr ==>
              s.inodes[n].size >= 0 && Contents(FileOf(Store(s, nr, f'), n)) == Contents(FileOf(s, n))
  {
    hide FileInv, Blk, Contents, OwnedOnce, Others;
    var s' := Store(s, nr, f');
    StoreOwnedOnce(s, owns, nr, f', own');
    StoreSelf(s, owns, nr, f', own');
    forall n | 0 <= n < NR_INODES && n != nr
      ensures FileInv(FileOf(s', n), owns[n], Others(s'.vol, owns[n]))
      ensures s.inodes[n].size >= 0 && Contents(FileOf(s', n)) == Contents(FileOf(s, n))
    {
      StoreOther(s, owns, nr, n, f', own');
    }
  }

  lemma StoreSelf(s: State, owns: Owners, nr: nat, f': File, own': map<int, Slot>)
    requires nr < |s.inodes| && nr < |owns| && FileInv(f', own', Others(s.vol, owns[nr]))
    ensures FileInv(FileOf(Store(s, nr, f'), nr), own', Others(f'.vol, own'))
  {
    hide TreeInv, Sized, Others, Contents;
    SameForeign(f', own', Others(s.vol, owns[nr]));
    DirtyIrrelevant(f', false, own', Others(s.vol, owns[nr]));
    assert FileOf(Store(s, nr, f'), nr) == f'.(dirty := false);
  }

  lemma StoreOther(s: State, owns: Owners, nr: nat, n: nat, f': File, own': map<int, Slot>)
    requires Inv(s, owns) && nr < NR_INODES && n < NR_INODES && n != nr
    requires FileInv(f', own', Others(s.vol, owns[nr]))
    requires forall p :: p in Others(s.vol, owns[nr]) ==> Blk(f'.vol, p) == Blk(s.vol, p)
    ensures FileInv(FileOf(Store(s, nr, f'), n), owns[n], Others(f'.vol, owns[n]))
    ensures s.inodes[n].size >= 0 && Contents(FileOf(Store(s, nr, f'), n)) == Contents(FileOf(s, n))
    ensures NoHoles(FileOf(s, n)) ==> NoHoles(FileOf(Store(s, nr, f'), n))
    ensures SameSlots(s.vol, f'.vol, s.inodes[n])
  {
    hide FileInv, Blk, Contents, OwnedOnce, NoHoles, SameSlots;
    OtherOwner(s, owns, nr, n, f', own');
    OtherFile(FileOf(s, n), f'.vol, owns[n]);
    assert FileOf(Store(s, nr, f'), n) == FileOf(s, n).(vol := f'.vol);
  }

  lemma SameForeign(f: File, own: map<int, Slot>, foreign: set<int>)
    requires FileInv(f, own, foreign)
    ensures Others(f.vol, own) == foreign
  {
    hide At, NoEmptyIndex, Owns;
  }

  lemma OtherOwner(s: State, owns: Owners, nr: nat, n: nat, f': File, own': map<int, Slot>)
    requires Inv(s, owns) && nr < NR_INODES && n < NR_INODES && n != nr
    requires FileInv(f', own', Others(s.vol, owns[nr]))
    ensures owns[n].Keys <= Others(s.vol, owns[nr])
    ensures Accounted(f'.vol, owns[n].Keys, Others(f'.vol, owns[n]))
  {
    assert FileInv(FileOf(s, n), owns[n], Others(s.vol, owns[n]));
    assert owns[n].Keys !! owns[nr].Keys;
    DisjointOwner(s.vol, f'.vol, owns[n].Keys, owns[nr].Keys, own'.Keys);
  }

  lemma DisjointOwner(v: Volume, v': Volume, mine: set<int>, before: set<int>, after: set<int>)
    requires Accounted(v, mine, v.used - mine) && mine !! before
    requires Accounted(v', after, v.used - before)
    ensures mine <= v.used - before
    ensures Accounted(v', mine, v'.used - mine)
  {}

  lemma StoreOwnedOnce(s: State, owns: Owners, nr: nat, f': File, own': map<int, Slot>)
    requires Inv(s, owns) && nr < NR_INODES
    requires FileInv(f', own', Others(s.vol, owns[nr]))
    ensures OwnedOnce(Store(s, nr, f'), owns[nr := own'])
  {
    hide FileInv, Others, Inv;
    InvSizes(s, owns);
    OwnersApart(s, owns);
    var owns' := owns[nr := own'];
    forall n, m | 0 <= n < m < |owns'| ensures owns'[n].Keys !! owns'[m].Keys {
      assert owns[n].Keys !! owns[m].Keys;
      if n == nr { OwnerApart(s, owns, nr, m, f', own'); }
      if m == nr { OwnerApart(s, owns, nr, n, f', own'); }
    }
    UsedOwned(s, owns, nr, f', own', owns');
  }

  lemma OwnersApart(s: State, owns: Owners)
    requires Inv(s, owns)
    ensures forall k, m {:trigger owns[k], owns[m]} :: 0 <= k < m < |owns| ==> owns[k].Keys !! owns[m].Keys
  {
    hide FileInv;
  }

  lemma OwnerApart(s: State, owns: Owners, nr: nat, n: nat, f': File, own': map<int, Slot>)
    requires Inv(s, owns) && nr < NR_INODES && n < NR_INODES && n != nr
    requires FileInv(f', own', Others(s.vol, owns[nr]))
    ensures own'.Keys !! owns[n].Keys
  {
    hide At, NoEmptyIndex, Owns, Sized;
    OtherOwner(s, owns, nr, n, f', own');
  }

  lemma UsedOwned(s: State, owns: Owners, nr: nat, f': File, own': map<int, Slot>, owns': Owners)
    requires Inv(s, owns) && nr < NR_INODES && owns' == owns[nr := own']
    requires FileInv(f', own', Others(s.vol, owns[nr]))
    ensures forall p :: p in f'.vol.used ==> exists n :: 0 <= n < |owns'| && p in owns'[n]
  {
    hide At, NoEmptyIndex, Owns, Sized;
    forall p | p in f'.vol.used ensures exists n :: 0 <= n < |owns'| && p in owns'[n] {
      if p in own' {
        assert p in owns'[nr];
      } else {
        assert p in s.vol.used;
        var n :| 0 <= n < |owns| && p in owns[n];
        assert p in owns'[n];
      }
    }
  }

  // ----- operations -----

  datatype Op =
    | Create(kind: Kind)
    | Write(nr: nat, start: nat, buf: seq<byte>)
    | Remove(nr: nat)

  /** The least free inode number at or after `n`. */
  function FirstFreeInode(used: set<nat>, n: nat): (r: nat)
    requires n <= NR_INODES
    ensures n <= r <= NR_INODES
    ensures forall m :: n <= m < r ==> m in used
    ensures r < NR_INODES ==> r !in used
    decreases NR_INODES - n
  {
    if n == NR_INODES || n !in used then n else FirstFreeInode(used, n + 1)
  }

  /** `testfs_create_inode`, `testfs_write_data` and `testfs_remove_inode` on the live inodes; with the
      error code, or the inode number or byte count. */
  ghost function Apply(s: State, op: Op): (State, int)
    requires |s.inodes| == NR_INODES
  {
    match op
    case Create(kind) =>
      var nr := FirstFreeInode(s.usedInodes, 0);
      if nr == NR_INODES then (s, ENOSPC)
      else (s.(inodes := s.inodes[nr := s.inodes[nr].(kind := kind)], usedInodes := s.usedInodes + {nr}), nr)
    case Write(nr, start, buf) =>
      if nr !in s.usedInodes || nr >= NR_INODES then (s, 0)
      else
        var (f, r) := WriteData(FileOf(s, nr), start, buf);
        (Store(s, nr, f), r)
    case Remove(nr) =>
      if nr !in s.usedInodes || nr >= NR_INODES then (s, 0)
      else
        var f := FileOf(s, nr);
        var g := Emptied(f, Reachable(f));
        (Store(s, nr, g.(d := ZERO_DINODE)).(usedInodes := s.usedInodes - {nr}), 0)
  }

  // ----- the abstract file system: inode numbers to typed byte strings -----

  datatype AbstractFile = AbstractFile(kind: Kind, bytes: seq<byte>)
  type AbstractFs = map<nat, AbstractFile>

  ghost function FileAt(s: State, n: nat): AbstractFile
    requires n < |s.inodes| && s.inodes[n].size >= 0
  {
    AbstractFile(s.inodes[n].kind, Contents(FileOf(s, n)))
  }

  ghost function Files(s: State): AbstractFs {
    map n | n in s.usedInodes && n < |s.inodes| && s.inodes[n].size >= 0 :: FileAt(s, n)
  }

  /** What each operation does to the abstract file system. */
  ghost predicate AbstractStep(a: AbstractFs, op: Op, a': AbstractFs, r: int) {
    match op
    case Create(kind) =>
      if r >= 0 then r !in a && (forall m: nat :: m < r ==> m in a) && a' == a[r as nat := AbstractFile(kind, [])]
      else r == ENOSPC && (forall m: nat :: m < NR_INODES ==> m in a) && a' == a
    case Write(nr, start, buf) =>
      if nr !in a then a' == a
      else if start >= MAX_FILE_SIZE then a' == a && r == EFBIG
      else exists k: nat :: k <= |buf| && AbstractWrite(a, nr, start, buf, k, a', r)
    case Remove(nr) =>
      a' == a - {nr}
  }

  /** The first `k` bytes are applied: all of them on success, else whole blocks only. */
  ghost predicate AbstractWrite(a: AbstractFs, nr: nat, start: nat, buf: seq<byte>, k: nat, a': AbstractFs, r: int)
    requires nr in a && k <= |buf|
  {
    && a' == a[nr := AbstractFile(a[nr].kind, Overwrite(a[nr].bytes, start, buf[..k]))]
    && (if r >= 0 then r == k == |buf|
        else k < |buf| && (k > 0 ==> (start + k) % BLOCK_SIZE == 0) &&
             r == if start + k >= MAX_FILE_SIZE then EFBIG else ENOSPC)
  }

  lemma FilesDomain(s: State, owns: Owners)
    requires Inv(s, owns)
    ensures Files(s).Keys == s.usedInodes
  {
    hide FileAt;
    forall n | n in s.usedInodes ensures n in Files(s) { UsedFile(s, owns, n); }
  }

  lemma UsedFile(s: State, owns: Owners, n: nat)
    requires Inv(s, owns) && n in s.usedInodes
    ensures n < NR_INODES && s.inodes[n].size >= 0 && n in Files(s) && Files(s)[n] == FileAt(s, n)
  {
    hide FileAt;
    SizesNonNegative(s, owns, n);
  }

  lemma UpdatedFiles(a: AbstractFs, a': AbstractFs, nr: nat, x: AbstractFile)
    requires a'.Keys == a.Keys + {nr} && a'[nr] == x
    requires forall n {:trigger a'[n]} :: n in a.Keys && n != nr ==> a'[n] == a[n]
    ensures a' == a[nr := x]
  {}

  lemma SizesNonNegative(s: State, owns: Owners, n: nat)
    requires Inv(s, owns) && n < NR_INODES
    ensures s.inodes[n].size >= 0
  {
    hide TreeInv;
    assert FileInv(FileOf(s, n), owns[n], Others(s.vol, owns[n]));
  }

  lemma StoredFile(s: State, nr: nat, f: File, own: map<int, Slot>)
    requires nr < |s.inodes| && Sized(f)
    ensures f.d.size >= 0 && FileAt(Store(s, nr, f), nr) == AbstractFile(f.d.kind, Contents(f))
  {
    hide TreeInv;
    DirtyIrrelevant(f, false, own, {});
    assert FileOf(Store(s, nr, f), nr) == f.(dirty := false);
  }

  /** Storing a file and keeping it in use changes that entry only. */
  lemma FilesAfterStore(s: State, owns: Owners, nr: nat, f': File, own': map<int, Slot>)
    requires Inv(s, owns) && nr in s.usedInodes
    requires FileInv(f', own', Others(s.vol, owns[nr]))
    requires forall p :: p in Others(s.vol, owns[nr]) ==> Blk(f'.vol, p) == Blk(s.vol, p)
    ensures nr < NR_INODES && f'.d.size >= 0
    ensures Files(Store(s, nr, f')) == Files(s)[nr := AbstractFile(f'.d.kind, Contents(f'))]
    ensures Inv(Store(s, nr, f'), owns[nr := own'])
  {
    UsedFile(s, owns, nr);
    SizedNonNegative(f');
    StoreKeeps(s, owns, nr, f', own');
    StoredFiles(s, Store(s, nr, f'), owns, owns[nr := own'], nr, f');
  }

  lemma StoredFiles(s: State, s': State, owns: Owners, owns': Owners, nr: nat, f': File)
    requires Inv(s, owns) && Inv(s', owns') && nr in s.usedInodes && nr < NR_INODES && s' == Store(s, nr, f') && Sized(f')
    requires forall n :: 0 <= n < NR_INODES && n != nr ==>
               s.inodes[n].size >= 0 && Contents(FileOf(s', n)) == Contents(FileOf(s, n))
    ensures f'.d.size >= 0 && Files(s') == Files(s)[nr := AbstractFile(f'.d.kind, Contents(f'))]
  {
    hide Sized, Contents, Files, FileInv, OwnedOnce;
    StoredFile(s, nr, f', map[]);
    FilesDomain(s, owns);
    FilesDomain(s', owns');
    UsedFile(s', owns', nr);
    forall n | n in Files(s).Keys && n != nr ensures Files(s')[n] == Files(s)[n] {
      UsedFile(s, owns, n);
      UsedFile(s', owns', n);
    }
    UpdatedFiles(Files(s), Files(s'), nr, AbstractFile(f'.d.kind, Contents(f')));
  }

  lemma WriteKeeps(s: State, owns: Owners, nr: nat, start: nat, buf: seq<byte>) returns (owns': Owners)
    requires Inv(s, owns) && nr in s.usedInodes
    ensures var (s', r) := Apply(s, Write(nr, start, buf));
      Inv(s', owns') && AbstractStep(Files(s), Write(nr, start, buf), Files(s'), r)
  {
    hide *;
    InvSizes(s, owns);
    InvFile(s, owns, nr);
    UsedFile(s, owns, nr);
    var k, own' := WriteDataSpec(FileOf(s, nr), start, buf, owns[nr], Others(s.vol, owns[nr]));
    var f', r := ApplyWrite(s, nr, start, buf);
    SameBlocks(s, nr, f', Others(s.vol, owns[nr]));
    FilesAfterStore(s, owns, nr, f', own');
    owns' := owns[nr := own'];
    WriteStep(s, Files(s), nr, start, buf, k, f', r, Files(Store(s, nr, f')));
  }

  lemma InvFile(s: State, owns: Owners, n: nat)
    requires Inv(s, owns) && n < NR_INODES
    ensures FileInv(FileOf(s, n), owns[n], Others(s.vol, owns[n]))
  {}

  lemma ApplyWrite(s: State, nr: nat, start: nat, buf: seq<byte>) returns (f': File, r: int)
    requires |s.inodes| == NR_INODES && nr in s.usedInodes && nr < NR_INODES
    ensures (f', r) == WriteData(FileOf(s, nr), start, buf)
    ensures Apply(s, Write(nr, start, buf)) == (Store(s, nr, f'), r)
  {
    hide WriteData;
    f', r := WriteData(FileOf(s, nr), start, buf).0, WriteData(FileOf(s, nr), start, buf).1;
  }

  lemma SameBlocks(s: State, nr: nat, f': File, foreign: set<int>)
    requires nr < |s.inodes| && forall p :: p in foreign ==> Blk(f'.vol, p) == Blk(FileOf(s, nr).vol, p)
    ensures forall p :: p in foreign ==> Blk(f'.vol, p) == Blk(s.vol, p)
  {
    hide Blk;
  }

  lemma WriteStep(s: State, a: AbstractFs, nr: nat, start: nat, buf: seq<byte>, k: nat, f': File, r: int, a': AbstractFs)
    requires nr in a && nr < |s.inodes| && s.inodes[nr].size >= 0 && a[nr] == FileAt(s, nr) && f'.d.size >= 0
    requires a' == a[nr := AbstractFile(f'.d.kind, Contents(f'))]
    requires if start < MAX_FILE_SIZE then WriteOutcome(FileOf(s, nr), f', r, start, buf, k)
             else r == EFBIG && f' == FileOf(s, nr)
    ensures AbstractStep(a, Write(nr, start, buf), a', r)
  {
    hide Contents, Overwrite, SameTree, Need, Available;
    if start < MAX_FILE_SIZE {
      assert AbstractWrite(a, nr, start, buf, k, a', r);
    } else {
      assert a' == a;
    }
  }

  lemma CreateKeeps(s: State, owns: Owners, kind: Kind)
    requires Inv(s, owns)
    ensures var (s', r) := Apply(s, Create(kind));
      Inv(s', owns) && AbstractStep(Files(s), Create(kind), Files(s'), r)
  {
    var nr := FirstFreeInode(s.usedInodes, 0);
    FilesDomain(s, owns);
    if nr < NR_INODES {
      CreatedInv(s, owns, nr, kind);
      CreatedFiles(s, owns, nr, kind);
    }
    CreateStep(Files(s), nr, kind);
  }

  lemma CreateStep(a: AbstractFs, nr: nat, kind: Kind)
    requires nr <= NR_INODES && (forall m: nat :: m < nr ==> m in a.Keys) && (nr < NR_INODES ==> nr !in a.Keys)
    ensures if nr < NR_INODES then AbstractStep(a, Create(kind), a[nr := AbstractFile(kind, [])], nr)
            else AbstractStep(a, Create(kind), a, ENOSPC)
  {}

  lemma CreatedFiles(s: State, owns: Owners, nr: nat, kind: Kind)
    requires Inv(s, owns) && nr < NR_INODES && nr !in s.usedInodes
    ensures Files(s.(inodes := s.inodes[nr := s.inodes[nr].(kind := kind)], usedInodes := s.usedInodes + {nr}))
            == Files(s)[nr := AbstractFile(kind, [])]
  {
    var s' := s.(inodes := s.inodes[nr := s.inodes[nr].(kind := kind)], usedInodes := s.usedInodes + {nr});
    CreatedInv(s, owns, nr, kind);
    CreatedFile(s, owns, nr, kind);
    FilesDomain(s, owns);
    FilesDomain(s', owns);
    UsedFile(s', owns, nr);
    CreatedFileAt(s, s', nr, kind);
    forall n | n in Files(s).Keys && n != nr ensures Files(s')[n] == Files(s)[n] {
      UsedFile(s, owns, n);
      UsedFile(s', owns, n);
      SameFileAt(s, s', n);
    }
    UpdatedFiles(Files(s), Files(s'), nr, AbstractFile(kind, []));
  }

  lemma SameFileAt(s: State, s': State, n: nat)
    requires n < |s.inodes| && n < |s'.inodes| && s'.vol == s.vol && s'.inodes[n] == s.inodes[n] && s.inodes[n].size >= 0
    ensures FileAt(s', n) == FileAt(s, n)
  {}

  lemma CreatedFileAt(s: State, s': State, nr: nat, kind: Kind)
    requires nr < |s.inodes| && nr < |s'.inodes| && s'.vol == s.vol && s'.inodes[nr] == s.inodes[nr].(kind := kind)
    requires s.inodes[nr].size == 0
    ensures FileAt(s', nr) == AbstractFile(kind, [])
  {
    assert Contents(FileOf(s', nr)) == [];
  }

  lemma CreatedInv(s: State, owns: Owners, nr: nat, kind: Kind)
    requires Inv(s, owns) && nr < NR_INODES && nr !in s.usedInodes
    ensures Inv(s.(inodes := s.inodes[nr := s.inodes[nr].(kind := kind)], usedInodes := s.usedInodes + {nr}), owns)
  {
    var s' := s.(inodes := s.inodes[nr := s.inodes[nr].(kind := kind)], usedInodes := s.usedInodes + {nr});
    CreatedFile(s, owns, nr, kind);
    forall n | 0 <= n < NR_INODES ensures FileInv(FileOf(s', n), owns[n], Others(s'.vol, owns[n])) {
      if n != nr { assert FileOf(s', n) == FileOf(s, n); }
    }
    assert OwnedOnce(s', owns);
  }

  /** A created inode starts empty, because removal zeroed it on its last use. */
  lemma CreatedFile(s: State, owns: Owners, nr: nat, kind: Kind)
    requires Inv(s, owns) && nr < NR_INODES && nr !in s.usedInodes
    ensures var f := FileOf(s, nr).(d := s.inodes[nr].(kind := kind));
      FileInv(f, owns[nr], Others(s.vol, owns[nr])) && f.d.size == 0
  {
    var f := FileOf(s, nr).(d := s.inodes[nr].(kind := kind));
    assert FileInv(FileOf(s, nr), owns[nr], Others(s.vol, owns[nr]));
    assert s.inodes[nr] == ZERO_DINODE;
    EmptyFileInv(FileOf(s, nr), f, owns[nr], Others(s.vol, owns[nr]));
  }

  lemma EmptyFileInv(f: File, g: File, own: map<int, Slot>, foreign: set<int>)
    requires FileInv(f, own, foreign) && f.d == ZERO_DINODE && g == f.(d := f.d.(kind := g.d.kind))
    ensures FileInv(g, own, foreign)
  {
    NoPointers(f.vol, f.d);
    NoPointers(g.vol, g.d);
    EmptyFileSized(g);
    assert own == map[];
  }

  lemma RemoveKeeps(s: State, owns: Owners, nr: nat) returns (owns': Owners)
    requires Inv(s, owns) && nr in s.usedInodes
    ensures var (s', r) := Apply(s, Remove(nr));
      Inv(s', owns') && Files(s') == Files(s) - {nr}
  {
    hide *;
    InvSizes(s, owns);
    var g := RemovedInode(s, owns, nr);
    owns' := owns[nr := map[]];
    StoreKeeps(s, owns, nr, g, map[]);
    StoreFields(s, nr, g);
    UnusedInode(Store(s, nr, g), owns', nr);
    ApplyRemove(s, nr, g);
    RemovedFiles(s, Store(s, nr, g), Apply(s, Remove(nr)).0, owns, owns', nr);
  }

  lemma InvSizes(s: State, owns: Owners)
    requires Inv(s, owns)
    ensures |s.inodes| == |owns| == NR_INODES && forall n :: n in s.usedInodes ==> n < NR_INODES
  {}

  lemma StoreFields(s: State, nr: nat, f: File)
    requires nr < |s.inodes|
    ensures |Store(s, nr, f).inodes| == |s.inodes| && Store(s, nr, f).inodes[nr] == f.d && Store(s, nr, f).usedInodes == s.usedInodes
    ensures forall n :: 0 <= n < |s.inodes| && n != nr ==> Store(s, nr, f).inodes[n] == s.inodes[n]
  {}

  lemma ApplyRemove(s: State, nr: nat, g: File)
    requires |s.inodes| == NR_INODES && nr in s.usedInodes && nr < NR_INODES
    requires g == Emptied(FileOf(s, nr), Reachable(FileOf(s, nr))).(d := ZERO_DINODE)
    ensures Apply(s, Remove(nr)).0 == Store(s, nr, g).(usedInodes := s.usedInodes - {nr})
  {
    hide Emptied, Reachable;
  }

  /** `testfs_remove_inode` up to the release of the inode number. */
  lemma RemovedInode(s: State, owns: Owners, nr: nat) returns (g: File)
    requires Inv(s, owns) && nr in s.usedInodes
    ensures nr < NR_INODES && g == Emptied(FileOf(s, nr), Reachable(FileOf(s, nr))).(d := ZERO_DINODE) && g.d == ZERO_DINODE
    ensures FileInv(g, map[], Others(s.vol, owns[nr]))
    ensures forall p :: p in Others(s.vol, owns[nr]) ==> Blk(g.vol, p) == Blk(s.vol, p)
  {
    var f := FileOf(s, nr);
    var foreign := Others(s.vol, owns[nr]);
    assert FileInv(f, owns[nr], foreign);
    ReachableIsOwned(f, owns[nr], foreign);
    EmptiedFile(f, owns[nr], foreign);
    g := Emptied(f, owns[nr].Keys).(d := ZERO_DINODE);
  }

  lemma RemovedFiles(s: State, s1: State, s': State, owns: Owners, owns': Owners, nr: nat)
    requires Inv(s, owns) && Inv(s', owns') && nr in s.usedInodes && |s1.inodes| == NR_INODES
    requires s' == s1.(usedInodes := s.usedInodes - {nr})
    requires forall n :: 0 <= n < NR_INODES && n != nr ==>
               s.inodes[n].size >= 0 && s1.inodes[n] == s.inodes[n] && Contents(FileOf(s1, n)) == Contents(FileOf(s, n))
    ensures Files(s') == Files(s) - {nr}
  {
    hide FileInv, Contents, Files, OwnedOnce;
    FilesDomain(s, owns);
    FilesDomain(s', owns');
    var after := Files(s) - {nr};
    forall n | n in after.Keys ensures Files(s')[n] == after[n] {
      UsedFile(s, owns, n);
      UsedFile(s', owns', n);
      assert FileOf(s', n) == FileOf(s1, n);
    }
    SameMaps(Files(s'), after);
  }

  lemma SameMaps(a: AbstractFs, b: AbstractFs)
    requires a.Keys == b.Keys
    requires forall n {:trigger a[n]} :: n in b.Keys ==> a[n] == b[n]
    ensures a == b
  {}

  lemma UnusedInode(s: State, owns: Owners, nr: nat)
    requires Inv(s, owns) && nr < NR_INODES && s.inodes[nr] == ZERO_DINODE
    ensures Inv(s.(usedInodes := s.usedInodes - {nr}), owns)
  {
    hide FileInv;
    var s' := s.(usedInodes := s.usedInodes - {nr});
    forall n | 0 <= n < NR_INODES ensures FileInv(FileOf(s', n), owns[n], Others(s'.vol, owns[n])) {
      assert FileOf(s', n) == FileOf(s, n);
    }
    assert OwnedOnce(s', owns);
  }

  /** `testfs_remove_inode` frees the blocks and then zeroes the inode. */
  lemma EmptiedFile(f: File, own: map<int, Slot>, foreign: set<int>)
    requires FileInv(f, own, foreign)
    ensures var g := Emptied(f, own.Keys).(d := ZERO_DINODE);
      FileInv(g, map[], foreign) && forall p :: p in foreign ==> Blk(g.vol, p) == Blk(f.vol, p)
  {
    EmptiedSpec(f, own, foreign);
    var g := Emptied(f, own.Keys).(d := ZERO_DINODE);
    NoPointers(g.vol, g.d);
    EmptyFileSized(g);
  }

  // ----- runs -----

  lemma ApplyKeeps(s: State, owns: Owners, op: Op) returns (owns': Owners)
    requires Inv(s, owns)
    ensures var (s', r) := Apply(s, op); Inv(s', owns') && AbstractStep(Files(s), op, Files(s'), r)
  {
    FilesDomain(s, owns);
    owns' := owns;
    match op
    case Create(kind) => CreateKeeps(s, owns, kind);
    case Write(nr, start, buf) => if nr in s.usedInodes { owns' := WriteKeeps(s, owns, nr, start, buf); }
    case Remove(nr) =>
      if nr in s.usedInodes {
        owns' := RemoveKeeps(s, owns, nr);
      } else {
        assert Files(s) - {nr} == Files(s);
      }
  }

  /** A volume as `mktestfs` leaves it, before the root directory is made. */
  function Formatted(data: seq<Block>, maxBlocks: nat): State {
    State(Volume(data, {}, 0, maxBlocks), seq(NR_INODES, i => ZERO_DINODE), {})
  }

  lemma FormattedInv(data: seq<Block>, maxBlocks: nat)
    requires |data| == NR_BLOCK_BITS
    ensures Inv(Formatted(data, maxBlocks), seq(NR_INODES, i => map[]))
    ensures Files(Formatted(data, maxBlocks)) == map[]
  {
    var s := Formatted(data, maxBlocks);
    var owns: Owners := seq(NR_INODES, i => map[]);
    forall n | 0 <= n < NR_INODES ensures FileInv(FileOf(s, n), owns[n], Others(s.vol, owns[n])) {
      NoPointers(s.vol, ZERO_DINODE);
      EmptyFileSized(FileOf(s, n));
      assert owns[n].Keys == {};
    }
    assert OwnedOnce(s, owns);
  }

  /** The state after the first `n` operations of a run. */
  ghost function After(s: State, ops: seq<Op>, n: nat): (s': State)
    requires |s.inodes| == NR_INODES && n <= |ops|
    ensures |s'.inodes| == NR_INODES
  {
    if n == 0 then s else Apply(After(s, ops, n - 1), ops[n - 1]).0
  }

  /** Every state of every run is well formed. */
  lemma {:induction false} RunKeeps(s: State, owns: Owners, ops: seq<Op>, n: nat) returns (owns': Owners)
    requires Inv(s, owns) && n <= |ops|
    ensures Inv(After(s, ops, n), owns')
  {
    hide Inv, Apply, AbstractStep, Files;
    owns' := owns;
    InvSizes(s, owns);
    if n > 0 {
      owns' := RunKeeps(s, owns, ops, n - 1);
      owns' := ApplyKeeps(After(s, ops, n - 1), owns', ops[n - 1]);
    }
  }

  /** Every step of every run is a step of the abstract file system; so an operation on one file never
      changes another file's bytes, and no operation runs into a state it cannot handle. */
  lemma RunRefines(s: State, owns: Owners, ops: seq<Op>, n: nat)
    requires Inv(s, owns) && n < |ops|
    ensures var t := After(s, ops, n);
      var (t', r) := Apply(t, ops[n]);
      t' == After(s, ops, n + 1) && AbstractStep(Files(t), ops[n], Files(t'), r)
  {
    var o := RunKeeps(s, owns, ops, n);
    o := ApplyKeeps(After(s, ops, n), o, ops[n]);
  }

  // ----- what a lost size does -----

  /** With another size in one inode, the file system is sound if and only if that size fits the file. */
  lemma ResizedSound(s: State, n: nat, d: Dinode)
    requires Sound(s) && n < |s.inodes| && d == s.inodes[n].(size := d.size)
    ensures Sound(s.(inodes := s.inodes[n := d])) <==> Sized(FileOf(s.(inodes := s.inodes[n := d]), n))
  {
    hide TreeInv, Sized, Others;
    var s' := s.(inodes := s.inodes[n := d]);
    var owns :| Inv(s, owns);
    if Sized(FileOf(s', n)) {
      ResizedTree(s, n, d, owns[n]);
      if n !in s.usedInodes { UnusedEmpty(s, n, d, owns); }
      forall m | 0 <= m < NR_INODES ensures FileInv(FileOf(s', m), owns[m], Others(s'.vol, owns[m])) {
        assert FileInv(FileOf(s, m), owns[m], Others(s.vol, owns[m]));
        if m != n { assert FileOf(s', m) == FileOf(s, m); }
      }
      assert OwnedOnce(s', owns);
      assert Inv(s', owns);
    }
    if Sound(s') {
      var owns' :| Inv(s', owns');
      InvFile(s', owns', n);
    }
  }

  lemma ResizedTree(s: State, n: nat, d: Dinode, own: map<int, Slot>)
    requires n < |s.inodes| && d == s.inodes[n].(size := d.size)
    ensures TreeInv(FileOf(s, n), own, Others(s.vol, own)) ==> TreeInv(FileOf(s, n).(d := d), own, Others(s.vol, own))
  {
    hide Others;
    forall a: Slot ensures At(s.vol, d, a) == At(s.vol, s.inodes[n], a) {}
    hide At;
  }

  lemma UnusedEmpty(s: State, n: nat, d: Dinode, owns: Owners)
    requires Inv(s, owns) && n < |s.inodes| && d == s.inodes[n].(size := d.size) && Sized(FileOf(s, n).(d := d)) && n !in s.usedInodes
    ensures d == ZERO_DINODE
  {}

  // ----- what the other files keep -----

  /** Some ownership accounts for the state; every state of a run is so. */
  ghost predicate Sound(s: State) {
    exists owns :: Inv(s, owns)
  }

  lemma SoundSizes(s: State)
    requires Sound(s)
    ensures |s.inodes| == NR_INODES && forall n :: n in s.usedInodes ==> n < NR_INODES
  {
    hide FileInv, OwnedOnce;
  }

  lemma SoundApply(s: State, op: Op)
    requires Sound(s)
    ensures |s.inodes| == NR_INODES && Sound(Apply(s, op).0)
  {
    hide Inv, Apply, Files, AbstractStep;
    SoundSizes(s);
    var owns :| Inv(s, owns);
    var owns' := ApplyKeeps(s, owns, op);
  }

  /** The inode, the block numbers, the bytes and the holes of a file are as before. */
  ghost predicate SameFile(s: State, s': State, n: nat) {
    && n < |s.inodes| && n < |s'.inodes| && s'.inodes[n] == s.inodes[n] && s.inodes[n].size >= 0
    && Contents(FileOf(s', n)) == Contents(FileOf(s, n)) && (NoHoles(FileOf(s, n)) ==> NoHoles(FileOf(s', n)))
    && SameSlots(s.vol, s'.vol, s.inodes[n])
  }

  predicate Touches(s: State, op: Op, n: nat) {
    match op
    case Create(kind) => n !in s.usedInodes
    case Write(nr, start, buf) => n == nr
    case Remove(nr) => n == nr
  }

  lemma StoredOther(s: State, owns: Owners, nr: nat, n: nat, f': File, own': map<int, Slot>)
    requires Inv(s, owns) && nr < NR_INODES && n < NR_INODES && n != nr
    requires FileInv(f', own', Others(s.vol, owns[nr]))
    requires forall p :: p in Others(s.vol, owns[nr]) ==> Blk(f'.vol, p) == Blk(s.vol, p)
    ensures SameFile(s, Store(s, nr, f'), n)
  {
    hide FileInv, Blk, Contents, NoHoles, Inv, Others, SameSlots;
    InvSizes(s, owns);
    StoreOther(s, owns, nr, n, f', own');
    StoreFields(s, nr, f');
  }

  /** An operation leaves every file alone that it does not name. */
  lemma OthersKept(s: State, op: Op, n: nat)
    requires Sound(s) && n in s.usedInodes && !Touches(s, op, n)
    ensures |s.inodes| == NR_INODES && SameFile(s, Apply(s, op).0, n)
  {
    hide Inv, Apply, SameFile, FileInv, Others, Blk;
    var owns :| Inv(s, owns);
    InvSizes(s, owns);
    SizesNonNegative(s, owns, n);
    match op
    case Create(kind) => CreateOther(s, kind, n);
    case Write(nr, start, buf) =>
      if nr in s.usedInodes {
        InvFile(s, owns, nr);
        var k, own' := WriteDataSpec(FileOf(s, nr), start, buf, owns[nr], Others(s.vol, owns[nr]));
        var f', r := ApplyWrite(s, nr, start, buf);
        SameBlocks(s, nr, f', Others(s.vol, owns[nr]));
        StoredOther(s, owns, nr, n, f', own');
      } else {
        NothingDone(s, op, n);
      }
    case Remove(nr) =>
      if nr in s.usedInodes {
        var g := RemovedInode(s, owns, nr);
        StoredOther(s, owns, nr, n, g, map[]);
        ApplyRemove(s, nr, g);
        UnusedSame(s, Store(s, nr, g), nr, n);
      } else {
        NothingDone(s, op, n);
      }
  }

  lemma CreateOther(s: State, kind: Kind, n: nat)
    requires |s.inodes| == NR_INODES && n in s.usedInodes && n < NR_INODES && s.inodes[n].size >= 0
    ensures SameFile(s, Apply(s, Create(kind)).0, n)
  {
    hide Contents, NoHoles;
    assert FileOf(Apply(s, Create(kind)).0, n) == FileOf(s, n);
  }

  lemma NothingDone(s: State, op: Op, n: nat)
    requires |s.inodes| == NR_INODES && n < NR_INODES && s.inodes[n].size >= 0 && !op.Create? && op.nr !in s.usedInodes
    ensures SameFile(s, Apply(s, op).0, n)
  {
    hide Contents, NoHoles;
  }

  lemma UnusedSame(s: State, s1: State, nr: nat, n: nat)
    requires SameFile(s, s1, n)
    ensures SameFile(s, s1.(usedInodes := s.usedInodes - {nr}), n)
  {
    hide Contents, NoHoles;
    assert FileOf(s1.(usedInodes := s.usedInodes - {nr}), n) == FileOf(s1, n);
  }

  // ----- consequences of the invariant, in terms of the inodes alone -----

  ghost predicate Reaches(s: State, n: nat, p: int)
    requires n < |s.inodes|
  {
    p != 0 && exists a: Slot :: At(s.vol, s.inodes[n], a) == p
  }

  /** A block number is held in at most one place of the whole file system, and exactly the blocks
      marked in the free map are reachable. */
  lemma NoAliasNoLeak(s: State, owns: Owners)
    requires Inv(s, owns)
    ensures forall n, m, a: Slot, b: Slot {:trigger At(s.vol, s.inodes[n], a), At(s.vol, s.inodes[m], b)} ::
              (0 <= n < NR_INODES && 0 <= m < NR_INODES &&
               At(s.vol, s.inodes[n], a) == At(s.vol, s.inodes[m], b) != 0) ==> n == m && a == b
    ensures forall p :: p in s.vol.used <==> exists n :: 0 <= n < NR_INODES && Reaches(s, n, p)
    ensures forall p :: p in s.vol.used ==> DATA_START <= p < DATA_LIMIT
  {
    hide *;
    InvSizes(s, owns);
    forall n, m, a: Slot, b: Slot | 0 <= n < NR_INODES && 0 <= m < NR_INODES &&
        At(s.vol, s.inodes[n], a) == At(s.vol, s.inodes[m], b) != 0
      ensures n == m && a == b
    {
      HeldOnce(s, owns, n, m, a, b);
    }
    forall p ensures p in s.vol.used <==> exists n :: 0 <= n < NR_INODES && Reaches(s, n, p) { UsedReached(s, owns, p); }
    UsedRange(s, owns);
  }

  lemma HeldOnce(s: State, owns: Owners, n: nat, m: nat, a: Slot, b: Slot)
    requires Inv(s, owns) && n < NR_INODES && m < NR_INODES && At(s.vol, s.inodes[n], a) == At(s.vol, s.inodes[m], b) != 0
    ensures n == m && a == b
  {
    hide At, FileInv;
    OwnerOf(s, owns, n, a);
    OwnerOf(s, owns, m, b);
    OwnersApart(s, owns);
  }

  lemma UsedReached(s: State, owns: Owners, p: int)
    requires Inv(s, owns)
    ensures p in s.vol.used <==> exists n :: 0 <= n < NR_INODES && Reaches(s, n, p)
  {
    hide At, Sized, NoEmptyIndex;
    if p in s.vol.used {
      var n :| 0 <= n < |owns| && p in owns[n];
      assert FileInv(FileOf(s, n), owns[n], Others(s.vol, owns[n]));
      assert At(s.vol, s.inodes[n], owns[n][p]) == p;
      assert Reaches(s, n, p);
    }
    if exists n :: 0 <= n < NR_INODES && Reaches(s, n, p) {
      var n :| 0 <= n < NR_INODES && Reaches(s, n, p);
      var a: Slot :| At(s.vol, s.inodes[n], a) == p;
      OwnerOf(s, owns, n, a);
    }
  }

  lemma UsedRange(s: State, owns: Owners)
    requires Inv(s, owns)
    ensures forall p :: p in s.vol.used ==> DATA_START <= p < DATA_LIMIT
  {
    hide At, Sized, NoEmptyIndex, Owns;
    assert FileInv(FileOf(s, 0), owns[0], Others(s.vol, owns[0]));
  }

  lemma OwnerOf(s: State, owns: Owners, n: nat, a: Slot)
    requires Inv(s, owns) && n < NR_INODES && At(s.vol, s.inodes[n], a) != 0
    ensures var p := At(s.vol, s.inodes[n], a); p in owns[n] && owns[n][p] == a && p in s.vol.used
  {
    hide At, Sized, NoEmptyIndex;
    assert FileInv(FileOf(s, n), owns[n], Others(s.vol, owns[n]));
    var p := At(s.vol, s.inodes[n], a);
    assert p in owns[n] && owns[n][p] == a;
  }

  /** The per-file counters of the first `n` inodes. */
  function CountedBlocks(inodes: seq<Dinode>, n: nat): int
    requires n <= |inodes|
  {
    if n == 0 then 0 else CountedBlocks(inodes, n - 1) + inodes[n - 1].blockCount
  }

  ghost function OwnedUpTo(owns: Owners, n: nat): set<int>
    requires n <= |owns|
  {
    if n == 0 then {} else OwnedUpTo(owns, n - 1) + owns[n - 1].Keys
  }

  lemma {:induction false} OwnedUpToMembers(owns: Owners, n: nat, p: int)
    requires n <= |owns|
    ensures p in OwnedUpTo(owns, n) <==> exists k :: 0 <= k < n && p in owns[k]
  {
    if n > 0 { OwnedUpToMembers(owns, n - 1, p); }
  }

  lemma OwnedUpToSize(owns: Owners, n: nat)
    requires 0 < n <= |owns|
    requires forall k, m {:trigger owns[k], owns[m]} :: 0 <= k < m < |owns| ==> owns[k].Keys !! owns[m].Keys
    ensures |OwnedUpTo(owns, n)| == |OwnedUpTo(owns, n - 1)| + |owns[n - 1].Keys|
  {
    var mine := owns[n - 1];
    forall p | p in mine ensures p !in OwnedUpTo(owns, n - 1) {
      OwnedUpToMembers(owns, n - 1, p);
    }
  }

  lemma CountedStep(inodes: seq<Dinode>, owns: Owners, n: nat)
    requires n <= |inodes| && n <= |owns|
    ensures n == 0 ==> CountedBlocks(inodes, n) == 0 && OwnedUpTo(owns, n) == {}
    ensures n > 0 ==> CountedBlocks(inodes, n) == CountedBlocks(inodes, n - 1) + inodes[n - 1].blockCount
  {}

  lemma {:induction false} CountedUpTo(s: State, owns: Owners, n: nat)
    requires Inv(s, owns) && n <= NR_INODES
    ensures CountedBlocks(s.inodes, n) == |OwnedUpTo(owns, n)|
  {
    hide Inv, OwnedOnce, FileInv, Others, FileOf, OwnedUpTo, CountedBlocks;
    InvSizes(s, owns);
    CountedStep(s.inodes, owns, n);
    if n > 0 {
      CountedUpTo(s, owns, n - 1);
      CountIsOwned(s, owns, n - 1);
      OwnersApart(s, owns);
      OwnedUpToSize(owns, n);
    }
  }

  lemma CountIsOwned(s: State, owns: Owners, n: nat)
    requires Inv(s, owns) && n < NR_INODES
    ensures s.inodes[n].blockCount == |owns[n].Keys|
  {
    hide At, Sized, NoEmptyIndex;
    assert FileInv(FileOf(s, n), owns[n], Others(s.vol, owns[n]));
  }

  /** Conservation: the per-file counters add up to the global counter, the size of the free map, and
      stay within the quota. */
  lemma BlocksConserved(s: State, owns: Owners)
    requires Inv(s, owns)
    ensures CountedBlocks(s.inodes, NR_INODES) == s.vol.usedCount == |s.vol.used| <= s.vol.maxBlocks
  {
    hide Inv, OwnedUpTo, CountedBlocks;
    InvSizes(s, owns);
    CountedUpTo(s, owns, NR_INODES);
    VolumeCounts(s, owns);
    OwnedAreUsed(s, owns);
  }

  lemma VolumeCounts(s: State, owns: Owners)
    requires Inv(s, owns)
    ensures s.vol.usedCount == |s.vol.used| <= s.vol.maxBlocks
  {
    hide At, Sized, NoEmptyIndex, Owns;
    assert FileInv(FileOf(s, 0), owns[0], Others(s.vol, owns[0]));
  }

  lemma OwnedAreUsed(s: State, owns: Owners)
    requires Inv(s, owns)
    ensures OwnedUpTo(owns, NR_INODES) == s.vol.used
  {
    hide At, Sized, NoEmptyIndex, Owns, OwnedUpTo;
    forall p ensures p in OwnedUpTo(owns, NR_INODES) <==> p in s.vol.used {
      OwnedUpToMembers(owns, NR_INODES, p);
      if exists k :: 0 <= k < NR_INODES && p in owns[k] {
        var k :| 0 <= k < NR_INODES && p in owns[k];
        assert FileInv(FileOf(s, k), owns[k], Others(s.vol, owns[k]));
      }
    }
  }
}
