/** A file system that holds a tree of names: every directory's inode holds that directory's log. What each
    operation on inodes does to it. */
module Mounts {
  import opened Layout
  import opened BlockTree
  import opened FileContents
  import opened FileSystem
  import opened Teardown
  import opened DirtyFlags
  import opened Dirents
  import opened Directories
  import Namespace
  import RW = ReadWrite

  type Names = Namespace.Names

  /** The inode of `n` is what the names say: a directory with its log, or a file. */
  ghost predicate Fits(st: State, s: Names, n: nat) {
    && n < |st.inodes|
    && (n in s.dirs ==> Holds(FileOf(st, n), s.dirs[n]))
    && (n in s.files ==> st.inodes[n].kind == RegularFile)
  }

  /** As `Mounted`, but for what the inode of `x` holds. */
  ghost predicate MountedBut(st: State, s: Names, x: int) {
    && Sound(st) && st.usedInodes == Namespace.Used(s)
    && forall n :: n in Namespace.Used(s) && n != x ==> Fits(st, s, n)
  }

  ghost predicate Mounted(st: State, s: Names) {
    MountedBut(st, s, -1)
  }

  // ----- the flag does not matter -----

  lemma HoldsAlike(f: File, g: File, es: Log)
    requires Alike(f, g) && Holds(f, es)
    ensures Holds(g, es)
  {
    hide FileInv, Bytes, NoHoles;
    FileOkAlike(f, g);
    ContentsAlike(f, g);
  }

  lemma FileOkAlike(f: File, g: File)
    requires Alike(f, g) && RW.FileOk(f)
    ensures RW.FileOk(g)
  {
    hide TreeInv, Sized;
    var own, foreign :| FileInv(f, own, foreign);
    DirtyIrrelevant(f, g.dirty, own, foreign);
    assert g == f.(dirty := g.dirty);
    assert FileInv(g, own, foreign);
  }

  lemma ContentsAlike(f: File, g: File)
    requires Alike(f, g)
    ensures f.d.size >= 0 ==> Contents(g) == Contents(f)
    ensures NoHoles(f) <==> NoHoles(g)
  {
    assert forall m: nat :: MapBlock(g, m) == MapBlock(f, m);
    assert forall off: nat :: ByteAt(g, off) == ByteAt(f, off);
    if f.d.size >= 0 { assert Contents(g) == Contents(f); }
  }

  lemma PartlyAlike(f: File, f': File, g: File, g': File, at: nat, record: seq<byte>, k: nat)
    requires Alike(f, g) && Alike(f', g') && PartlyWritten(f, f', at, record, k)
    ensures PartlyWritten(g, g', at, record, k)
  {
    hide RW.FileOk, NoHoles, Contents, Overwrite;
    FileOkAlike(f', g');
    ContentsAlike(f, g);
    ContentsAlike(f', g');
  }

  /** Where nothing was transferred, the directory holds what it held. */
  lemma NothingTransferred(f: File, f': File, es: Log, at: nat, record: seq<byte>)
    requires Holds(f, es) && PartlyWritten(f, f', at, record, 0)
    ensures Holds(f', es)
  {
    hide RW.FileOk, NoHoles, Contents, Bytes, Overwrite;
    NothingWritten(Contents(f), at, record);
  }

  // ----- what an operation does not touch -----

  lemma FileOkIn(st: State, n: nat)
    requires Sound(st) && n < |st.inodes|
    ensures RW.FileOk(FileOf(st, n))
  {
    hide FileInv, OwnedOnce;
    var owns :| Inv(st, owns);
    InvFile(st, owns, n);
  }

  lemma FitsSame(st: State, st': State, s: Names, n: nat)
    requires Sound(st') && SameFile(st, st', n) && Fits(st, s, n)
    ensures Fits(st', s, n)
  {
    hide Sound, Contents, NoHoles, RW.FileOk, Bytes;
    FileOkIn(st', n);
  }

  lemma SameFileTwice(a: State, b: State, c: State, n: nat)
    requires SameFile(a, b, n) && SameFile(b, c, n)
    ensures SameFile(a, c, n)
  {
    hide Contents, NoHoles, At;
  }

  /** The files in `keep` are what they were: type, size, block numbers and bytes. */
  ghost predicate Spared(st: State, st': State, keep: set<nat>) {
    forall n {:trigger n in keep} {:trigger SameFile(st, st', n)} :: n in keep ==> SameFile(st, st', n)
  }

  lemma SparedTwice(a: State, b: State, c: State, keep: set<nat>)
    requires Spared(a, b, keep) && Spared(b, c, keep)
    ensures Spared(a, c, keep)
  {
    hide SameFile;
    forall n | n in keep ensures SameFile(a, c, n) { SameFileTwice(a, b, c, n); }
  }

  lemma SparedLess(a: State, b: State, keep: set<nat>, fewer: set<nat>)
    requires Spared(a, b, keep) && fewer <= keep
    ensures Spared(a, b, fewer)
  {
    hide SameFile;
  }

  /** An operation spares every file it does not name. */
  lemma SparedBy(st: State, op: Op, keep: set<nat>)
    requires Sound(st) && keep <= st.usedInodes && forall n :: n in keep ==> !Touches(st, op, n)
    ensures |st.inodes| == NR_INODES && Spared(st, Apply(st, op).0, keep)
  {
    hide Sound, Apply, SameFile, Touches;
    SoundSizes(st);
    forall n | n in keep ensures SameFile(st, Apply(st, op).0, n) { OthersKept(st, op, n); }
  }

  lemma SparedSelf(st: State, keep: set<nat>)
    requires Sound(st) && keep <= st.usedInodes
    ensures Spared(st, st, keep)
  {
    hide FileInv, OwnedOnce, Contents, NoHoles, At;
    var owns :| Inv(st, owns);
    forall n | n in keep ensures SameFile(st, st, n) { UsedFile(st, owns, n); }
  }

  /** Every other inode still fits after an operation. */
  lemma Carry(st: State, op: Op, s: Names, x: int)
    requires MountedBut(st, s, x)
    ensures |st.inodes| == NR_INODES && Sound(Apply(st, op).0)
    ensures forall n :: n in Namespace.Used(s) && n != x && !Touches(st, op, n) ==> Fits(Apply(st, op).0, s, n)
  {
    hide Sound, Apply, SameFile, Fits, Touches;
    SoundApply(st, op);
    forall n | n in Namespace.Used(s) && n != x && !Touches(st, op, n) ensures Fits(Apply(st, op).0, s, n) {
      OthersKept(st, op, n);
      FitsSame(st, Apply(st, op).0, s, n);
    }
  }

  lemma Settled(st: State, s: Names, n: nat, es: Log)
    requires MountedBut(st, s, n) && n in s.dirs && n !in s.files && n < |st.inodes| && Holds(FileOf(st, n), es)
    ensures Mounted(st, s.(dirs := s.dirs[n := es]))
  {
    hide Sound, Holds;
    var s' := s.(dirs := s.dirs[n := es]);
    assert Namespace.Used(s') == Namespace.Used(s);
    forall m | m in Namespace.Used(s') ensures Fits(st, s', m) {
      if m != n { assert Fits(st, s, m); }
    }
  }

  // ----- the operations -----

  lemma WriteMounts(st: State, s: Names, x: int, n: nat, start: nat, buf: seq<byte>)
    requires MountedBut(st, s, x) && n in Namespace.Used(s) && (x == -1 || x == n)
    ensures |st.inodes| == NR_INODES && MountedBut(Apply(st, Write(n, start, buf)).0, s, n)
  {
    hide Sound, Fits, WriteData;
    Carry(st, Write(n, start, buf), s, x);
    SoundSizes(st);
  }

  /** The names with a new inode for `nr`, not yet named. */
  function With(s: Names, nr: nat, kind: Kind): Names {
    if kind == Directory then s.(dirs := s.dirs[nr := []]) else s.(files := s.files + {nr})
  }

  lemma CreateMounts(st: State, s: Names, kind: Kind)
    requires Mounted(st, s) && kind != NoType
    ensures |st.inodes| == NR_INODES
    ensures var nr := FirstFreeInode(Namespace.Used(s), 0);
      var (st', r) := Apply(st, Create(kind));
      if nr == NR_INODES then st' == st && r == ENOSPC else r == nr && Mounted(st', With(s, nr, kind))
  {
    hide Sound, Fits, FileInv;
    Carry(st, Create(kind), s, -1);
    var nr := FirstFreeInode(Namespace.Used(s), 0);
    if nr < NR_INODES {
      var st', s' := Apply(st, Create(kind)).0, With(s, nr, kind);
      assert Namespace.Used(s') == Namespace.Used(s) + {nr};
      NewFits(st, s, kind, nr);
      forall n | n in Namespace.Used(s) ensures Fits(st', s', n) {
        assert Fits(st', s, n);
        FitsWith(st', s, n, nr, kind);
      }
    }
  }

  lemma FitsWith(st: State, s: Names, n: nat, nr: nat, kind: Kind)
    requires Fits(st, s, n) && n != nr
    ensures Fits(st, With(s, nr, kind), n)
  {}

  /** A new inode is empty. */
  lemma NewFits(st: State, s: Names, kind: Kind, nr: nat)
    requires Sound(st) && |st.inodes| == NR_INODES && nr == FirstFreeInode(st.usedInodes, 0) < NR_INODES && kind != NoType
    requires nr !in Namespace.Used(s)
    ensures Fits(Apply(st, Create(kind)).0, With(s, nr, kind), nr)
  {
    hide FileInv, OwnedOnce, Apply, Contents, NoHoles, Bytes;
    var owns :| Inv(st, owns);
    CreatedFile(st, owns, nr, kind);
    CreatedIs(st, kind, nr);
    var f := FileOf(st, nr).(d := st.inodes[nr].(kind := kind));
    EmptyHolds(f, owns[nr], Others(st.vol, owns[nr]));
  }

  lemma CreatedIs(st: State, kind: Kind, nr: nat)
    requires |st.inodes| == NR_INODES && nr == FirstFreeInode(st.usedInodes, 0) < NR_INODES
    ensures var st' := Apply(st, Create(kind)).0;
      |st'.inodes| == NR_INODES && FileOf(st', nr) == FileOf(st, nr).(d := st.inodes[nr].(kind := kind)) && st'.inodes[nr].kind == kind
  {}

  lemma EmptyHolds(f: File, own: map<int, Slot>, foreign: set<int>)
    requires FileInv(f, own, foreign) && f.d.size == 0 
    ensures RW.FileOk(f) && NoHoles(f) && Contents(f) == [] == Bytes([])
  {
    hide TreeInv, MapBlock;
  }

  lemma RemoveMounts(st: State, s: Names, x: int, n: nat)
    requires MountedBut(st, s, x) && n in Namespace.Used(s)
    ensures |st.inodes| == NR_INODES
    ensures MountedBut(Apply(st, Remove(n)).0, s.(dirs := s.dirs - {n}, files := s.files - {n}), if x == n then -1 else x)
  {
    hide Sound, Fits, Emptied, Reachable;
    Carry(st, Remove(n), s, x);
    SoundSizes(st);
    var st', s' := Apply(st, Remove(n)).0, s.(dirs := s.dirs - {n}, files := s.files - {n});
    assert Namespace.Used(s') == Namespace.Used(s) - {n};
    forall m | m in Namespace.Used(s') && m != x ensures Fits(st', s', m) {
      assert Fits(st', s, m);
      FitsWithout(st', s, n, m);
    }
  }

  /** Removing an inode takes it out of the names. */
  lemma RemoveMounted(st: State, s: Names, n: nat)
    requires Mounted(st, s) && n in Namespace.Used(s)
    ensures |st.inodes| == NR_INODES && n < NR_INODES
    ensures Mounted(Apply(st, Remove(n)).0, s.(dirs := s.dirs - {n}, files := s.files - {n}))
  {
    hide MountedBut, Apply;
    KindTells(st, s, n);
    RemoveMounts(st, s, -1, n);
  }

  lemma FitsWithout(st: State, s: Names, n: nat, m: nat)
    requires Fits(st, s, m) && m != n
    ensures Fits(st, s.(dirs := s.dirs - {n}, files := s.files - {n}), m)
  {}

  // ----- adding and removing an entry -----

  /** The write of a record, on the file system: it fits as record `k`, or only part of it is there. */
  lemma RecordApplied(st: State, n: nat, es: Log, k: nat, e: Entry) returns (j: nat)
    requires |st.inodes| == NR_INODES && n < NR_INODES && n in st.usedInodes && Holds(FileOf(st, n), es) && ValidLog(es)
    requires k <= |es| && ValidEntry(e) && (k < |es| ==> |e.name| == |es[k].name|)
    ensures var (st', r) := Apply(st, Write(n, Offset(es, k), Encode(e)));
      |st'.inodes| == NR_INODES &&
      if r < 0 then k == |es| && PartlyWritten(FileOf(st, n), FileOf(st', n), Offset(es, k), Encode(e), j)
      else Holds(FileOf(st', n), WithEntry(es, k, e))
  {
    hide Holds, Bytes, Offset, Encode, WriteData, PartlyWritten, WithEntry, ValidEntry;
    j := RecordStored(FileOf(st, n), es, k, e);
    var f', r := ApplyWrite(st, n, Offset(es, k), Encode(e));
    var st' := Store(st, n, f');
    assert Alike(f', FileOf(st', n));
    if r < 0 {
      PartlyAlike(FileOf(st, n), f', FileOf(st, n), FileOf(st', n), Offset(es, k), Encode(e), j);
    } else {
      HoldsAlike(f', FileOf(st', n), WithEntry(es, k, e));
    }
  }

  /** Directory `n` holds the log and then the first `j` bytes of a record, which end with a block. */
  ghost predicate PartOf(st: State, n: nat, es: Log, e: Entry, j: nat) {
    && n < |st.inodes| && st.inodes[n].kind == Directory && st.inodes[n].size >= 0
    && ValidLog(es) && ValidEntry(e) && j < |Encode(e)|
    && Contents(FileOf(st, n)) == Bytes(es) + Encode(e)[..j] && (j > 0 ==> IndexOf(|Bytes(es)| + j) == 0)
  }

  lemma PartIs(st: State, st': State, n: nat, es: Log, e: Entry, j: nat)
    requires n < |st.inodes| && n < |st'.inodes| && Holds(FileOf(st, n), es) && ValidLog(es) && ValidEntry(e)
    requires PartlyWritten(FileOf(st, n), FileOf(st', n), |Bytes(es)|, Encode(e), j)
    ensures PartOf(st', n, es, e, j)
  {
    hide RW.FileOk, NoHoles, Contents, Overwrite, Bytes, Encode, IndexOf;
    OverwriteEnd(Bytes(es), Encode(e)[..j]);
  }

  /** What adding an entry does to the names: the entry is there, or, if no byte was transferred, nothing
      has changed, or part of the record follows the log. */
  lemma EntryApplied(st: State, s: Names, n: nat, name: seq<byte>, nr: nat) returns (j: nat)
    requires Mounted(st, s) && n in s.dirs && ValidEntry(Entry(name, nr)) && Lookup(s.dirs[n], name) < 0
    ensures |st.inodes| == NR_INODES && n < NR_INODES && n !in s.files && Holds(FileOf(st, n), s.dirs[n]) && ValidLog(s.dirs[n])
    ensures var es := s.dirs[n];
      var (st', r) := Apply(st, Write(n, Offset(es, FirstFit(es, name, 0)), Encode(Entry(name, nr))));
      if r >= 0 then Mounted(st', s.(dirs := s.dirs[n := Added(es, name, nr)]))
      else MountedBut(st', s, n) && PartOf(st', n, es, Entry(name, nr), j) && (j == 0 ==> Mounted(st', s))
  {
    hide Holds, Bytes, Offset, Encode, Apply, PartlyWritten, MountedBut, ValidEntry, FirstFit, Lookup;
    FitsAt(st, s, n);
    var es, e := s.dirs[n], Entry(name, nr);
    HoldsValid(FileOf(st, n), es);
    var k := FirstFit(es, name, 0);
    FitIsDead(es, name);
    j := RecordApplied(st, n, es, k, e);
    WriteMounts(st, s, -1, n, Offset(es, k), Encode(e));
    var (st', r) := Apply(st, Write(n, Offset(es, k), Encode(e)));
    if r >= 0 {
      AddedIs(es, name, nr);
      Settled(st', s, n, Added(es, name, nr));
    } else {
      OffsetEnd(es);
      PartIs(st, st', n, es, e, j);
      if j == 0 {
        NothingTransferred(FileOf(st, n), FileOf(st', n), es, Offset(es, k), Encode(e));
        Settled(st', s, n, es);
        assert s.(dirs := s.dirs[n := es]) == s;
      }
    }
  }

  lemma FitsAt(st: State, s: Names, n: nat)
    requires Mounted(st, s) && n in s.dirs
    ensures |st.inodes| == NR_INODES && n < NR_INODES && n !in s.files && n in st.usedInodes && Holds(FileOf(st, n), s.dirs[n])
  {
    hide Sound;
    SoundSizes(st);
    assert Fits(st, s, n);
  }

  lemma MountedSound(st: State, s: Names)
    requires Mounted(st, s)
    ensures Sound(st) && |st.inodes| == NR_INODES && st.usedInodes == Namespace.Used(s)
  {
    hide Sound, Fits;
    SoundSizes(st);
  }

  lemma Moved(st: State, s: Names, n: nat)
    requires Mounted(st, s)
    ensures Mounted(st, s.(cur := n))
  {
    hide Sound, Holds;
    forall m | m in Namespace.Used(s) ensures Fits(st, s.(cur := n), m) { assert Fits(st, s, m); }
  }

  /** The type of an inode in use tells whether it is a directory of the names. */
  lemma KindTells(st: State, s: Names, n: nat)
    requires Mounted(st, s) && n in Namespace.Used(s)
    ensures n < |st.inodes| == NR_INODES && (st.inodes[n].kind == Directory <==> n in s.dirs)
    ensures n in s.dirs ==> Holds(FileOf(st, n), s.dirs[n])
  {
    hide Sound, RW.FileOk, Contents, NoHoles;
    SoundSizes(st);
    assert Fits(st, s, n);
  }

  lemma FitIsDead(es: Log, name: seq<byte>)
    requires Lookup(es, name) < 0
    ensures var k := FirstFit(es, name, 0); k < |es| ==> !Live(es[k]) && |es[k].name| == |name|
  {
    hide Lookup;
    LookupNone(es, name);
  }

  lemma AddedIs(es: Log, name: seq<byte>, nr: nat)
    requires Lookup(es, name) < 0
    ensures Added(es, name, nr) == WithEntry(es, FirstFit(es, name, 0), Entry(name, nr))
  {
    hide Lookup;
    FitIsDead(es, name);
  }

  lemma OffsetEnd(es: Log)
    requires ValidLog(es)
    ensures Offset(es, |es|) == |Bytes(es)|
  {
    assert es[..|es|] == es;
  }

  /** A part of a record stays where it is when another file is removed. */
  lemma PartStays(st: State, st': State, n: nat, es: Log, e: Entry, j: nat)
    requires PartOf(st, n, es, e, j) && SameFile(st, st', n)
    ensures PartOf(st', n, es, e, j)
  {
    hide NoHoles, Contents, Bytes, Encode, IndexOf;
  }

  lemma Loosened(st: State, s: Names, n: nat, es: Log)
    requires MountedBut(st, s, n) && n in s.dirs
    ensures MountedBut(st, s.(dirs := s.dirs[n := es]), n)
  {
    hide Sound, Holds;
    var s' := s.(dirs := s.dirs[n := es]);
    assert Namespace.Used(s') == Namespace.Used(s);
    forall m | m in Namespace.Used(s') && m != n ensures Fits(st, s', m) { assert Fits(st, s, m); }
  }

  /** Writing the tombstone always succeeds. */
  lemma TombstoneApplied(st: State, s: Names, n: nat, name: seq<byte>)
    requires Mounted(st, s) && n in s.dirs && Lookup(s.dirs[n], name) >= 0
    ensures |st.inodes| == NR_INODES && n < NR_INODES && ValidLog(s.dirs[n]) && ValidEntry(Entry(name, INVALID_INODE_NR))
    ensures var es := s.dirs[n];
      var (st', r) := Apply(st, Write(n, Offset(es, FirstLive(es, name, 0)), Encode(Entry(name, INVALID_INODE_NR))));
      r >= 0 && Mounted(st', s.(dirs := s.dirs[n := Removed(es, name)]))
  {
    hide Holds, Bytes, Offset, Encode, Apply, PartlyWritten, MountedBut, ValidEntry, FirstLive, Lookup, Removed;
    FitsAt(st, s, n);
    var es, e := s.dirs[n], Entry(name, INVALID_INODE_NR);
    HoldsValid(FileOf(st, n), es);
    LookupIsLive(es, name);
    TombstoneOf(es, name);
    var k := FirstLive(es, name, 0);
    var j := RecordApplied(st, n, es, k, e);
    WriteMounts(st, s, -1, n, Offset(es, k), Encode(e));
    Settled(Apply(st, Write(n, Offset(es, k), Encode(e))).0, s, n, Removed(es, name));
  }
}
