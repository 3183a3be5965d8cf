/** How adding a name to a directory ends, in terms of the file system before the call. */
module Adding {
  import opened Layout
  import opened BlockTree
  import opened BlockAlloc
  import opened AllocProofs
  import opened FileContents
  import opened FileSystem
  import opened Dirents
  import opened Directories
  import opened Mounts
  import opened Unsynced
  import opened WriteSpace
  import Namespace
  import RW = ReadWrite

  lemma WriteErrors(f: File, start: nat, buf: seq<byte>)
    requires RW.FileOk(f)
    ensures FileContents.WriteData(f, start, buf).1 < 0 ==> FileContents.WriteData(f, start, buf).1 in {ENOSPC, EFBIG}
  {
    hide FileInv, FileContents.WriteData;
    var own, foreign :| FileInv(f, own, foreign);
    var k, own' := WriteDataSpec(f, start, buf, own, foreign);
  }

  /** When an entry is added: exactly when part of the record is left, and when the directory is left dirty. */
  lemma EntryExact(st: State, s: Names, n: nat, name: seq<byte>, nr: nat)
    requires Mounted(st, s) && n in s.dirs && ValidEntry(Entry(name, nr)) && Lookup(s.dirs[n], name) < 0
    ensures |st.inodes| == NR_INODES && n < NR_INODES && ValidLog(s.dirs[n]) && st.inodes[n].size >= 0
    ensures var es, e := s.dirs[n], Entry(name, nr);
      var k, f := FirstFit(es, name, 0), FileOf(st, n);
      var (f', r) := FileContents.WriteData(f, Offset(es, k), Encode(e));
      && (r < 0 <==> k == |es| && TooLittle(f, |Encode(e)|, Available(st.vol)))
      && (r < 0 ==> r == ENOSPC || r == EFBIG)
      && (r < 0 && f'.d.size > f.d.size <==> k == |es| && Tears(f, |Encode(e)|, Available(st.vol)))
      && (r < 0 && f'.dirty <==> k == |es| && LeavesDirty(f, |Encode(e)|, Available(st.vol)))
  {
    hide Holds, Bytes, Offset, Encode, FileContents.WriteData, PartlyWritten, MountedBut, ValidEntry, FirstFit,
      Lookup, Tears, LeavesDirty, TooLittle, WithEntry;
    FitsAt(st, s, n);
    var es, e := s.dirs[n], Entry(name, nr);
    HoldsValid(FileOf(st, n), es);
    HoldsSize(FileOf(st, n), es, |es|);
    WriteErrors(FileOf(st, n), Offset(es, FirstFit(es, name, 0)), Encode(e));
    FitIsDead(es, name);
    var k := FirstFit(es, name, 0);
    if k < |es| {
      var j := RecordStored(FileOf(st, n), es, k, e);
    } else {
      AddFailsIff(FileOf(st, n), es, e);
      AddLeavesDirtyIff(FileOf(st, n), es, e);
      AddTearsIff(FileOf(st, n), es, e);
    }
  }

  /** Of an attempt to add an entry to the current directory with `space` blocks left: it fails, it leaves
      `j` bytes of the record behind, and it leaves a clean directory dirty, exactly as the space demands. */
  ghost predicate Exactly(st: State, s: Names, name: seq<byte>, nr: nat, space: int, ret: int, j: nat, clean: bool, dirty: bool) {
    && s.cur in s.dirs && s.cur < |st.inodes| && st.inodes[s.cur].size >= 0 && ValidEntry(Entry(name, nr))
    && var es, f, len := s.dirs[s.cur], FileOf(st, s.cur), |Encode(Entry(name, nr))|;
       && (ret < 0 ==> ret == ENOSPC || ret == EFBIG)
       && (ret < 0 <==> FirstFit(es, name, 0) == |es| && TooLittle(f, len, space))
       && (ret < 0 && j > 0 <==> FirstFit(es, name, 0) == |es| && Tears(f, len, space))
       && (clean ==> (ret < 0 && dirty <==> FirstFit(es, name, 0) == |es| && LeavesDirty(f, len, space)))
  }

  /** The part of a record that is there tells how much the directory grew. */
  lemma PartSize(st: State, st': State, s: Names, n: nat, e: Entry, j: nat)
    requires Mounted(st, s) && n in s.dirs && PartOf(st', n, s.dirs[n], e, j)
    ensures n < |st.inodes| && st'.inodes[n].size == st.inodes[n].size + j
  {
    hide Holds, Bytes, Encode, MountedBut, ValidEntry, ByteAt;
    FitsAt(st, s, n);
    HoldsSize(FileOf(st, n), s.dirs[n], 0);
  }

  lemma ExactlyWhen(st: State, s: Names, name: seq<byte>, nr: nat, ret: int, j: nat, clean: bool, dirty: bool, st': State)
    requires Mounted(st, s) && s.cur in s.dirs && ValidEntry(Entry(name, nr)) && Lookup(s.dirs[s.cur], name) < 0
    requires s.cur < NR_INODES == |st.inodes| && ValidLog(s.dirs[s.cur])
    requires var es := s.dirs[s.cur];
      var k := FirstFit(es, name, 0);
      && (st', ret) == Apply(st, Op.Write(s.cur, Offset(es, k), Encode(Entry(name, nr))))
      && (ret < 0 ==> PartOf(st', s.cur, es, Entry(name, nr), j))
      && (clean ==> dirty == FileContents.WriteData(FileOf(st, s.cur), Offset(es, k), Encode(Entry(name, nr))).0.dirty)
    ensures Exactly(st, s, name, nr, Available(st.vol), ret, j, clean, dirty)
  {
    hide Bytes, Offset, Encode, FileContents.WriteData, Mounted, ValidEntry, FirstFit, Lookup, Tears, LeavesDirty,
      TooLittle, PartOf, Holds, Apply;
    EntryExact(st, s, s.cur, name, nr);
    FitsAt(st, s, s.cur);
    var f', r := ApplyWrite(st, s.cur, Offset(s.dirs[s.cur], FirstFit(s.dirs[s.cur], name, 0)), Encode(Entry(name, nr)));
    if ret < 0 { PartSize(st, st', s, s.cur, Entry(name, nr), j); }
  }

  /** The log of a new directory. */
  function NewLog(nr: nat, parentNr: nat): Log {
    [Entry(DOT, nr), Entry(DOTDOT, parentNr)]
  }

  lemma NewLogAdded(nr: nat, parentNr: nat)
    ensures Added([], DOT, nr) == [Entry(DOT, nr)] && Added([Entry(DOT, nr)], DOTDOT, parentNr) == NewLog(nr, parentNr)
    ensures Lookup([], DOT) < 0 && Lookup([Entry(DOT, nr)], DOTDOT) < 0
  {}

  /** The two writes that make a directory, on the live file system. */
  ghost function EmptyDirApplied(st: State, nr: nat, parentNr: nat): (State, int)
    requires |st.inodes| == NR_INODES && nr < NR_INODES && parentNr < NR_INODES
  {
    var dot, dotDot := Encode(Entry(DOT, nr)), Encode(Entry(DOTDOT, parentNr));
    var (st1, r1) := Apply(st, Op.Write(nr, 0, dot));
    if r1 < 0 then (st1, r1)
    else
      var (st2, r2) := Apply(st1, Op.Write(nr, |dot|, dotDot));
      (st2, if r2 < 0 then r2 else 0)
  }

  /** What goes before the name is added: for a directory, its two entries. */
  ghost function Furnished(st: State, nr: nat, parentNr: nat, kind: Kind): (State, int)
    requires |st.inodes| == NR_INODES && nr < NR_INODES && parentNr < NR_INODES
  {
    if kind == Directory then EmptyDirApplied(st, nr, parentNr) else (st, 0)
  }

  /** Blocks that are left for the name: a new directory takes one. */
  function SpaceFor(st: State, kind: Kind): int {
    Available(st.vol) - if kind == Directory then 1 else 0
  }

  /** How naming the new inode `nr` ends, in terms of the file system before. */
  ghost predicate Outcome(st: State, s: Names, name: seq<byte>, nr: nat, kind: Kind, ret: int, j: nat, wasDirty: bool, dirty: bool) {
    if SpaceFor(st, kind) < 0 then ret == ENOSPC && j == 0 && dirty == wasDirty
    else Exactly(st, s, name, nr, SpaceFor(st, kind), ret, j, !wasDirty, dirty)
  }

  /** How `create` or `mkdir` of an absent name ends, in terms of the file system before the call. */
  ghost predicate Ends(st: State, s: Names, name: seq<byte>, kind: Kind, ret: int, j: nat, wasDirty: bool, dirty: bool) {
    var nr := FirstFreeInode(Namespace.Used(s), 0);
    if nr == NR_INODES then ret == ENOSPC && j == 0 && dirty == wasDirty
    else Outcome(st, s, name, nr, kind, ret, j, wasDirty, dirty)
  }

  lemma SameExactly(st: State, t: Names, s: Names, name: seq<byte>, nr: nat, space: int, ret: int, j: nat, clean: bool, dirty: bool)
    requires Exactly(st, t, name, nr, space, ret, j, clean, dirty) && s.cur == t.cur && s.cur in s.dirs && s.dirs[s.cur] == t.dirs[s.cur]
    ensures Exactly(st, s, name, nr, space, ret, j, clean, dirty)
    ensures ret >= 0 ==> Exactly(st, s, name, nr, space, 0, 0, clean, false)
  {
    hide Encode, FirstFit, Tears, LeavesDirty, TooLittle, ValidEntry;
  }

  /** The conditions are about the directory's own tree, so they may be read off an earlier state in which
      the directory was the same. */
  lemma ExactlyEarlier(st: State, st': State, s: Names, name: seq<byte>, nr: nat, space: int, ret: int, j: nat, clean: bool, dirty: bool)
    requires Exactly(st', s, name, nr, space, ret, j, clean, dirty) && SameFile(st, st', s.cur)
    ensures Exactly(st, s, name, nr, space, ret, j, clean, dirty)
  {
    hide Encode, FirstFit, ValidEntry, Contents, NoHoles, At, BlockOf, TotalNeed;
    var f, g, len := FileOf(st, s.cur), FileOf(st', s.cur), |Encode(Entry(name, nr))|;
    TooLittleSame(f, g, len, space);
    TooLittleSame(f, g, Room(f.d.size), space);
  }

  lemma TooLittleSame(f: File, g: File, len: nat, space: int)
    requires len > 0 && f.d.size >= 0 && g.d == f.d && SameSlots(f.vol, g.vol, f.d)
    ensures TooLittle(g, len, space) <==> TooLittle(f, len, space)
  {
    hide At, BlockOf, TotalNeed;
    TotalSame(f, g, BlockOf(f.d.size), BlockOf(f.d.size), EndBlockOf(f.d.size, len));
  }

  // ----- the space that a new directory takes -----

  lemma FirstNeed(f: File, len: nat)
    requires Sized(f) && f.d.size == 0 && 0 < len <= BLOCK_SIZE
    ensures BlockOf(0) == 0 && TotalNeed(f, 0, 0, EndBlockOf(0, len)) == 1
  {
    hide MapBlock;
    OffsetSum(len - 1);
    assert TotalNeed(f, 0, 0, 1) == NeedAfter(f, 0, 0) + TotalNeed(f, 0, 1, 1);
  }

  lemma NoNeed(f: File, len: nat)
    requires NoHoles(f) && f.d.size > 0 && len > 0 && f.d.size + len <= BLOCK_SIZE
    ensures BlockOf(f.d.size) == 0 && TotalNeed(f, 0, 0, EndBlockOf(f.d.size, len)) == 0
  {
    hide MapBlock;
    OffsetSum(f.d.size + len - 1);
    assert MapBlock(f, 0) != 0;
    assert TotalNeed(f, 0, 0, 1) == NeedAfter(f, 0, 0) + TotalNeed(f, 0, 1, 1);
  }

  /** Adding an entry at the end of directory `n`: what it takes, and what it leaves alone. */
  lemma AppendSpace(st: State, t: Names, n: nat, es: Log, e: Entry)
    requires Sound(st) && |st.inodes| == NR_INODES && n < NR_INODES && n in st.usedInodes && st.usedInodes == Namespace.Used(t)
    requires Holds(FileOf(st, n), es) && ValidLog(es) && ValidEntry(e)
    ensures FileOf(st, n).d.size == |Bytes(es)|
    ensures var f, len := FileOf(st, n), |Encode(e)|;
      var (st', r) := Apply(st, Op.Write(n, |Bytes(es)|, Encode(e)));
      && (r < 0 <==> TooLittle(f, len, Available(st.vol)))
      && (r < 0 ==> r == ENOSPC || r == EFBIG)
      && (r < 0 && f.d.size + len <= MAX_FILE_SIZE ==> r == ENOSPC)
      && (r >= 0 ==> Available(st'.vol) == Available(st.vol) - TotalNeed(f, BlockOf(f.d.size), BlockOf(f.d.size), EndBlockOf(f.d.size, len)))
      && Available(st.vol) >= 0
      && forall m :: m in Namespace.Used(t) && m != n ==> SameFile(st, st', m)
  {
    hide FileInv, Bytes, Encode, FileContents.WriteData, Contents, NoHoles, Available, TotalNeed, BlockOf, Sound,
      SameFile, Apply, TooLittle;
    var f, buf := FileOf(st, n), Encode(e);
    HoldsSize(f, es, |es|);
    var own, foreign :| FileInv(f, own, foreign);
    SpaceKnown(f, own, foreign);
    AddFailsIff(f, es, e);
    WriteTakes(f, f.d.size, buf, own, foreign);
    WriteErrors(f, f.d.size, buf);
    NotTooBig(f, f.d.size, buf, own, foreign);
    var f', r := ApplyWrite(st, n, |Bytes(es)|, buf);
    forall m | m in Namespace.Used(t) && m != n ensures SameFile(st, Apply(st, Op.Write(n, |Bytes(es)|, buf)).0, m) {
      OthersKept(st, Op.Write(n, |Bytes(es)|, buf), m);
    }
  }

  lemma SpaceKnown(f: File, own: map<int, Slot>, foreign: set<int>)
    requires FileInv(f, own, foreign)
    ensures Available(f.vol) >= 0
  {
    hide At, Sized;
    AvailableNonNegative(f, own, foreign);
  }

  lemma NotTooBig(f: File, start: nat, buf: seq<byte>, own: map<int, Slot>, foreign: set<int>)
    requires FileInv(f, own, foreign) && buf != []
    ensures start + |buf| <= MAX_FILE_SIZE && FileContents.WriteData(f, start, buf).1 < 0 ==> FileContents.WriteData(f, start, buf).1 == ENOSPC
  {
    hide FileInv, FileContents.WriteData, Contents, Overwrite, SameTree, Need, Available, IndexOf, BlockOf;
    var k, own' := WriteDataSpec(f, start, buf, own, foreign);
  }

  lemma HoldsFilled(f: File, es: Log)
    requires Holds(f, es)
    ensures Sized(f) && NoHoles(f) && f.d.size == |Bytes(es)|
  {
    hide TreeInv, NoHoles, Bytes, MapBlock, ByteAt;
  }

  /** A new directory takes one block, or fails if there is none. */
  lemma EmptyDirSpace(st: State, t: Names, nr: nat, parentNr: nat)
    requires Mounted(st, t) && nr in t.dirs && t.dirs[nr] == [] && parentNr < NR_INODES
    ensures |st.inodes| == NR_INODES && nr < NR_INODES
    ensures var (st', r) := EmptyDirApplied(st, nr, parentNr);
      && (if Available(st.vol) >= 1 then r >= 0 && Available(st'.vol) == Available(st.vol) - 1 else r == ENOSPC)
      && forall m :: m in Namespace.Used(t) && m != nr ==> SameFile(st, st', m)
  {
    hide Mounted, Fits, Bytes, Encode, Apply, Available, TotalNeed, SameFile, BlockOf, Sound, Holds, Offset, FirstFit,
      Lookup, Sized, NoHoles;
    FitsAt(st, t, nr);
    MountedSound(st, t);
    NewOffsets(nr, parentNr);
    NewLogAdded(nr, parentNr);
    var dot, dotDot := Entry(DOT, nr), Entry(DOTDOT, parentNr);
    HoldsFilled(FileOf(st, nr), []);
    AppendSpace(st, t, nr, [], dot);
    FirstNeed(FileOf(st, nr), |Encode(dot)|);
    var j := EntryApplied(st, t, nr, DOT, nr);
    var (st1, r1) := Apply(st, Op.Write(nr, 0, Encode(dot)));
    if r1 >= 0 {
      var t1 := t.(dirs := t.dirs[nr := [dot]]);
      FitsAt(st1, t1, nr);
      MountedSound(st1, t1);
      HoldsFilled(FileOf(st1, nr), [dot]);
      AppendSpace(st1, t1, nr, [dot], dotDot);
      NoNeed(FileOf(st1, nr), |Encode(dotDot)|);
      var st2 := Apply(st1, Op.Write(nr, |Encode(dot)|, Encode(dotDot))).0;
      assert Namespace.Used(t1) == Namespace.Used(t);
      forall m | m in Namespace.Used(t) && m != nr ensures SameFile(st, st2, m) { SameFileTwice(st, st1, st2, m); }
    }
  }

  lemma NewOffsets(nr: nat, parentNr: nat)
    requires nr < NR_INODES && parentNr < NR_INODES
    ensures FirstFit([], DOT, 0) == 0 == Offset([], 0) && ValidEntry(Entry(DOT, nr)) && ValidEntry(Entry(DOTDOT, parentNr))
    ensures ValidLog([Entry(DOT, nr)]) && FirstFit([Entry(DOT, nr)], DOTDOT, 0) == 1
    ensures Offset([Entry(DOT, nr)], 1) == |Encode(Entry(DOT, nr))| == |Bytes([Entry(DOT, nr)])| == HEADER + 2
    ensures Bytes([]) == [] && |Encode(Entry(DOTDOT, parentNr))| == HEADER + 3
  {
    hide Encode;
    assert [Entry(DOT, nr)][..1] == [Entry(DOT, nr)];
    assert [Entry(DOT, nr)][..0] == [];
  }

  /** The conditions on the state in which the name is added, read off the state before that. */
  lemma FurnishedOutcome(st: State, s: Names, name: seq<byte>, nr: nat, kind: Kind, ret: int, j: nat, wasDirty: bool, dirty: bool)
    requires Mounted(st, With(s, nr, kind)) && s.cur in s.dirs && nr !in Namespace.Used(s)
    requires |st.inodes| == NR_INODES && nr < NR_INODES && s.cur < NR_INODES
    requires var p := Furnished(st, nr, s.cur, kind);
      if p.1 >= 0 then Exactly(p.0, s, name, nr, Available(p.0.vol), ret, j, !wasDirty, dirty)
      else ret == p.1 && j == 0 && dirty == wasDirty
    ensures Outcome(st, s, name, nr, kind, ret, j, wasDirty, dirty)
  {
    hide Mounted, Exactly, EmptyDirApplied, Available, SameFile;
    var t := With(s, nr, kind);
    MountedSpace(st, t, s.cur);
    if kind == Directory {
      EmptyDirSpace(st, t, nr, s.cur);
      var p := EmptyDirApplied(st, nr, s.cur);
      if p.1 >= 0 {
        assert s.cur in Namespace.Used(t) && s.cur != nr;
        ExactlyEarlier(st, p.0, s, name, nr, Available(p.0.vol), ret, j, !wasDirty, dirty);
      }
    }
  }

  lemma MountedSpace(st: State, t: Names, n: nat)
    requires Mounted(st, t) && n in t.dirs
    ensures Available(st.vol) >= 0
  {
    hide FileInv, Available, NoHoles, Bytes, Contents;
    FitsAt(st, t, n);
    var own, foreign :| FileInv(FileOf(st, n), own, foreign);
    SpaceKnown(FileOf(st, n), own, foreign);
  }

  lemma CreatedEnds(st: State, s: Names, name: seq<byte>, kind: Kind, ret: int, j: nat, wasDirty: bool, dirty: bool)
    requires Mounted(st, s) && s.cur in s.dirs && |st.inodes| == NR_INODES && st.usedInodes == Namespace.Used(s) && s.cur < NR_INODES
    requires var nr := FirstFreeInode(Namespace.Used(s), 0);
      if nr == NR_INODES then ret == ENOSPC && j == 0 && dirty == wasDirty
      else Outcome(Apply(st, Op.Create(kind)).0, s, name, nr, kind, ret, j, wasDirty, dirty)
    ensures Ends(st, s, name, kind, ret, j, wasDirty, dirty)
  {
    hide Mounted, Available, SameFile, FirstFreeInode;
    var nr := FirstFreeInode(Namespace.Used(s), 0);
    if nr < NR_INODES {
      var st1 := Apply(st, Op.Create(kind)).0;
      CreatedSame(st, kind, s.cur);
      if SpaceFor(st, kind) >= 0 { ExactlySame(st, st1, s, name, nr, SpaceFor(st, kind), ret, j, !wasDirty, dirty); }
    }
  }

  lemma CreatedSame(st: State, kind: Kind, n: nat)
    requires |st.inodes| == NR_INODES && n < NR_INODES && n in st.usedInodes
    ensures var st1 := Apply(st, Op.Create(kind)).0;
      |st1.inodes| == NR_INODES && st1.vol == st.vol && FileOf(st1, n) == FileOf(st, n)
  {}

  lemma ExactlySame(st: State, st': State, s: Names, name: seq<byte>, nr: nat, space: int, ret: int, j: nat, clean: bool, dirty: bool)
    requires s.cur < |st.inodes| && s.cur < |st'.inodes| && FileOf(st', s.cur) == FileOf(st, s.cur)
    requires Exactly(st', s, name, nr, space, ret, j, clean, dirty)
    ensures Exactly(st, s, name, nr, space, ret, j, clean, dirty)
  {
    hide Encode, FirstFit, Tears, LeavesDirty, TooLittle, ValidEntry;
  }
}
