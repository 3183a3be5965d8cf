/** The methods of fs/dir.c on one directory inode: each is proved against the log it holds. */
module Directories {
  import opened Layout
  import opened BlockTree
  import opened DirtyFlags
  import opened FileContents
  import opened SuperBlocks
  import opened Inodes
  import opened Dirents
  import RW = ReadWrite

  /** The file is a directory that holds the log `es`; a directory has no holes. */
  ghost predicate Holds(f: File, es: Log) {
    RW.FileOk(f) && NoHoles(f) && f.d.kind == Directory && f.d.size >= 0 && ValidLog(es) && Contents(f) == Bytes(es)
  }

  /** What `testfs_next_dirent` returns: nothing at the end, or the fields and the characters read. */
  datatype Dirent = NoDirent | Dirent(len: int, nr: int, chars: seq<byte>)

  predicate Shows(d: Dirent, e: Entry) {
    d == Dirent(|e.name| + 1, e.nr, e.name + [0])
  }

  lemma HoldsSize(f: File, es: Log, k: nat)
    requires Holds(f, es) && k <= |es|
    ensures f.d.size == |Bytes(es)| <= MAX_FILE_SIZE && RW.FileOk(f)
    ensures k < |es| ==> Offset(es, k) + HEADER < Offset(es, k + 1) <= f.d.size
    ensures k == |es| ==> Offset(es, k) == f.d.size
    ensures Offset(es, 0) == 0
  {
    hide RW.FileOk, Bytes, Offset, ByteAt, Encode;
    RW.FileOkFacts(f);
    OffsetBounds(es, k);
  }

  lemma ReadRecord(f: File, es: Log, k: nat)
    requires Holds(f, es) && k < |es|
    ensures var o := Offset(es, k);
      && o + |Encode(es[k])| == Offset(es, k + 1) <= f.d.size
      && Contents(f)[o..o + HEADER] == Encode(es[k])[..HEADER]
      && Contents(f)[o + HEADER..Offset(es, k + 1)] == Encode(es[k])[HEADER..]
  {
    hide RW.FileOk, Bytes, ByteAt, Encode;
    RecordAt(es, k);
    var o := Offset(es, k);
    var whole := Contents(f)[o..Offset(es, k + 1)];
    assert whole == Encode(es[k]);
    assert whole[..HEADER] == Contents(f)[o..o + HEADER] && whole[HEADER..] == Contents(f)[o + HEADER..Offset(es, k + 1)];
  }

  lemma HeaderFields(e: Entry)
    requires ValidEntry(e)
    ensures Int32(Encode(e)[..HEADER], 0) == |e.name| + 1 && Int32(Encode(e)[..HEADER], 4) == e.nr
    ensures Encode(e)[HEADER..] == e.name + [0]
  {
    hide Encode;
    DecodeEncode(e);
  }

  /** `testfs_next_dirent`: reading goes from one record boundary to the next, and stops exactly at the
      size of the directory. */
  method NextDirent(node: Inode, offset: nat, ghost es: Log, ghost k: nat) returns (d: Dirent, next: nat)
    requires node.sb.Valid() && Holds(node.St(), es) && k <= |es| && offset == Offset(es, k)
    ensures k == |es| ==> d == NoDirent && next == offset
    ensures k < |es| ==> Shows(d, es[k]) && next == Offset(es, k + 1)
  {
    hide Holds, RW.FileOk, SuperBlock.Valid, SuperBlock.Vol, Contents, Bytes, Offset, Encode, Int32;
    HoldsSize(node.St(), es, k);
    HoldsValid(node.St(), es);
    if offset >= node.d.size {
      return NoDirent, offset;
    }
    ReadRecord(node.St(), es, k);
    HeaderFields(es[k]);
    var ret, header := RW.ReadData(node, offset, HEADER);
    assert ret >= 0;
    var len, nr := Int32(header, 0), Int32(header, 4);
    assert len > 0;
    var chars;
    ret, chars := RW.ReadData(node, offset + HEADER, len);
    assert ret >= 0;
    d, next := Dirent(len, nr, chars), offset + HEADER + len;
  }

  /** `strcmp` of a record's name. */
  lemma NameCompares(d: Dirent, e: Entry)
    requires Shows(d, e) && ValidEntry(e)
    ensures StringAt(d.chars) == e.name
  {
    hide StringAt;
    StringOfName(e.name);
  }

  /** `testfs_dir_name_to_inode_nr`. */
  method DirNameToInodeNr(node: Inode, name: seq<byte>, ghost es: Log) returns (ret: int)
    requires node.sb.Valid() && Holds(node.St(), es)
    ensures ret == Lookup(es, name)
  {
    hide Holds, SuperBlock.Valid, SuperBlock.Vol, Offset, Bytes, StringAt, Inode.St, FirstLive;
    ret := ENOENT;
    HoldsSize(node.St(), es, 0);
    HoldsValid(node.St(), es);
    var offset := 0;
    ghost var k := 0;
    var more := true;
    while ret < 0 && more
      invariant k <= |es| && offset == Offset(es, k)
      invariant if ret < 0 then ret == ENOENT && FirstLive(es, name, 0) == FirstLive(es, name, k) && (!more ==> k == |es|)
                else FirstLive(es, name, 0) < |es| && ret == es[FirstLive(es, name, 0)].nr
      decreases |es| - k, more
    {
      var d;
      d, offset := NextDirent(node, offset, es, k);
      if d.NoDirent? {
        more := false;
      } else {
        NameCompares(d, es[k]);
        NextLive(es, name, k);
        if d.nr >= 0 && StringAt(d.chars) == name {
          ret := d.nr;
        }
        k := k + 1;
      }
    }
    NextLive(es, name, k);
  }

  lemma NextLive(es: Log, name: seq<byte>, k: nat)
    requires k <= |es|
    ensures FirstLive(es, name, k) == if k == |es| || (Live(es[k]) && es[k].name == name) then k else FirstLive(es, name, k + 1)
  {}

  lemma HoldsValid(f: File, es: Log)
    requires Holds(f, es)
    ensures ValidLog(es)
  {}

  /** `testfs_find_dirent`. */
  method FindDirent(node: Inode, inodeNr: nat, ghost es: Log) returns (d: Dirent)
    requires node.sb.Valid() && Holds(node.St(), es)
    ensures var k := FirstWithNr(es, inodeNr, 0); if k < |es| then Shows(d, es[k]) else d == NoDirent
  {
    hide Holds, SuperBlock.Valid, SuperBlock.Vol, Offset, Bytes, Inode.St;
    HoldsSize(node.St(), es, 0);
    HoldsValid(node.St(), es);
    var offset := 0;
    d, offset := NextDirent(node, offset, es, 0);
    ghost var k := 0;
    while d.Dirent? && d.nr != inodeNr
      invariant k <= |es| && FirstWithNr(es, inodeNr, 0) == FirstWithNr(es, inodeNr, k)
      invariant if k == |es| then d == NoDirent else Shows(d, es[k]) && offset == Offset(es, k + 1)
      decreases |es| - k
    {
      d, offset := NextDirent(node, offset, es, k + 1);
      k := k + 1;
    }
  }

  // ----- writing a record -----

  /** What a failed write of the record at `at` leaves: a prefix of it that ends with a block, often empty. */
  ghost predicate PartlyWritten(f: File, f': File, at: nat, record: seq<byte>, k: nat) {
    && RW.FileOk(f') && NoHoles(f') && f'.d.kind == f.d.kind && f.d.size >= 0 && f'.d.size >= 0 && k < |record|
    && Contents(f') == Overwrite(Contents(f), at, record[..k]) && (k > 0 ==> IndexOf(at + k) == 0)
  }

  /** The directory after the write of entry `e` as record `k`. */
  function WithEntry(es: Log, k: nat, e: Entry): Log
    requires k <= |es|
  {
    if k == |es| then es + [e] else es[k := e]
  }

  lemma RecordWritten(es: Log, k: nat, e: Entry)
    requires ValidLog(es) && k <= |es| && ValidEntry(e) && (k < |es| ==> |e.name| == |es[k].name|)
    ensures ValidLog(WithEntry(es, k, e)) && Bytes(WithEntry(es, k, e)) == Overwrite(Bytes(es), Offset(es, k), Encode(e))
  {
    hide Encode, Bytes, Offset;
    OffsetBounds(es, k);
    var b, o, w := Bytes(es), Offset(es, k), Encode(e);
    if k == |es| {
      BytesAppend(es, e);
      OverwriteEnd(b, w);
    } else {
      BytesReplace(es, k, e);
      RecordAt(es, k);
      EncodeLength(es[k], e);
      OverwriteMiddle(b, o, w);
    }
  }

  lemma OverwriteAt(b: seq<byte>, o: nat, w: seq<byte>)
    requires o <= |b|
    ensures |Overwrite(b, o, w)| == if o + |w| > |b| then o + |w| else |b|
    ensures forall i {:trigger Overwrite(b, o, w)[i]} :: 0 <= i < |Overwrite(b, o, w)| ==>
              Overwrite(b, o, w)[i] == if o <= i < o + |w| then w[i - o] else b[i]
  {
    if w != [] {
      var s := Overwrite(b, o, w);
      forall i | 0 <= i < |s| ensures s[i] == if o <= i < o + |w| then w[i - o] else b[i] {}
    }
  }

  lemma OverwriteEnd(b: seq<byte>, w: seq<byte>)
    ensures Overwrite(b, |b|, w) == b + w
  {
    hide Overwrite;
    OverwriteAt(b, |b|, w);
  }

  lemma OverwriteMiddle(b: seq<byte>, o: nat, w: seq<byte>)
    requires o + |w| <= |b|
    ensures Overwrite(b, o, w) == b[..o] + w + b[o + |w|..]
  {
    hide Overwrite;
    OverwriteAt(b, o, w);
  }

  /** Writing a record over another needs no block and cannot fail. */
  lemma RecordStored(f: File, es: Log, k: nat, e: Entry) returns (n: nat)
    requires Holds(f, es) && k <= |es| && ValidEntry(e) && (k < |es| ==> |e.name| == |es[k].name|)
    ensures var (f', r) := FileContents.WriteData(f, Offset(es, k), Encode(e));
      if r < 0 then k == |es| && PartlyWritten(f, f', Offset(es, k), Encode(e), n) else Holds(f', WithEntry(es, k, e))
  {
    hide FileInv, Encode, Bytes, Offset, FileContents.WriteData, Contents, Overwrite, NoHoles;
    var own, foreign :| FileInv(f, own, foreign);
    var own';
    var w := Encode(e);
    n, own' := WriteDataSpec(f, Offset(es, k), w, own, foreign);
    RecordWritten(es, k, e);
    HoldsSize(f, es, k);
    WriteFills(f, Offset(es, k), w, own, foreign);
    if k < |es| {
      RecordFits(es, k, e);
      RewriteSucceeds(f, Offset(es, k), w, own, foreign);
    }
    assert w[..|w|] == w;
    var (f', r) := FileContents.WriteData(f, Offset(es, k), w);
    if f' == f { n := 0; NothingWritten(Contents(f), Offset(es, k), w); }
  }

  lemma RecordFits(es: Log, k: nat, e: Entry)
    requires ValidLog(es) && k < |es| && ValidEntry(e) && |e.name| == |es[k].name|
    ensures Offset(es, k) + |Encode(e)| <= |Bytes(es)|
  {
    hide Bytes, Offset;
    RecordAt(es, k);
  }

  lemma NothingWritten(b: seq<byte>, at: nat, w: seq<byte>)
    ensures Overwrite(b, at, w[..0]) == b
  {}

  /** Writes a record where one of the same length lies, or at the end. */
  method WriteRecord(node: Inode, e: Entry, offset: nat, ghost es: Log, ghost k: nat) returns (ret: int)
    requires node.sb.Valid() && Holds(node.St(), es) && k <= |es| && offset == Offset(es, k)
    requires ValidEntry(e) && (k < |es| ==> |e.name| == |es[k].name|)
    modifies node`d, node`dirty, node.sb, node.sb.blockFreemap.v
    ensures node.sb.Valid() && node.sb.InodeSide() == old(node.sb.InodeSide())
    ensures (node.St(), ret) == FileContents.WriteData(old(node.St()), offset, Encode(e))
    ensures if ret >= 0 then Holds(node.St(), WithEntry(es, k, e))
            else k == |es| && exists n: nat :: PartlyWritten(old(node.St()), node.St(), offset, Encode(e), n)
  {
    hide SuperBlock.Valid, SuperBlock.Vol, Offset, Bytes, Encode, PartlyWritten, SuperBlock.InodeSide,
      FileContents.WriteData, Inode.St, WithEntry, RW.TreeOk;
    HoldsTree(node.St(), es);
    ghost var n := RecordStored(node.St(), es, k, e);
    ret := RW.WriteData(node, Encode(e), offset);
  }

  /** `testfs_write_dirent`. */
  method WriteDirent(node: Inode, name: seq<byte>, inodeNr: nat, offset: nat, ghost es: Log, ghost k: nat) returns (ret: int)
    requires node.sb.Valid() && Holds(node.St(), es) && k <= |es| && offset == Offset(es, k)
    requires ValidEntry(Entry(name, inodeNr)) && (k < |es| ==> |name| == |es[k].name|)
    modifies node`d, node`dirty, node.sb, node.sb.blockFreemap.v
    ensures node.sb.Valid() && node.sb.InodeSide() == old(node.sb.InodeSide())
    ensures (node.St(), ret) == FileContents.WriteData(old(node.St()), offset, Encode(Entry(name, inodeNr)))
    ensures if ret >= 0 then Holds(node.St(), WithEntry(es, k, Entry(name, inodeNr)))
            else k == |es| && exists n: nat :: PartlyWritten(old(node.St()), node.St(), offset, Encode(Entry(name, inodeNr)), n)
  {
    hide SuperBlock.Valid, SuperBlock.Vol, Offset, Bytes, Encode, PartlyWritten, SuperBlock.InodeSide, Inode.St,
      WithEntry, Holds;
    ret := WriteRecord(node, Entry(name, inodeNr), offset, es, k);
  }

  lemma HoldsTree(f: File, es: Log)
    requires Holds(f, es)
    ensures RW.TreeOk(f)
  {
    RW.FileOkFacts(f);
  }

  lemma NextFit(es: Log, name: seq<byte>, k: nat)
    requires k <= |es|
    ensures FirstFit(es, name, k) ==
              if k == |es| || (if Live(es[k]) then es[k].name == name else |es[k].name| == |name|) then k
              else FirstFit(es, name, k + 1)
  {}

  /** `testfs_add_dirent`: refused if it meets a live entry of that name; otherwise the record is
      written over the first tombstone that fits, or at the end. */
  method AddDirent(node: Inode, name: seq<byte>, inodeNr: nat, ghost es: Log) returns (ret: int)
    requires node.sb.Valid() && Holds(node.St(), es) && ValidEntry(Entry(name, inodeNr))
    modifies node`d, node`dirty, node.sb, node.sb.blockFreemap.v
    ensures node.sb.Valid() && node.sb.InodeSide() == old(node.sb.InodeSide())
    ensures var k := FirstFit(es, name, 0);
      if k < |es| && Live(es[k]) then ret == EEXIST && node.St() == old(node.St())
      else if ret >= 0 then Holds(node.St(), Added(es, name, inodeNr))
      else k == |es| && exists n: nat :: PartlyWritten(old(node.St()), node.St(), Offset(es, k), Encode(Entry(name, inodeNr)), n)
    ensures var k := FirstFit(es, name, 0);
      (k < |es| && Live(es[k])) || (node.St(), ret) == FileContents.WriteData(old(node.St()), Offset(es, k), Encode(Entry(name, inodeNr)))
  {
    hide Holds, SuperBlock.Valid, SuperBlock.Vol, Offset, Bytes, StringAt, Inode.St, FirstFit, PartlyWritten, Encode,
      SuperBlock.InodeSide;
    HoldsSize(node.St(), es, 0);
    HoldsValid(node.St(), es);
    var offset, at, found := 0, 0, false;
    ghost var k := 0;
    var more := true;
    ret := 0;
    while ret == 0 && !found && more
      invariant node.sb.Valid() && node.St() == old(node.St()) && node.sb.InodeSide() == old(node.sb.InodeSide())
      invariant k <= |es| && (ret == 0 || ret == EEXIST)
      invariant ret == 0 && !found ==> FirstFit(es, name, 0) == FirstFit(es, name, k) && offset == Offset(es, k)
      invariant !more ==> ret == 0 && !found && k == |es| && at == Offset(es, k)
      invariant ret == EEXIST ==> !found && FirstFit(es, name, 0) < |es| && Live(es[FirstFit(es, name, 0)])
      invariant found ==> ret == 0 && at == Offset(es, FirstFit(es, name, 0)) && FirstFit(es, name, 0) < |es| && !Live(es[FirstFit(es, name, 0)])
      decreases |es| - k, more
    {
      var d;
      at := offset;
      d, offset := NextDirent(node, offset, es, k);
      NextFit(es, name, k);
      if d.NoDirent? {
        more := false;
      } else {
        NameCompares(d, es[k]);
        if d.nr >= 0 && StringAt(d.chars) == name {
          ret := EEXIST;
        } else if d.nr < 0 && d.len == |name| + 1 {
          found := true;
        }
        k := k + 1;
      }
    }
    NextFit(es, name, k);
    if ret < 0 {
      return;
    }
    FitIs(es, name);
    HoldsSize(node.St(), es, FirstFit(es, name, 0));
    StFields(node);
    assert found || at == node.d.size;
    ret := WriteDirent(node, name, inodeNr, at, es, FirstFit(es, name, 0));
  }

  lemma StFields(node: Inode)
    requires node.sb.Valid()
    ensures node.St().d == node.d && node.St().dirty == node.dirty
  {}

  lemma FitIs(es: Log, name: seq<byte>)
    ensures var k := FirstFit(es, name, 0);
      k < |es| ==> if Live(es[k]) then es[k].name == name else |es[k].name| == |name|
  {}

  /** The loop of `testfs_remove_dirent_allowed`. */
  method CheckEmpty(target: Inode, ghost es: Log) returns (ret: int)
    requires target.sb.Valid() && (target.d.kind == Directory ==> Holds(target.St(), es))
    ensures ret == if target.d.kind == Directory && !EmptyLog(es) then ENOTEMPTY else 0
  {
    hide Holds, SuperBlock.Valid, SuperBlock.Vol, Offset, Bytes, StringAt, Inode.St;
    ret := 0;
    if target.d.kind != Directory {
      return;
    }
    HoldsSize(target.St(), es, 0);
    HoldsValid(target.St(), es);
    var offset := 0;
    ghost var k := 0;
    var more := true;
    while ret == 0 && more
      invariant k <= |es| && (ret == 0 || (ret == ENOTEMPTY && !EmptyLog(es)))
      invariant ret == 0 ==> offset == Offset(es, k) && (!more ==> k == |es|) &&
                             forall i :: 0 <= i < k && Live(es[i]) ==> es[i].name == DOT || es[i].name == DOTDOT
      decreases |es| - k, more
    {
      var d;
      d, offset := NextDirent(target, offset, es, k);
      if d.NoDirent? {
        more := false;
      } else {
        NameCompares(d, es[k]);
        if d.nr >= 0 && StringAt(d.chars) != DOT && StringAt(d.chars) != DOTDOT {
          ret := ENOTEMPTY;
        }
        k := k + 1;
      }
    }
  }

  lemma TombstoneOf(es: Log, name: seq<byte>)
    requires ValidLog(es)
    ensures var k := FirstLive(es, name, 0);
      k < |es| ==> ValidEntry(Entry(name, INVALID_INODE_NR)) && es[k].name == name && Removed(es, name) == WithEntry(es, k, Entry(name, INVALID_INODE_NR))
  {}

  /** The search of `testfs_remove_dirent`: where the first live entry of that name lies, and its inode. */
  method FindLive(node: Inode, name: seq<byte>, ghost es: Log) returns (at: nat, inodeNr: int)
    requires node.sb.Valid() && Holds(node.St(), es)
    ensures ValidLog(es) && if Lookup(es, name) < 0 then inodeNr == INVALID_INODE_NR
            else inodeNr == Lookup(es, name) && at == Offset(es, FirstLive(es, name, 0))
  {
    hide Holds, SuperBlock.Valid, SuperBlock.Vol, Offset, Bytes, StringAt, Inode.St, FirstLive;
    HoldsSize(node.St(), es, 0);
    HoldsValid(node.St(), es);
    inodeNr := INVALID_INODE_NR;
    var offset := 0;
    at := 0;
    ghost var k := 0;
    var more := true;
    while inodeNr == INVALID_INODE_NR && more
      invariant k <= |es|
      invariant if inodeNr == INVALID_INODE_NR
                then FirstLive(es, name, 0) == FirstLive(es, name, k) && offset == Offset(es, k) && (!more ==> k == |es|)
                else FirstLive(es, name, 0) < |es| && inodeNr == es[FirstLive(es, name, 0)].nr >= 0 && at == Offset(es, FirstLive(es, name, 0))
      decreases |es| - k, more
    {
      var d;
      at := offset;
      d, offset := NextDirent(node, offset, es, k);
      NextLive(es, name, k);
      if d.NoDirent? {
        more := false;
      } else {
        NameCompares(d, es[k]);
        if d.nr >= 0 && StringAt(d.chars) == name {
          inodeNr := d.nr;
        }
        k := k + 1;
      }
    }
    NextLive(es, name, k);
  }

  lemma LookupIsLive(es: Log, name: seq<byte>)
    ensures var k := FirstLive(es, name, 0);
      if k < |es| then Live(es[k]) && Lookup(es, name) == es[k].nr >= 0 else Lookup(es, name) == ENOENT
  {}
}
