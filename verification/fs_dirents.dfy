/** The bytes of a directory: a log of entries, in which removal leaves a tombstone and a tombstone of
    the same name length may be written over (fs/dir.c). */
module Dirents {
  import opened Layout

  const EEXIST := -17
  const ENOENT := -2
  const EINVAL := -22
  const ENOTEMPTY := -39
  const INVALID_INODE_NR := -1

  /** Size of `struct dirent`: the length of the name and the inode number. */
  const HEADER := 8

  const DOT: seq<byte> := [46]
  const DOTDOT: seq<byte> := [46, 46]

  /** One entry; a negative inode number marks a tombstone. The name is held without its final NUL. */
  datatype Entry = Entry(name: seq<byte>, nr: int)

  type Log = seq<Entry>

  predicate Live(e: Entry) { e.nr >= 0 }

  /** A C string whose length with its NUL fits the length field. */
  predicate CName(name: seq<byte>) {
    0 !in name && |name| + 1 < TWO_31
  }

  predicate ValidEntry(e: Entry) {
    CName(e.name) && INVALID_INODE_NR <= e.nr < TWO_31
  }

  ghost predicate ValidLog(es: Log) {
    forall k :: 0 <= k < |es| ==> ValidEntry(es[k])
  }

  // ----- the encoding -----

  /** An `s32` as it lies in memory. */
  function Bytes32(p: int): (b: seq<byte>)
    requires -TWO_31 <= p < TWO_31
    ensures |b| == 4
  {
    var u := p % TWO_32;
    [u % 256, u / 256 % 256, u / 65536 % 256, u / 16777216]
  }

  function Int32(b: seq<byte>, at: nat): int
    requires at + 4 <= |b|
  {
    var u: int := b[at] as int + 256 * b[at + 1] as int + 65536 * b[at + 2] as int + 16777216 * b[at + 3] as int;
    if u < TWO_31 then u else u - TWO_32
  }

  lemma Digits(u: nat)
    requires u < TWO_32
    ensures u == u % 256 + 256 * (u / 256 % 256) + 65536 * (u / 65536 % 256) + 16777216 * (u / 16777216)
  {}

  lemma Int32OfFour(p: int, b: seq<byte>)
    requires -TWO_31 <= p < TWO_31 && b == Bytes32(p)
    ensures Int32(b, 0) == p
  {
    Digits(p % TWO_32);
  }

  lemma Int32OfBytes32(p: int, before: seq<byte>, after: seq<byte>)
    requires -TWO_31 <= p < TWO_31
    ensures Int32(before + Bytes32(p) + after, |before|) == p
  {
    hide Bytes32;
    Int32OfFour(p, Bytes32(p));
    var b := before + Bytes32(p) + after;
    assert b[|before|] == Bytes32(p)[0] && b[|before| + 1] == Bytes32(p)[1];
    assert b[|before| + 2] == Bytes32(p)[2] && b[|before| + 3] == Bytes32(p)[3];
  }

  /** The record `testfs_write_dirent` writes. */
  function Encode(e: Entry): (b: seq<byte>)
    requires ValidEntry(e)
    ensures |b| == HEADER + |e.name| + 1
  {
    Bytes32(|e.name| + 1) + Bytes32(e.nr) + e.name + [0]
  }

  /** The string at the start of `chars`, up to the first NUL. */
  function StringAt(chars: seq<byte>): seq<byte> {
    if chars == [] || chars[0] == 0 then [] else [chars[0]] + StringAt(chars[1..])
  }

  lemma {:induction false} StringOfName(name: seq<byte>)
    requires 0 !in name
    ensures StringAt(name + [0]) == name
  {
    if name != [] {
      assert (name + [0])[1..] == name[1..] + [0];
      StringOfName(name[1..]);
    }
  }

  /** What a reader of a record finds. */
  lemma DecodeEncode(e: Entry)
    requires ValidEntry(e)
    ensures var b := Encode(e);
      && Int32(b, 0) == |e.name| + 1 && Int32(b, 4) == e.nr
      && b[HEADER..] == e.name + [0] && StringAt(b[HEADER..]) == e.name
  {
    hide StringAt;
    Int32OfBytes32(|e.name| + 1, [], Bytes32(e.nr) + e.name + [0]);
    assert [] + Bytes32(|e.name| + 1) + (Bytes32(e.nr) + e.name + [0]) == Encode(e);
    Int32OfBytes32(e.nr, Bytes32(|e.name| + 1), e.name + [0]);
    assert Bytes32(|e.name| + 1) + Bytes32(e.nr) + (e.name + [0]) == Encode(e);
    assert Encode(e)[HEADER..] == e.name + [0];
    StringOfName(e.name);
  }

  /** The bytes of the whole directory. */
  ghost function Bytes(es: Log): seq<byte>
    requires ValidLog(es)
  {
    if es == [] then [] else Bytes(es[..|es| - 1]) + Encode(es[|es| - 1])
  }

  /** Where record `k` begins; for `k` the number of records, the directory size. */
  ghost function Offset(es: Log, k: nat): nat
    requires ValidLog(es) && k <= |es|
  {
    |Bytes(es[..k])|
  }

  /** The directory is the records before `k`, record `k`, and the rest. */
  lemma {:induction false} RecordAt(es: Log, k: nat)
    requires ValidLog(es) && k < |es|
    ensures Offset(es, k + 1) == Offset(es, k) + |Encode(es[k])| <= |Bytes(es)|
    ensures Bytes(es)[..Offset(es, k)] == Bytes(es[..k])
    ensures Bytes(es)[Offset(es, k)..Offset(es, k + 1)] == Encode(es[k])
  {
    hide Encode;
    var last := |es| - 1;
    assert es[..k + 1][..k] == es[..k];
    if k < last {
      RecordAt(es[..last], k);
      assert es[..last][..k] == es[..k] && es[..last][..k + 1] == es[..k + 1];
    } else {
      assert es[..k + 1] == es;
    }
  }

  lemma OffsetBounds(es: Log, k: nat)
    requires ValidLog(es) && k <= |es|
    ensures k < |es| ==> Offset(es, k) + HEADER < Offset(es, k + 1) <= |Bytes(es)|
    ensures k == |es| ==> Offset(es, k) == |Bytes(es)|
    ensures Offset(es, 0) == 0
  {
    assert es[..|es|] == es && es[..0] == [];
    if k < |es| { RecordAt(es, k); }
  }

  /** Bytes that hold a log hold only one: what is stored can be read back. */
  lemma {:induction false} BytesDetermineLog(a: Log, b: Log)
    requires ValidLog(a) && ValidLog(b) && Bytes(a) <= Bytes(b)
    ensures a <= b
    decreases |a|
  {
    hide Encode;
    if a != [] {
      var k := |a| - 1;
      BytesDetermineLog(a[..k], b);
      OffsetBounds(a, k);
      OffsetBounds(b, k);
      assert a[..k] == b[..k];
      SameRecord(a, b, k);
      assert a == a[..k] + [a[k]];
    }
  }

  lemma SameRecord(a: Log, b: Log, k: nat)
    requires ValidLog(a) && ValidLog(b) && Bytes(a) <= Bytes(b) && k < |a| && k < |b| && Offset(a, k) == Offset(b, k)
    ensures a[k] == b[k]
  {
    hide Bytes32, StringAt, Int32, Bytes;
    RecordAt(a, k);
    RecordAt(b, k);
    DecodeEncode(a[k]);
    DecodeEncode(b[k]);
    var o := Offset(a, k);
    var x, y := Encode(a[k]), Encode(b[k]);
    assert forall i :: 0 <= i < |x| && i < |y| ==> x[i] == Bytes(a)[o + i] == Bytes(b)[o + i] == y[i];
    SameHeader(x, y);
    assert x == y;
  }

  lemma SameHeader(x: seq<byte>, y: seq<byte>)
    requires |x| >= HEADER && |y| >= HEADER && forall i :: 0 <= i < HEADER ==> x[i] == y[i]
    ensures Int32(x, 0) == Int32(y, 0) && Int32(x, 4) == Int32(y, 4)
  {}

  // ----- the log as a map from names to inode numbers -----

  /** The first live entry called `name`. */
  function FirstLive(es: Log, name: seq<byte>, k: nat): (r: nat)
    requires k <= |es|
    ensures k <= r <= |es|
    ensures r < |es| ==> Live(es[r]) && es[r].name == name
    ensures forall i :: k <= i < r ==> !(Live(es[i]) && es[i].name == name)
    decreases |es| - k
  {
    if k == |es| || (Live(es[k]) && es[k].name == name) then k else FirstLive(es, name, k + 1)
  }

  /** What looking a name up returns. */
  function Lookup(es: Log, name: seq<byte>): int {
    var k := FirstLive(es, name, 0);
    if k < |es| then es[k].nr else ENOENT
  }

  /** Where `testfs_add_dirent` stops: at a live entry of that name, or at a tombstone it can reuse. */
  function FirstFit(es: Log, name: seq<byte>, k: nat): (r: nat)
    requires k <= |es|
    ensures k <= r <= |es|
    ensures r < |es| ==> if Live(es[r]) then es[r].name == name else |es[r].name| == |name|
    ensures forall i :: k <= i < r ==> if Live(es[i]) then es[i].name != name else |es[i].name| != |name|
    decreases |es| - k
  {
    if k == |es| || (if Live(es[k]) then es[k].name == name else |es[k].name| == |name|) then k
    else FirstFit(es, name, k + 1)
  }

  /** The log after an entry has been added. */
  function Added(es: Log, name: seq<byte>, nr: int): Log {
    var k := FirstFit(es, name, 0);
    if k == |es| then es + [Entry(name, nr)] else if Live(es[k]) then es else es[k := Entry(name, nr)]
  }

  /** The log after the entry found by name has become a tombstone. */
  function Removed(es: Log, name: seq<byte>): Log {
    var k := FirstLive(es, name, 0);
    if k == |es| then es else es[k := es[k].(nr := INVALID_INODE_NR)]
  }

  /** No two live entries have the same name. */
  ghost predicate UniqueNames(es: Log) {
    forall i, j :: 0 <= i < j < |es| && Live(es[i]) && Live(es[j]) ==> es[i].name != es[j].name
  }

  lemma LookupIs(es: Log, name: seq<byte>, k: nat)
    requires UniqueNames(es) && k < |es| && Live(es[k]) && es[k].name == name
    ensures Lookup(es, name) == es[k].nr && FirstLive(es, name, 0) == k
  {}

  lemma LookupNone(es: Log, name: seq<byte>)
    ensures Lookup(es, name) < 0 <==> forall k :: 0 <= k < |es| && Live(es[k]) ==> es[k].name != name
  {}

  /** Adding an absent name changes the lookup of that name only, and keeps names unique. */
  lemma AddedLookup(es: Log, name: seq<byte>, nr: int, other: seq<byte>)
    requires UniqueNames(es) && Lookup(es, name) < 0 && nr >= 0
    ensures UniqueNames(Added(es, name, nr))
    ensures Lookup(Added(es, name, nr), other) == if other == name then nr else Lookup(es, other)
  {
    hide Lookup, FirstLive;
    var es' := Added(es, name, nr);
    var k := FirstFit(es, name, 0);
    LookupNone(es, name);
    assert k < |es| ==> !Live(es[k]);
    if other == name {
      LookupIs(es', name, k);
    } else {
      SameLookup(es, es', other);
    }
  }

  /** Two logs with unique names and the same live entries of a name agree on it. */
  lemma SameLookup(es: Log, es': Log, name: seq<byte>)
    requires UniqueNames(es) && UniqueNames(es')
    requires forall k {:trigger es[k]} :: 0 <= k < |es| && Live(es[k]) && es[k].name == name ==> k < |es'| && es'[k] == es[k]
    requires forall k {:trigger es'[k]} :: 0 <= k < |es'| && Live(es'[k]) && es'[k].name == name ==> k < |es| && es[k] == es'[k]
    ensures Lookup(es', name) == Lookup(es, name)
  {
    hide Lookup;
    LookupNone(es, name);
    LookupNone(es', name);
    LookupEnds(es, name);
    LookupEnds(es', name);
    var k := FirstLive(es, name, 0);
    if k < |es| {
      LookupIs(es, name, k);
      LookupIs(es', name, k);
    }
  }

  lemma LookupEnds(es: Log, name: seq<byte>)
    ensures Lookup(es, name) < 0 ==> Lookup(es, name) == ENOENT
  {}

  /** Removing a name makes it absent and changes no other lookup. */
  lemma RemovedLookup(es: Log, name: seq<byte>, other: seq<byte>)
    requires UniqueNames(es)
    ensures UniqueNames(Removed(es, name))
    ensures Lookup(Removed(es, name), other) == if other == name then ENOENT else Lookup(es, other)
  {
    hide Lookup;
    var es' := Removed(es, name);
    LookupNone(es', name);
    LookupEnds(es', other);
    if other != name { SameLookup(es, es', other); }
  }

  /** `testfs_add_dirent` by itself keeps names unique exactly when the name is absent or is met before
      a tombstone that fits: it looks no further than the tombstone. */
  lemma AddedUniqueIff(es: Log, name: seq<byte>, nr: nat)
    requires UniqueNames(es)
    ensures UniqueNames(Added(es, name, nr)) <==>
              Lookup(es, name) < 0 ||
              forall k :: 0 <= k < FirstLive(es, name, 0) && !Live(es[k]) ==> |es[k].name| != |name|
  {
    hide Lookup;
    var es' := Added(es, name, nr);
    var k, live := FirstFit(es, name, 0), FirstLive(es, name, 0);
    LookupNone(es, name);
    if live < |es| && k < live {
      assert es'[k] == Entry(name, nr) && es'[live] == es[live];
      assert !Live(es[k]) && |es[k].name| == |name|;
    } else if live < |es| {
      assert k == live && es' == es;
    } else {
      LookupNone(es, name);
      AddedLookup(es, name, nr, name);
    }
  }

  /** The check in `testfs_create_file_or_dir` is needed: here the name is found twice afterwards. */
  lemma AddedAloneDuplicates()
    ensures var es := [Entry([97], INVALID_INODE_NR), Entry([98], 3)];
      UniqueNames(es) && !UniqueNames(Added(es, [98], 5))
  {
    var es := [Entry([97], INVALID_INODE_NR), Entry([98], 3)];
    assert FirstFit(es, [98], 0) == 0;
    var es' := Added(es, [98], 5);
    assert es'[0] == Entry([98], 5) && es'[1] == Entry([98], 3);
  }

  /** The first entry with that inode number. */
  function FirstWithNr(es: Log, nr: nat, k: nat): (r: nat)
    requires k <= |es|
    ensures k <= r <= |es|
    ensures r < |es| ==> es[r].nr == nr
    ensures forall i :: k <= i < r ==> es[i].nr != nr
    decreases |es| - k
  {
    if k == |es| || es[k].nr == nr then k else FirstWithNr(es, nr, k + 1)
  }

  /** What makes a directory removable: nothing in it but itself and its parent. */
  predicate EmptyLog(es: Log) {
    forall k :: 0 <= k < |es| && Live(es[k]) ==> es[k].name == DOT || es[k].name == DOTDOT
  }

  // ----- writing records -----

  lemma EncodeLength(e: Entry, e': Entry)
    requires ValidEntry(e) && ValidEntry(e') && |e.name| == |e'.name|
    ensures |Encode(e)| == |Encode(e')|
  {}

  /** Writing a record over one of the same length replaces that entry and moves no other. */
  lemma {:induction false} BytesReplace(es: Log, k: nat, e: Entry)
    requires ValidLog(es) && k < |es| && ValidEntry(e) && |e.name| == |es[k].name|
    ensures ValidLog(es[k := e]) && |Bytes(es[k := e])| == |Bytes(es)|
    ensures Offset(es, k) <= Offset(es, k + 1) <= |Bytes(es)|
    ensures Bytes(es[k := e]) == Bytes(es)[..Offset(es, k)] + Encode(e) + Bytes(es)[Offset(es, k + 1)..]
  {
    hide Encode, Bytes, ValidEntry;
    EncodeLength(es[k], e);
    RecordAt(es, k);
    var last := |es| - 1;
    var es' := es[k := e];
    LastRecord(es);
    if k < last {
      BytesReplace(es[..last], k, e);
      RecordAt(es[..last], k);
      assert es[..last][..k] == es[..k] && es[..last][..k + 1] == es[..k + 1];
      assert es'[..last] == es[..last][k := e];
      LastRecord(es');
      SpliceTail(Bytes(es[..last]), Encode(es[last]), Offset(es, k), Offset(es, k + 1), Encode(e));
    } else {
      assert es'[..last] == es[..last] && es[..k + 1] == es;
      LastRecord(es');
      assert Bytes(es)[Offset(es, k + 1)..] == [];
    }
  }

  lemma LastRecord(es: Log)
    requires ValidLog(es) && es != []
    ensures Bytes(es) == Bytes(es[..|es| - 1]) + Encode(es[|es| - 1])
  {
    hide Encode;
  }

  lemma SpliceTail(x: seq<byte>, tail: seq<byte>, o: nat, p: nat, w: seq<byte>)
    requires o <= p <= |x|
    ensures x[..o] + w + x[p..] + tail == (x + tail)[..o] + w + (x + tail)[p..]
  {
    assert (x + tail)[..o] == x[..o] && (x + tail)[p..] == x[p..] + tail;
  }

  lemma BytesAppend(es: Log, e: Entry)
    requires ValidLog(es) && ValidEntry(e)
    ensures ValidLog(es + [e]) && Bytes(es + [e]) == Bytes(es) + Encode(e)
  {
    assert (es + [e])[..|es|] == es;
  }
}
