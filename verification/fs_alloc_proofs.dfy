/** Allocation is all-or-nothing, maps exactly the requested block, and keeps the tree well formed. */
module AllocProofs {
  import opened Layout
  import opened BlockTree
  import opened BlockAlloc

  /** Linking fresh blocks into empty slots extends the ownership map. */
  lemma ExtendOwns(v: Volume, d: Dinode, v': Volume, d': Dinode, own: map<int, Slot>, news: map<int, Slot>)
    requires Owns(v, d, own) && own.Keys !! news.Keys
    requires |d'.direct| == NR_DIRECT_BLOCKS && 0 !in news
    requires forall p {:trigger news[p]} :: p in news ==> At(v', d', news[p]) == p && At(v, d, news[p]) == 0
    requires forall s: Slot {:trigger At(v', d', s)} ::
               At(v', d', s) == At(v, d, s) || (At(v', d', s) in news && news[At(v', d', s)] == s)
    ensures Owns(v', d', own + news)
  {
    hide At;
    var own' := own + news;
    forall s: Slot, p: int | p in own' && At(v', d', s) == p ensures own'[p] == s {
      if p in news {
        assert own'[p] == news[p];
        assert At(v', d', news[p]) == p;
        assert p !in own;
        assert At(v, d, s) != p;
      } else {
        assert At(v, d, s) == p && own[p] == s;
      }
    }
    forall p | p in own' ensures p != 0 && At(v', d', own'[p]) == p {
      if p !in news {
        assert At(v, d, own[p]) == p;
      }
    }
  }

  lemma ExtendAccounted(v: Volume, v': Volume, mine: set<int>, foreign: set<int>, added: set<int>)
    requires Accounted(v, mine, foreign)
    requires |v'.data| == NR_BLOCK_BITS && v'.used == v.used + added && added !! v.used
    requires forall p :: p in added ==> DATA_START <= p < DATA_LIMIT
    requires v'.usedCount == v.usedCount + |added| <= v'.maxBlocks
    ensures Accounted(v', mine + added, foreign) && |mine + added| == |mine| + |added|
  {}

  /** What a successful allocation does to the file. */
  ghost predicate Mapped(f: File, f': File, n: nat, r: int, own: map<int, Slot>, own': map<int, Slot>, foreign: set<int>) {
    && TreeInv(f', own', foreign)
    && (forall p {:trigger own[p]} {:trigger own'[p]} :: p in own ==> p in own' && own'[p] == own[p])
    && MapBlock(f', n) == r > 0 && r in own' && own'[r] == LeafSlot(n)
    && (forall s: Slot :: IsLeaf(s) && s != LeafSlot(n) ==> At(f'.vol, f'.d, s) == At(f.vol, f.d, s))
    && SameOutside(f, f', own, foreign)
    && Available(f'.vol) == Available(f.vol) - Need(f, n)
  }

  /** Blocks of other files, data blocks of this file, and the fields not about blocks stay. */
  ghost predicate SameOutside(f: File, f': File, own: map<int, Slot>, foreign: set<int>) {
    && (forall p :: p in foreign ==> Blk(f'.vol, p) == Blk(f.vol, p))
    && (forall p :: p in own && IsLeaf(own[p]) ==> Blk(f'.vol, p) == Blk(f.vol, p))
    && f'.vol.maxBlocks == f.vol.maxBlocks && f'.d.size == f.d.size && f'.d.kind == f.d.kind
  }

  /** The bookkeeping of handing out the blocks `news`. */
  ghost predicate Charged(f: File, f': File, news: set<int>) {
    && |f'.vol.data| == NR_BLOCK_BITS
    && f'.vol.used == f.vol.used + news && news !! f.vol.used
    && (forall p :: p in news ==> DATA_START <= p < DATA_LIMIT)
    && f'.vol.usedCount == f.vol.usedCount + |news| <= f'.vol.maxBlocks == f.vol.maxBlocks
    && f'.d.blockCount == f.d.blockCount + |news|
  }

  /** The blocks `news` hang in slots that were empty, `r` in that of logical block `n`, and no
      other slot changed. */
  ghost predicate Linked(f: File, f': File, n: nat, r: int, news: map<int, Slot>) {
    && |f'.d.direct| == NR_DIRECT_BLOCKS
    && r in news && news[r] == LeafSlot(n)
    && (forall p {:trigger news[p]} :: p in news ==>
          At(f'.vol, f'.d, news[p]) == p && At(f.vol, f.d, news[p]) == 0 && (IsLeaf(news[p]) ==> p == r))
    && (forall s: Slot {:trigger At(f'.vol, f'.d, s)} ::
          At(f'.vol, f'.d, s) == At(f.vol, f.d, s) || (At(f'.vol, f'.d, s) in news && news[At(f'.vol, f'.d, s)] == s))
    && (f'.d.indirect != f.d.indirect ==> LeafSlot(n).IndLeaf?)
    && (f'.d.dindirect != f.d.dindirect ==> LeafSlot(n).DindLeaf?)
    && (forall i: nat :: At(f'.vol, f'.d, DindNode(i)) != At(f.vol, f.d, DindNode(i)) ==>
          LeafSlot(n).DindLeaf? && LeafSlot(n).i == i)
    && (LeafSlot(n).DindLeaf? ==> At(f'.vol, f'.d, DindNode(LeafSlot(n).i)) != 0)
  }

  lemma LinkedIsMapped(f: File, f': File, n: nat, r: int, own: map<int, Slot>, foreign: set<int>, news: map<int, Slot>)
    requires TreeInv(f, own, foreign)
    requires Charged(f, f', news.Keys) && Linked(f, f', n, r, news) && SameOutside(f, f', own, foreign)
    requires |news.Keys| == Need(f, n)
    ensures Mapped(f, f', n, r, own, own + news, foreign)
  {
    hide At, LeafSlot, Need, Available, NoEmptyIndex, Owns, Accounted, SameOutside, IsLeaf;
    LinkedKeepsShape(f, f', n, r, own, foreign, news);
    LinkedSlots(f, f', n, r, own, foreign, news);
    NonEmptyKept(f, f', n, r);
  }

  lemma LinkedSlots(f: File, f': File, n: nat, r: int, own: map<int, Slot>, foreign: set<int>, news: map<int, Slot>)
    requires Shape(f, own, foreign) && Charged(f, f', news.Keys) && Linked(f, f', n, r, news)
    ensures r > 0 && MapBlock(f', n) == r
    ensures forall s: Slot :: At(f.vol, f.d, s) != 0 ==> At(f'.vol, f'.d, s) != 0
    ensures forall s: Slot :: IsLeaf(s) && s != LeafSlot(n) ==> At(f'.vol, f'.d, s) == At(f.vol, f.d, s)
    ensures forall p {:trigger own[p]} :: p in own ==> p !in news
  {
    hide At, LeafSlot;
    assert At(f'.vol, f'.d, news[r]) == r;
    forall s: Slot | IsLeaf(s) && s != LeafSlot(n) ensures At(f'.vol, f'.d, s) == At(f.vol, f.d, s) {
      var p := At(f'.vol, f'.d, s);
      assert p !in news || news[p] != s;
    }
  }

  lemma LinkedKeepsShape(f: File, f': File, n: nat, r: int, own: map<int, Slot>, foreign: set<int>, news: map<int, Slot>)
    requires Shape(f, own, foreign)
    requires Charged(f, f', news.Keys) && Linked(f, f', n, r, news)
    ensures Shape(f', own + news, foreign)
    ensures Available(f'.vol) == Available(f.vol) - |news.Keys|
  {
    hide At, LeafSlot, Blk, IsLeaf, Owns, Accounted, Available;
    LinkedOwns(f, f', n, r, own, foreign, news);
    ChargedSpace(f, f', news.Keys, own, foreign);
    assert (own + news).Keys == own.Keys + news.Keys;
  }

  lemma LinkedOwns(f: File, f': File, n: nat, r: int, own: map<int, Slot>, foreign: set<int>, news: map<int, Slot>)
    requires Shape(f, own, foreign) && Charged(f, f', news.Keys) && Linked(f, f', n, r, news)
    ensures own.Keys !! news.Keys && Owns(f'.vol, f'.d, own + news)
  {
    hide At, LeafSlot, Blk, IsLeaf, Owns;
    ExtendOwns(f.vol, f.d, f'.vol, f'.d, own, news);
  }

  lemma ChargedSpace(f: File, f': File, news: set<int>, own: map<int, Slot>, foreign: set<int>)
    requires Accounted(f.vol, own.Keys, foreign) && Charged(f, f', news)
    ensures Available(f'.vol) == Available(f.vol) - |news|
    ensures Accounted(f'.vol, own.Keys + news, foreign) && |own.Keys + news| == |own.Keys| + |news|
    ensures f'.d.blockCount == f.d.blockCount + |news|
  {
    ExtendAccounted(f.vol, f'.vol, own.Keys, foreign, news);
  }

  /** Adding a leaf keeps the index blocks above it and beside it non-empty. */
  lemma NonEmptyKept(f: File, f': File, n: nat, r: int)
    requires NoEmptyIndex(f.vol, f.d)
    requires r != 0 && At(f'.vol, f'.d, LeafSlot(n)) == r
    requires forall s: Slot :: At(f.vol, f.d, s) != 0 ==> At(f'.vol, f'.d, s) != 0
    requires f'.d.indirect != 0 ==> f.d.indirect != 0 || LeafSlot(n).IndLeaf?
    requires f'.d.dindirect != 0 ==> f.d.dindirect != 0 || LeafSlot(n).DindLeaf?
    requires forall i: nat :: At(f'.vol, f'.d, DindNode(i)) != 0 ==>
               At(f.vol, f.d, DindNode(i)) != 0 || (LeafSlot(n).DindLeaf? && LeafSlot(n).i == i)
    requires LeafSlot(n).DindLeaf? ==> At(f'.vol, f'.d, DindNode(LeafSlot(n).i)) != 0
    ensures NoEmptyIndex(f'.vol, f'.d)
  {
    var s := LeafSlot(n);
    if f'.d.indirect != 0 {
      if f.d.indirect != 0 {
        var i: nat :| At(f.vol, f.d, IndLeaf(i)) != 0;
        assert At(f'.vol, f'.d, IndLeaf(i)) != 0;
      } else {
        assert At(f'.vol, f'.d, IndLeaf(s.i)) != 0;
      }
    }
    if f'.d.dindirect != 0 {
      if f.d.dindirect != 0 {
        var i: nat :| At(f.vol, f.d, DindNode(i)) != 0;
        assert At(f'.vol, f'.d, DindNode(i)) != 0;
      } else {
        assert At(f'.vol, f'.d, DindNode(s.i)) != 0;
      }
    }
    forall i: nat | At(f'.vol, f'.d, DindNode(i)) != 0 ensures exists j: nat :: At(f'.vol, f'.d, DindLeaf(i, j)) != 0 {
      if At(f.vol, f.d, DindNode(i)) != 0 {
        var j: nat :| At(f.vol, f.d, DindLeaf(i, j)) != 0;
        assert At(f'.vol, f'.d, DindLeaf(i, j)) != 0;
      } else {
        assert At(f'.vol, f'.d, DindLeaf(i, s.j)) != 0;
      }
    }
  }

  /** A single new block, hung in the slot of logical block `n`. */
  lemma OneLink(f: File, f': File, n: nat, r: int)
    requires |f'.d.direct| == NR_DIRECT_BLOCKS && r != 0
    requires IsLeaf(LeafSlot(n)) && At(f.vol, f.d, LeafSlot(n)) == 0
    requires forall s: Slot {:trigger At(f'.vol, f'.d, s)} ::
               At(f'.vol, f'.d, s) == if s == LeafSlot(n) then r else At(f.vol, f.d, s)
    requires f'.d.indirect == f.d.indirect && f'.d.dindirect == f.d.dindirect
    requires LeafSlot(n).DindLeaf? ==> At(f.vol, f.d, DindNode(LeafSlot(n).i)) != 0
    ensures Linked(f, f', n, r, map[r := LeafSlot(n)])
  {
    hide At, LeafSlot;
  }

  /** A new data block under a new index block in slot `t`. */
  lemma TwoLinks(f: File, f': File, n: nat, r: int, q: int, t: Slot)
    requires |f'.d.direct| == NR_DIRECT_BLOCKS && r != 0 && q != 0 && q != r
    requires IsLeaf(LeafSlot(n)) && At(f.vol, f.d, LeafSlot(n)) == 0 && At(f.vol, f.d, t) == 0
    requires (LeafSlot(n).IndLeaf? && t == Ind) || (LeafSlot(n).DindLeaf? && t == DindNode(LeafSlot(n).i))
    requires forall s: Slot {:trigger At(f'.vol, f'.d, s)} ::
               At(f'.vol, f'.d, s) == if s == t then q else if s == LeafSlot(n) then r else At(f.vol, f.d, s)
    requires t != Ind ==> f'.d.indirect == f.d.indirect
    requires f'.d.dindirect == f.d.dindirect
    ensures Linked(f, f', n, r, map[q := t, r := LeafSlot(n)])
  {
    hide At, LeafSlot;
  }

  /** A new data block under a new indirect block under a new double-indirect block. */
  lemma ThreeLinks(f: File, f': File, n: nat, r: int, q: int, dd: int)
    requires |f'.d.direct| == NR_DIRECT_BLOCKS && r != 0 && q != 0 && dd != 0 && q != r && dd != q && dd != r
    requires LeafSlot(n).DindLeaf? && At(f.vol, f.d, LeafSlot(n)) == 0
    requires At(f.vol, f.d, Dind) == 0 && At(f.vol, f.d, DindNode(LeafSlot(n).i)) == 0
    requires forall s: Slot {:trigger At(f'.vol, f'.d, s)} ::
               At(f'.vol, f'.d, s) == if s == Dind then dd else if s == DindNode(LeafSlot(n).i) then q
                                      else if s == LeafSlot(n) then r else At(f.vol, f.d, s)
    requires f'.d.indirect == f.d.indirect
    ensures Linked(f, f', n, r, map[dd := Dind, q := DindNode(LeafSlot(n).i), r := LeafSlot(n)])
  {
    hide At, LeafSlot;
  }

  // ----- the direct branch -----

  lemma DirectMapped(f: File, n: nat, own: map<int, Slot>, foreign: set<int>) returns (own': map<int, Slot>)
    requires TreeInv(f, own, foreign) && n < NR_DIRECT_BLOCKS && MapBlock(f, n) == 0 && Available(f.vol) >= 1
    ensures var (f', r) := AllocDirect(f, n); r > 0 && Mapped(f, f', n, r, own, own', foreign)
  {
    hide At, Available, Linked, NoEmptyIndex, Owns, Blk, AllocDirect;
    var (f', r) := AllocDirect(f, n);
    var news := map[r := Direct(n)];
    DirectLinked(f, n, own, foreign);
    assert news.Keys == {r};
    LinkedIsMapped(f, f', n, r, own, foreign, news);
    own' := own + news;
  }

  lemma DirectState(f: File, n: nat)
    requires |f.vol.data| == NR_BLOCK_BITS && (forall p :: p in f.vol.used ==> DATA_START <= p < DATA_LIMIT)
    requires f.vol.usedCount == |f.vol.used| && |f.d.direct| == NR_DIRECT_BLOCKS
    requires n < NR_DIRECT_BLOCKS && Available(f.vol) >= 1
    ensures var (f', r) := AllocDirect(f, n);
      Charged(f, f', {r}) && f'.d == f.d.(blockCount := f'.d.blockCount, direct := f.d.direct[n := r]) &&
      f'.vol.data == f.vol.data
  {
    hide AllocForInode;
    AllocForInodeSpec(f);
  }

  lemma DirectLinked(f: File, n: nat, own: map<int, Slot>, foreign: set<int>)
    requires Shape(f, own, foreign)
    requires n < NR_DIRECT_BLOCKS && MapBlock(f, n) == 0 && Available(f.vol) >= 1
    ensures var (f', r) := AllocDirect(f, n);
      Charged(f, f', {r}) && Linked(f, f', n, r, map[r := Direct(n)]) && SameOutside(f, f', own, foreign)
  {
    hide Ptr, AllocDirect, Linked, Available, Blk;
    DirectState(f, n);
    var (f', r) := AllocDirect(f, n);
    BlkFields(f.vol, f'.vol);
    OneLink(f, f', n, r);
  }

  lemma BlkFields(v: Volume, v': Volume)
    requires v'.data == v.data
    ensures forall p {:trigger Blk(v', p)} :: Blk(v', p) == Blk(v, p)
  {}

  // ----- the single-indirect branch -----

  /** Only the leaves under the indirect block depend on its content. */
  lemma IndirectFrame(v: Volume, v': Volume, d: Dinode, own: map<int, Slot>, s: Slot)
    requires Owns(v, d, own) && !s.IndLeaf?
    requires forall p {:trigger own[p]} :: p in own && own[p] != Ind ==> Blk(v', p) == Blk(v, p)
    ensures At(v', d, s) == At(v, d, s)
  {
    hide Ptr, Blk;
    assert At(v, d, Dind) == d.dindirect;
    assert d.dindirect != 0 ==> d.dindirect in own && own[d.dindirect] == Dind;
    if s.DindLeaf? {
      var q := At(v, d, DindNode(s.i));
      assert q == PtrIn(v, d.dindirect, s.i);
      assert q != 0 ==> q in own && own[q] == DindNode(s.i);
    }
  }

  lemma SingleStateOld(f: File, i: nat)
    requires |f.vol.data| == NR_BLOCK_BITS && (forall p :: p in f.vol.used ==> DATA_START <= p < DATA_LIMIT)
    requires f.vol.usedCount == |f.vol.used|
    requires f.d.indirect in f.vol.used && i < NR_INDIRECT_BLOCKS && Available(f.vol) >= 1
    ensures var (f', r) := AllocSingle(f, i);
      Charged(f, f', {r}) && f'.d == f.d.(blockCount := f'.d.blockCount) &&
      Blk(f'.vol, f.d.indirect) == SetPtr(Blk(f.vol, f.d.indirect), i, r) &&
      forall p :: p != f.d.indirect ==> Blk(f'.vol, p) == Blk(f.vol, p)
  {
    hide AllocForInode, Put, Blk, SetPtr;
    AllocForInodeSpec(f);
    var (f1, r) := AllocForInode(f);
    BlkOfPut(f1.vol, f.d.indirect, SetPtr(Blk(f.vol, f.d.indirect), i, r));
    BlkFields(f.vol, f1.vol);
  }

  lemma SingleStateNew(f: File, i: nat)
    requires |f.vol.data| == NR_BLOCK_BITS && (forall p :: p in f.vol.used ==> DATA_START <= p < DATA_LIMIT)
    requires f.vol.usedCount == |f.vol.used|
    requires f.d.indirect == 0 && i < NR_INDIRECT_BLOCKS && Available(f.vol) >= 2
    ensures var (f', r) := AllocSingle(f, i);
      var q := f'.d.indirect;
      Charged(f, f', {q, r}) && q != r && 0 < q < TWO_31 && 0 < r < TWO_31 && q !in f.vol.used && f'.d == f.d.(blockCount := f'.d.blockCount, indirect := q) &&
      Blk(f'.vol, q) == SetPtr(ZeroBlock(), i, r) &&
      forall p :: p != q ==> Blk(f'.vol, p) == Blk(f.vol, p)
  {
    hide AllocForInode, Put, Blk, SetPtr, ZeroBlock;
    AllocForInodeSpec(f);
    var (f1, q) := AllocForInode(f);
    var g := f1.(d := f1.d.(indirect := q));
    AllocForInodeSpec(g);
    var (f2, r) := AllocForInode(g);
    BlkOfPut(f2.vol, q, SetPtr(ZeroBlock(), i, r));
    BlkFields(f.vol, f2.vol);
  }

  /** How a successful allocation below the indirect block changes the slots. */
  lemma SingleSlots(v: Volume, d: Dinode, v': Volume, d': Dinode, own: map<int, Slot>, i: nat, r: int, s: Slot)
    requires Owns(v, d, own) && d.indirect >= 0 && d'.indirect > 0 && i < NR_INDIRECT_BLOCKS && 0 <= r < TWO_31
    requires d'.direct == d.direct && d'.dindirect == d.dindirect
    requires d.indirect != 0 ==> d'.indirect == d.indirect && Blk(v', d'.indirect) == SetPtr(Blk(v, d.indirect), i, r)
    requires d.indirect == 0 ==> Blk(v', d'.indirect) == SetPtr(ZeroBlock(), i, r)
    requires forall p {:trigger own[p]} :: p in own && own[p] != Ind ==> Blk(v', p) == Blk(v, p)
    ensures At(v', d', s) == if s == Ind then d'.indirect else if s == IndLeaf(i) then r else At(v, d, s)
  {
    hide Ptr, Blk, SetPtr;
    if s.IndLeaf? {
      if s.i < NR_INDIRECT_BLOCKS {
        PtrOfSetPtr(if d.indirect == 0 then ZeroBlock() else Blk(v, d.indirect), i, r, s.i);
        PtrOfZero(s.i);
      }
    } else if s != Ind {
      IndirectFrame(v, v', d, own, s);
      assert At(v', d', s) == At(v', d, s);
    }
  }

  lemma SingleLinkedOld(f: File, i: nat, own: map<int, Slot>, foreign: set<int>)
    requires Shape(f, own, foreign) && f.d.indirect != 0
    requires i < NR_INDIRECT_BLOCKS && At(f.vol, f.d, IndLeaf(i)) == 0 && Available(f.vol) >= 1
    ensures var (f', r) := AllocSingle(f, i);
      Charged(f, f', {r}) && Linked(f, f', NR_DIRECT_BLOCKS + i, r, map[r := IndLeaf(i)]) && SameOutside(f, f', own, foreign)
  {
    assert At(f.vol, f.d, Ind) == f.d.indirect;
    var (f', r) := AllocSingle(f, i);
    assert own[f.d.indirect] == Ind && f.d.indirect in f.vol.used;
    SingleStateOld(f, i);
    forall s: Slot ensures At(f'.vol, f'.d, s) == if s == IndLeaf(i) then r else At(f.vol, f.d, s) {
      SingleSlots(f.vol, f.d, f'.vol, f'.d, own, i, r, s);
    }
    OneLink(f, f', NR_DIRECT_BLOCKS + i, r);
  }

  lemma SingleSameOutside(f: File, i: nat, own: map<int, Slot>, foreign: set<int>)
    requires Shape(f, own, foreign) && f.d.indirect == 0 && i < NR_INDIRECT_BLOCKS && Available(f.vol) >= 2
    ensures var (f', r) := AllocSingle(f, i);
      SameOutside(f, f', own, foreign) && f'.d.indirect !in own
  {
    hide Owns, At, Available, Blk, AllocSingle, SetPtr, ZeroBlock, IsLeaf;
    SingleStateNew(f, i);
  }

  lemma SingleLinkedNew(f: File, i: nat, own: map<int, Slot>, foreign: set<int>)
    requires Shape(f, own, foreign) && f.d.indirect == 0
    requires i < NR_INDIRECT_BLOCKS && At(f.vol, f.d, IndLeaf(i)) == 0 && Available(f.vol) >= 2
    ensures var (f', r) := AllocSingle(f, i);
      var news := map[f'.d.indirect := Ind, r := IndLeaf(i)];
      Charged(f, f', news.Keys) && Linked(f, f', NR_DIRECT_BLOCKS + i, r, news) && SameOutside(f, f', own, foreign)
      && |news.Keys| == 2
  {
    hide At, Owns, Blk, Ptr, AllocSingle, SetPtr, ZeroBlock, Linked, SameOutside, Available;
    var (f', r) := AllocSingle(f, i);
    SingleSameOutside(f, i, own, foreign);
    SingleStateNew(f, i);
    assert (map[f'.d.indirect := Ind, r := IndLeaf(i)]).Keys == {f'.d.indirect, r};
    SingleLinks(f, f', i, own, r);
  }

  lemma SingleLinks(f: File, f': File, i: nat, own: map<int, Slot>, r: int)
    requires Owns(f.vol, f.d, own) && f.d.indirect == 0 && i < NR_INDIRECT_BLOCKS && At(f.vol, f.d, IndLeaf(i)) == 0
    requires 0 < f'.d.indirect && 0 < r < TWO_31 && r != f'.d.indirect && f'.d.indirect !in own
    requires f'.d.direct == f.d.direct && f'.d.dindirect == f.d.dindirect
    requires Blk(f'.vol, f'.d.indirect) == SetPtr(ZeroBlock(), i, r)
    requires forall p :: p != f'.d.indirect ==> Blk(f'.vol, p) == Blk(f.vol, p)
    ensures Linked(f, f', NR_DIRECT_BLOCKS + i, r, map[f'.d.indirect := Ind, r := IndLeaf(i)])
  {
    hide Ptr, Blk, SetPtr, ZeroBlock, Linked;
    forall s: Slot ensures At(f'.vol, f'.d, s) ==
        if s == Ind then f'.d.indirect else if s == IndLeaf(i) then r else At(f.vol, f.d, s)
    {
      SingleSlots(f.vol, f.d, f'.vol, f'.d, own, i, r, s);
    }
    TwoLinks(f, f', NR_DIRECT_BLOCKS + i, r, f'.d.indirect, Ind);
  }

  lemma SingleMapped(f: File, i: nat, own: map<int, Slot>, foreign: set<int>) returns (own': map<int, Slot>)
    requires TreeInv(f, own, foreign) && i < NR_INDIRECT_BLOCKS && MapBlock(f, NR_DIRECT_BLOCKS + i) == 0
    requires Available(f.vol) >= Need(f, NR_DIRECT_BLOCKS + i)
    ensures var (f', r) := AllocSingle(f, i); r > 0 && Mapped(f, f', NR_DIRECT_BLOCKS + i, r, own, own', foreign)
  {
    hide At, Available, Linked, NoEmptyIndex, Owns, Blk, AllocSingle;
    var (f', r) := AllocSingle(f, i);
    var news;
    if f.d.indirect == 0 {
      news := map[f'.d.indirect := Ind, r := IndLeaf(i)];
      SingleLinkedNew(f, i, own, foreign);
    } else {
      news := map[r := IndLeaf(i)];
      SingleLinkedOld(f, i, own, foreign);
      assert news.Keys == {r};
    }
    LinkedIsMapped(f, f', NR_DIRECT_BLOCKS + i, r, own, foreign, news);
    own' := own + news;
  }

  // ----- the double-indirect branch -----

  /** The pointers in the double-indirect block, and in the indirect block at entry `i`, as
      `testfs_allocate_block` finds them: all zero when the block does not exist yet. */
  function NodeEntry(f: File, k: nat): int { PtrIn(f.vol, f.d.dindirect, k) }
  function LeafEntry(f: File, i: nat, k: nat): int { PtrIn(f.vol, NodeEntry(f, i), k) }

  /** The blocks written by a successful allocation of leaf `(i, j)`. */
  ghost predicate DoubleState(f: File, f': File, i: nat, j: nat, id: int, r: int, news: set<int>) {
    var dd := f'.d.dindirect;
    && Charged(f, f', news)
    && f'.d == f.d.(blockCount := f'.d.blockCount, dindirect := dd)
    && dd > 0 && id > 0 && r > 0 && id != dd
    && (forall k: nat {:trigger Ptr(Blk(f'.vol, dd), k)} :: k < NR_INDIRECT_BLOCKS ==>
          Ptr(Blk(f'.vol, dd), k) == if k == i then id else NodeEntry(f, k))
    && (forall k: nat {:trigger Ptr(Blk(f'.vol, id), k)} :: k < NR_INDIRECT_BLOCKS ==>
          Ptr(Blk(f'.vol, id), k) == if k == j then r else LeafEntry(f, i, k))
    && (forall p {:trigger Blk(f'.vol, p)} :: p != dd && p != id ==> Blk(f'.vol, p) == Blk(f.vol, p))
  }

  ghost predicate VolumeOk(f: File) {
    && |f.vol.data| == NR_BLOCK_BITS
    && (forall p :: p in f.vol.used ==> DATA_START <= p < DATA_LIMIT)
    && f.vol.usedCount == |f.vol.used|
  }

  lemma DoubleStateLeaf(f: File, i: nat, j: nat)
    requires VolumeOk(f) && i < NR_INDIRECT_BLOCKS && j < NR_INDIRECT_BLOCKS && Available(f.vol) >= 1
    requires f.d.dindirect in f.vol.used && NodeEntry(f, i) in f.vol.used && NodeEntry(f, i) != f.d.dindirect
    ensures var (f', r) := AllocDouble(f, i, j);
      DoubleState(f, f', i, j, NodeEntry(f, i), r, {r}) && f'.d.dindirect == f.d.dindirect
  {
    hide AllocForInode, Put, Blk, SetPtr, Ptr;
    AllocForInodeSpec(f);
    var (f1, r) := AllocForInode(f);
    var id := NodeEntry(f, i);
    BlkOfPut(f1.vol, id, SetPtr(Blk(f.vol, id), j, r));
    BlkFields(f.vol, f1.vol);
    forall k: nat | k < NR_INDIRECT_BLOCKS
      ensures Ptr(SetPtr(Blk(f.vol, id), j, r), k) == if k == j then r else LeafEntry(f, i, k)
    {
      PtrOfSetPtr(Blk(f.vol, id), j, r, k);
    }
  }

  lemma DoubleStateNode(f: File, i: nat, j: nat) returns (id: int)
    requires VolumeOk(f) && i < NR_INDIRECT_BLOCKS && j < NR_INDIRECT_BLOCKS && Available(f.vol) >= 2
    requires f.d.dindirect in f.vol.used && NodeEntry(f, i) == 0
    ensures var (f', r) := AllocDouble(f, i, j);
      DoubleState(f, f', i, j, id, r, {id, r}) && f'.d.dindirect == f.d.dindirect && id != r
  {
    hide AllocForInode, Put, Blk, SetPtr, Ptr, ZeroBlock;
    AllocForInodeSpec(f);
    var (f1, q) := AllocForInode(f);
    id := q;
    AllocForInodeSpec(f1);
    var (f2, r) := AllocForInode(f1);
    var dd := f.d.dindirect;
    var node, leaf := SetPtr(Blk(f.vol, dd), i, id), SetPtr(ZeroBlock(), j, r);
    BlkOfPut(f2.vol, id, leaf);
    BlkOfPut(Put(f2.vol, id, leaf), dd, node);
    BlkFields(f.vol, f2.vol);
    NewPtrs(j, r);
    forall k: nat | k < NR_INDIRECT_BLOCKS ensures Ptr(node, k) == if k == i then id else NodeEntry(f, k) {
      PtrOfSetPtr(Blk(f.vol, dd), i, id, k);
    }
  }

  /** An index block that was empty before one pointer was stored in it. */
  lemma NewPtrs(i: nat, p: int)
    requires i < NR_INDIRECT_BLOCKS && 0 <= p < TWO_31
    ensures forall k: nat {:trigger Ptr(SetPtr(ZeroBlock(), i, p), k)} :: k < NR_INDIRECT_BLOCKS ==>
              Ptr(SetPtr(ZeroBlock(), i, p), k) == if k == i then p else 0
  {
    hide Ptr, SetPtr, ZeroBlock;
    forall k: nat | k < NR_INDIRECT_BLOCKS ensures Ptr(SetPtr(ZeroBlock(), i, p), k) == if k == i then p else 0 {
      PtrOfSetPtr(ZeroBlock(), i, p, k);
      PtrOfZero(k);
    }
  }

  lemma DoubleStateAll(f: File, i: nat, j: nat) returns (id: int)
    requires VolumeOk(f) && i < NR_INDIRECT_BLOCKS && j < NR_INDIRECT_BLOCKS && Available(f.vol) >= 3
    requires f.d.dindirect == 0
    ensures var (f', r) := AllocDouble(f, i, j);
      DoubleState(f, f', i, j, id, r, {f'.d.dindirect, id, r}) && id != r && f'.d.dindirect != r
  {
    hide AllocForInode, Put, Blk, SetPtr, Ptr, ZeroBlock;
    AllocForInodeSpec(f);
    var (f1, dd) := AllocForInode(f);
    var g := f1.(d := f1.d.(dindirect := dd));
    AllocForInodeSpec(g);
    var (f2, q) := AllocForInode(g);
    id := q;
    AllocForInodeSpec(f2);
    var (f3, r) := AllocForInode(f2);
    var node, leaf := SetPtr(ZeroBlock(), i, id), SetPtr(ZeroBlock(), j, r);
    PtrOfZero(i);
    BlkOfPut(f3.vol, id, leaf);
    BlkOfPut(Put(f3.vol, id, leaf), dd, node);
    BlkFields(f.vol, f3.vol);
    NewPtrs(i, id);
    NewPtrs(j, r);
  }

  /** How a successful allocation below the double-indirect block changes the slots. */
  lemma DoubleSlots(f: File, f': File, own: map<int, Slot>, i: nat, j: nat, id: int, r: int, news: set<int>, s: Slot)
    requires Owns(f.vol, f.d, own) && i < NR_INDIRECT_BLOCKS && j < NR_INDIRECT_BLOCKS
    requires DoubleState(f, f', i, j, id, r, news)
    requires forall p {:trigger own[p]} :: p in own ==> p > 0
    requires if f.d.dindirect == 0 then f'.d.dindirect !in own else f'.d.dindirect == f.d.dindirect
    requires if NodeEntry(f, i) == 0 then id !in own else id == NodeEntry(f, i)
    ensures At(f'.vol, f'.d, s) ==
      if s == Dind then f'.d.dindirect else if s == DindNode(i) then id else if s == DindLeaf(i, j) then r
      else At(f.vol, f.d, s)
  {
    hide Ptr, Blk, Charged;
    assert forall k: nat :: At(f.vol, f.d, DindNode(k)) == NodeEntry(f, k);
    assert At(f.vol, f.d, Dind) == f.d.dindirect && At(f.vol, f.d, Ind) == f.d.indirect;
    match s
    case Direct(k) =>
    case Ind =>
    case IndLeaf(k) =>
      assert f.d.indirect != 0 ==> own[f.d.indirect] == Ind;
      assert f.d.dindirect != 0 ==> own[f.d.dindirect] == Dind;
      assert NodeEntry(f, i) != 0 ==> own[NodeEntry(f, i)] == DindNode(i);
    case Dind =>
    case DindNode(k) =>
    case DindLeaf(k, l) =>
      var q := NodeEntry(f, k);
      if q != 0 {
        assert own[q] == DindNode(k);
        assert f.d.dindirect != 0 ==> own[f.d.dindirect] == Dind;
        assert NodeEntry(f, i) != 0 ==> own[NodeEntry(f, i)] == DindNode(i);
      }
  }

  /** The logical block of leaf `(i, j)` below the double-indirect block. */
  function DoubleBlock(i: nat, j: nat): nat {
    NR_DIRECT_BLOCKS + NR_INDIRECT_BLOCKS + NR_INDIRECT_BLOCKS * i + j
  }

  ghost predicate Placed(f: File, f': File, n: nat, r: int, own: map<int, Slot>, foreign: set<int>, news: map<int, Slot>) {
    Charged(f, f', news.Keys) && Linked(f, f', n, r, news) && SameOutside(f, f', own, foreign) && |news.Keys| == Need(f, n)
  }

  /** The blocks written are new, or index blocks of this file. */
  lemma DoubleSameOutside(f: File, f': File, own: map<int, Slot>, foreign: set<int>, i: nat, j: nat, id: int, r: int, news: set<int>)
    requires Shape(f, own, foreign) && DoubleState(f, f', i, j, id, r, news)
    requires if f.d.dindirect == 0 then f'.d.dindirect in news else f'.d.dindirect == f.d.dindirect
    requires if NodeEntry(f, i) == 0 then id in news else id == NodeEntry(f, i)
    ensures SameOutside(f, f', own, foreign)
    ensures f'.d.dindirect in own <==> f.d.dindirect != 0
    ensures id in own <==> NodeEntry(f, i) != 0
    ensures forall p {:trigger own[p]} :: p in own ==> p > 0
  {
    assert At(f.vol, f.d, Dind) == f.d.dindirect && At(f.vol, f.d, DindNode(i)) == NodeEntry(f, i);
    assert f.d.dindirect != 0 ==> own[f.d.dindirect] == Dind;
    assert NodeEntry(f, i) != 0 ==> own[NodeEntry(f, i)] == DindNode(i);
  }

  /** The index blocks on the way to leaf `(i, j)` are this file's. */
  lemma DoubleOwners(f: File, own: map<int, Slot>, foreign: set<int>, i: nat)
    requires Shape(f, own, foreign)
    ensures f.d.dindirect != 0 ==> f.d.dindirect in own && own[f.d.dindirect] == Dind && f.d.dindirect in f.vol.used
    ensures NodeEntry(f, i) != 0 ==> NodeEntry(f, i) in own && own[NodeEntry(f, i)] == DindNode(i) && NodeEntry(f, i) in f.vol.used
    ensures At(f.vol, f.d, Dind) == f.d.dindirect && At(f.vol, f.d, DindNode(i)) == NodeEntry(f, i)
    ensures |f.d.direct| == NR_DIRECT_BLOCKS
  {
    hide Ptr, Blk;
    assert At(f.vol, f.d, Dind) == f.d.dindirect && At(f.vol, f.d, DindNode(i)) == NodeEntry(f, i);
  }

  /** What mapping leaf `(i, j)` takes, and where it hangs. */
  lemma NeedDouble(f: File, i: nat, j: nat)
    requires i < NR_INDIRECT_BLOCKS && j < NR_INDIRECT_BLOCKS && MapBlock(f, DoubleBlock(i, j)) == 0
    ensures Need(f, DoubleBlock(i, j)) == if f.d.dindirect == 0 then 3 else if NodeEntry(f, i) == 0 then 2 else 1
    ensures LeafSlot(DoubleBlock(i, j)) == DindLeaf(i, j) && At(f.vol, f.d, DindLeaf(i, j)) == 0
  {
    hide Ptr, Blk;
    LeafSlotBijection(DoubleBlock(i, j), DindLeaf(i, j));
  }

  lemma StateFields(f: File, f': File, i: nat, j: nat, id: int, r: int, news: set<int>)
    requires DoubleState(f, f', i, j, id, r, news)
    ensures Charged(f, f', news) && f'.d.direct == f.d.direct && f'.d.indirect == f.d.indirect && r > 0 && id > 0 && id != f'.d.dindirect
  {
    hide Ptr, Blk, NodeEntry, LeafEntry, Charged;
  }

  lemma DoublePlacedLeaf(f: File, i: nat, j: nat, own: map<int, Slot>, foreign: set<int>)
    requires Shape(f, own, foreign) && i < NR_INDIRECT_BLOCKS && j < NR_INDIRECT_BLOCKS
    requires f.d.dindirect != 0 && NodeEntry(f, i) != 0 && MapBlock(f, DoubleBlock(i, j)) == 0 && Available(f.vol) >= 1
    ensures var (f', r) := AllocDouble(f, i, j);
      Placed(f, f', DoubleBlock(i, j), r, own, foreign, map[r := DindLeaf(i, j)])
  {
    hide At, Ptr, Blk, AllocDouble, DoubleState, Linked, Charged, SameOutside, Owns, Accounted, Available, NodeEntry,
      Need, MapBlock, DoubleBlock;
    var (f', r) := AllocDouble(f, i, j);
    DoubleOwners(f, own, foreign, i);
    NeedDouble(f, i, j);
    ShapeVolume(f, own, foreign);
    DoubleStateLeaf(f, i, j);
    StateFields(f, f', i, j, NodeEntry(f, i), r, {r});
    DoubleSameOutside(f, f', own, foreign, i, j, NodeEntry(f, i), r, {r});
    forall s: Slot ensures At(f'.vol, f'.d, s) == if s == DindLeaf(i, j) then r else At(f.vol, f.d, s) {
      DoubleSlots(f, f', own, i, j, NodeEntry(f, i), r, {r}, s);
    }
    assert (map[r := DindLeaf(i, j)]).Keys == {r};
    OneLink(f, f', DoubleBlock(i, j), r);
  }

  lemma DoublePlacedNode(f: File, i: nat, j: nat, own: map<int, Slot>, foreign: set<int>) returns (id: int)
    requires Shape(f, own, foreign) && i < NR_INDIRECT_BLOCKS && j < NR_INDIRECT_BLOCKS
    requires f.d.dindirect != 0 && NodeEntry(f, i) == 0 && MapBlock(f, DoubleBlock(i, j)) == 0 && Available(f.vol) >= 2
    ensures var (f', r) := AllocDouble(f, i, j);
      Placed(f, f', DoubleBlock(i, j), r, own, foreign, map[id := DindNode(i), r := DindLeaf(i, j)])
  {
    hide At, Ptr, Blk, AllocDouble, DoubleState, Linked, Charged, SameOutside, Owns, Accounted, Available, NodeEntry,
      Need, MapBlock, DoubleBlock;
    var (f', r) := AllocDouble(f, i, j);
    DoubleOwners(f, own, foreign, i);
    NeedDouble(f, i, j);
    ShapeVolume(f, own, foreign);
    id := DoubleStateNode(f, i, j);
    StateFields(f, f', i, j, id, r, {id, r});
    DoubleSameOutside(f, f', own, foreign, i, j, id, r, {id, r});
    forall s: Slot ensures At(f'.vol, f'.d, s) ==
        if s == DindNode(i) then id else if s == DindLeaf(i, j) then r else At(f.vol, f.d, s)
    {
      DoubleSlots(f, f', own, i, j, id, r, {id, r}, s);
    }
    assert (map[id := DindNode(i), r := DindLeaf(i, j)]).Keys == {id, r};
    TwoLinks(f, f', DoubleBlock(i, j), r, id, DindNode(i));
  }

  lemma ShapeVolume(f: File, own: map<int, Slot>, foreign: set<int>)
    requires Shape(f, own, foreign)
    ensures VolumeOk(f)
  {
    hide Owns;
  }

  lemma DoubleLinkedAll(f: File, f': File, i: nat, j: nat, own: map<int, Slot>, id: int, r: int, news: set<int>)
    requires Owns(f.vol, f.d, own) && DoubleState(f, f', i, j, id, r, news)
    requires i < NR_INDIRECT_BLOCKS && j < NR_INDIRECT_BLOCKS && f.d.dindirect == 0
    requires forall p {:trigger own[p]} :: p in own ==> p > 0
    requires f'.d.dindirect !in own && id !in own && id != r && f'.d.dindirect != r
    requires MapBlock(f, DoubleBlock(i, j)) == 0
    ensures Linked(f, f', DoubleBlock(i, j), r, map[f'.d.dindirect := Dind, id := DindNode(i), r := DindLeaf(i, j)])
  {
    LeafSlotBijection(DoubleBlock(i, j), DindLeaf(i, j));
    var dd := f'.d.dindirect;
    assert At(f.vol, f.d, Dind) == 0 && At(f.vol, f.d, DindNode(i)) == 0;
    forall s: Slot ensures At(f'.vol, f'.d, s) ==
        if s == Dind then dd else if s == DindNode(i) then id else if s == DindLeaf(i, j) then r else At(f.vol, f.d, s)
    {
      DoubleSlots(f, f', own, i, j, id, r, news, s);
    }
    ThreeLinks(f, f', DoubleBlock(i, j), r, id, dd);
  }

  lemma DoublePlacedAll(f: File, i: nat, j: nat, own: map<int, Slot>, foreign: set<int>) returns (id: int)
    requires Shape(f, own, foreign) && i < NR_INDIRECT_BLOCKS && j < NR_INDIRECT_BLOCKS
    requires f.d.dindirect == 0 && MapBlock(f, DoubleBlock(i, j)) == 0 && Available(f.vol) >= 3
    ensures var (f', r) := AllocDouble(f, i, j);
      Placed(f, f', DoubleBlock(i, j), r, own, foreign, map[f'.d.dindirect := Dind, id := DindNode(i), r := DindLeaf(i, j)])
  {
    hide At, Blk, Ptr, AllocDouble, Linked, SameOutside, DoubleState, Available, NodeEntry, DoubleBlock, MapBlock,
      Need;
    var (f', r) := AllocDouble(f, i, j);
    id := DoubleStateAll(f, i, j);
    var dd := f'.d.dindirect;
    NoDoubleYet(f, i, j);
    StateCharged(f, f', i, j, id, r, {dd, id, r});
    DoubleSameOutside(f, f', own, foreign, i, j, id, r, {dd, id, r});
    DoubleLinkedAll(f, f', i, j, own, id, r, {dd, id, r});
    assert (map[dd := Dind, id := DindNode(i), r := DindLeaf(i, j)]).Keys == {dd, id, r};
    assert {dd, id, r} == {dd, id} + {r} && {dd, id} !! {r};
  }

  lemma NoDoubleYet(f: File, i: nat, j: nat)
    requires i < NR_INDIRECT_BLOCKS && j < NR_INDIRECT_BLOCKS && f.d.dindirect == 0
    ensures NodeEntry(f, i) == 0 && (MapBlock(f, DoubleBlock(i, j)) == 0 ==> Need(f, DoubleBlock(i, j)) == 3)
  {
    hide MapBlock;
  }

  lemma StateCharged(f: File, f': File, i: nat, j: nat, id: int, r: int, news: set<int>)
    requires DoubleState(f, f', i, j, id, r, news)
    ensures Charged(f, f', news) && id != f'.d.dindirect
  {
    hide Ptr, Blk, NodeEntry, LeafEntry;
  }

  lemma DoubleMapped(f: File, i: nat, j: nat, own: map<int, Slot>, foreign: set<int>) returns (own': map<int, Slot>)
    requires TreeInv(f, own, foreign) && i < NR_INDIRECT_BLOCKS && j < NR_INDIRECT_BLOCKS
    requires MapBlock(f, DoubleBlock(i, j)) == 0 && Available(f.vol) >= Need(f, DoubleBlock(i, j))
    ensures var (f', r) := AllocDouble(f, i, j); r > 0 && Mapped(f, f', DoubleBlock(i, j), r, own, own', foreign)
  {
    hide At, Ptr, Blk, AllocDouble, Linked, Charged, SameOutside, Owns, Accounted, Available, NodeEntry, Need,
      MapBlock, DoubleBlock, NoEmptyIndex;
    var (f', r) := AllocDouble(f, i, j);
    NeedDouble(f, i, j);
    var news;
    if f.d.dindirect == 0 {
      var id := DoublePlacedAll(f, i, j, own, foreign);
      news := map[f'.d.dindirect := Dind, id := DindNode(i), r := DindLeaf(i, j)];
    } else if NodeEntry(f, i) == 0 {
      var id := DoublePlacedNode(f, i, j, own, foreign);
      news := map[id := DindNode(i), r := DindLeaf(i, j)];
    } else {
      DoublePlacedLeaf(f, i, j, own, foreign);
      news := map[r := DindLeaf(i, j)];
    }
    LinkedIsMapped(f, f', DoubleBlock(i, j), r, own, foreign, news);
    own' := own + news;
  }

  // ----- failures -----

  /** `f'` differs from `f` by the blocks `extra`, handed out but not yet visible to any reader. */
  ghost predicate Reserved(f: File, f': File, extra: set<int>) {
    && f'.vol.used == f.vol.used + extra && extra !! f.vol.used
    && f'.vol.usedCount == f.vol.usedCount + |extra| && f'.vol.maxBlocks == f.vol.maxBlocks
    && f'.d.blockCount == f.d.blockCount + |extra|
    && f'.d.(blockCount := 0, indirect := 0, dindirect := 0) == f.d.(blockCount := 0, indirect := 0, dindirect := 0)
    && |f'.vol.data| == |f.vol.data|
    && (forall p {:trigger Blk(f'.vol, p)} :: p in f.vol.used ==> Blk(f'.vol, p) == Blk(f.vol, p))
  }

  lemma FreeUndoes(f: File, g: File, q: int, extra: set<int>)
    requires Reserved(f, g, extra) && q in extra && DATA_START <= q < DATA_LIMIT && |f.vol.data| == NR_BLOCK_BITS
    ensures Reserved(f, FreeFromInode(g, q), extra - {q})
    ensures FreeFromInode(g, q).d == g.d.(blockCount := g.d.blockCount - 1)
  {
    hide Blk, Put, ZeroBlock;
    BlkOfPut(g.vol, q, ZeroBlock());
    var z := Put(g.vol, q, ZeroBlock());
    BlkFields(z, FreeBlock(g.vol, q));
    assert |extra - {q}| == |extra| - 1;
  }

  lemma SingleFails(f: File, i: nat)
    requires VolumeOk(f) && i < NR_INDIRECT_BLOCKS
    requires Available(f.vol) < if f.d.indirect == 0 then 2 else 1
    requires Available(f.vol) >= 0
    ensures var (f', r) := AllocSingle(f, i); r == ENOSPC && SameTree(f, f')
  {
    hide AllocForInode, FreeFromInode, Available, Blk, Put, SetPtr, ZeroBlock;
    AllocForInodeSpec(f);
    var (f1, q) := AllocForInode(f);
    if q >= 0 && f.d.indirect == 0 {
      var g := f1.(d := f1.d.(indirect := q));
      AllocForInodeSpec(g);
      BlkFields(f.vol, g.vol);
      FreeUndoes(f, g, q, {q});
    }
  }

  /** The double-indirect block was allocated by this call and is released again. */
  lemma DoubleFailsAll(f: File, i: nat, j: nat)
    requires VolumeOk(f) && i < NR_INDIRECT_BLOCKS && j < NR_INDIRECT_BLOCKS && f.d.dindirect == 0
    requires 1 <= Available(f.vol) < 3
    ensures var (f', r) := AllocDouble(f, i, j); r == ENOSPC && SameTree(f, f')
  {
    hide AllocForInode, FreeFromInode, Available, Blk, Put, SetPtr, ZeroBlock, Ptr, AllocNode, SameTree, FillDouble;
    AllocForInodeSpec(f);
    var (f1, q) := AllocForInode(f);
    var g := f1.(d := f1.d.(dindirect := q));
    AllocForInodeSpec(g);
    BlkFields(f.vol, f1.vol);
    var (f2, id) := AllocForInode(g);
    if id >= 0 {
      AllocForInodeSpec(f2);
      BlkFields(f.vol, f2.vol);
      LeafUndone(f, f2, i, j, q, id);
      NodeFails(g, i, j, f2, id);
    } else {
      FreeUndoes(f, g, q, {q});
      NodeFails(g, i, j, f2, id);
      UndoneAll(f, g, q);
    }
  }

  /** How `AllocNode` ends when the leaf, or already the indirect block, cannot be had. */
  lemma NodeFails(g: File, i: nat, j: nat, f2: File, id: int)
    requires i < NR_INDIRECT_BLOCKS && j < NR_INDIRECT_BLOCKS && (f2, id) == AllocForInode(g)
    requires id >= 0 ==> AllocForInode(f2) == (f2, ENOSPC)
    ensures AllocNode(g, i, j, ZeroBlock(), true) ==
      if id < 0 then (UndoDouble(f2, true), id) else (UndoDouble(FreeFromInode(f2, id), true), ENOSPC)
  {
    hide AllocForInode, FreeFromInode, Put, SetPtr, ZeroBlock, Ptr, UndoDouble;
    PtrOfZero(i);
  }

  lemma LeafUndone(f: File, f2: File, i: nat, j: nat, q: int, id: int)
    requires Reserved(f, f2, {q, id}) && q != id && |f.vol.data| == NR_BLOCK_BITS
    requires DATA_START <= q < DATA_LIMIT && DATA_START <= id < DATA_LIMIT
    requires f.d.dindirect == 0 && f2.d == f.d.(blockCount := f2.d.blockCount, dindirect := q)
    ensures SameTree(f, UndoDouble(FreeFromInode(f2, id), true))
  {
    hide FreeFromInode, Blk, UndoDouble, SameTree;
    FreeUndoes(f, f2, id, {q, id});
    assert {q, id} - {id} == {q};
    FreeUndoes(f, FreeFromInode(f2, id), q, {q});
    UndoneAll(f, FreeFromInode(f2, id), q);
  }

  lemma UndoneAll(f: File, g: File, q: int)
    requires g.d.dindirect == q && Reserved(f, FreeFromInode(g, q), {q} - {q}) && f.d.dindirect == 0
    requires FreeFromInode(g, q).d.(blockCount := f.d.blockCount, dindirect := 0) == f.d
    ensures SameTree(f, UndoDouble(g, true))
  {
    hide FreeFromInode, Blk;
  }

  /** The double-indirect block existed before; only the indirect block is released. */
  lemma DoubleFailsNode(f: File, i: nat, j: nat)
    requires VolumeOk(f) && i < NR_INDIRECT_BLOCKS && j < NR_INDIRECT_BLOCKS && f.d.dindirect > 0 && NodeEntry(f, i) == 0
    requires Available(f.vol) == 1
    ensures var (f', r) := AllocDouble(f, i, j); r == ENOSPC && SameTree(f, f')
  {
    hide AllocForInode, FreeFromInode, Available, Blk, Put, SetPtr, ZeroBlock, Ptr;
    AllocForInodeSpec(f);
    var (f1, q) := AllocForInode(f);
    BlkFields(f.vol, f1.vol);
    AllocForInodeSpec(f1);
    FreeUndoes(f, f1, q, {q});
  }

  lemma DoubleFails(f: File, i: nat, j: nat)
    requires VolumeOk(f) && i < NR_INDIRECT_BLOCKS && j < NR_INDIRECT_BLOCKS && f.d.dindirect >= 0
    requires Available(f.vol) >= 0
    requires Available(f.vol) < if f.d.dindirect == 0 then 3 else if NodeEntry(f, i) == 0 then 2 else 1
    ensures var (f', r) := AllocDouble(f, i, j); r == ENOSPC && SameTree(f, f')
  {
    if Available(f.vol) > 0 {
      if f.d.dindirect == 0 { DoubleFailsAll(f, i, j); } else { DoubleFailsNode(f, i, j); }
    } else {
      hide AllocForInode, Available, Blk, Ptr;
      AllocForInodeSpec(f);
    }
  }

  lemma SameTreeKeeps(f: File, f': File, own: map<int, Slot>, foreign: set<int>)
    requires TreeInv(f, own, foreign) && SameTree(f, f')
    ensures TreeInv(f', own, foreign)
    ensures forall s: Slot :: At(f'.vol, f'.d, s) == At(f.vol, f.d, s)
  {
    hide At, NoEmptyIndex, Blk;
    TreeFrame(f.vol, f'.vol, f.d, own);
  }

  // ----- the whole call -----

  /** `testfs_allocate_block` succeeds exactly when the block number is in range and the volume can
      supply the data block and every missing index block. Then precisely that logical block becomes
      (or already was) mapped. Otherwise nothing visible changes. */
  lemma AllocateBlockSpec(f: File, n: nat, own: map<int, Slot>, foreign: set<int>) returns (own': map<int, Slot>)
    requires TreeInv(f, own, foreign)
    ensures var (f', r) := AllocateBlock(f, n);
      && (r >= 0 <==> n < MAX_BLOCK_NR && Need(f, n) <= Available(f.vol))
      && (r >= 0 ==> Mapped(f, f', n, r, own, own', foreign))
      && (r < 0 ==> r == (if n >= MAX_BLOCK_NR then EFBIG else ENOSPC) && own' == own && SameTree(f, f') && TreeInv(f', own, foreign))
  {
    var (f', r) := AllocateBlock(f, n);
    own' := own;
    AvailableNonNegative(f, own, foreign);
    NeedZero(f, n);
    if n >= MAX_BLOCK_NR {
    } else if MapBlock(f, n) != 0 {
      MappedOld(f, n, own, foreign);
    } else {
      AllocateBlockNew(f, n, own, foreign);
      if r >= 0 { own' := MappedNew(f, n, own, foreign); } else { SameTreeKeeps(f, f', own, foreign); }
    }
  }

  lemma MappedOld(f: File, n: nat, own: map<int, Slot>, foreign: set<int>)
    requires TreeInv(f, own, foreign) && n < MAX_BLOCK_NR && MapBlock(f, n) != 0
    ensures MapBlock(f, n) > 0 && Mapped(f, f, n, MapBlock(f, n), own, own, foreign)
  {
    hide At, LeafSlot, Need, NoEmptyIndex;
    assert own[MapBlock(f, n)] == LeafSlot(n);
    assert Need(f, n) == 0 by { NeedZero(f, n); }
  }

  lemma NeedZero(f: File, n: nat)
    ensures Need(f, n) == 0 <==> MapBlock(f, n) != 0
  {}

  lemma AvailableNonNegative(f: File, own: map<int, Slot>, foreign: set<int>)
    requires Shape(f, own, foreign)
    ensures Available(f.vol) >= 0 && VolumeOk(f) && f.d.dindirect >= 0
  {
    CountBelow(f.vol.used, DATA_START, DATA_LIMIT);
    assert At(f.vol, f.d, Dind) == f.d.dindirect;
  }

  lemma AllocateBlockNew(f: File, n: nat, own: map<int, Slot>, foreign: set<int>)
    requires TreeInv(f, own, foreign) && n < MAX_BLOCK_NR && MapBlock(f, n) == 0
    ensures var (f', r) := AllocateBlock(f, n);
      && (r >= 0 <==> Need(f, n) <= Available(f.vol))
      && (r < 0 ==> r == ENOSPC && SameTree(f, f'))
  {
    hide AllocateBlock, Available, Need, MapBlock, Mapped, SameTree, NoEmptyIndex, At;
    AvailableNonNegative(f, own, foreign);
    if Need(f, n) <= Available(f.vol) {
      var own' := MappedNew(f, n, own, foreign);
    } else {
      BlockFails(f, n, own, foreign);
    }
  }

  lemma BlockFails(f: File, n: nat, own: map<int, Slot>, foreign: set<int>)
    requires Shape(f, own, foreign) && n < MAX_BLOCK_NR && MapBlock(f, n) == 0 && Need(f, n) > Available(f.vol)
    ensures var (f', r) := AllocateBlock(f, n); r == ENOSPC && SameTree(f, f')
  {
    hide Available, AllocSingle, AllocDouble, AllocForInode, Owns, Accounted, Ptr, Blk, MapBlock, NodeOf, EntryOf,
      SameTree, At;
    AvailableNonNegative(f, own, foreign);
    if n < NR_DIRECT_BLOCKS {
      DirectFails(f, n);
    } else if n - NR_DIRECT_BLOCKS < NR_INDIRECT_BLOCKS {
      SingleFails(f, n - NR_DIRECT_BLOCKS);
    } else {
      var m := n - NR_DIRECT_BLOCKS - NR_INDIRECT_BLOCKS;
      EntryParts(m);
      NeedDouble(f, NodeOf(m), EntryOf(m));
      DoubleFails(f, NodeOf(m), EntryOf(m));
    }
  }

  lemma DirectFails(f: File, n: nat)
    requires VolumeOk(f) && Available(f.vol) == 0 && n < NR_DIRECT_BLOCKS
    ensures var (f', r) := AllocDirect(f, n); r == ENOSPC && SameTree(f, f')
  {
    hide Available, AllocForInode, Blk;
    AllocForInodeSpec(f);
  }

  lemma MappedNew(f: File, n: nat, own: map<int, Slot>, foreign: set<int>) returns (own': map<int, Slot>)
    requires TreeInv(f, own, foreign) && n < MAX_BLOCK_NR && MapBlock(f, n) == 0
    requires Need(f, n) <= Available(f.vol)
    ensures var (f', r) := AllocateBlock(f, n); r >= 0 && Mapped(f, f', n, r, own, own', foreign)
  {
    hide Available, AllocSingle, AllocDouble, AllocDirect, TreeInv, At, Blk, Mapped, LeafSlot;
    if n < NR_DIRECT_BLOCKS {
      own' := DirectMapped(f, n, own, foreign);
    } else if n - NR_DIRECT_BLOCKS < NR_INDIRECT_BLOCKS {
      own' := SingleMapped(f, n - NR_DIRECT_BLOCKS, own, foreign);
    } else {
      var m := n - NR_DIRECT_BLOCKS - NR_INDIRECT_BLOCKS;
      var i, j := NodeOf(m), EntryOf(m);
      assert DoubleBlock(i, j) == n;
      own' := DoubleMapped(f, i, j, own, foreign);
    }
  }
}
