/** The word-packed bitmap of fs/bitmap.c: an array of bytes that stands for a set of bit numbers. */
module BitWords {

  const BITS_PER_WORD := 8
  const WORD_ALLBITS: bv8 := 0xff
  const U32_LIMIT := 0x1_0000_0000

  /** The size of the word array, computed in 32-bit unsigned arithmetic. */
  function WordCount(nbits: nat): nat {
    ((nbits + BITS_PER_WORD - 1) % U32_LIMIT) / BITS_PER_WORD
  }

  /** The word array covers the requested bits, and by less than a word too many, unless the
      rounding wraps around. */
  lemma WordCountCovers(nbits: nat)
    requires nbits < U32_LIMIT
    ensures nbits <= BITS_PER_WORD * WordCount(nbits) < nbits + BITS_PER_WORD <==>
            nbits <= U32_LIMIT - BITS_PER_WORD
  {
    if nbits > U32_LIMIT - BITS_PER_WORD {
      assert (nbits + BITS_PER_WORD - 1) % U32_LIMIT == nbits + BITS_PER_WORD - 1 - U32_LIMIT;
    }
  }

  function Mask(offset: nat): bv8
    requires offset < BITS_PER_WORD
  {
    (1 as bv8) << offset
  }

  predicate TestBit(w: bv8, offset: nat)
    requires offset < BITS_PER_WORD
  {
    w & Mask(offset) != 0
  }

  predicate IsSet(v: seq<bv8>, i: nat)
    requires i < BITS_PER_WORD * |v|
  {
    TestBit(v[i / BITS_PER_WORD], i % BITS_PER_WORD)
  }

  /** What `bitmap_create` establishes and every operation keeps: the leftover bits of the last
      word are in use. */
  ghost predicate WellFormed(v: seq<bv8>, nbits: nat) {
    && nbits <= BITS_PER_WORD * |v| < nbits + BITS_PER_WORD
    && forall i :: nbits <= i < BITS_PER_WORD * |v| ==> IsSet(v, i)
  }

  /** The set that a word array stands for. */
  ghost function Members(v: seq<bv8>, nbits: nat): set<nat>
    requires nbits <= BITS_PER_WORD * |v|
  {
    set i: nat | i < nbits && IsSet(v, i)
  }

  function WithBit(v: seq<bv8>, i: nat): seq<bv8>
    requires i < BITS_PER_WORD * |v|
  {
    v[i / BITS_PER_WORD := v[i / BITS_PER_WORD] | Mask(i % BITS_PER_WORD)]
  }

  function WithoutBit(v: seq<bv8>, i: nat): seq<bv8>
    requires i < BITS_PER_WORD * |v|
  {
    v[i / BITS_PER_WORD := v[i / BITS_PER_WORD] & !Mask(i % BITS_PER_WORD)]
  }

  lemma OrMask(w: bv8, k: nat, j: nat)
    requires k < BITS_PER_WORD && j < BITS_PER_WORD
    ensures TestBit(w | Mask(k), j) <==> j == k || TestBit(w, j)
  {}

  lemma AndNotMask(w: bv8, k: nat, j: nat)
    requires k < BITS_PER_WORD && j < BITS_PER_WORD
    ensures TestBit(w & !Mask(k), j) <==> j != k && TestBit(w, j)
  {}

  lemma SameMaskedBits(w: bv8, u: bv8)
    requires w & 1 == u & 1 && w & 2 == u & 2 && w & 4 == u & 4 && w & 8 == u & 8
    requires w & 16 == u & 16 && w & 32 == u & 32 && w & 64 == u & 64 && w & 128 == u & 128
    ensures w == u
  {}

  lemma TestBitIs(w: bv8, u: bv8, k: nat, mask: bv8)
    requires k < BITS_PER_WORD && mask == Mask(k) && TestBit(w, k) == TestBit(u, k)
    ensures w & mask == u & mask
  {}

  lemma SameBits(w: bv8, u: bv8)
    requires forall k :: 0 <= k < BITS_PER_WORD ==> TestBit(w, k) == TestBit(u, k)
    ensures w == u
  {
    hide TestBit;
    TestBitIs(w, u, 0, 1);
    TestBitIs(w, u, 1, 2);
    TestBitIs(w, u, 2, 4);
    TestBitIs(w, u, 3, 8);
    TestBitIs(w, u, 4, 16);
    TestBitIs(w, u, 5, 32);
    TestBitIs(w, u, 6, 64);
    TestBitIs(w, u, 7, 128);
    SameMaskedBits(w, u);
  }

  lemma AllBits(k: nat)
    requires k < BITS_PER_WORD
    ensures TestBit(WORD_ALLBITS, k)
  {}

  /** Setting a bit adds that bit number to the set and keeps the padding. */
  lemma WithBitMembers(v: seq<bv8>, nbits: nat, i: nat)
    requires WellFormed(v, nbits) && i < nbits
    ensures WellFormed(WithBit(v, i), nbits)
    ensures Members(WithBit(v, i), nbits) == Members(v, nbits) + {i}
  {
    hide Mask, TestBit;
    forall j: nat | j < BITS_PER_WORD * |v|
      ensures IsSet(WithBit(v, i), j) <==> j == i || IsSet(v, j)
    {
      OrMask(v[i / BITS_PER_WORD], i % BITS_PER_WORD, j % BITS_PER_WORD);
    }
  }

  /** Clearing a bit removes that bit number from the set and keeps the padding. */
  lemma WithoutBitMembers(v: seq<bv8>, nbits: nat, i: nat)
    requires WellFormed(v, nbits) && i < nbits
    ensures WellFormed(WithoutBit(v, i), nbits)
    ensures Members(WithoutBit(v, i), nbits) == Members(v, nbits) - {i}
  {
    hide Mask, TestBit;
    forall j: nat | j < BITS_PER_WORD * |v|
      ensures IsSet(WithoutBit(v, i), j) <==> j != i && IsSet(v, j)
    {
      AndNotMask(v[i / BITS_PER_WORD], i % BITS_PER_WORD, j % BITS_PER_WORD);
    }
  }

  /** A well-formed word array and its set determine each other. */
  lemma MembersDetermineWords(v: seq<bv8>, u: seq<bv8>, nbits: nat)
    requires WellFormed(v, nbits) && WellFormed(u, nbits)
    ensures Members(v, nbits) == Members(u, nbits) <==> v == u
  {
    if Members(v, nbits) == Members(u, nbits) {
      forall ix | 0 <= ix < |v| ensures v[ix] == u[ix] {
        forall k | 0 <= k < BITS_PER_WORD ensures TestBit(v[ix], k) == TestBit(u[ix], k) {
          var i := ix * BITS_PER_WORD + k;
          assert i / BITS_PER_WORD == ix && i % BITS_PER_WORD == k;
          assert i < nbits ==> (i in Members(v, nbits) <==> IsSet(v, i)) && (i in Members(u, nbits) <==> IsSet(u, i));
          assert IsSet(v, i) == IsSet(u, i);
        }
        SameBits(v[ix], u[ix]);
      }
    }
  }

  /** Allocating a free bit and releasing it again restores every word. */
  lemma AllocThenUnmark(v: seq<bv8>, nbits: nat, i: nat)
    requires WellFormed(v, nbits) && i < nbits && !IsSet(v, i)
    ensures WithoutBit(WithBit(v, i), i) == v
  {
    WithBitMembers(v, nbits, i);
    WithoutBitMembers(WithBit(v, i), nbits, i);
    assert i !in Members(v, nbits);
    assert Members(WithoutBit(WithBit(v, i), i), nbits) == Members(v, nbits);
    MembersDetermineWords(WithoutBit(WithBit(v, i), i), v, nbits);
  }
}

/** The mutable bitmap object. */
module Bitmaps {
  import opened BitWords

  datatype AllocResult = Index(value: nat) | NoSpace

  class Bitmap {
    const nbits: nat
    const v: array<bv8>

    ghost predicate Valid()
      reads v
    {
      nbits <= U32_LIMIT - BITS_PER_WORD && WellFormed(v[..], nbits)
    }

    ghost function Bits(): set<nat>
      requires Valid()
      reads v
    {
      Members(v[..], nbits)
    }

    /** `bitmap_create`: all bits clear, the padding of the last word set. */
    constructor (nbits: nat)
      requires nbits <= U32_LIMIT - BITS_PER_WORD
      ensures Valid() && fresh(v) && this.nbits == nbits && Bits() == {}
    {
      var words := WordCount(nbits);
      this.nbits := nbits;
      this.v := new bv8[words](_ => 0);
      new;
      WordCountCovers(nbits);
      if nbits / BITS_PER_WORD < words {
        var ix := words - 1;
        var overbits := nbits - ix * BITS_PER_WORD;
        assert nbits / BITS_PER_WORD == words - 1;
        assert 0 < overbits < BITS_PER_WORD;
        for j := overbits to BITS_PER_WORD
          invariant forall k :: 0 <= k < ix ==> v[k] == 0
          invariant forall k :: 0 <= k < BITS_PER_WORD ==> (TestBit(v[ix], k) <==> overbits <= k < j)
        {
          ghost var before := v[ix];
          v[ix] := v[ix] | Mask(j);
          forall k | 0 <= k < BITS_PER_WORD ensures TestBit(v[ix], k) <==> k == j || TestBit(before, k) {
            OrMask(before, j, k);
          }
        }
      }
    }

    /** The inner loop of `bitmap_alloc`: its last assert, that a word that is not full has a clear bit,
        holds. */
    static method FreeBit(word: bv8) returns (offset: nat)
      requires word != WORD_ALLBITS
      ensures offset < BITS_PER_WORD && !TestBit(word, offset) && forall k :: 0 <= k < offset ==> TestBit(word, k)
    {
      offset := 0;
      while offset < BITS_PER_WORD
        invariant offset <= BITS_PER_WORD && forall k :: 0 <= k < offset ==> TestBit(word, k)
      {
        if word & Mask(offset) == 0 {
          return;
        }
        offset := offset + 1;
      }
      forall k | 0 <= k < BITS_PER_WORD ensures TestBit(word, k) == TestBit(WORD_ALLBITS, k) {
        AllBits(k);
      }
      SameBits(word, WORD_ALLBITS);
      assert false;
    }

    /** `bitmap_alloc`: the first clear bit, or failure when no bit is clear. */
    method Alloc() returns (r: AllocResult)
      requires Valid()
      modifies v
      ensures Valid()
      ensures r.Index? ==> r.value < nbits && r.value !in old(Bits()) && Bits() == old(Bits()) + {r.value}
      ensures r.Index? ==> forall i: nat :: i < r.value ==> i in old(Bits())
      ensures r.Index? ==> forall ix :: 0 <= ix < v.Length && ix != r.value / BITS_PER_WORD ==> v[ix] == old(v[ix])
      ensures r.NoSpace? ==> v[..] == old(v[..]) && forall i: nat :: i < nbits ==> i in Bits()
    {
      var maxix := WordCount(nbits);
      WordCountCovers(nbits);
      assert maxix == v.Length;
      for ix := 0 to maxix
        invariant v[..] == old(v[..])
        invariant forall i: nat :: i < ix * BITS_PER_WORD ==> IsSet(v[..], i)
      {
        if v[ix] != WORD_ALLBITS {
          var offset := FreeBit(v[ix]);
          var index := ix * BITS_PER_WORD + offset;
          assert index / BITS_PER_WORD == ix && index % BITS_PER_WORD == offset;
          assert !IsSet(v[..], index);
          assert index < nbits;
          WithBitMembers(v[..], nbits, index);
          ghost var after := WithBit(v[..], index);
          v[ix] := v[ix] | Mask(offset);
          assert v[..] == after;
          return Index(index);
        }
        forall i: nat | ix * BITS_PER_WORD <= i < (ix + 1) * BITS_PER_WORD ensures IsSet(v[..], i) {
          AllBits(i % BITS_PER_WORD);
        }
      }
      r := NoSpace;
    }

    /** `bitmap_mark`; the caller owes the bit being clear. */
    method Mark(index: nat)
      requires Valid() && index < nbits && index !in Bits()
      modifies v
      ensures Valid() && Bits() == old(Bits()) + {index}
    {
      WithBitMembers(v[..], nbits, index);
      ghost var after := WithBit(v[..], index);
      var ix, mask := index / BITS_PER_WORD, Mask(index % BITS_PER_WORD);
      assert !IsSet(v[..], index);
      assert v[ix] & mask == 0;
      v[ix] := v[ix] | mask;
      assert v[..] == after;
    }

    /** `bitmap_unmark`; the caller owes the bit being set. */
    method Unmark(index: nat)
      requires Valid() && index < nbits && index in Bits()
      modifies v
      ensures Valid() && Bits() == old(Bits()) - {index}
      ensures forall ix :: 0 <= ix < v.Length && ix != index / BITS_PER_WORD ==> v[ix] == old(v[ix])
    {
      WithoutBitMembers(v[..], nbits, index);
      ghost var after := WithoutBit(v[..], index);
      var ix, mask := index / BITS_PER_WORD, Mask(index % BITS_PER_WORD);
      assert IsSet(v[..], index);
      assert v[ix] & mask != 0;
      v[ix] := v[ix] & !mask;
      assert v[..] == after;
    }

    /** `bitmap_isset`. */
    method IsMarked(index: nat) returns (b: bool)
      requires Valid() && index < nbits
      ensures b <==> index in Bits()
    {
      assert IsSet(v[..], index) <==> index in Bits();
      b := v[index / BITS_PER_WORD] & Mask(index % BITS_PER_WORD) != 0;
    }

    /** `bitmap_nr_allocated`: the cardinality of the set. */
    method NrAllocated() returns (nr: nat)
      requires Valid()
      ensures nr == |Bits()|
    {
      nr := 0;
      ghost var seen: set<nat> := {};
      for i := 0 to nbits
        invariant seen == set k: nat | k < i && k in Bits()
        invariant nr == |seen|
      {
        var b := IsMarked(i);
        if b {
          nr := nr + 1;
          seen := seen + {i};
        }
      }
      assert seen == Bits();
    }
  }
}
