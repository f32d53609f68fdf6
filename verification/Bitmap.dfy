/** The fixed-size bit array of lib/bitmap.c.

    The bits live in an array of unsigned chars and are reached through masks.
    The abstraction is the set of marked bit numbers, which includes the padding
    bits of the last byte: they are set once by the constructor and never cleared,
    so the first-fit search cannot hand one of them out. */
module Bitmaps {
  import opened Lib

  const BITS_PER_WORD: nat := 8
  const WORD_ALLBITS: bv8 := 0xff

  datatype AllocResult = NoSpace | Allocated(index: nat)

  function Mask(offset: nat): bv8
    requires offset < BITS_PER_WORD
  {
    (1 as bv8) << offset
  }

  predicate BitSet(word: bv8, offset: nat)
    requires offset < BITS_PER_WORD
  {
    word & Mask(offset) != 0
  }

  /** Setting through one mask touches that bit and no other. */
  lemma OrSetsOneBit(word: bv8, i: nat, j: nat)
    requires i < BITS_PER_WORD && j < BITS_PER_WORD
    ensures BitSet(word | Mask(i), j) <==> i == j || BitSet(word, j)
  {
  }

  /** Clearing through one mask touches that bit and no other. */
  lemma AndClearsOneBit(word: bv8, i: nat, j: nat)
    requires i < BITS_PER_WORD && j < BITS_PER_WORD
    ensures BitSet(word & !Mask(i), j) <==> i != j && BitSet(word, j)
  {
  }

  /** A byte equals WORD_ALLBITS exactly when no bit in it is free. */
  lemma FullWord(word: bv8)
    ensures word == WORD_ALLBITS <==> forall j :: 0 <= j < BITS_PER_WORD ==> BitSet(word, j)
  {
    if forall j :: 0 <= j < BITS_PER_WORD ==> BitSet(word, j) {
      assert BitSet(word, 0) && BitSet(word, 1) && BitSet(word, 2) && BitSet(word, 3);
      assert BitSet(word, 4) && BitSet(word, 5) && BitSet(word, 6) && BitSet(word, 7);
    }
  }

  /** Bit number k of a byte sequence, counted from the low bit of the first byte. */
  predicate BitAt(words: seq<bv8>, k: nat)
    requires k < BITS_PER_WORD * |words|
  {
    BitSet(words[k / BITS_PER_WORD], k % BITS_PER_WORD)
  }

  /** The numbers of all set bits. */
  ghost function BitsOf(words: seq<bv8>): set<nat> {
    set k: nat | k < BITS_PER_WORD * |words| && BitAt(words, k)
  }

  lemma ByteAndOffset(ix: nat, offset: nat)
    requires offset < BITS_PER_WORD
    ensures var k := ix * BITS_PER_WORD + offset; k / BITS_PER_WORD == ix && k % BITS_PER_WORD == offset
  {
  }

  function SetBit(words: seq<bv8>, k: nat): seq<bv8>
    requires k < BITS_PER_WORD * |words|
  {
    words[k / BITS_PER_WORD := words[k / BITS_PER_WORD] | Mask(k % BITS_PER_WORD)]
  }

  function ClearBit(words: seq<bv8>, k: nat): seq<bv8>
    requires k < BITS_PER_WORD * |words|
  {
    words[k / BITS_PER_WORD := words[k / BITS_PER_WORD] & !Mask(k % BITS_PER_WORD)]
  }

  /** Extending a fully marked prefix of whole bytes by the low bits of the next byte. */
  lemma AllBitsBelow(words: seq<bv8>, ix: nat, offset: nat)
    requires ix < |words| && offset <= BITS_PER_WORD
    requires forall k: nat :: k < ix * BITS_PER_WORD ==> BitAt(words, k)
    requires forall j :: 0 <= j < offset ==> BitSet(words[ix], j)
    ensures forall k: nat :: k < ix * BITS_PER_WORD + offset ==> BitAt(words, k)
  {
    forall k: nat | ix * BITS_PER_WORD <= k < ix * BITS_PER_WORD + offset
      ensures BitAt(words, k)
    {
      ByteAndOffset(ix, k - ix * BITS_PER_WORD);
    }
  }

  lemma SetBitAt(words: seq<bv8>, k: nat, m: nat)
    requires k < BITS_PER_WORD * |words| && m < BITS_PER_WORD * |words|
    ensures BitAt(SetBit(words, k), m) <==> m == k || BitAt(words, m)
  {
    OrSetsOneBit(words[k / BITS_PER_WORD], k % BITS_PER_WORD, m % BITS_PER_WORD);
  }

  lemma NoBits(words: seq<bv8>)
    requires forall i :: 0 <= i < |words| ==> words[i] == 0
    ensures BitsOf(words) == {}
  {
    forall k: nat | k < BITS_PER_WORD * |words|
      ensures !BitAt(words, k)
    {
      assert words[k / BITS_PER_WORD] == 0;
      NoBitsSet(k % BITS_PER_WORD);
    }
  }

  lemma NoBitsSet(j: nat)
    requires j < BITS_PER_WORD
    ensures !BitSet(0, j)
  {
  }

  /** Setting bit k of its byte adds k to the set of bits. */
  lemma SetBitAdds(words: seq<bv8>, k: nat)
    requires k < BITS_PER_WORD * |words|
    ensures BitsOf(SetBit(words, k)) == BitsOf(words) + {k}
  {
    forall m: nat | m < BITS_PER_WORD * |words|
      ensures BitAt(SetBit(words, k), m) <==> m == k || BitAt(words, m)
    {
      SetBitAt(words, k, m);
    }
  }

  lemma ClearBitAt(words: seq<bv8>, k: nat, m: nat)
    requires k < BITS_PER_WORD * |words| && m < BITS_PER_WORD * |words|
    ensures BitAt(ClearBit(words, k), m) <==> m != k && BitAt(words, m)
  {
    AndClearsOneBit(words[k / BITS_PER_WORD], k % BITS_PER_WORD, m % BITS_PER_WORD);
  }

  /** Clearing bit k of its byte removes k from the set of bits. */
  lemma ClearBitRemoves(words: seq<bv8>, k: nat)
    requires k < BITS_PER_WORD * |words|
    ensures BitsOf(ClearBit(words, k)) == BitsOf(words) - {k}
  {
    forall m: nat | m < BITS_PER_WORD * |words|
      ensures BitAt(ClearBit(words, k), m) <==> m != k && BitAt(words, m)
    {
      ClearBitAt(words, k, m);
    }
  }

  /** The search's finding: the first clear bit of the first byte that is not full, and what
      setting it does. */
  lemma FirstFree(words: seq<bv8>, ix: nat, offset: nat)
    requires ix < |words| && offset < BITS_PER_WORD
    requires forall k: nat :: k < ix * BITS_PER_WORD ==> BitAt(words, k)
    requires forall j :: 0 <= j < offset ==> BitSet(words[ix], j)
    requires !BitSet(words[ix], offset)
    ensures var index := ix * BITS_PER_WORD + offset;
            && index / BITS_PER_WORD == ix && index % BITS_PER_WORD == offset
            && index !in BitsOf(words)
            && BitsOf(words[ix := words[ix] | Mask(offset)]) == BitsOf(words) + {index}
            && forall k: nat :: k < index ==> k in BitsOf(words)
  {
    hide Mask, BitSet;
    ByteAndOffset(ix, offset);
    SetBitAdds(words, ix * BITS_PER_WORD + offset);
    AllBitsBelow(words, ix, offset);
    assert !BitAt(words, ix * BITS_PER_WORD + offset);
  }

  lemma AllMarked(words: seq<bv8>)
    requires forall k: nat :: k < BITS_PER_WORD * |words| ==> BitAt(words, k)
    ensures forall k: nat :: k < BITS_PER_WORD * |words| ==> k in BitsOf(words)
  {
    hide BitAt;
  }

  class Bitmap {
    const nbits: nat
    const v: array<bv8>

    /** The marked bits; the numbers at and above nbits are the padding bits. */
    ghost function Marked(): set<nat>
      reads v
    {
      BitsOf(v[..])
    }

    ghost predicate Valid()
      reads v
    {
      && v.Length == DivRoundUp(nbits, BITS_PER_WORD)
      && forall k: nat :: nbits <= k < BITS_PER_WORD * v.Length ==> k in Marked()
    }

    /** All bits below nbits start free; the leftover bits of the last byte are marked. */
    constructor (nbits: nat)
      ensures Valid() && this.nbits == nbits && fresh(v)
      ensures forall k: nat :: k in Marked() <==> nbits <= k < BITS_PER_WORD * v.Length
    {
      hide BitAt, BitsOf;
      var words := DivRoundUp(nbits, BITS_PER_WORD);
      this.nbits := nbits;
      v := new bv8[words](_ => 0);
      new;
      NoBits(v[..]);
      if words > nbits / BITS_PER_WORD {
        var ix := words - 1;
        var overbits := nbits - ix * BITS_PER_WORD;
        assert 0 < overbits < BITS_PER_WORD;
        for j := overbits to BITS_PER_WORD
          invariant forall k: nat :: k in Marked() <==> nbits <= k < ix * BITS_PER_WORD + j
        {
          ghost var before, k := v[..], ix * BITS_PER_WORD + j;
          assert BitsOf(before) == Marked();
          ByteAndOffset(ix, j);
          SetBitAdds(before, k);
          v[ix] := v[ix] | Mask(j);
          assert v[..] == SetBit(before, k);
          assert Marked() == BitsOf(before) + {k};
        }
      }
    }

    /** Hands out the least free bit and marks it, or reports that every bit is marked. */
    method Alloc() returns (r: AllocResult)
      requires Valid()
      modifies v
      ensures Valid()
      ensures r.NoSpace? <==> forall k: nat :: k < nbits ==> k in old(Marked())
      ensures r.NoSpace? ==> v[..] == old(v[..])
      ensures r.Allocated? ==>
                && r.index < nbits
                && r.index !in old(Marked())
                && (forall k: nat :: k < r.index ==> k in old(Marked()))
                && Marked() == old(Marked()) + {r.index}
    {
      hide Mask, BitSet, BitAt, BitsOf;
      var maxix := DivRoundUp(nbits, BITS_PER_WORD);
      ghost var words := v[..];
      assert BitsOf(words) == Marked();
      for ix := 0 to maxix
        invariant v[..] == words
        invariant forall k: nat :: k < ix * BITS_PER_WORD ==> BitAt(words, k)
      {
        FullWord(v[ix]);
        if v[ix] != WORD_ALLBITS {
          for offset := 0 to BITS_PER_WORD
            invariant v[..] == words
            invariant forall j :: 0 <= j < offset ==> BitSet(words[ix], j)
          {
            if !BitSet(v[ix], offset) {
              var index := ix * BITS_PER_WORD + offset;
              FirstFree(words, ix, offset);
              v[ix] := v[ix] | Mask(offset);
              assert v[..] == words[ix := words[ix] | Mask(offset)];
              return Allocated(index);
            }
          }
          assert false;
        }
        AllBitsBelow(words, ix, BITS_PER_WORD);
      }
      AllMarked(words);
      r := NoSpace;
    }

    /** Marking a bit that is already marked, or out of range, is asserted against. */
    method Mark(index: nat)
      requires Valid() && index < nbits && index !in Marked()
      modifies v
      ensures Valid() && Marked() == old(Marked()) + {index}
    {
      var ix, mask := index / BITS_PER_WORD, Mask(index % BITS_PER_WORD);
      SetBitAdds(v[..], index);
      v[ix] := v[ix] | mask;
      assert v[..] == SetBit(old(v[..]), index);
    }

    /** Unmarking a free bit, or one out of range, is asserted against. */
    method Unmark(index: nat)
      requires Valid() && index < nbits && index in Marked()
      modifies v
      ensures Valid() && Marked() == old(Marked()) - {index}
    {
      var ix, mask := index / BITS_PER_WORD, Mask(index % BITS_PER_WORD);
      ClearBitRemoves(v[..], index);
      v[ix] := v[ix] & !mask;
      assert v[..] == ClearBit(old(v[..]), index);
    }

    method IsSet(index: nat) returns (r: bool)
      requires Valid() && index < BITS_PER_WORD * v.Length
      ensures r <==> index in Marked()
    {
      var ix, mask := index / BITS_PER_WORD, Mask(index % BITS_PER_WORD);
      r := v[ix] & mask != 0;
      assert r == BitAt(v[..], index);
    }
  }
}
