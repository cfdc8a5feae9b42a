/** A packed bitmap: bit k lives in word k / 32 at position k % 32. */
module Bitmap {
  import opened Bits

  const WORD_BITS: nat := 32

  class Bitmap {
    const bitCount: nat          // the bits that mean something; the array may hold up to 32 more
    const words: array<Word>

    /** The bitmap's array has the length that `bitmap_getlength` asks for. */
    predicate Sized()
    {
      words.Length == bitCount / WORD_BITS + 1
    }

    predicate Has(k: nat)
      reads words
    {
      k / WORD_BITS < words.Length && Bit(words[k / WORD_BITS], k % WORD_BITS)
    }

    /** Every bit past `bitCount` is set, so that no search can return one. */
    ghost predicate Padded()
      reads words
    {
      forall k: nat :: bitCount <= k < WORD_BITS * words.Length ==> Has(k)
    }

    /** The indices of clear bits. */
    ghost function Clear(): (s: set<nat>)
      reads words
    {
      set k: nat | k < bitCount && !Has(k)
    }

    /** `memset(bitmap, -1, ...)`: every bit starts out set. */
    constructor (bitCount: nat)
      ensures this.bitCount == bitCount && Sized() && fresh(words)
      ensures forall k: nat :: k < WORD_BITS * words.Length ==> Has(k)
    {
      this.bitCount := bitCount;
      words := new Word[bitCount / WORD_BITS + 1](_ => 0xFFFF_FFFF);
      new;
      forall k: nat | k < WORD_BITS * words.Length
        ensures Has(k)
      {
        OnesWord(k % WORD_BITS);
      }
    }

    method Test(k: nat) returns (b: bool)
      requires k < WORD_BITS * words.Length
      ensures b == Has(k)
    {
      AndPow2(words[k / WORD_BITS], k % WORD_BITS);
      b := And(words[k / WORD_BITS], Pow2(k % WORD_BITS)) != 0;
    }

    method Set(k: nat)
      requires k < WORD_BITS * words.Length
      modifies words
      ensures forall j: nat :: Has(j) == (old(Has(j)) || j == k)
    {
      var w := words[k / WORD_BITS];
      MaskIsWord(k % WORD_BITS);
      OrBound(32, w, Pow2(k % WORD_BITS));
      words[k / WORD_BITS] := Or(w, Pow2(k % WORD_BITS));
      forall j: nat
        ensures Has(j) == (old(Has(j)) || j == k)
      {
        BitOfOr(w, Pow2(k % WORD_BITS), j % WORD_BITS);
        BitOfPow2(k % WORD_BITS, j % WORD_BITS);
        SameIndex(j, k);
      }
    }

    /** `Set` on a clear bit takes exactly that index out of the clear ones. */
    method TakeOut(k: nat)
      requires k in Clear() && Sized() && Padded()
      modifies words
      ensures Clear() == old(Clear()) - {k} && Padded()
    {
      Set(k);
    }

    method Reset(k: nat)
      requires k < WORD_BITS * words.Length
      modifies words
      ensures forall j: nat :: Has(j) == (old(Has(j)) && j != k)
    {
      var w := words[k / WORD_BITS];
      MaskIsWord(k % WORD_BITS);
      var mask := 0xFFFF_FFFF - Pow2(k % WORD_BITS);
      AndBound(w, mask);
      words[k / WORD_BITS] := And(w, mask);
      forall j: nat
        ensures Has(j) == (old(Has(j)) && j != k)
      {
        BitOfAnd(w, mask, j % WORD_BITS);
        BitOfComplement(32, Pow2(k % WORD_BITS), j % WORD_BITS);
        BitOfPow2(k % WORD_BITS, j % WORD_BITS);
        SameIndex(j, k);
      }
    }

    /** The index of the first clear bit of the array, or -1 if there is none. */
    method FirstZero() returns (r: int)
      ensures r == -1 <==> forall k: nat :: k < WORD_BITS * words.Length ==> Has(k)
      ensures r != -1 ==> 0 <= r < WORD_BITS * words.Length && !Has(r) && forall k: nat :: k < r ==> Has(k)
    {
      var i := 0;
      while i < words.Length
        invariant 0 <= i <= words.Length
        invariant forall k: nat :: k < WORD_BITS * i ==> Has(k)
      {
        if words[i] != 0xFFFF_FFFF {
          var p := 0;
          var b := Test(p + WORD_BITS * i);
          while p < 32 && b
            invariant 0 <= p <= 32
            invariant p < 32 ==> b == Has(p + WORD_BITS * i)
            invariant forall k: nat :: k < p + WORD_BITS * i ==> Has(k)
          {
            p := p + 1;
            if p < 32 { b := Test(p + WORD_BITS * i); }
          }
          NotAllOnes(words[i]);
          if p == 32 {
            forall j: nat | j < 32
              ensures Bit(words[i], j)
            {
              assert Has(j + WORD_BITS * i);
            }
            assert false;
          }
          return p + WORD_BITS * i;
        }
        AllOnes(words[i]);
        i := i + 1;
      }
      return -1;
    }
  }

  lemma MaskIsWord(j: nat)
    requires j < WORD_BITS
    ensures Pow2(j) < Pow2(32) == TWO32
  {
    Pow2Values();
    Pow2Grows(j + 1, 32);
  }

  lemma SameIndex(j: nat, k: nat)
    ensures j == k <==> j / WORD_BITS == k / WORD_BITS && j % WORD_BITS == k % WORD_BITS
  {
  }

  lemma OnesWord(j: nat)
    requires j < WORD_BITS
    ensures Bit(0xFFFF_FFFF, j)
  {
    Pow2Values();
    BitOfOnes(32, j);
  }

  lemma AllOnes(w: Word)
    requires w == 0xFFFF_FFFF
    ensures forall j: nat :: j < WORD_BITS ==> Bit(w, j)
  {
    forall j: nat | j < WORD_BITS ensures Bit(w, j) { OnesWord(j); }
  }

  lemma NotAllOnes(w: Word)
    requires w != 0xFFFF_FFFF
    ensures exists j: nat :: j < WORD_BITS && !Bit(w, j)
  {
    if forall j: nat :: j < WORD_BITS ==> Bit(w, j) {
      AllOnes(0xFFFF_FFFF);
      Pow2Values();
      SameBits(32, w, 0xFFFF_FFFF);
      assert false;
    }
  }
}
