/** Page size and the two alignment macros, on 64-bit addresses. */
module Pages {
  import opened Bits

  const PAGE_SIZE: nat := 4096

  function AlignDown(a: Word64): (r: Word64)
    ensures r == a - a % PAGE_SIZE
  {
    MaskLowBits(a);
    And(a, TWO64 - PAGE_SIZE)
  }

  /** Rounds up; the addition wraps at 2^64. */
  function AlignUp(a: Word64): (r: Word64)
    ensures a + PAGE_SIZE - 1 < TWO64 ==> a <= r < a + PAGE_SIZE && r % PAGE_SIZE == 0
  {
    AlignDown((a + (PAGE_SIZE - 1)) % TWO64)
  }

  lemma UpIsAligned(a: Word64)
    ensures AlignUp(a) % PAGE_SIZE == 0 && AlignDown(a) % PAGE_SIZE == 0
  {
  }

  lemma UpIsLeast(a: Word64, p: nat)
    requires p % PAGE_SIZE == 0 && a <= p && a + PAGE_SIZE - 1 < TWO64
    ensures AlignUp(a) <= p && (p - AlignUp(a)) % PAGE_SIZE == 0
  {
  }

  lemma DownIsGreatest(a: Word64, p: nat)
    requires p % PAGE_SIZE == 0
    ensures p < AlignDown(a) <==> p + PAGE_SIZE <= a
  {
  }

  lemma MaskLowBits(a: Word64)
    ensures And(a, TWO64 - PAGE_SIZE) == a - a % PAGE_SIZE
  {
    Pow2Values();
    Pow2Sum(32, 32);
    AndHigh(a, 12, 64);
    LowIsMod(a, 12);
  }

  predicate SamePage(a: Word, b: Word) { a / PAGE_SIZE == b / PAGE_SIZE }

  lemma PageMultiple(phys: nat) returns (k: nat)
    requires phys % PAGE_SIZE == 0
    ensures phys % TWO32 == 4096 * k
  {
    k := phys / 4096 - 0x10_0000 * (phys / TWO32);
  }

  /** A page address below 4 GiB with the present and R/W bits ORed in. */
  lemma OrTableBits(f: nat)
    requires f < 0x10_0000
    ensures f * PAGE_SIZE % TWO32 == f * PAGE_SIZE
    ensures Or(f * PAGE_SIZE, 3) == f * PAGE_SIZE + 3
  {
    Pow2Values();
    OrShifted(12, f, 3);
  }
}
