/** Word-at-a-time `strlen` on a 32-bit machine: `unsigned long` is four bytes, little endian. */
module StrLen {

  const WORD: nat := 4
  const HIMAGIC: bv32 := 0x8080_8080
  const LOMAGIC: bv32 := 0x0101_0101

  /** The word stored at an aligned address. */
  function Load(b0: bv8, b1: bv8, b2: bv8, b3: bv8): bv32 {
    (b0 as bv32) | ((b1 as bv32) << 8) | ((b2 as bv32) << 16) | ((b3 as bv32) << 24)
  }

  function Test(w: bv32): bv32 {
    (w - LOMAGIC) & !w & HIMAGIC
  }

  /** The test is nonzero exactly when some byte of the word is zero. */
  lemma TestFindsZeroByte(b0: bv8, b1: bv8, b2: bv8, b3: bv8)
    ensures Test(Load(b0, b1, b2, b3)) != 0 <==> b0 == 0 || b1 == 0 || b2 == 0 || b3 == 0
  {
    var w := Load(b0, b1, b2, b3);
    assert w & 0xFF == b0 as bv32;
    assert (w >> 8) & 0xFF == b1 as bv32;
    assert (w >> 16) & 0xFF == b2 as bv32;
    assert (w >> 24) & 0xFF == b3 as bv32;
    WordTest(w);
  }

  lemma WordTest(w: bv32)
    ensures Test(w) != 0 <==>
      w & 0xFF == 0 || (w >> 8) & 0xFF == 0 || (w >> 16) & 0xFF == 0 || (w >> 24) & 0xFF == 0
  {
  }

  /** One word of the loop. */
  method TestWord(b0: bv8, b1: bv8, b2: bv8, b3: bv8) returns (found: bool)
    ensures found <==> b0 == 0 || b1 == 0 || b2 == 0 || b3 == 0
  {
    var longword := Load(b0, b1, b2, b3);
    TestFindsZeroByte(b0, b1, b2, b3);
    found := Test(longword) != 0;
  }

  /**
    The distance from str to the first NUL, for every alignment of str.  The memory ends on a word
    boundary, so that the word around the NUL can be read.
   */
  method StrLen(mem: seq<bv8>, str: nat) returns (n: nat)
    requires |mem| % WORD == 0 && exists k :: str <= k < |mem| && mem[k] == 0
    ensures str + n < |mem| && mem[str + n] == 0
    ensures forall k :: str <= k < str + n ==> mem[k] != 0
  {
    ghost var nul: nat :| str <= nul < |mem| && mem[nul] == 0;
    var ptr := str;
    while ptr % WORD != 0
      invariant str <= ptr <= nul && forall k :: str <= k < ptr ==> mem[k] != 0
      decreases nul - ptr
    {
      if mem[ptr] == 0 { return ptr - str; }
      ptr := ptr + 1;
    }
    while true
      invariant str <= ptr <= nul && ptr % WORD == 0
      invariant forall k :: str <= k < ptr ==> mem[k] != 0
      decreases nul - ptr
    {
      var found := TestWord(mem[ptr], mem[ptr + 1], mem[ptr + 2], mem[ptr + 3]);
      ptr := ptr + WORD;
      if found {
        var cp := ptr - WORD;
        if mem[cp] == 0 { return cp - str; }
        if mem[cp + 1] == 0 { return cp - str + 1; }
        if mem[cp + 2] == 0 { return cp - str + 2; }
        if mem[cp + 3] == 0 { return cp - str + 3; }
      }
    }
  }
}
