/**
  32-bit paging without PAE (section 4.3 of the Intel SDM, Volume 3A), as values.

  Physical memory is a sequence of frames of words, the hardware walk is a function of it, and
  `MapTo` is the memory that one `map` call leaves behind.  The theorems say that `MapTo` is a map
  update of the translations the hardware sees, and that it keeps the recursive directory well formed.
 */
module Paging {
  import opened Bits
  import opened Pages

  const ENTRIES: nat := 1024
  const FRAMES: nat := 0x10_0000
  const SELF: nat := 1023           // the directory slot that points back at the directory

  const PG_FLAG_MASK: nat := 0x11F  // PR RW US WT CD GL
  const PDE_PR: nat := 1
  const PDE_RW: nat := 2

  type FrameNo = f: nat | f < FRAMES
  type Index = i: nat | i < ENTRIES
  type Frame = f: seq<Word> | |f| == ENTRIES witness Zeros()
  type Memory = m: seq<Frame> | |m| == FRAMES witness ZeroMemory()

  function Zeros(): (r: seq<Word>)
    ensures |r| == ENTRIES && forall i :: 0 <= i < ENTRIES ==> r[i] == 0
  {
    seq(ENTRIES, _ => 0)
  }

  function ZeroMemory(): (r: seq<Frame>)
    ensures |r| == FRAMES
  {
    seq(FRAMES, _ => Zeros())
  }

  // ---------- The address macros ----------

  function PdIdx(a: Word): (r: Index)
    ensures r == a / 0x40_0000
  {
    AndTenBits(a / 0x40_0000);
    And(a / 0x40_0000, 0x3FF)
  }

  function PtIdx(a: Word): (r: Index)
    ensures r == a / PAGE_SIZE % ENTRIES
  {
    AndTenBits(a / PAGE_SIZE);
    And(a / PAGE_SIZE, 0x3FF)
  }

  function Virt(pd: nat, pt: nat): (r: Word)
    ensures pd < ENTRIES && pt < ENTRIES ==> r == pd * 0x40_0000 + pt * PAGE_SIZE
  {
    OrWord(pd * 0x40_0000 % TWO32, pt * PAGE_SIZE % TWO32);
    VirtSum(pd, pt);
    Or(pd * 0x40_0000 % TWO32, pt * PAGE_SIZE % TWO32)
  }

  lemma VirtSum(pd: nat, pt: nat)
    ensures pd < ENTRIES && pt < ENTRIES ==>
              Or(pd * 0x40_0000 % TWO32, pt * PAGE_SIZE % TWO32) == pd * 0x40_0000 + pt * PAGE_SIZE
  {
    if pd < ENTRIES && pt < ENTRIES {
      var hi, lo := 0x40_0000 * pd, pt * PAGE_SIZE;
      assert hi % TWO32 == hi && lo % TWO32 == lo;
      OrAt22(pd, lo);
    }
  }

  lemma OrAt22(k: nat, y: nat)
    requires y < 0x40_0000
    ensures Or(0x40_0000 * k, y) == 0x40_0000 * k + y
  {
    Pow2Values();
    OrShifted(22, k, y);
  }

  lemma AndTenBits(x: nat)
    ensures And(x, 0x3FF) == x % ENTRIES
  {
    Pow2Values();
    AndLow(x, 10);
    LowIsMod(x, 10);
  }

  lemma OrWord(x: Word, y: Word)
    ensures Or(x, y) < TWO32
  {
    Pow2Values();
    OrBound(32, x, y);
  }

  // ---------- The hardware walk ----------

  /** What the MMU finds for a page: no mapping, or a frame with the low 12 bits of its entry and
      whether a write is let through (both levels carry R/W, and CR0.WP is on). */
  datatype Translation = Fault | Page(frame: FrameNo, flags: nat, writable: bool)

  predicate Present(e: nat) { e % 2 == 1 }

  predicate Rw(e: nat) { e / 2 % 2 == 1 }

  function FrameOf(e: Word): FrameNo { e / PAGE_SIZE }

  function Walk(m: Memory, cr3: FrameNo, a: Word): Translation {
    var pde := m[cr3][a / 0x40_0000];
    if !Present(pde) then Fault
    else
      var pte := m[FrameOf(pde)][a / PAGE_SIZE % ENTRIES];
      if !Present(pte) then Fault
      else Page(FrameOf(pte), pte % PAGE_SIZE, Rw(pde) && Rw(pte))
  }

  // ---------- The recursive directory ----------

  /** The entry that names a table or the directory: its address, present and writable. */
  function TableWord(f: FrameNo): Word { f * PAGE_SIZE + (PDE_PR + PDE_RW) }

  predicate TableEntry(e: Word) { e % PAGE_SIZE == PDE_PR + PDE_RW }

  /** Slot 1023 points at the directory; every other slot is zero or names its own table frame. */
  ghost predicate Recursive(m: Memory, dir: FrameNo) {
    && m[dir][SELF] == TableWord(dir)
    && (forall i: Index :: m[dir][i] == 0 || TableEntry(m[dir][i]))
    && (forall i: Index, j: Index :: i != j && m[dir][i] != 0 ==> m[dir][i] != m[dir][j])
  }

  /** The directory and its tables: the frames whose words the walk reads. */
  ghost predicate InUse(m: Memory, dir: FrameNo, f: FrameNo) {
    exists i: Index :: m[dir][i] == TableWord(f)
  }

  lemma EntrySplit(k: nat, low: nat)
    requires low < PAGE_SIZE
    ensures (k * PAGE_SIZE + low) / PAGE_SIZE == k && (k * PAGE_SIZE + low) % PAGE_SIZE == low
    ensures Present(k * PAGE_SIZE + low) == Present(low) && Rw(k * PAGE_SIZE + low) == Rw(low)
  {
    ModUnique(4096 * k + low, PAGE_SIZE, k, low);
    ModUnique(4096 * k + low, 2, 2048 * k + low / 2, low % 2);
    ModUnique(2048 * k + low / 2, 2, 1024 * k + low / 2 / 2, low / 2 % 2);
  }

  lemma EntryFields(f: FrameNo)
    ensures var e := TableWord(f);
      e != 0 && TableEntry(e) && Present(e) && Rw(e) && FrameOf(e) == f
  {
    EntrySplit(f, 3);
  }

  /** What a well-formed entry says, read the other way round. */
  lemma TableEntryFields(e: Word)
    requires TableEntry(e)
    ensures Present(e) && Rw(e) && e == TableWord(FrameOf(e))
  {
    EntryFields(e / PAGE_SIZE);
  }

  // ---------- The effect of one `map` call ----------

  /** The word that `map` stores for the page: the 32-bit physical address with the masked flags. */
  function Leaf(phys: nat, flags: nat): (r: Word)
    ensures phys % PAGE_SIZE == 0 ==> r == phys % TWO32 + And(flags % 0x1_0000, PG_FLAG_MASK)
  {
    var mask := And(flags % 0x1_0000, PG_FLAG_MASK);
    AndBound(flags % 0x1_0000, PG_FLAG_MASK);
    OrWord(phys % TWO32, mask);
    LeafSum(phys, mask);
    Or(phys % TWO32, mask)
  }

  lemma LeafSum(phys: nat, mask: nat)
    requires mask < PAGE_SIZE
    ensures phys % PAGE_SIZE == 0 ==> Or(phys % TWO32, mask) == phys % TWO32 + mask
  {
    if phys % PAGE_SIZE == 0 {
      var k := PageMultiple(phys);
      Pow2Values();
      OrShifted(12, k, mask);
    }
  }

  function Poke(m: Memory, f: FrameNo, i: Index, w: Word): Memory {
    m[f := m[f][i := w]]
  }

  /** The memory once directory slot pd holds a table: a new, cleared one if the slot was zero. */
  function WithTable(m: Memory, dir: FrameNo, tab: FrameNo, pd: Index): Memory {
    if m[dir][pd] == 0 then Poke(m, dir, pd, TableWord(tab))[tab := Zeros()]
    else m
  }

  function MapTo(m: Memory, dir: FrameNo, tab: FrameNo, virt: Word, phys: nat, flags: nat): Memory {
    var m1 := WithTable(m, dir, tab, virt / 0x40_0000);
    Poke(m1, FrameOf(m1[dir][virt / 0x40_0000]), virt / PAGE_SIZE % ENTRIES, Leaf(phys, flags))
  }

  /** `map` may take a frame for a new table only if the walk does not read it already. */
  ghost predicate Fresh(m: Memory, dir: FrameNo, tab: FrameNo, virt: Word) {
    m[dir][virt / 0x40_0000] == 0 ==> !InUse(m, dir, tab)
  }

  // ---------- Theorems ----------

  lemma WithTableKeepsRecursive(m: Memory, dir: FrameNo, tab: FrameNo, virt: Word)
    requires Recursive(m, dir) && Fresh(m, dir, tab, virt)
    ensures var pd: Index := virt / 0x40_0000;
      var m1 := WithTable(m, dir, tab, pd);
      && Recursive(m1, dir)
      && m1[dir] == (if m[dir][pd] == 0 then m[dir][pd := TableWord(tab)] else m[dir])
      && m1[dir][pd] != 0 && TableEntry(m1[dir][pd])
      && (m[dir][pd] == 0 ==> m1[tab] == Zeros() && tab != dir)
      && (forall f: FrameNo :: f != dir && f != tab ==> m1[f] == m[f])
      && (forall f: FrameNo :: InUse(m1, dir, f) <==> InUse(m, dir, f) || (m[dir][pd] == 0 && f == tab))
  {
    var pd: Index := virt / 0x40_0000;
    var m1 := WithTable(m, dir, tab, pd);
    if m[dir][pd] == 0 {
      EntryFields(tab);
      EntryFields(dir);
      assert InUse(m, dir, dir);
      forall f: FrameNo
        ensures InUse(m1, dir, f) <==> InUse(m, dir, f) || f == tab
      {
        InUseWithTable(m, m1, dir, tab, pd, f);
      }
    }
  }

  lemma InUseWithTable(m: Memory, m1: Memory, dir: FrameNo, tab: FrameNo, pd: Index, f: FrameNo)
    requires m[dir][pd] == 0 && m1[dir] == m[dir][pd := TableWord(tab)]
    ensures InUse(m1, dir, f) <==> InUse(m, dir, f) || f == tab
  {
    EntryFields(tab);
    EntryFields(f);
    if InUse(m, dir, f) {
      var i: Index :| m[dir][i] == TableWord(f);
      assert m1[dir][i] == TableWord(f);
    }
    if f == tab { assert m1[dir][pd] == TableWord(f); }
  }

  /** What the hardware finds for a page mapped with these arguments. */
  function Mapped(phys: nat, flags: nat): (t: Translation)
    requires phys % PAGE_SIZE == 0
  {
    if flags % 2 == 0 then Fault
    else Page(phys % TWO32 / PAGE_SIZE, And(flags % 0x1_0000, PG_FLAG_MASK), flags / 2 % 2 == 1)
  }

  /** The mask keeps the present and the R/W bit, and nothing above bit 8. */
  lemma MaskKeepsLowFlags(f: nat)
    ensures var mask := And(f % 0x1_0000, PG_FLAG_MASK);
      mask < PAGE_SIZE && Present(mask) == (f % 2 == 1) && Rw(mask) == (f / 2 % 2 == 1)
  {
    var g, q := f % 0x1_0000, f / 0x1_0000;
    AndBound(g, PG_FLAG_MASK);
    BitOfAnd(g, PG_FLAG_MASK, 0);
    BitOfAnd(g, PG_FLAG_MASK, 1);
    assert Bit(PG_FLAG_MASK, 1) && Bit(PG_FLAG_MASK, 0);
    SecondBit(And(g, PG_FLAG_MASK));
    SecondBit(g);
    ModUnique(f, 2, 0x8000 * q + g / 2, g % 2);
    ModUnique(f / 2, 2, 0x4000 * q + g / 2 / 2, g / 2 % 2);
  }

  lemma SecondBit(x: nat)
    ensures Bit(x, 0) == Present(x) && Bit(x, 1) == Rw(x)
  {
  }

  lemma LeafIsMapped(phys: nat, flags: nat)
    requires phys % PAGE_SIZE == 0
    ensures var e := Leaf(phys, flags);
      Mapped(phys, flags) == Translated(e)
  {
    MaskKeepsLowFlags(flags);
    var mask := And(flags % 0x1_0000, PG_FLAG_MASK);
    var k := PageMultiple(phys);
    EntrySplit(k, mask);
  }

  /** The call as two steps: the slot gets a table, then one word of that table is stored. */
  lemma MapInTwoSteps(m: Memory, dir: FrameNo, tab: FrameNo, virt: Word, phys: nat, flags: nat) returns (m1: Memory)
    requires Recursive(m, dir) && Fresh(m, dir, tab, virt) && virt / 0x40_0000 != SELF
    ensures var pd: Index := virt / 0x40_0000;
      var m' := MapTo(m, dir, tab, virt, phys, flags);
      && m1 == WithTable(m, dir, tab, pd) && Recursive(m1, dir)
      && m1[dir] == (if m[dir][pd] == 0 then m[dir][pd := TableWord(tab)] else m[dir])
      && TableEntry(m1[dir][pd]) && FrameOf(m1[dir][pd]) != dir
      && (m[dir][pd] == 0 ==> m1[tab] == Zeros() && tab != dir)
      && (forall f: FrameNo :: f != dir && f != tab ==> m1[f] == m[f])
      && m' == Poke(m1, FrameOf(m1[dir][pd]), virt / PAGE_SIZE % ENTRIES, Leaf(phys, flags))
      && m'[dir] == m1[dir] && Recursive(m', dir)
      && (forall f: FrameNo :: InUse(m', dir, f) <==> InUse(m, dir, f) || (m[dir][pd] == 0 && f == tab))
  {
    var pd: Index := virt / 0x40_0000;
    m1 := WithTable(m, dir, tab, pd);
    WithTableKeepsRecursive(m, dir, tab, virt);
    TableEntryFields(m1[dir][pd]);
    EntryFields(dir);
    assert FrameOf(m1[dir][pd]) != dir by { assert m1[dir][pd] != m1[dir][SELF]; }
    var m' := MapTo(m, dir, tab, virt, phys, flags);
    forall f: FrameNo
      ensures InUse(m', dir, f) <==> InUse(m1, dir, f)
    {
      if InUse(m1, dir, f) { SameDirectory(m1, m', dir, f); }
      if InUse(m', dir, f) { SameDirectory(m', m1, dir, f); }
    }
  }

  lemma SameDirectory(m: Memory, m': Memory, dir: FrameNo, f: FrameNo)
    requires m'[dir] == m[dir] && InUse(m, dir, f)
    ensures InUse(m', dir, f)
  {
    var i: Index :| m[dir][i] == TableWord(f);
    assert m'[dir][i] == TableWord(f);
  }

  lemma MapKeepsRecursive(m: Memory, dir: FrameNo, tab: FrameNo, virt: Word, phys: nat, flags: nat)
    requires Recursive(m, dir) && Fresh(m, dir, tab, virt) && virt / 0x40_0000 != SELF
    ensures var m' := MapTo(m, dir, tab, virt, phys, flags);
      && Recursive(m', dir)
      && (forall f: FrameNo :: InUse(m', dir, f) <==>
            InUse(m, dir, f) || (m[dir][virt / 0x40_0000] == 0 && f == tab))
  {
    var m1 := MapInTwoSteps(m, dir, tab, virt, phys, flags);
  }

  /** A page-table entry, as the hardware reads it below a writable directory entry. */
  function Translated(e: Word): Translation {
    if Present(e) then Page(FrameOf(e), e % PAGE_SIZE, Rw(e)) else Fault
  }

  /** The walk by directory slot and table index. */
  function Via(d: Frame, m: Memory, pd: Index, pt: Index): Translation {
    if d[pd] == 0 then Fault else Translated(m[FrameOf(d[pd])][pt])
  }

  lemma WalkIsVia(m: Memory, dir: FrameNo, a: Word)
    requires m[dir][a / 0x40_0000] == 0 || TableEntry(m[dir][a / 0x40_0000])
    ensures Walk(m, dir, a) == Via(m[dir], m, a / 0x40_0000, a / PAGE_SIZE % ENTRIES)
  {
    var e := m[dir][a / 0x40_0000];
    if e != 0 { TableEntryFields(e); }
  }

  lemma SamePageSplit(a: Word, b: Word)
    ensures SamePage(a, b) <==>
      a / 0x40_0000 == b / 0x40_0000 && a / PAGE_SIZE % ENTRIES == b / PAGE_SIZE % ENTRIES
  {
    assert a / 0x40_0000 == a / PAGE_SIZE / ENTRIES && b / 0x40_0000 == b / PAGE_SIZE / ENTRIES;
  }

  lemma VirtSplit(pd: Index, pt: Index)
    ensures Virt(pd, pt) / 0x40_0000 == pd && Virt(pd, pt) / PAGE_SIZE % ENTRIES == pt
    ensures Virt(pd, pt) / PAGE_SIZE == pd * ENTRIES + pt
  {
    var v := Virt(pd, pt);
    ModUnique(v, PAGE_SIZE, pd * ENTRIES + pt, 0);
    ModUnique(pd * ENTRIES + pt, ENTRIES, pd, pt);
    ModUnique(v, 0x40_0000, pd, pt * PAGE_SIZE);
  }

  /** After `map`, the hardware translates every address of the page to the given frame. */
  lemma MapSetsThePage(m: Memory, dir: FrameNo, tab: FrameNo, virt: Word, phys: nat, flags: nat, a: Word)
    requires Recursive(m, dir) && Fresh(m, dir, tab, virt) && virt / 0x40_0000 != SELF
    requires phys % PAGE_SIZE == 0
    requires SamePage(a, virt)
    ensures Walk(MapTo(m, dir, tab, virt, phys, flags), dir, a) ==
      if flags % 2 == 0 then Fault
      else Page(phys % 0x1_0000_0000 / 4096, And(flags % 0x1_0000, 0x11F), flags / 2 % 2 == 1)
  {
    var m1 := MapInTwoSteps(m, dir, tab, virt, phys, flags);
    LeafIsMapped(phys, flags);
    SamePageSplit(a, virt);
    WalkIsVia(MapTo(m, dir, tab, virt, phys, flags), dir, a);
  }

  /** Of the flags asked for, bits 0 to 4 and bit 8 reach the entry: the low bits that `map` may set. */
  lemma FlagsThatStay(flags: nat, k: nat)
    ensures Bit(And(flags % 0x1_0000, 0x11F), k) <==> Bit(flags % 0x1_0000, k) && (k <= 4 || k == 8)
  {
    BitOfAnd(flags % 0x1_0000, 0x11F, k);
    BitsOfMask(k);
  }

  /** 0x11F is bits 0 to 4 and bit 8. */
  lemma BitsOfMask(k: nat)
    ensures Bit(0x11F, k) <==> k <= 4 || k == 8
  {
    if k >= 9 {
      assert Pow2(9) == 512;
      NoBitAbove(9, 0x11F, k);
    } else {
      assert Bit(0x11F, 8) && Bit(0x11F, 4) && !Bit(0x11F, 5) && !Bit(0x11F, 6) && !Bit(0x11F, 7);
    }
  }

  /** Every other page walks as before, but for the window page of a table that was just created. */
  lemma MapKeepsOtherPages(m: Memory, dir: FrameNo, tab: FrameNo, virt: Word, phys: nat, flags: nat, a: Word)
    requires Recursive(m, dir) && Fresh(m, dir, tab, virt) && virt / 0x40_0000 != SELF
    requires !SamePage(a, virt)
    ensures var m' := MapTo(m, dir, tab, virt, phys, flags);
      Walk(m', dir, a) ==
        if m[dir][virt / 0x40_0000] == 0 && SamePage(a, Virt(SELF, virt / 0x40_0000))
        then Page(tab, 3, true)
        else Walk(m, dir, a)
  {
    var m1 := MapInTwoSteps(m, dir, tab, virt, phys, flags);
    SamePageSplit(a, virt);
    SamePageSplit(a, Virt(SELF, virt / 0x40_0000));
    VirtSplit(SELF, virt / 0x40_0000);
    WalkIsVia(m, dir, a);
    WalkIsVia(MapTo(m, dir, tab, virt, phys, flags), dir, a);
    OtherWords(m, dir, tab, virt / 0x40_0000, virt / PAGE_SIZE % ENTRIES, Leaf(phys, flags), m1,
               a / 0x40_0000, a / PAGE_SIZE % ENTRIES);
  }

  /** A word of slot pd's table is seen by no other page, and a new table starts out clear. */
  lemma OtherWords(m: Memory, dir: FrameNo, tab: FrameNo, pd: Index, pt: Index, w: Word, m1: Memory,
                   apd: Index, apt: Index)
    requires Recursive(m, dir) && Recursive(m1, dir) && pd != SELF && (apd != pd || apt != pt)
    requires m1 == WithTable(m, dir, tab, pd) && (m[dir][pd] == 0 ==> !InUse(m, dir, tab))
    requires m1[dir] == (if m[dir][pd] == 0 then m[dir][pd := TableWord(tab)] else m[dir])
    requires TableEntry(m1[dir][pd]) && FrameOf(m1[dir][pd]) != dir
    ensures Via(m1[dir], Poke(m1, FrameOf(m1[dir][pd]), pt, w), apd, apt) ==
      if m[dir][pd] == 0 && apd == SELF && apt == pd then Page(tab, PDE_PR + PDE_RW, true)
      else Via(m[dir], m, apd, apt)
  {
    EntryFields(dir);
    EntryFields(tab);
    assert InUse(m, dir, dir);
    TableEntryFields(m1[dir][pd]);
    if m[dir][apd] != 0 && apd != SELF && apd != pd {
      assert m1[dir][apd] != m1[dir][pd];
      TableEntryFields(m[dir][apd]);
      assert InUse(m, dir, FrameOf(m[dir][apd]));
      assert m[dir][apd] != m[dir][SELF];
    }
  }

  /** Only the directory and the page's table are written. */
  lemma MapKeepsOtherFrames(m: Memory, dir: FrameNo, tab: FrameNo, virt: Word, phys: nat, flags: nat, f: FrameNo)
    requires Recursive(m, dir) && Fresh(m, dir, tab, virt) && virt / 0x40_0000 != SELF
    requires !InUse(MapTo(m, dir, tab, virt, phys, flags), dir, f)
    ensures MapTo(m, dir, tab, virt, phys, flags)[f] == m[f]
  {
    var m1 := MapInTwoSteps(m, dir, tab, virt, phys, flags);
    var m' := MapTo(m, dir, tab, virt, phys, flags);
    var pd: Index := virt / 0x40_0000;
    TableEntryFields(m1[dir][pd]);
    assert m'[dir][pd] == TableWord(FrameOf(m1[dir][pd]));
    assert m'[dir][SELF] == TableWord(dir);
    assert m[dir][pd] == 0 ==> FrameOf(m1[dir][pd]) == tab by { EntryFields(tab); }
  }

  /**
    A page inside slot 1023 is an entry of the directory.  Mapping it keeps the directory recursive
    exactly when the stored word is what such an entry may hold.
   */
  lemma MapInWindowSlot(m: Memory, dir: FrameNo, tab: FrameNo, virt: Word, phys: nat, flags: nat)
    requires Recursive(m, dir) && virt / 0x40_0000 == SELF
    ensures var pt: Index := virt / PAGE_SIZE % ENTRIES;
      var e := Leaf(phys, flags);
      Recursive(MapTo(m, dir, tab, virt, phys, flags), dir) <==>
        if pt == SELF then e == m[dir][SELF]
        else e == 0 || (TableEntry(e) && forall i: Index :: i != pt ==> m[dir][i] != e)
  {
    var pt: Index := virt / PAGE_SIZE % ENTRIES;
    var e := Leaf(phys, flags);
    var m' := MapTo(m, dir, tab, virt, phys, flags);
    assert m' == Poke(m, dir, pt, e) by { EntryFields(dir); }
    assert m'[dir] == m[dir][pt := e];
    EntryFields(dir);
    if Recursive(m', dir) && pt != SELF && e != 0 {
      assert m'[dir][pt] == e;
      forall i: Index | i != pt
        ensures m[dir][i] != e
      {
        assert m'[dir][i] == m[dir][i];
      }
    }
  }

  /** Mapping the first window page read-only: the first directory entry loses its R/W bit. */
  lemma ReadOnlyWindowPage(m: Memory, dir: FrameNo, tab: FrameNo)
    requires Recursive(m, dir)
    ensures !Recursive(MapTo(m, dir, tab, Virt(SELF, 0), 0, PDE_PR), dir)
  {
    VirtSplit(SELF, 0);
    assert And(1, PG_FLAG_MASK) == 1;
    assert Leaf(0, PDE_PR) == 1;
    MapInWindowSlot(m, dir, tab, Virt(SELF, 0), 0, PDE_PR);
  }

  // ---------- The table as a map from pages to translations ----------

  /** What the hardware finds for each page below slot 1023. */
  function View(m: Memory, dir: FrameNo): (v: seq<Translation>)
    ensures |v| == SELF * ENTRIES
  {
    seq(SELF * ENTRIES, n requires 0 <= n < SELF * ENTRIES => Walk(m, dir, n * PAGE_SIZE))
  }

  lemma MapUpdatesView(m: Memory, dir: FrameNo, tab: FrameNo, virt: Word, phys: nat, flags: nat)
    requires Recursive(m, dir) && Fresh(m, dir, tab, virt) && virt / 0x40_0000 != SELF
    requires phys % PAGE_SIZE == 0
    ensures View(MapTo(m, dir, tab, virt, phys, flags), dir) ==
      View(m, dir)[virt / PAGE_SIZE := Mapped(phys, flags)]
  {
    var m' := MapTo(m, dir, tab, virt, phys, flags);
    forall n: nat | n < SELF * ENTRIES
      ensures View(m', dir)[n] == View(m, dir)[virt / PAGE_SIZE := Mapped(phys, flags)][n]
    {
      if n == virt / PAGE_SIZE {
        MapSetsThePage(m, dir, tab, virt, phys, flags, n * PAGE_SIZE);
      } else {
        MapKeepsOtherPages(m, dir, tab, virt, phys, flags, n * PAGE_SIZE);
        VirtSplit(SELF, virt / 0x40_0000);
      }
    }
  }
}
