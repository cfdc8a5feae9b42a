/**
  PAE paging (section 4.4 of the Intel SDM, Volume 3A), and `map` through its recursive window.

  The four page directories are read as one directory of 2048 slots.  Its last four slots, which are
  slots 508..511 of the fourth directory, name the four directories themselves.  Physical memory is
  the frames below 4 GiB; a directory entry that names a table beyond them faults.
 */
module PaePaging {
  import opened Bits
  import opened Pages

  const ENTRIES: nat := 512
  const SLOTS: nat := 2048
  const SELF: nat := 2044           // slot SELF + q names directory q
  const FRAMES: nat := 0x10_0000
  const NX: nat := 0x8000_0000_0000_0000

  const PG_PAE_FLAG_MASK: nat := 0x11F
  const TABLE_BITS: nat := 3        // PDE_RW | PDE_PR

  type FrameNo = f: nat | f < FRAMES
  type Index = i: nat | i < ENTRIES
  type Slot = i: nat | i < SLOTS
  type Frame = f: seq<Word64> | |f| == ENTRIES witness Zeros()
  type Memory = m: seq<Frame> | |m| == FRAMES witness ZeroMemory()

  /** The frames that the four registers loaded from the PDPT point at. */
  type Directories = d: seq<FrameNo> | |d| == 4 witness [0, 1, 2, 3]

  function Zeros(): (r: seq<Word64>)
    ensures |r| == ENTRIES && forall i :: 0 <= i < ENTRIES ==> r[i] == 0
  {
    seq(ENTRIES, _ => 0)
  }

  function ZeroMemory(): (r: seq<Frame>)
    ensures |r| == FRAMES
  {
    seq(FRAMES, _ => Zeros())
  }

  // ---------- The address macros ----------

  function PdptIdx(a: Word): (r: nat)
    ensures r == a / 0x4000_0000 < 4
  {
    AndLowBits(a / 0x4000_0000, 2);
    And(a / 0x4000_0000, 0x3)
  }

  function PdIdx(a: Word): (r: Index)
    ensures r == a / 0x20_0000 % ENTRIES
  {
    AndLowBits(a / 0x20_0000, 9);
    And(a / 0x20_0000, 0x1FF)
  }

  function PtIdx(a: Word): (r: Index)
    ensures r == a / PAGE_SIZE % ENTRIES
  {
    AndLowBits(a / PAGE_SIZE, 9);
    And(a / PAGE_SIZE, 0x1FF)
  }

  function Virt(pp: nat, pd: nat, pt: nat): (r: Word)
    requires pp < 4 && pd < ENTRIES && pt < ENTRIES
    ensures r == pp * 0x4000_0000 + pd * 0x20_0000 + pt * PAGE_SIZE
  {
    VirtSum(pp, pd, pt);
    Or(Or(pp * 0x4000_0000, pd * 0x20_0000), pt * PAGE_SIZE)
  }

  lemma AndLowBits(x: nat, n: nat)
    requires n == 2 || n == 9
    ensures var p := if n == 2 then 4 else 512; And(x, p - 1) == x % p
  {
    AndLow(x, n);
    LowIsMod(x, n);
    SmallPowers();
  }

  lemma SmallPowers()
    ensures Pow2(2) == 4 && Pow2(9) == 512 && Pow2(12) == 4096
    ensures Pow2(21) == 0x20_0000 && Pow2(30) == 0x4000_0000 && Pow2(63) == NX
  {
    Pow2Values();
    Pow2Sum(9, 12);
    Pow2Sum(9, 21);
    Pow2Sum(1, 30);
    Pow2Sum(31, 32);
    assert Pow2(9) == 8 * Pow2(6) && Pow2(6) == 8 * Pow2(3);
  }

  lemma VirtSum(pp: nat, pd: nat, pt: nat)
    requires pp < 4 && pd < ENTRIES && pt < ENTRIES
    ensures Or(Or(pp * 0x4000_0000, pd * 0x20_0000), pt * PAGE_SIZE)
         == pp * 0x4000_0000 + pd * 0x20_0000 + pt * PAGE_SIZE
  {
    var top, mid, low := 0x4000_0000 * pp, 0x20_0000 * pd, 4096 * pt;
    var both := pp * 512 + pd;
    OrAt30(pp, mid);
    assert top + mid == 0x20_0000 * both;
    OrAt21(both, low);
  }

  lemma OrAt30(k: nat, y: nat)
    requires y < 0x4000_0000
    ensures Or(0x4000_0000 * k, y) == 0x4000_0000 * k + y
  {
    SmallPowers();
    OrShifted(30, k, y);
  }

  lemma OrAt21(k: nat, y: nat)
    requires y < 0x20_0000
    ensures Or(0x20_0000 * k, y) == 0x20_0000 * k + y
  {
    SmallPowers();
    OrShifted(21, k, y);
  }

  // ---------- The hardware walk ----------

  datatype Translation = Fault | Page(frame: nat, flags: nat, writable: bool, noExecute: bool)

  predicate Present(e: nat) { e % 2 == 1 }

  predicate Rw(e: nat) { e / 2 % 2 == 1 }

  /** Bits 51:12 of an entry. */
  function FrameOf(e: Word64): nat { e / PAGE_SIZE % 0x100_0000_0000 }

  function NoExecute(e: Word64): bool { e / NX == 1 }

  function Entry(m: Memory, dirs: Directories, s: Slot): Word64 {
    m[dirs[s / ENTRIES]][s % ENTRIES]
  }

  function SlotOf(a: Word): Slot { a / 0x20_0000 }

  function Walk(m: Memory, dirs: Directories, a: Word): Translation {
    var pde := Entry(m, dirs, SlotOf(a));
    if !Present(pde) || FrameOf(pde) >= FRAMES then Fault
    else
      var pte := m[FrameOf(pde)][a / PAGE_SIZE % ENTRIES];
      if !Present(pte) then Fault
      else Page(FrameOf(pte), pte % PAGE_SIZE, Rw(pde) && Rw(pte), NoExecute(pde) || NoExecute(pte))
  }

  /** The walk's slot is the pair of directory indices that the code computes. */
  lemma SlotIsPair(a: Word)
    ensures SlotOf(a) == PdptIdx(a) * ENTRIES + PdIdx(a)
    ensures SlotOf(a) / ENTRIES == PdptIdx(a) && SlotOf(a) % ENTRIES == PdIdx(a)
  {
    assert a / 0x4000_0000 == a / 0x20_0000 / 512;
  }

  // ---------- The recursive directories ----------

  /** The 2048 slots of the four directories, in order. */
  type Directory = d: seq<Word64> | |d| == SLOTS witness seq(SLOTS, _ => 0)

  function Dir(m: Memory, dirs: Directories): (d: Directory)
    ensures forall s: Slot :: d[s] == Entry(m, dirs, s)
  {
    seq(SLOTS, s requires 0 <= s < SLOTS => Entry(m, dirs, s))
  }

  /** The entry that names a table or directory: its address, present and writable. */
  function TableWord(f: FrameNo): Word64 { f * PAGE_SIZE + TABLE_BITS }

  predicate TableEntry(e: Word64) { e < TWO32 && e % PAGE_SIZE == TABLE_BITS }

  /** The last four slots name the directories; every other slot is zero or names its own table. */
  ghost predicate Recursive(d: Directory, dirs: Directories) {
    && (forall s: Slot :: s >= SELF ==> d[s] == TableWord(dirs[s - SELF]))
    && (forall s: Slot :: d[s] == 0 || TableEntry(d[s]))
    && (forall s: Slot, t: Slot :: s != t && d[s] != 0 ==> d[s] != d[t])
  }

  /** A frame that some slot names. */
  ghost predicate InUse(d: Directory, f: FrameNo) {
    exists s: Slot :: d[s] == TableWord(f)
  }

  lemma EntryFields(f: FrameNo)
    ensures var e := TableWord(f);
      TableEntry(e) && Present(e) && Rw(e) && !NoExecute(e) && FrameOf(e) == f && e % PAGE_SIZE == TABLE_BITS
  {
    LowTwelve(f, 3);
  }

  /** What a well-formed entry says, read the other way round. */
  lemma TableEntryFields(e: Word64)
    requires TableEntry(e)
    ensures FrameOf(e) < FRAMES && Present(e) && Rw(e) && !NoExecute(e) && e == TableWord(FrameOf(e))
  {
    EntryFields(e / PAGE_SIZE);
  }

  lemma LowTwelve(k: nat, low: nat)
    requires low < PAGE_SIZE
    ensures (k * PAGE_SIZE + low) / PAGE_SIZE == k && (k * PAGE_SIZE + low) % PAGE_SIZE == low
    ensures Present(k * PAGE_SIZE + low) == Present(low) && Rw(k * PAGE_SIZE + low) == Rw(low)
  {
    ModUnique(4096 * k + low, PAGE_SIZE, k, low);
    ModUnique(4096 * k + low, 2, 2048 * k + low / 2, low % 2);
    ModUnique(2048 * k + low / 2, 2, 1024 * k + low / 2 / 2, low / 2 % 2);
  }

  // ---------- The effect of one `map` call ----------

  /** The flags that survive: those of the mask, and NX where the processor has it. */
  function MaskedFlags(flags: Word64, nx: bool): (r: nat)
    ensures r == And(flags, PG_PAE_FLAG_MASK) + (if nx && NoExecute(flags) then NX else 0)
    ensures And(flags, PG_PAE_FLAG_MASK) <= PG_PAE_FLAG_MASK
  {
    AndBound(flags, PG_PAE_FLAG_MASK);
    AndWithTop(flags);
    if nx then And(flags, NX + PG_PAE_FLAG_MASK) else And(flags, PG_PAE_FLAG_MASK)
  }

  /** The top bit and the others are masked apart. */
  lemma AndTwoParts(hi: nat, lo: nat, c: nat, mask: nat)
    requires lo < NX && mask < NX
    ensures And(NX * hi + lo, NX * c + mask) == NX * And(hi, c) + And(lo, mask)
  {
    SmallPowers();
    JoinIsSum(63, hi, lo);
    JoinIsSum(63, c, mask);
    AndJoin(63, hi, lo, c, mask);
    AndBound(lo, mask);
    JoinIsSum(63, And(hi, c), And(lo, mask));
  }

  lemma OneBit(hi: nat)
    requires hi <= 1
    ensures And(hi, 1) == hi && And(hi, 0) == 0
  {
  }

  lemma AndWithTop(flags: Word64)
    ensures And(flags, NX + PG_PAE_FLAG_MASK) == And(flags, PG_PAE_FLAG_MASK) + (if NoExecute(flags) then NX else 0)
  {
    var hi, lo := flags / NX, flags % NX;
    AndTwoParts(hi, lo, 1, PG_PAE_FLAG_MASK);
    AndTwoParts(hi, lo, 0, PG_PAE_FLAG_MASK);
    OneBit(hi);
  }

  /** The word that `map` stores for the page. */
  function Leaf(phys: Word64, flags: Word64, nx: bool): (r: Word64)
    ensures phys % PAGE_SIZE == 0 ==> r == phys % TWO32 + MaskedFlags(flags, nx)
  {
    LeafSum(phys, flags, nx);
    Or(phys % TWO32, MaskedFlags(flags, nx))
  }

  lemma LeafSum(phys: Word64, flags: Word64, nx: bool)
    ensures Or(phys % TWO32, MaskedFlags(flags, nx)) < TWO64
    ensures phys % PAGE_SIZE == 0 ==>
      Or(phys % TWO32, MaskedFlags(flags, nx)) == phys % TWO32 + MaskedFlags(flags, nx)
  {
    var low := And(flags, PG_PAE_FLAG_MASK);
    Pow2Values();
    Pow2Sum(32, 32);
    OrBound(64, phys % TWO32, MaskedFlags(flags, nx));
    if phys % PAGE_SIZE == 0 {
      var k := PageMultiple(phys);
      OrLeaf(k, low, if nx && NoExecute(flags) then 1 else 0);
    }
  }

  /** A page address below 4 GiB, low flags, and the top bit. */
  lemma OrLeaf(k: nat, low: nat, top: nat)
    requires k < FRAMES && low < PAGE_SIZE && top <= 1
    ensures Or(4096 * k, low + top * NX) == 4096 * k + low + top * NX
  {
    SmallPowers();
    OrShifted(12, k, low);
    OrTwoParts(4096 * k, top, low);
  }

  lemma OrTwoParts(p: nat, top: nat, low: nat)
    requires p < TWO32 && low < PAGE_SIZE
    ensures Or(p, NX * top + low) == NX * top + Or(p, low)
  {
    SmallPowers();
    JoinIsSum(63, 0, p);
    JoinIsSum(63, top, low);
    OrJoin(63, 0, p, top, low);
    OrBound(63, p, low);
    JoinIsSum(63, top, Or(p, low));
  }

  function Poke(m: Memory, f: FrameNo, i: Index, w: Word64): Memory {
    m[f := m[f][i := w]]
  }

  function PokeSlot(m: Memory, dirs: Directories, s: Slot, w: Word64): Memory {
    Poke(m, dirs[s / ENTRIES], s % ENTRIES, w)
  }

  function WithTable(m: Memory, dirs: Directories, tab: FrameNo, s: Slot): Memory {
    if Entry(m, dirs, s) == 0 then PokeSlot(m, dirs, s, TableWord(tab))[tab := Zeros()] else m
  }

  datatype Call = Call(virt: Word, phys: Word64, flags: Word64, nx: bool)

  function MapTo(m: Memory, dirs: Directories, tab: FrameNo, c: Call): Memory {
    var m1 := WithTable(m, dirs, tab, SlotOf(c.virt));
    var e := Entry(m1, dirs, SlotOf(c.virt));
    if FrameOf(e) < FRAMES
    then Poke(m1, FrameOf(e), c.virt / PAGE_SIZE % ENTRIES, Leaf(c.phys, c.flags, c.nx))
    else m1
  }

  /** What a call outside the self-map may rely on: a free frame, if it needs a new table. */
  ghost predicate Callable(m: Memory, dirs: Directories, tab: FrameNo, virt: Word) {
    && Recursive(Dir(m, dirs), dirs)
    && SlotOf(virt) < SELF
    && (Entry(m, dirs, SlotOf(virt)) == 0 ==> !InUse(Dir(m, dirs), tab))
  }

  // ---------- The directory ----------

  lemma DirectoriesDiffer(d: Directory, dirs: Directories)
    requires Recursive(d, dirs)
    ensures forall q, r :: 0 <= q < r < 4 ==> dirs[q] != dirs[r]
    ensures forall f: FrameNo :: f in dirs ==> InUse(d, f)
    ensures forall s: Slot :: s < SELF && d[s] != 0 ==> FrameOf(d[s]) !in dirs
  {
    forall q, r | 0 <= q < r < 4
      ensures dirs[q] != dirs[r]
    {
      assert d[SELF + q] != d[SELF + r];
    }
    forall f: FrameNo | f in dirs
      ensures InUse(d, f)
    {
      var q :| 0 <= q < 4 && dirs[q] == f;
      assert d[SELF + q] == TableWord(f);
    }
    forall s: Slot | s < SELF && d[s] != 0
      ensures FrameOf(d[s]) !in dirs
    {
      TableEntryFields(d[s]);
      forall q | 0 <= q < 4
        ensures dirs[q] != FrameOf(d[s])
      {
        assert d[SELF + q] != d[s];
      }
    }
  }

  lemma NewEntry(d: Directory, dirs: Directories, tab: FrameNo, s: Slot)
    requires Recursive(d, dirs) && !InUse(d, tab) && d[s] == 0
    ensures var d': Directory := d[s := TableWord(tab)];
      Recursive(d', dirs) && forall f: FrameNo :: InUse(d', f) <==> InUse(d, f) || f == tab
  {
    EntryFields(tab);
    var d': Directory := d[s := TableWord(tab)];
    forall f: FrameNo
      ensures InUse(d', f) <==> InUse(d, f) || f == tab
    {
      if InUse(d, f) {
        var t: Slot :| d[t] == TableWord(f);
        assert d'[t] == TableWord(f);
      }
      if f == tab { assert d'[s] == TableWord(f); }
    }
  }

  /** Writing one slot changes that slot of the joint directory only. */
  lemma DirAfterPoke(m: Memory, dirs: Directories, s: Slot, w: Word64)
    requires forall q, r :: 0 <= q < r < 4 ==> dirs[q] != dirs[r]
    ensures Dir(PokeSlot(m, dirs, s, w), dirs) == Dir(m, dirs)[s := w]
  {
    forall t: Slot
      ensures Entry(PokeSlot(m, dirs, s, w), dirs, t) == if t == s then w else Entry(m, dirs, t)
    {
      assert t == t / 512 * 512 + t % 512 && s == s / 512 * 512 + s % 512;
    }
  }

  lemma DirOfOtherFrames(m: Memory, m': Memory, dirs: Directories)
    requires forall f :: f in dirs ==> m'[f] == m[f]
    ensures Dir(m', dirs) == Dir(m, dirs)
  {
    forall t: Slot
      ensures Entry(m', dirs, t) == Entry(m, dirs, t)
    {
    }
  }

  /** What giving slot s a table does: nothing if it has one, else a cleared frame in an empty slot. */
  ghost predicate Grown(d: Directory, m: Memory, dirs: Directories, tab: FrameNo, s: Slot, d1: Directory, m1: Memory) {
    if d[s] == 0 then
      && d1 == d[s := TableWord(tab)] && m1[tab] == Zeros()
      && (forall f: FrameNo :: f !in dirs && f != tab ==> m1[f] == m[f])
    else d1 == d && m1 == m
  }

  lemma WithTableGrows(m: Memory, dirs: Directories, tab: FrameNo, s: Slot)
    requires Recursive(Dir(m, dirs), dirs) && (Entry(m, dirs, s) == 0 ==> !InUse(Dir(m, dirs), tab))
    ensures var m1 := WithTable(m, dirs, tab, s);
      Grown(Dir(m, dirs), m, dirs, tab, s, Dir(m1, dirs), m1)
  {
    var d := Dir(m, dirs);
    DirectoriesDiffer(d, dirs);
    if d[s] == 0 {
      EntryFields(tab);
      var w := TableWord(tab);
      DirAfterPoke(m, dirs, s, w);
      DirOfOtherFrames(PokeSlot(m, dirs, s, w), WithTable(m, dirs, tab, s), dirs);
    }
  }

  lemma GrownKeepsRecursive(d: Directory, m: Memory, dirs: Directories, tab: FrameNo, s: Slot, d1: Directory, m1: Memory)
    requires Recursive(d, dirs) && s < SELF && (d[s] == 0 ==> !InUse(d, tab))
    requires Grown(d, m, dirs, tab, s, d1, m1)
    ensures Recursive(d1, dirs) && TableEntry(d1[s]) && FrameOf(d1[s]) < FRAMES && FrameOf(d1[s]) !in dirs
    ensures forall f: FrameNo :: InUse(d1, f) <==> InUse(d, f) || (d[s] == 0 && f == tab)
  {
    if d[s] == 0 {
      EntryFields(tab);
      NewEntry(d, dirs, tab, s);
    }
    TableEntryFields(d1[s]);
    DirectoriesDiffer(d1, dirs);
  }

  /** The whole call: a table for the slot, then one word of it; no directory changes in between. */
  lemma MapInTwoSteps(m: Memory, dirs: Directories, tab: FrameNo, c: Call) returns (m1: Memory)
    requires Callable(m, dirs, tab, c.virt)
    ensures var s := SlotOf(c.virt);
      var d, d1 := Dir(m, dirs), Dir(m1, dirs);
      var m' := MapTo(m, dirs, tab, c);
      && m1 == WithTable(m, dirs, tab, s) && Grown(d, m, dirs, tab, s, d1, m1)
      && Recursive(d1, dirs) && TableEntry(d1[s]) && FrameOf(d1[s]) < FRAMES && FrameOf(d1[s]) !in dirs
      && (forall f: FrameNo :: InUse(d1, f) <==> InUse(d, f) || (d[s] == 0 && f == tab))
      && m' == Poke(m1, FrameOf(d1[s]), c.virt / PAGE_SIZE % ENTRIES, Leaf(c.phys, c.flags, c.nx))
      && Dir(m', dirs) == d1
  {
    var s := SlotOf(c.virt);
    m1 := WithTable(m, dirs, tab, s);
    WithTableGrows(m, dirs, tab, s);
    GrownKeepsRecursive(Dir(m, dirs), m, dirs, tab, s, Dir(m1, dirs), m1);
    assert Dir(m1, dirs)[s] == Entry(m1, dirs, s);
    DirOfOtherFrames(m1, MapTo(m, dirs, tab, c), dirs);
  }

  // ---------- Theorems ----------

  lemma MapKeepsRecursive(m: Memory, dirs: Directories, tab: FrameNo, c: Call)
    requires Callable(m, dirs, tab, c.virt)
    ensures var d' := Dir(MapTo(m, dirs, tab, c), dirs);
      && Recursive(d', dirs)
      && (forall f: FrameNo :: InUse(d', f) <==>
            InUse(Dir(m, dirs), f) || (Entry(m, dirs, SlotOf(c.virt)) == 0 && f == tab))
  {
    var m1 := MapInTwoSteps(m, dirs, tab, c);
  }

  /** What the hardware finds for a page mapped with these arguments. */
  function Mapped(c: Call): (t: Translation)
    requires c.phys % PAGE_SIZE == 0
  {
    if c.flags % 2 == 0 then Fault
    else Page(c.phys % TWO32 / PAGE_SIZE, And(c.flags, PG_PAE_FLAG_MASK), c.flags / 2 % 2 == 1,
              c.nx && NoExecute(c.flags))
  }

  /** A page-table entry, as the hardware reads it below a writable, executable directory entry. */
  function Translated(e: Word64): Translation {
    if Present(e) then Page(FrameOf(e), e % PAGE_SIZE, Rw(e), NoExecute(e)) else Fault
  }

  lemma MaskKeepsLowFlags(f: Word64)
    ensures var mask := And(f, PG_PAE_FLAG_MASK);
      mask < PAGE_SIZE && Present(mask) == (f % 2 == 1) && Rw(mask) == (f / 2 % 2 == 1)
  {
    AndBound(f, PG_PAE_FLAG_MASK);
    BitOfAnd(f, PG_PAE_FLAG_MASK, 0);
    BitOfAnd(f, PG_PAE_FLAG_MASK, 1);
    assert Bit(PG_PAE_FLAG_MASK, 1) && Bit(PG_PAE_FLAG_MASK, 0);
    assert Bit(And(f, PG_PAE_FLAG_MASK), 1) == Rw(And(f, PG_PAE_FLAG_MASK));
    assert Bit(f, 1) == Rw(f);
  }

  lemma LeafIsMapped(c: Call)
    requires c.phys % PAGE_SIZE == 0
    ensures Mapped(c) == Translated(Leaf(c.phys, c.flags, c.nx))
  {
    var low := And(c.flags, PG_PAE_FLAG_MASK);
    var k := PageMultiple(c.phys);
    var top := if c.nx && NoExecute(c.flags) then 1 else 0;
    MaskKeepsLowFlags(c.flags);
    assert k < FRAMES;
    LeafFields(k, low, top);
  }

  lemma LeafFields(k: nat, low: nat, top: nat)
    requires k < FRAMES && low < PAGE_SIZE && top <= 1
    ensures var e := 4096 * k + low + top * NX;
      && e < TWO64 && e / PAGE_SIZE % 0x100_0000_0000 == k && e % PAGE_SIZE == low
      && Present(e) == Present(low) && Rw(e) == Rw(low) && (e / NX == 1) == (top == 1)
  {
    var e := 4096 * k + low + top * NX;
    var high := k + top * 0x8_0000_0000_0000;
    assert e == high * 4096 + low;
    LowTwelve(high, low);
    ModUnique(high, 0x100_0000_0000, top * 0x800, k);
    ModUnique(e, NX, top, 4096 * k + low);
  }

  /** The walk, given the joint directory. */
  function Via(d: Directory, m: Memory, a: Word): Translation {
    var pde := d[SlotOf(a)];
    if pde == 0 || FrameOf(pde) >= FRAMES then Fault
    else Translated(m[FrameOf(pde)][a / PAGE_SIZE % ENTRIES])
  }

  lemma WalkIsVia(m: Memory, dirs: Directories, a: Word)
    requires Recursive(Dir(m, dirs), dirs)
    ensures Walk(m, dirs, a) == Via(Dir(m, dirs), m, a)
  {
    var e := Dir(m, dirs)[SlotOf(a)];
    assert e == Entry(m, dirs, SlotOf(a));
    if e != 0 { TableEntryFields(e); }
  }

  lemma SamePageSplit(a: Word, b: Word)
    ensures SamePage(a, b) <==> SlotOf(a) == SlotOf(b) && a / PAGE_SIZE % ENTRIES == b / PAGE_SIZE % ENTRIES
  {
    assert a / 0x20_0000 == a / PAGE_SIZE / ENTRIES && b / 0x20_0000 == b / PAGE_SIZE / ENTRIES;
  }

  lemma MapSetsThePage(m: Memory, dirs: Directories, tab: FrameNo, c: Call, a: Word)
    requires Callable(m, dirs, tab, c.virt) && c.phys % PAGE_SIZE == 0 && SamePage(a, c.virt)
    ensures Walk(MapTo(m, dirs, tab, c), dirs, a) ==
      if c.flags % 2 == 0 then Fault
      else Page(c.phys % 0x1_0000_0000 / 4096, And(c.flags, 0x11F), c.flags / 2 % 2 == 1,
                c.nx && c.flags >= 0x8000_0000_0000_0000)
  {
    var m1 := MapInTwoSteps(m, dirs, tab, c);
    LeafIsMapped(c);
    SamePageSplit(a, c.virt);
    WalkIsVia(MapTo(m, dirs, tab, c), dirs, a);
  }

  /** The page asked for is reached exactly when it lies below 4 GiB: the store keeps 32 address bits. */
  lemma ReachedBelowFourGiB(m: Memory, dirs: Directories, tab: FrameNo, c: Call, a: Word)
    requires Callable(m, dirs, tab, c.virt) && c.phys % PAGE_SIZE == 0 && SamePage(a, c.virt) && c.flags % 2 == 1
    ensures var w := Walk(MapTo(m, dirs, tab, c), dirs, a);
      w.Page? && (w.frame == c.phys / PAGE_SIZE <==> c.phys < TWO32)
  {
    MapSetsThePage(m, dirs, tab, c, a);
  }

  /** The first page above 4 GiB: page 0 is mapped in its place. */
  lemma FourGiBIsMissed(m: Memory, dirs: Directories, tab: FrameNo, virt: Word, nx: bool)
    requires Callable(m, dirs, tab, virt)
    ensures Walk(MapTo(m, dirs, tab, Call(virt, TWO32, 3, nx)), dirs, virt) == Page(0, 3, true, false)
  {
    MapSetsThePage(m, dirs, tab, Call(virt, TWO32, 3, nx), virt);
    assert And(3, PG_PAE_FLAG_MASK) == 3;
  }

  /** A page of the self-map is translated by the directory slot it shows. */
  lemma WindowReads(m: Memory, dirs: Directories, a: Word)
    requires Recursive(Dir(m, dirs), dirs) && SlotOf(a) >= SELF
    ensures Walk(m, dirs, a) == Translated(Entry(m, dirs, (SlotOf(a) - SELF) * ENTRIES + a / PAGE_SIZE % ENTRIES))
  {
    var q, i := SlotOf(a) - SELF, a / PAGE_SIZE % ENTRIES;
    EntryAt(m, dirs, q, i);
    EntryFields(dirs[q]);
    assert Dir(m, dirs)[SELF + q] == TableWord(dirs[q]);
    WalkIsVia(m, dirs, a);
  }

  lemma EntryAt(m: Memory, dirs: Directories, q: nat, i: Index)
    requires q < 4
    ensures Entry(m, dirs, q * ENTRIES + i) == m[dirs[q]][i]
  {
    SlotParts(q, i);
  }

  lemma SlotParts(q: nat, i: Index)
    ensures (q * ENTRIES + i) / ENTRIES == q && (q * ENTRIES + i) % ENTRIES == i
  {
    ModUnique(q * ENTRIES + i, ENTRIES, q, i);
  }

  /** The page through which the self-map shows the table of slot s. */
  function WindowPage(s: Slot): (r: Word)
    requires s < SELF
    ensures r == (SELF + s / ENTRIES) * 0x20_0000 + s % ENTRIES * PAGE_SIZE
  {
    Virt(3, 508 + s / ENTRIES, s % ENTRIES)
  }

  lemma WindowPageParts(s: Slot)
    requires s < SELF
    ensures SlotOf(WindowPage(s)) == SELF + s / ENTRIES && WindowPage(s) / PAGE_SIZE % ENTRIES == s % ENTRIES
  {
    var n := (SELF + s / ENTRIES) * ENTRIES + s % ENTRIES;
    assert WindowPage(s) == 4096 * n;
    ModUnique(4096 * n, PAGE_SIZE, n, 0);
    SlotParts(SELF + s / ENTRIES, s % ENTRIES);
  }

  lemma MapKeepsOtherPages(m: Memory, dirs: Directories, tab: FrameNo, c: Call, a: Word)
    requires Callable(m, dirs, tab, c.virt) && !SamePage(a, c.virt)
    ensures Walk(MapTo(m, dirs, tab, c), dirs, a) ==
      if Entry(m, dirs, SlotOf(c.virt)) == 0 && SamePage(a, WindowPage(SlotOf(c.virt)))
      then Page(tab, TABLE_BITS, true, false)
      else Walk(m, dirs, a)
  {
    SamePageSplit(a, c.virt);
    SamePageSplit(a, WindowPage(SlotOf(c.virt)));
    WindowPageParts(SlotOf(c.virt));
    if SlotOf(a) >= SELF {
      MapKeepsWindow(m, dirs, tab, c, a);
    } else {
      MapKeepsTables(m, dirs, tab, c, a);
    }
  }

  lemma MapKeepsWindow(m: Memory, dirs: Directories, tab: FrameNo, c: Call, a: Word)
    requires Callable(m, dirs, tab, c.virt) && SlotOf(a) >= SELF
    ensures Walk(MapTo(m, dirs, tab, c), dirs, a) ==
      if Entry(m, dirs, SlotOf(c.virt)) == 0
        && (SlotOf(a) - SELF) * ENTRIES + a / PAGE_SIZE % ENTRIES == SlotOf(c.virt)
      then Page(tab, TABLE_BITS, true, false)
      else Walk(m, dirs, a)
  {
    var m' := MapTo(m, dirs, tab, c);
    var t: Slot := (SlotOf(a) - SELF) * ENTRIES + a / PAGE_SIZE % ENTRIES;
    var m1 := MapInTwoSteps(m, dirs, tab, c);
    WindowReads(m, dirs, a);
    WindowReads(m', dirs, a);
    assert Dir(m', dirs)[t] == Entry(m', dirs, t) && Dir(m, dirs)[t] == Entry(m, dirs, t);
    EntryFields(tab);
  }

  lemma MapKeepsTables(m: Memory, dirs: Directories, tab: FrameNo, c: Call, a: Word)
    requires Callable(m, dirs, tab, c.virt) && SlotOf(a) < SELF
    requires SlotOf(a) != SlotOf(c.virt) || a / PAGE_SIZE % ENTRIES != c.virt / PAGE_SIZE % ENTRIES
    ensures Walk(MapTo(m, dirs, tab, c), dirs, a) == Walk(m, dirs, a)
  {
    var m1 := MapInTwoSteps(m, dirs, tab, c);
    WalkIsVia(m, dirs, a);
    WalkIsVia(MapTo(m, dirs, tab, c), dirs, a);
    var d, d1 := Dir(m, dirs), Dir(m1, dirs);
    assert d[SlotOf(c.virt)] == Entry(m, dirs, SlotOf(c.virt));
    TablesKept(d, m, dirs, tab, SlotOf(c.virt), d1, m1, c.virt / PAGE_SIZE % ENTRIES, Leaf(c.phys, c.flags, c.nx), a);
  }

  /** A word of slot s's table is no word of another slot's table, and a new table starts out clear. */
  lemma TablesKept(d: Directory, m: Memory, dirs: Directories, tab: FrameNo, s: Slot, d1: Directory, m1: Memory,
                   i: Index, w: Word64, a: Word)
    requires Recursive(d, dirs) && (d[s] == 0 ==> !InUse(d, tab)) && Grown(d, m, dirs, tab, s, d1, m1)
    requires Recursive(d1, dirs) && d1[s] != 0 && FrameOf(d1[s]) < FRAMES
    requires SlotOf(a) < SELF && (SlotOf(a) != s || a / PAGE_SIZE % ENTRIES != i)
    ensures Via(d1, Poke(m1, FrameOf(d1[s]), i, w), a) == Via(d, m, a)
  {
    var t := SlotOf(a);
    EntryFields(tab);
    if t != s && d[t] != 0 {
      TableEntryFields(d[t]);
      TableEntryFields(d1[s]);
      assert d1[t] != d1[s];
      assert d[t] == TableWord(FrameOf(d[t]));
      DirectoriesDiffer(d, dirs);
    }
  }

  /** Only the directories and the page's table are written. */
  lemma MapKeepsOtherFrames(m: Memory, dirs: Directories, tab: FrameNo, c: Call, f: FrameNo)
    requires Callable(m, dirs, tab, c.virt) && !InUse(Dir(MapTo(m, dirs, tab, c), dirs), f)
    ensures MapTo(m, dirs, tab, c)[f] == m[f]
  {
    var m1 := MapInTwoSteps(m, dirs, tab, c);
    var s, d1 := SlotOf(c.virt), Dir(m1, dirs);
    DirectoriesDiffer(d1, dirs);
    TableEntryFields(d1[s]);
    assert d1[s] == TableWord(FrameOf(d1[s]));
    EntryFields(tab);
  }

  /**
    A page of the self-map is an entry of a directory.  Mapping it keeps the directories recursive
    exactly when the stored word is what such an entry may hold.
   */
  lemma MapInSelfMap(m: Memory, dirs: Directories, tab: FrameNo, c: Call)
    requires Recursive(Dir(m, dirs), dirs) && SlotOf(c.virt) >= SELF
    ensures var t: Slot := (SlotOf(c.virt) - SELF) * ENTRIES + c.virt / PAGE_SIZE % ENTRIES;
      var e := Leaf(c.phys, c.flags, c.nx);
      Recursive(Dir(MapTo(m, dirs, tab, c), dirs), dirs) <==>
        if t >= SELF then e == Entry(m, dirs, t)
        else e == 0 || (TableEntry(e) && forall s: Slot :: s != t ==> Entry(m, dirs, s) != e)
  {
    var q, i := SlotOf(c.virt) - SELF, c.virt / PAGE_SIZE % ENTRIES;
    var t: Slot := q * ENTRIES + i;
    var e := Leaf(c.phys, c.flags, c.nx);
    var d := Dir(m, dirs);
    assert d[SELF + q] == Entry(m, dirs, SELF + q);
    EntryFields(dirs[q]);
    SlotParts(q, i);
    DirectoriesDiffer(d, dirs);
    DirAfterPoke(m, dirs, t, e);
    OneSlotChanged(d, dirs, t, e);
    assert forall s: Slot :: d[s] == Entry(m, dirs, s);
  }

  lemma OneSlotChanged(d: Directory, dirs: Directories, t: Slot, e: Word64)
    requires Recursive(d, dirs)
    ensures Recursive(d[t := e], dirs) <==>
      if t >= SELF then e == d[t] else e == 0 || (TableEntry(e) && forall s: Slot :: s != t ==> d[s] != e)
  {
    var d': Directory := d[t := e];
    assert d'[t] == e && forall s: Slot :: s != t ==> d'[s] == d[s];
    if t >= SELF {
      if Recursive(d', dirs) { assert d'[t] == TableWord(dirs[t - SELF]) == d[t]; }
      if e == d[t] { assert d' == d; }
    } else if Recursive(d', dirs) && e != 0 {
      forall s: Slot | s != t
        ensures d[s] != e
      {
        assert d'[t] != d'[s];
      }
    }
  }

  // ---------- The table as a map from pages to translations ----------

  /** What the hardware finds for each page below the self-map. */
  function View(m: Memory, dirs: Directories): (v: seq<Translation>)
    ensures |v| == SELF * ENTRIES
  {
    seq(SELF * ENTRIES, n requires 0 <= n < SELF * ENTRIES => Walk(m, dirs, n * PAGE_SIZE))
  }

  lemma MapUpdatesView(m: Memory, dirs: Directories, tab: FrameNo, c: Call)
    requires Callable(m, dirs, tab, c.virt) && c.phys % PAGE_SIZE == 0
    ensures View(MapTo(m, dirs, tab, c), dirs) == View(m, dirs)[c.virt / PAGE_SIZE := Mapped(c)]
  {
    var m' := MapTo(m, dirs, tab, c);
    forall n: nat | n < SELF * ENTRIES
      ensures Walk(m', dirs, n * PAGE_SIZE) ==
        if n == c.virt / PAGE_SIZE then Mapped(c) else Walk(m, dirs, n * PAGE_SIZE)
    {
      var a := n * PAGE_SIZE;
      assert a / PAGE_SIZE == n && SlotOf(a) == n / ENTRIES;
      if n == c.virt / PAGE_SIZE {
        MapSetsThePage(m, dirs, tab, c, a);
      } else {
        MapKeepsOtherPages(m, dirs, tab, c, a);
        SamePageSplit(a, WindowPage(SlotOf(c.virt)));
        WindowPageParts(SlotOf(c.virt));
      }
    }
  }
}
