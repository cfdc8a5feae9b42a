/**
  The loader's set-up of paging with PAE: six frames are taken from the loader's allocator, four
  directories and the two tables of the first 4 MiB, and filled in by physical address.
 */
module LoaderPae {
  import opened Bits
  import opened Pages
  import opened PaePaging
  import opened PaeMmu

  class LoaderMmu32Pae {
    var mem: Memory
    var pdpt: seq<Word64>    // the page-directory-pointer table that CR3 is loaded with

    /**
      `dirs`, `t0` and `t1` are the frames that the six `pmm_alloc_page()` calls return; the loader's
      allocator clears a frame before it returns it.
     */
    method Init(dirs: Directories, t0: FrameNo, t1: FrameNo)
      requires Separate(dirs, t0, t1) && forall f :: f in dirs ==> mem[f] == Zeros()
      modifies this
      ensures |pdpt| == 4 && forall q :: 0 <= q < 4 ==> pdpt[q] == dirs[q] as nat * 4096 + 1
      ensures Recursive(Dir(mem, dirs), dirs)
      ensures forall f: FrameNo :: InUse(Dir(mem, dirs), f) <==> f in dirs || f == t0 || f == t1
      ensures forall f: FrameNo :: f !in dirs && f != t0 && f != t1 ==> mem[f] == old(mem[f])
      ensures forall a: Word :: a < 0xFF80_0000 ==> Walk(mem, dirs, a) == FirstTranslation(a)
    {
      pdpt := [dirs[0] * PAGE_SIZE, dirs[1] * PAGE_SIZE, dirs[2] * PAGE_SIZE, dirs[3] * PAGE_SIZE];
      StoreSelfMap(dirs);
      FillTables(dirs, t0, t1);
      PointerBits(dirs);
      pdpt := [Or(pdpt[0], 1), Or(pdpt[1], 1), Or(pdpt[2], 1), Or(pdpt[3], 1)];
      FirstDirectory(Dir(mem, dirs), dirs, t0, t1);
      FirstWalks(mem, dirs, t0, t1);
    }

    /** The two tables of the first 4 MiB, and their slots. */
    method FillTables(dirs: Directories, t0: FrameNo, t1: FrameNo)
      requires Separate(dirs, t0, t1)
      requires forall s: Slot :: Dir(mem, dirs)[s] == if s >= SELF then TableWord(dirs[s - SELF]) else 0
      modifies this`mem
      ensures First(Dir(mem, dirs), dirs, t0, t1)
      ensures forall k: Index :: mem[t0][k] == TableWord(k) && mem[t1][k] == TableWord(ENTRIES + k)
      ensures forall f: FrameNo :: f !in dirs && f != t0 && f != t1 ==> mem[f] == old(mem[f])
    {
      ghost var m1 := mem;
      FillTable(t0, 0);
      FillTable(t1, ENTRIES);
      DirOfOtherFrames(m1, mem, dirs);
      StoreTables(dirs, t0, t1, Dir(m1, dirs));
    }

    /** Slots 508..511 of the fourth directory. */
    method StoreSelfMap(dirs: Directories)
      requires (forall q, r :: 0 <= q < r < 4 ==> dirs[q] != dirs[r]) && forall f :: f in dirs ==> mem[f] == Zeros()
      requires pdpt == [dirs[0] * PAGE_SIZE, dirs[1] * PAGE_SIZE, dirs[2] * PAGE_SIZE, dirs[3] * PAGE_SIZE]
      modifies this`mem
      ensures forall s: Slot :: Dir(mem, dirs)[s] == if s >= SELF then TableWord(dirs[s - SELF]) else 0
      ensures forall f: FrameNo :: f !in dirs ==> mem[f] == old(mem[f])
    {
      assert forall s: Slot :: dirs[s / ENTRIES] in dirs;
      var q := 0;
      while q < 4
        invariant 0 <= q <= 4
        invariant forall s: Slot :: Dir(mem, dirs)[s] == if SELF <= s < SELF + q then TableWord(dirs[s - SELF]) else 0
        invariant forall f: FrameNo :: f !in dirs ==> mem[f] == old(mem[f])
      {
        OrTableBits(dirs[q]);
        DirAfterPoke(mem, dirs, SELF + q, TableWord(dirs[q]));
        mem := Poke(mem, dirs[3], 508 + q, Or(pdpt[q], 3));
        q := q + 1;
      }
    }

    /** One table of the identity map: 512 pages from page number `first` on. */
    method FillTable(t: FrameNo, first: nat)
      requires first <= ENTRIES
      modifies this`mem
      ensures forall k: Index :: mem[t][k] == TableWord(first + k)
      ensures forall f: FrameNo :: f != t ==> mem[f] == old(mem[f])
    {
      var i := first;
      while i < first + ENTRIES
        invariant first <= i <= first + ENTRIES
        invariant forall k: Index :: k < i - first ==> mem[t][k] == TableWord(first + k)
        invariant forall f: FrameNo :: f != t ==> mem[f] == old(mem[f])
      {
        OrTableBits(i);
        mem := Poke(mem, t, i - first, Or(i * PAGE_SIZE, 3));
        i := i + 1;
      }
    }

    /** The first two slots of the first directory. */
    method StoreTables(dirs: Directories, t0: FrameNo, t1: FrameNo, ghost d1: Directory)
      requires Separate(dirs, t0, t1) && Dir(mem, dirs) == d1
      modifies this`mem
      ensures Dir(mem, dirs) == d1[0 := TableWord(t0)][1 := TableWord(t1)]
      ensures forall f: FrameNo :: f != dirs[0] ==> mem[f] == old(mem[f])
    {
      OrTableBits(t0);
      OrTableBits(t1);
      DirAfterPoke(mem, dirs, 0, TableWord(t0));
      mem := Poke(mem, dirs[0], 0, Or(t0 * PAGE_SIZE, 3));
      DirAfterPoke(mem, dirs, 1, TableWord(t1));
      mem := Poke(mem, dirs[0], 1, Or(t1 * PAGE_SIZE, 3));
    }
  }

  /** Six different frames. */
  predicate Separate(dirs: Directories, t0: FrameNo, t1: FrameNo) {
    (forall q, r :: 0 <= q < r < 4 ==> dirs[q] != dirs[r]) && t0 != t1 && t0 !in dirs && t1 !in dirs
  }

  /** The identity map of the first 4 MiB. */
  function FirstTranslation(a: Word): Translation {
    if a < 0x40_0000 then Page(a / 4096, 3, true, false) else Fault
  }

  lemma PointerBits(dirs: Directories)
    ensures forall q :: 0 <= q < 4 ==> Or(dirs[q] * PAGE_SIZE, 1) == dirs[q] * PAGE_SIZE + 1
  {
    forall q | 0 <= q < 4
      ensures Or(dirs[q] * PAGE_SIZE, 1) == dirs[q] * PAGE_SIZE + 1
    {
      Pow2Values();
      OrShifted(12, dirs[q], 1);
    }
  }

  ghost predicate First(d: Directory, dirs: Directories, t0: FrameNo, t1: FrameNo) {
    && d[0] == TableWord(t0) && d[1] == TableWord(t1)
    && (forall s: Slot :: 2 <= s < SELF ==> d[s] == 0)
    && (forall s: Slot :: s >= SELF ==> d[s] == TableWord(dirs[s - SELF]))
  }

  lemma FirstDirectory(d: Directory, dirs: Directories, t0: FrameNo, t1: FrameNo)
    requires Separate(dirs, t0, t1) && First(d, dirs, t0, t1)
    ensures Recursive(d, dirs)
    ensures forall f: FrameNo :: InUse(d, f) <==> f in dirs || f == t0 || f == t1
  {
    forall s: Slot
      ensures d[s] == 0 || TableEntry(d[s])
    {
      EntryFields(t0);
      EntryFields(t1);
      if s >= SELF { EntryFields(dirs[s - SELF]); }
    }
    forall f: FrameNo
      ensures InUse(d, f) <==> f in dirs || f == t0 || f == t1
    {
      if f in dirs {
        var q :| 0 <= q < 4 && dirs[q] == f;
        assert d[SELF + q] == TableWord(f);
      }
      if f == t0 { assert d[0] == TableWord(f); }
      if f == t1 { assert d[1] == TableWord(f); }
    }
    forall s: Slot, t: Slot | s != t && d[s] != 0
      ensures d[s] != d[t]
    {
      assert s >= SELF ==> dirs[s - SELF] in dirs;
      assert t >= SELF ==> dirs[t - SELF] in dirs;
    }
  }

  lemma FirstWalks(m: Memory, dirs: Directories, t0: FrameNo, t1: FrameNo)
    requires First(Dir(m, dirs), dirs, t0, t1)
    requires forall k: Index :: m[t0][k] == TableWord(k) && m[t1][k] == TableWord(ENTRIES + k)
    ensures forall a: Word :: SlotOf(a) < SELF ==> Walk(m, dirs, a) == FirstTranslation(a)
  {
    forall a: Word | SlotOf(a) < SELF
      ensures Walk(m, dirs, a) == FirstTranslation(a)
    {
      FirstWalk(m, dirs, t0, t1, a);
    }
  }

  lemma FirstWalk(m: Memory, dirs: Directories, t0: FrameNo, t1: FrameNo, a: Word)
    requires First(Dir(m, dirs), dirs, t0, t1) && SlotOf(a) < SELF
    requires forall k: Index :: m[t0][k] == TableWord(k) && m[t1][k] == TableWord(ENTRIES + k)
    ensures Walk(m, dirs, a) == FirstTranslation(a)
  {
    var s, k := SlotOf(a), a / PAGE_SIZE % ENTRIES;
    assert Dir(m, dirs)[s] == Entry(m, dirs, s);
    EntryFields(t0);
    EntryFields(t1);
    EntryFields(k);
    EntryFields(ENTRIES + k);
    assert s < 2 <==> a < 0x40_0000;
    assert s < 2 ==> a / PAGE_SIZE == s * ENTRIES + k;
  }
}
