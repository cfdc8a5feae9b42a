/**
  The loader's set-up of paging without PAE: physical addressing is still on, two frames are taken
  from the loader's allocator and filled in directly.
 */
module LoaderMmu {
  import opened Bits
  import opened Pages
  import opened Paging
  import opened Mmu

  class LoaderMmu32Nopae {
    var mem: Memory          // physical memory
    var cr3: FrameNo
    var pageDirAddr: Word

    /**
      `pd` and `pt` are the frames that the two `pmm_alloc_page()` calls return; the loader's allocator
      clears a frame before it returns it.
     */
    method Init(pd: FrameNo, pt: FrameNo)
      requires pd != pt && mem[pd] == Zeros()
      modifies this
      ensures cr3 == pd && pageDirAddr == 0xFFFF_F000
      ensures Recursive(mem, cr3)
      ensures forall f: FrameNo :: InUse(mem, cr3, f) <==> f == pd || f == pt
      ensures forall f: FrameNo :: f != pd && f != pt ==> mem[f] == old(mem[f])
      ensures forall a: Word :: Walk(mem, cr3, a) == FirstTranslation(pd, pt, a)
    {
      OrTableBits(pd);
      OrTableBits(pt);
      EntryFields(pd);
      EntryFields(pt);
      mem := Poke(mem, pd, SELF, Or(pd * PAGE_SIZE % TWO32, PDE_PR + PDE_RW));
      var i := 0;
      while i < ENTRIES
        invariant 0 <= i <= ENTRIES
        invariant mem[pd] == old(mem[pd])[SELF := TableWord(pd)]
        invariant forall f: FrameNo :: f != pd && f != pt ==> mem[f] == old(mem[f])
        invariant forall k: Index :: k < i ==> mem[pt][k] == TableWord(k)
      {
        OrTableBits(i);
        EntryFields(i);
        mem := Poke(mem, pt, i, Or(i * PAGE_SIZE % TWO32, PDE_PR + PDE_RW));
        i := i + 1;
      }
      mem := Poke(mem, pd, 0, Or(pt * PAGE_SIZE % TWO32, PDE_PR + PDE_RW));
      cr3 := pd;
      pageDirAddr := PAGE_DIR;
      FirstDirectory(mem, pd, pt);
      forall a: Word
        ensures Walk(mem, cr3, a) == FirstTranslation(pd, pt, a)
      {
        FirstWalk(mem, pd, pt, a);
      }
    }
  }

  /** The identity map of the first 4 MiB, and the two window pages that exist by then. */
  function FirstTranslation(pd: FrameNo, pt: FrameNo, a: Word): Translation {
    if a < 0x40_0000 then Page(a / 4096, 3, true)
    else if 0xFFC0_0000 <= a < 0xFFC0_1000 then Page(pt, 3, true)
    else if 0xFFFF_F000 <= a then Page(pd, 3, true)
    else Fault
  }

  /** The directory that `Init` leaves: its own slot, the identity table, nothing else. */
  ghost predicate First(m: Memory, pd: FrameNo, pt: FrameNo) {
    && pd != pt
    && m[pd][SELF] == TableWord(pd)
    && m[pd][0] == TableWord(pt)
    && (forall i: Index :: i != 0 && i != SELF ==> m[pd][i] == 0)
    && (forall k: Index :: m[pt][k] == TableWord(k))
  }

  lemma FirstDirectory(m: Memory, pd: FrameNo, pt: FrameNo)
    requires First(m, pd, pt)
    ensures Recursive(m, pd)
    ensures forall f: FrameNo :: InUse(m, pd, f) <==> f == pd || f == pt
  {
    EntryFields(pd);
    EntryFields(pt);
    forall f: FrameNo
      ensures InUse(m, pd, f) <==> f == pd || f == pt
    {
      if f == pd { assert m[pd][SELF] != 0; }
      if f == pt { assert m[pd][0] != 0; }
    }
  }

  lemma FirstWalk(m: Memory, pd: FrameNo, pt: FrameNo, a: Word)
    requires First(m, pd, pt)
    ensures Walk(m, pd, a) == FirstTranslation(pd, pt, a)
  {
    EntryFields(pd);
    EntryFields(pt);
    EntryFields(a / PAGE_SIZE % ENTRIES);
    SamePageSplit(a, Virt(SELF, 0));
    SamePageSplit(a, Virt(SELF, SELF));
    VirtSplit(SELF, 0);
    VirtSplit(SELF, SELF);
    assert a < 0x40_0000 ==> a / PAGE_SIZE % ENTRIES == a / PAGE_SIZE;
  }
}
