/**
  `map` without PAE, as the kernel runs it: every page-table word is read and written by virtual
  address, through the window that directory slot 1023 opens on the tables, and the processor may
  answer any translation from its TLB.
 */
module Mmu {
  import opened Bits
  import opened Pages
  import opened BootAllocator
  import opened Paging
  import opened AddressSpace

  const PAGE_DIR: Word := 0xFFFF_F000

  type Tlb = map<nat, Translation>  // keyed by page number; holds no negative entries

  ghost predicate Agrees(t: Tlb, m: Memory, cr3: FrameNo) {
    forall vp :: vp in t ==> vp < FRAMES && t[vp] == Walk(m, cr3, vp * PAGE_SIZE) && t[vp] != Fault
  }

  class Mmu32Nopae {
    const cr3: FrameNo
    var mem: Memory
    var tlb: Tlb

    /** The TLB is a partial cache of the walk. */
    ghost predicate Coherent()
      reads this
    {
      Agrees(tlb, mem, cr3)
    }

    ghost function State(alloc: BootAllocator): Space
      requires alloc.allocMap != null
      reads this, alloc, alloc.allocMap.words
    {
      Space(mem, cr3, alloc.Free())
    }

    ghost predicate Valid(alloc: BootAllocator)
      reads this, alloc, if alloc.allocMap != null then {alloc.allocMap.words} else {}
    {
      && alloc.Valid()
      && (forall f :: f in alloc.Free() ==> f < FRAMES)
      && Inv(State(alloc))
      && Coherent()
    }

    constructor (cr3: FrameNo, mem: Memory)
      ensures this.cr3 == cr3 && this.mem == mem && tlb == map[]
    {
      this.cr3, this.mem, this.tlb := cr3, mem, map[];
    }

    // ---------- The processor ----------

    /**
      Translates one access.  The answer may come from the TLB or from a walk; entries may be dropped
      at any time and the page walked for may be kept.
     */
    method Translate(a: Word) returns (t: Translation)
      requires Coherent()
      modifies this`tlb
      ensures Coherent() && t == Walk(mem, cr3, a)
      ensures tlb.Keys <= old(tlb.Keys) + {a / PAGE_SIZE}
    {
      var evicted: set<nat> := *;
      var hit: bool, keep: bool := *, *;
      tlb := tlb - evicted;
      WalkByPage(mem, cr3, a);
      if a / PAGE_SIZE in tlb && hit {
        t := tlb[a / PAGE_SIZE];
      } else {
        t := Walk(mem, cr3, a);
        if t != Fault && keep { tlb := tlb[a / PAGE_SIZE := t]; }
      }
    }

    method ReadWord(a: Word) returns (w: Word)
      requires Coherent() && a % 4 == 0 && Walk(mem, cr3, a) != Fault
      modifies this`tlb
      ensures Coherent() && w == mem[Walk(mem, cr3, a).frame][a % PAGE_SIZE / 4]
      ensures tlb.Keys <= old(tlb.Keys) + {a / PAGE_SIZE}
    {
      var t := Translate(a);
      w := mem[t.frame][a % PAGE_SIZE / 4];
    }

    /** A store; the TLB still agrees with the memory as it was before. */
    method WriteWord(a: Word, w: Word)
      requires Coherent() && a % 4 == 0 && Walk(mem, cr3, a) != Fault && Walk(mem, cr3, a).writable
      modifies this
      ensures mem == Poke(old(mem), Walk(old(mem), cr3, a).frame, a % PAGE_SIZE / 4, w)
      ensures Agrees(tlb, old(mem), cr3) && tlb.Keys <= old(tlb.Keys) + {a / PAGE_SIZE}
    {
      var t := Translate(a);
      mem := Poke(mem, t.frame, a % PAGE_SIZE / 4, w);
    }

    method Invlpg(a: Word)
      modifies this`tlb
      ensures tlb == old(tlb) - {a / PAGE_SIZE}
    {
      tlb := tlb - {a / PAGE_SIZE};
    }

    // ---------- The kernel ----------

    /** One word of the `memset`. */
    method ClearWord(pd: Index, ghost tab: FrameNo, i: Index)
      requires Coherent() && pd != SELF && tab != cr3
      requires mem[cr3][SELF] == TableWord(cr3)
      requires mem[cr3][pd] == TableWord(tab)
      requires forall i: Index :: i != pd && mem[cr3][i] != 0 ==> FrameOf(mem[cr3][i]) != tab
      requires forall vp :: vp in tlb ==> vp / ENTRIES != pd
      modifies this
      ensures mem == Poke(old(mem), tab, i, 0)
      ensures Coherent() && forall vp :: vp in tlb ==> vp / ENTRIES != pd
    {
      ghost var before := mem;
      WindowWalk(mem, cr3, pd, i);
      EntryFields(tab);
      WriteWord(Virt(SELF, pd) + 4 * i, 0);
      assert mem == Poke(before, tab, i, 0);
      forall vp | vp in tlb
        ensures Walk(mem, cr3, vp * PAGE_SIZE) == Walk(before, cr3, vp * PAGE_SIZE)
      {
        PageInTable(vp, pd);
        WalkAvoids(before, mem, cr3, tab, pd, vp * PAGE_SIZE);
      }
    }

    /** `memset(page, 0, ARCH_PAGE_SIZE)` through the window on a table that slot `pd` names. */
    method ClearTable(pd: Index, ghost tab: FrameNo)
      requires Coherent() && pd != SELF && tab != cr3
      requires mem[cr3][SELF] == TableWord(cr3)
      requires mem[cr3][pd] == TableWord(tab)
      requires forall i: Index :: i != pd && mem[cr3][i] != 0 ==> FrameOf(mem[cr3][i]) != tab
      requires forall vp :: vp in tlb ==> vp / ENTRIES != pd
      modifies this
      ensures mem == old(mem)[tab := Zeros()]
      ensures Coherent() && forall vp :: vp in tlb ==> vp / ENTRIES != pd
    {
      ghost var m0 := mem;
      var i := 0;
      while i < ENTRIES
        invariant 0 <= i <= ENTRIES
        invariant forall f: FrameNo :: f != tab ==> mem[f] == m0[f]
        invariant forall k: Index :: k < i ==> mem[tab][k] == 0
        invariant Coherent() && forall vp :: vp in tlb ==> vp / ENTRIES != pd
      {
        ClearWord(pd, tab, i);
        i := i + 1;
      }
      assert mem[tab] == Zeros();
      assert mem == m0[tab := Zeros()];
    }

    method ReadDirectory(pd: nat) returns (w: Word)
      requires pd < ENTRIES && Coherent() && mem[cr3][SELF] == TableWord(cr3)
      modifies this`tlb
      ensures Coherent() && w == mem[cr3][pd]
    {
      EntryFields(cr3);
      WindowWalk(mem, cr3, SELF, pd);
      w := ReadWord(PAGE_DIR + 4 * pd);
    }

    /** Stores a word of the directory, through its own window page. */
    method WriteDirectory(pd: nat, w: Word)
      requires pd < ENTRIES && Coherent() && mem[cr3][SELF] == TableWord(cr3)
      modifies this
      ensures mem == Poke(old(mem), cr3, pd, w)
      ensures Agrees(tlb, old(mem), cr3) && tlb.Keys <= old(tlb.Keys) + {PAGE_DIR / PAGE_SIZE}
    {
      EntryFields(cr3);
      WindowWalk(mem, cr3, SELF, pd);
      WriteWord(PAGE_DIR + 4 * pd, w);
    }

    /** Hangs a new, cleared table into an empty directory slot. */
    method NewTable(pd: Index, frameAddr: nat, ghost tab: FrameNo)
      requires Coherent() && Recursive(mem, cr3) && mem[cr3][pd] == 0
      requires frameAddr == tab * PAGE_SIZE && !InUse(mem, cr3, tab)
      modifies this
      ensures mem == WithTable(old(mem), cr3, tab, pd) && Coherent()
    {
      ghost var m0 := mem;
      NamedFramesDiffer(m0, cr3, tab);
      OrTableBits(tab);
      EntryFields(tab);
      WriteDirectory(pd, Or(frameAddr % TWO32, PDE_RW + PDE_PR));
      assert mem == Poke(m0, cr3, pd, TableWord(tab));
      forall vp | vp in tlb
        ensures vp / ENTRIES != pd && Walk(mem, cr3, vp * PAGE_SIZE) == Walk(m0, cr3, vp * PAGE_SIZE)
      {
        FillingSlotKeepsPages(m0, mem, cr3, pd, vp);
      }
      Invlpg(Virt(SELF, pd));
      ClearTable(pd, tab);
    }

    /** Stores the page's entry in its table, which is there by now, through the window on the table. */
    method StoreLeaf(virt: Word, phys: Word64, flags: Word64)
      requires Coherent() && Recursive(mem, cr3) && mem[cr3][virt / 0x40_0000] != 0
      modifies this
      ensures mem == MapTo(old(mem), cr3, 0, virt, phys, flags)
      ensures Agrees(tlb, old(mem), cr3)
    {
      var pdid: nat, ptid: nat := PdIdx(virt), PtIdx(virt);
      MapIsOneStore(mem, cr3, virt, phys, flags);
      WindowWalk(mem, cr3, pdid, ptid);
      var ptvd := Virt(SELF, pdid);
      WriteWord(ptvd + 4 * ptid, Leaf(phys, flags));
    }

    /** Stores the entry and flushes the page. */
    method WriteLeaf(virt: Word, phys: Word64, flags: Word64)
      requires Coherent() && Recursive(mem, cr3) && mem[cr3][virt / 0x40_0000] != 0
      modifies this
      ensures mem == MapTo(old(mem), cr3, 0, virt, phys, flags)
      ensures virt / 0x40_0000 != SELF ==> Coherent()
    {
      ghost var m1 := mem;
      StoreLeaf(virt, phys, flags);
      AlignKeepsPage(virt);
      Invlpg(AlignDown(virt));
      if virt / 0x40_0000 != SELF {
        LeafKeepsOtherPages(m1, cr3, virt, phys, flags);
      }
    }

    /**
      `map`: makes the page of `virt` translate to `phys`.  Returns false where the allocator panics.
     */
    method Map(virt: Word, phys: Word64, flags: Word64, alloc: BootAllocator) returns (ok: bool)
      requires Valid(alloc)
      modifies this, alloc`ptr, alloc.allocMap.words
      ensures alloc.allocMap == old(alloc.allocMap)
      ensures ok <==> old(mem[cr3][virt / 0x40_0000] != 0 || alloc.Free() != {})
      ensures ok ==> Step(old(State(alloc)), Request(virt, phys, flags), State(alloc))
      ensures ok && virt / 0x40_0000 != SELF ==> Valid(alloc)
      ensures !ok ==> mem == old(mem) && alloc.Free() == {}
    {
      var pdid: nat := PdIdx(virt);
      ghost var s0 := State(alloc);
      ghost var tab: FrameNo := 0;
      var pde := ReadDirectory(pdid);
      ok := true;
      if pde == 0 {
        var addr;
        ok, addr := alloc.AllocateSingle();
        if !ok { return; }
        tab := addr / PAGE_SIZE;
        assert !InUse(mem, cr3, tab);
        NewTable(pdid, addr, tab);
      }
      WithTableKeepsRecursive(s0.mem, cr3, tab, virt);
      WriteLeaf(virt, phys, flags);
      assert StepWith(s0, Request(virt, phys, flags), tab, State(alloc));
      if pdid != SELF {
        MapKeepsRecursive(s0.mem, cr3, tab, virt, phys, flags);
      }
    }
  }

  // ---------- What the walk depends on ----------

  lemma WalkByPage(m: Memory, cr3: FrameNo, a: Word)
    ensures Walk(m, cr3, a) == Walk(m, cr3, a / PAGE_SIZE * PAGE_SIZE)
  {
    SamePageSplit(a, a / PAGE_SIZE * PAGE_SIZE);
  }

  /** Word i of the window page of slot pd is word i of the table in that slot. */
  lemma WindowWalk(m: Memory, cr3: FrameNo, pd: Index, i: Index)
    requires m[cr3][SELF] == TableWord(cr3)
    requires TableEntry(m[cr3][pd])
    ensures var a := Virt(SELF, pd) + 4 * i;
      && a < TWO32 && a % 4 == 0 && a % PAGE_SIZE / 4 == i && a / PAGE_SIZE == SELF * ENTRIES + pd
      && Walk(m, cr3, a) == Page(FrameOf(m[cr3][pd]), PDE_PR + PDE_RW, true)
  {
    var a := Virt(SELF, pd) + 4 * i;
    WindowAddress(pd, i);
    EntryFields(cr3);
    TableEntryFields(m[cr3][pd]);
    WalkIsVia(m, cr3, a);
  }

  lemma WindowAddress(pd: Index, i: Index)
    ensures var a := Virt(SELF, pd) + 4 * i;
      && a < TWO32 && a % 4 == 0 && a % PAGE_SIZE / 4 == i && a / PAGE_SIZE == SELF * ENTRIES + pd
      && a / 0x40_0000 == SELF && a / PAGE_SIZE % ENTRIES == pd
  {
    var n := SELF * ENTRIES + pd;
    assert Virt(SELF, pd) == 4096 * n;
    ModUnique(4096 * n + 4 * i, PAGE_SIZE, n, 4 * i);
    ModUnique(n, ENTRIES, SELF, pd);
    ModUnique(4096 * n + 4 * i, 0x40_0000, SELF, 4096 * pd + 4 * i);
  }

  /** Pages outside slot pd do not walk through a table that only slot pd names. */
  lemma PageInTable(vp: nat, pd: nat)
    requires vp < FRAMES && vp / ENTRIES != pd
    ensures vp * PAGE_SIZE / 0x40_0000 != pd
  {
  }

  /** With the table in place, `map` stores one word. */
  lemma MapIsOneStore(m: Memory, cr3: FrameNo, virt: Word, phys: Word64, flags: Word64)
    requires m[cr3][virt / 0x40_0000] != 0
    ensures MapTo(m, cr3, 0, virt, phys, flags)
         == Poke(m, FrameOf(m[cr3][virt / 0x40_0000]), virt / PAGE_SIZE % ENTRIES, Leaf(phys, flags))
  {
  }

  lemma AlignKeepsPage(virt: Word)
    ensures AlignDown(virt) / PAGE_SIZE == virt / PAGE_SIZE && AlignDown(virt) < TWO32
  {
  }

  lemma WalkAvoids(m: Memory, m': Memory, cr3: FrameNo, tab: FrameNo, pd: Index, a: Word)
    requires tab != cr3 && a / 0x40_0000 != pd
    requires forall i: Index :: i != pd && m[cr3][i] != 0 ==> FrameOf(m[cr3][i]) != tab
    requires forall f: FrameNo :: f != tab ==> m'[f] == m[f]
    ensures Walk(m', cr3, a) == Walk(m, cr3, a)
  {
  }

  lemma NamedFramesDiffer(m: Memory, cr3: FrameNo, tab: FrameNo)
    requires Recursive(m, cr3) && !InUse(m, cr3, tab)
    ensures tab != cr3
    ensures forall i: Index :: m[cr3][i] != 0 ==> FrameOf(m[cr3][i]) != tab
  {
    EntryFields(cr3);
    forall i: Index | m[cr3][i] != 0
      ensures FrameOf(m[cr3][i]) != tab
    {
      TableEntryFields(m[cr3][i]);
    }
  }

  /** Filling a zero directory slot changes no page that could be translated before. */
  lemma FillingSlotKeepsPages(m: Memory, m': Memory, cr3: FrameNo, pd: Index, vp: nat)
    requires Recursive(m, cr3) && m[cr3][pd] == 0 && vp < FRAMES
    requires exists w: Word :: m' == Poke(m, cr3, pd, w)
    requires Walk(m, cr3, vp * PAGE_SIZE) != Fault
    ensures vp / ENTRIES != pd && Walk(m', cr3, vp * PAGE_SIZE) == Walk(m, cr3, vp * PAGE_SIZE)
  {
    var a := vp * PAGE_SIZE;
    assert a / 0x40_0000 == vp / ENTRIES && a / PAGE_SIZE == vp;
    if m[cr3][vp / ENTRIES] != 0 && vp / ENTRIES != SELF {
      assert FrameOf(m[cr3][vp / ENTRIES]) != FrameOf(m[cr3][SELF]);
    }
  }

  lemma LeafKeepsOtherPages(m: Memory, cr3: FrameNo, virt: Word, phys: Word64, flags: Word64)
    requires Recursive(m, cr3) && m[cr3][virt / 0x40_0000] != 0 && virt / 0x40_0000 != SELF
    ensures forall vp: nat :: vp < FRAMES && vp != virt / PAGE_SIZE ==>
      Walk(MapTo(m, cr3, 0, virt, phys, flags), cr3, vp * PAGE_SIZE) == Walk(m, cr3, vp * PAGE_SIZE)
  {
    forall vp: nat | vp < FRAMES && vp != virt / PAGE_SIZE
      ensures Walk(MapTo(m, cr3, 0, virt, phys, flags), cr3, vp * PAGE_SIZE) == Walk(m, cr3, vp * PAGE_SIZE)
    {
      MapKeepsOtherPages(m, cr3, 0, virt, phys, flags, vp * PAGE_SIZE);
    }
  }
}
