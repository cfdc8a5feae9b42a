/**
  `map` with PAE, as the kernel runs it: through the window of the four self-map slots, with a TLB that
  may answer any translation.
 */
module PaeMmu {
  import opened Bits
  import opened Pages
  import opened BootAllocator
  import opened PaePaging
  import opened PaeSpace

  type Tlb = map<nat, Translation>  // keyed by page number; holds no negative entries

  ghost predicate Agrees(t: Tlb, m: Memory, dirs: Directories) {
    forall vp :: vp in t ==> vp < FRAMES && t[vp] == Walk(m, dirs, vp * PAGE_SIZE) && t[vp] != Fault
  }

  /** No page that slot s translates. */
  predicate Misses(t: Tlb, s: Slot) {
    forall vp :: vp in t ==> vp / ENTRIES != s
  }

  class Mmu32Pae {
    const dirs: Directories
    const nx: bool              // the processor has NX
    var mem: Memory
    var tlb: Tlb

    /** The TLB is a partial cache of the walk. */
    ghost predicate Coherent()
      reads this
    {
      Agrees(tlb, mem, dirs)
    }

    ghost function State(alloc: BootAllocator): Space
      requires alloc.allocMap != null
      reads this, alloc, alloc.allocMap.words
    {
      Space(mem, dirs, alloc.Free())
    }

    ghost predicate Valid(alloc: BootAllocator)
      reads this, alloc, if alloc.allocMap != null then {alloc.allocMap.words} else {}
    {
      && alloc.Valid()
      && (forall f :: f in alloc.Free() ==> f < FRAMES)
      && Inv(State(alloc))
      && Coherent()
    }

    constructor (dirs: Directories, nx: bool, mem: Memory)
      ensures this.dirs == dirs && this.nx == nx && this.mem == mem && tlb == map[]
    {
      this.dirs, this.nx, this.mem, this.tlb := dirs, nx, mem, map[];
    }

    // ---------- The processor ----------

    /**
      Translates one access.  The answer may come from the TLB or from a walk; entries may be dropped
      at any time and the page walked for may be kept.
     */
    method Translate(a: Word) returns (t: Translation)
      requires Coherent()
      modifies this`tlb
      ensures Coherent() && t == Walk(mem, dirs, a)
      ensures tlb.Keys <= old(tlb.Keys) + {a / PAGE_SIZE}
    {
      var evicted: set<nat> := *;
      var hit: bool, keep: bool := *, *;
      tlb := tlb - evicted;
      WalkByPage(mem, dirs, a);
      if a / PAGE_SIZE in tlb && hit {
        t := tlb[a / PAGE_SIZE];
      } else {
        t := Walk(mem, dirs, a);
        if t != Fault && keep { tlb := tlb[a / PAGE_SIZE := t]; }
      }
    }

    method ReadWord(a: Word) returns (w: Word64)
      requires Coherent() && a % 8 == 0 && Walk(mem, dirs, a) != Fault && Walk(mem, dirs, a).frame < FRAMES
      modifies this`tlb
      ensures Coherent() && w == mem[Walk(mem, dirs, a).frame][a % PAGE_SIZE / 8]
      ensures tlb.Keys <= old(tlb.Keys) + {a / PAGE_SIZE}
    {
      var t := Translate(a);
      w := mem[t.frame][a % PAGE_SIZE / 8];
    }

    /** A store; the TLB still agrees with the memory as it was before. */
    method WriteWord(a: Word, w: Word64)
      requires Coherent() && a % 8 == 0 && Walk(mem, dirs, a) != Fault && Walk(mem, dirs, a).frame < FRAMES
      requires Walk(mem, dirs, a).writable
      modifies this
      ensures mem == Poke(old(mem), Walk(old(mem), dirs, a).frame, a % PAGE_SIZE / 8, w)
      ensures Agrees(tlb, old(mem), dirs) && tlb.Keys <= old(tlb.Keys) + {a / PAGE_SIZE}
    {
      var t := Translate(a);
      mem := Poke(mem, t.frame, a % PAGE_SIZE / 8, w);
    }

    method Invlpg(a: Word)
      modifies this`tlb
      ensures tlb == old(tlb) - {a / PAGE_SIZE}
    {
      tlb := tlb - {a / PAGE_SIZE};
    }

    // ---------- The kernel ----------

    /** Stores a word of what slot s names, a table or a directory, by its window page. */
    method PokeTable(s: Slot, i: Index, w: Word64)
      requires Coherent() && Recursive(Dir(mem, dirs), dirs) && Entry(mem, dirs, s) != 0
      requires FrameOf(Entry(mem, dirs, s)) < FRAMES
      modifies this
      ensures mem == Poke(old(mem), FrameOf(Entry(old(mem), dirs, s)), i, w)
      ensures Agrees(tlb, old(mem), dirs) && forall vp :: vp in tlb ==> vp in old(tlb) || vp / ENTRIES >= SELF
    {
      WindowWord(mem, dirs, s, i);
      WriteWord(Virt(3, 508 + s / ENTRIES, s % ENTRIES) + 8 * i, w);
    }

    /** Stores a slot of the joint directory, by way of `rpage_dir`. */
    method PokeDirectory(s: Slot, w: Word64)
      requires Coherent() && Recursive(Dir(mem, dirs), dirs)
      modifies this
      ensures mem == PokeSlot(old(mem), dirs, s, w)
      ensures Agrees(tlb, old(mem), dirs)
    {
      DirectoryWord(mem, dirs, s);
      WriteWord(Virt(3, 511, 508 + s / ENTRIES) + 8 * (s % ENTRIES), w);
    }

    /** One word of the `memset`. */
    method ClearWord(s: Slot, ghost tab: FrameNo, i: Index)
      requires Coherent() && Misses(tlb, s) && s < SELF && tab !in dirs
      requires Recursive(Dir(mem, dirs), dirs) && Entry(mem, dirs, s) == TableWord(tab)
      modifies this
      ensures mem == Poke(old(mem), tab, i, 0)
      ensures Coherent() && Misses(tlb, s)
    {
      ghost var before := mem;
      EntryFields(tab);
      PokeTable(s, i, 0);
      forall vp | vp in tlb
        ensures Walk(mem, dirs, vp * PAGE_SIZE) == Walk(before, dirs, vp * PAGE_SIZE)
      {
        PageSlot(vp);
        WalkAvoids(before, mem, dirs, tab, s, vp * PAGE_SIZE);
      }
    }

    /** `memset(table, 0, ARCH_PAGE_SIZE)`. */
    method ClearTable(s: Slot, ghost tab: FrameNo)
      requires Coherent() && Misses(tlb, s) && s < SELF && tab !in dirs
      requires Recursive(Dir(mem, dirs), dirs) && Entry(mem, dirs, s) == TableWord(tab)
      modifies this
      ensures mem == old(mem)[tab := Zeros()]
      ensures Coherent() && Misses(tlb, s)
    {
      ghost var m0 := mem;
      var i := 0;
      while i < ENTRIES
        invariant 0 <= i <= ENTRIES
        invariant forall f: FrameNo :: f != tab ==> mem[f] == m0[f]
        invariant forall k: Index :: k < i ==> mem[tab][k] == 0
        invariant Coherent() && Misses(tlb, s)
      {
        DirOfOtherFrames(m0, mem, dirs);
        assert Dir(mem, dirs)[s] == Dir(m0, dirs)[s] == Entry(m0, dirs, s);
        ClearWord(s, tab, i);
        i := i + 1;
      }
      assert mem[tab] == Zeros();
      assert mem == m0[tab := Zeros()];
    }

    /** A slot of the joint directory, by way of `rpage_dir`. */
    method ReadSlot(s: nat) returns (pde: Word64)
      requires Coherent() && Recursive(Dir(mem, dirs), dirs) && s < SLOTS
      modifies this`tlb
      ensures Coherent() && pde == Entry(mem, dirs, s)
    {
      DirectoryWord(mem, dirs, s);
      pde := ReadWord(Virt(3, 511, 508 + s / ENTRIES) + 8 * (s % ENTRIES));
    }

    /** Fills an empty slot, by way of `rpage_dir`: no page that is cached is affected. */
    method WriteSlot(s: Slot, w: Word64)
      requires Coherent() && Recursive(Dir(mem, dirs), dirs) && s < SELF && Entry(mem, dirs, s) == 0
      modifies this
      ensures mem == PokeSlot(old(mem), dirs, s, w)
      ensures Coherent() && Misses(tlb, s)
    {
      ghost var m0 := mem;
      PokeDirectory(s, w);
      forall vp | vp in tlb
        ensures vp / ENTRIES != s && Walk(mem, dirs, vp * PAGE_SIZE) == Walk(m0, dirs, vp * PAGE_SIZE)
      {
        PageSlot(vp);
        FillingSlotKeepsPages(m0, dirs, s, w, vp * PAGE_SIZE);
      }
    }

    /** Hangs a new, cleared table into an empty slot. */
    method NewTable(s: Slot, addr: Word64, ghost tab: FrameNo)
      requires Coherent() && Recursive(Dir(mem, dirs), dirs) && s < SELF && Entry(mem, dirs, s) == 0
      requires addr == tab * PAGE_SIZE && !InUse(Dir(mem, dirs), tab)
      modifies this
      ensures mem == WithTable(old(mem), dirs, tab, s) && Coherent()
    {
      ghost var m0 := mem;
      OrTableBits(tab);
      WriteSlot(s, Or(addr, 3));
      SlotFilled(m0, dirs, tab, s);
      Invlpg(Virt(3, 508 + s / ENTRIES, s % ENTRIES));
      ClearTable(s, tab);
    }

    /** The last store of the call, by way of the table's window page. */
    method StoreLeaf(virt: Word, phys: Word64, flags: Word64)
      requires Coherent() && Recursive(Dir(mem, dirs), dirs) && Entry(mem, dirs, SlotOf(virt)) != 0
      modifies this
      ensures mem == MapTo(old(mem), dirs, 0, Call(virt, phys, flags, nx))
      ensures Agrees(tlb, old(mem), dirs)
    {
      var ppid: nat, pdid: nat, ptid: nat := PdptIdx(virt), PdIdx(virt), PtIdx(virt);
      SlotIsPair(virt);
      NamesFrame(mem, dirs, SlotOf(virt));
      PokeTable(ppid * ENTRIES + pdid, ptid, Leaf(phys, flags, nx));
    }

    /** Stores the entry and flushes the page. */
    method WriteLeaf(virt: Word, phys: Word64, flags: Word64)
      requires Coherent() && Recursive(Dir(mem, dirs), dirs) && Entry(mem, dirs, SlotOf(virt)) != 0
      modifies this
      ensures mem == MapTo(old(mem), dirs, 0, Call(virt, phys, flags, nx))
      ensures SlotOf(virt) < SELF ==> Coherent()
    {
      ghost var m1 := mem;
      StoreLeaf(virt, phys, flags);
      AlignKeepsPage(virt);
      Invlpg(AlignDown(virt));
      if SlotOf(virt) < SELF { LeafKeepsOtherPages(m1, dirs, Call(virt, phys, flags, nx)); }
    }

    /**
      `map`.  Returns false where the allocator panics.  In the self-map no slot is empty, so no table is
      created there.
     */
    method Map(virt: Word, phys: Word64, flags: Word64, alloc: BootAllocator) returns (ok: bool)
      requires Valid(alloc)
      modifies this, alloc`ptr, alloc.allocMap.words
      ensures alloc.allocMap == old(alloc.allocMap)
      ensures ok <==> Entry(old(mem), dirs, SlotOf(virt)) != 0 || old(alloc.Free()) != {}
      ensures ok ==> Step(old(State(alloc)), Call(virt, phys, flags, nx), State(alloc))
      ensures ok && SlotOf(virt) < SELF ==> Valid(alloc)
      ensures !ok ==> mem == old(mem) && alloc.Free() == {}
    {
      ghost var s0, c := State(alloc), Call(virt, phys, flags, nx);
      ghost var tab: FrameNo := 0;
      SlotIsPair(virt);
      var slot: nat := PdptIdx(virt) * ENTRIES + PdIdx(virt);
      SelfSlotsFull(mem, dirs, slot);
      var pde := ReadSlot(slot);
      ok := true;
      if pde == 0 {
        var addr;
        ok, addr := alloc.AllocateSingle();
        if !ok { return; }
        tab := addr / PAGE_SIZE;
        NewTable(slot, addr, tab);
      }
      TableInPlace(s0.mem, dirs, tab, c);
      WriteLeaf(virt, phys, flags);
      assert StepWith(s0, c, tab, State(alloc));
      if slot < SELF { MapKeepsRecursive(s0.mem, dirs, tab, c); }
    }
  }

  // ---------- What the walk depends on ----------

  lemma WalkByPage(m: Memory, dirs: Directories, a: Word)
    ensures Walk(m, dirs, a) == Walk(m, dirs, a / PAGE_SIZE * PAGE_SIZE)
  {
    var b := a / PAGE_SIZE * PAGE_SIZE;
    assert b / PAGE_SIZE == a / PAGE_SIZE;
    SamePageSplit(a, b);
  }

  lemma PageSlot(vp: nat)
    requires vp < FRAMES
    ensures SlotOf(vp * PAGE_SIZE) == vp / ENTRIES && vp * PAGE_SIZE / PAGE_SIZE == vp
  {
  }

  lemma AlignKeepsPage(virt: Word)
    ensures AlignDown(virt) / PAGE_SIZE == virt / PAGE_SIZE && AlignDown(virt) < TWO32
  {
  }

  lemma SelfSlotsFull(m: Memory, dirs: Directories, s: Slot)
    requires Recursive(Dir(m, dirs), dirs)
    ensures Entry(m, dirs, s) == Dir(m, dirs)[s] && (s >= SELF ==> Entry(m, dirs, s) != 0)
  {
  }

  lemma NamesFrame(m: Memory, dirs: Directories, s: Slot)
    requires Recursive(Dir(m, dirs), dirs) && Entry(m, dirs, s) != 0
    ensures FrameOf(Entry(m, dirs, s)) < FRAMES
  {
    assert Dir(m, dirs)[s] == Entry(m, dirs, s);
    TableEntryFields(Entry(m, dirs, s));
  }

  /** A table that only slot s names is read by no page of another slot. */
  lemma WalkAvoids(m: Memory, m': Memory, dirs: Directories, tab: FrameNo, s: Slot, a: Word)
    requires Recursive(Dir(m, dirs), dirs) && tab !in dirs && Entry(m, dirs, s) == TableWord(tab) && SlotOf(a) != s
    requires forall f: FrameNo :: f != tab ==> m'[f] == m[f]
    ensures Walk(m', dirs, a) == Walk(m, dirs, a)
  {
    var d, t := Dir(m, dirs), SlotOf(a);
    DirOfOtherFrames(m, m', dirs);
    assert d[t] == Entry(m, dirs, t) == Entry(m', dirs, t) && d[s] == Entry(m, dirs, s);
    if d[t] != 0 {
      TableEntryFields(d[t]);
      assert FrameOf(d[t]) != tab;
    }
  }

  /** Filling a zero slot changes no page that could be translated before. */
  lemma FillingSlotKeepsPages(m: Memory, dirs: Directories, s: Slot, w: Word64, a: Word)
    requires Recursive(Dir(m, dirs), dirs) && s < SELF && Entry(m, dirs, s) == 0 && Walk(m, dirs, a) != Fault
    ensures SlotOf(a) != s && Walk(PokeSlot(m, dirs, s, w), dirs, a) == Walk(m, dirs, a)
  {
    var d, t, m' := Dir(m, dirs), SlotOf(a), PokeSlot(m, dirs, s, w);
    DirectoriesDiffer(d, dirs);
    DirAfterPoke(m, dirs, s, w);
    assert d[t] == Entry(m, dirs, t) && Dir(m', dirs)[t] == Entry(m', dirs, t) && t != s;
    TableEntryFields(d[t]);
    if t >= SELF {
      var q, i := t - SELF, a / PAGE_SIZE % ENTRIES;
      EntryFields(dirs[q]);
      EntryAt(m, dirs, q, i);
      EntryAt(m', dirs, q, i);
      assert Dir(m', dirs)[q * ENTRIES + i] == Entry(m', dirs, q * ENTRIES + i);
      assert d[q * ENTRIES + i] == Entry(m, dirs, q * ENTRIES + i);
    }
  }

  /** What `NewTable` needs to know once the slot is filled. */
  lemma SlotFilled(m: Memory, dirs: Directories, tab: FrameNo, s: Slot)
    requires Recursive(Dir(m, dirs), dirs) && s < SELF && Entry(m, dirs, s) == 0 && !InUse(Dir(m, dirs), tab)
    ensures var m' := PokeSlot(m, dirs, s, TableWord(tab));
      tab !in dirs && Recursive(Dir(m', dirs), dirs) && Entry(m', dirs, s) == TableWord(tab)
  {
    var m' := PokeSlot(m, dirs, s, TableWord(tab));
    DirectoriesDiffer(Dir(m, dirs), dirs);
    DirAfterPoke(m, dirs, s, TableWord(tab));
    assert Dir(m', dirs)[s] == Entry(m', dirs, s) && Dir(m, dirs)[s] == 0;
    NewEntry(Dir(m, dirs), dirs, tab, s);
  }

  /** With its table in place the call is one store. */
  lemma TableInPlace(m: Memory, dirs: Directories, tab: FrameNo, c: Call)
    requires Recursive(Dir(m, dirs), dirs) && (Entry(m, dirs, SlotOf(c.virt)) == 0 ==> !InUse(Dir(m, dirs), tab))
    ensures var m1 := WithTable(m, dirs, tab, SlotOf(c.virt));
      && Recursive(Dir(m1, dirs), dirs) && Entry(m1, dirs, SlotOf(c.virt)) != 0
      && MapTo(m, dirs, tab, c) == MapTo(m1, dirs, 0, c)
  {
    var s := SlotOf(c.virt);
    SelfSlotsFull(m, dirs, s);
    if s < SELF {
      var m1 := MapInTwoSteps(m, dirs, tab, c);
      assert Dir(m1, dirs)[s] == Entry(m1, dirs, s);
    }
  }

  lemma LeafKeepsOtherPages(m: Memory, dirs: Directories, c: Call)
    requires Recursive(Dir(m, dirs), dirs) && Entry(m, dirs, SlotOf(c.virt)) != 0 && SlotOf(c.virt) < SELF
    ensures forall vp: nat :: vp < FRAMES && vp != c.virt / PAGE_SIZE ==>
      Walk(MapTo(m, dirs, 0, c), dirs, vp * PAGE_SIZE) == Walk(m, dirs, vp * PAGE_SIZE)
  {
    forall vp: nat | vp < FRAMES && vp != c.virt / PAGE_SIZE
      ensures Walk(MapTo(m, dirs, 0, c), dirs, vp * PAGE_SIZE) == Walk(m, dirs, vp * PAGE_SIZE)
    {
      PageSlot(vp);
      MapKeepsOtherPages(m, dirs, 0, c, vp * PAGE_SIZE);
    }
  }

  // ---------- The window ----------

  /** Entry s of the joint directory, read by virtual address. */
  lemma DirectoryWord(m: Memory, dirs: Directories, s: Slot)
    requires Recursive(Dir(m, dirs), dirs)
    ensures var a := Virt(3, 511, 508 + s / ENTRIES) + 8 * (s % ENTRIES);
      && a < TWO32 && a % 8 == 0 && a % PAGE_SIZE / 8 == s % ENTRIES
      && Walk(m, dirs, a) == Page(dirs[s / ENTRIES], TABLE_BITS, true, false)
  {
    var q := s / ENTRIES;
    var a := Virt(3, 511, 508 + q) + 8 * (s % ENTRIES);
    WordAddress(SELF + 3, 508 + q, s % ENTRIES);
    WindowReads(m, dirs, a);
    EntryFields(dirs[q]);
    assert Dir(m, dirs)[SELF + q] == Entry(m, dirs, SELF + q);
  }

  /** Word i of what slot s names, a table or a directory, read by virtual address. */
  lemma WindowWord(m: Memory, dirs: Directories, s: Slot, i: Index)
    requires Recursive(Dir(m, dirs), dirs) && Entry(m, dirs, s) != 0
    ensures var a := Virt(3, 508 + s / ENTRIES, s % ENTRIES) + 8 * i;
      && a < TWO32 && a % 8 == 0 && a % PAGE_SIZE / 8 == i && a / PAGE_SIZE / ENTRIES >= SELF
      && FrameOf(Entry(m, dirs, s)) < FRAMES
      && Walk(m, dirs, a) == Page(FrameOf(Entry(m, dirs, s)), TABLE_BITS, true, false)
  {
    var a := Virt(3, 508 + s / ENTRIES, s % ENTRIES) + 8 * i;
    WordAddress(SELF + s / ENTRIES, s % ENTRIES, i);
    assert Dir(m, dirs)[s] == Entry(m, dirs, s);
    TableEntryFields(Entry(m, dirs, s));
    EntryFields(FrameOf(Entry(m, dirs, s)));
    WindowReads(m, dirs, a);
  }

  lemma WordAddress(s: Slot, pt: Index, i: Index)
    requires s >= SELF
    ensures var a := Virt(3, 508 + (s - SELF), pt) + 8 * i;
      && a < TWO32 && a % 8 == 0 && a % PAGE_SIZE / 8 == i && SlotOf(a) == s && a / PAGE_SIZE % ENTRIES == pt
  {
    var a := Virt(3, 508 + (s - SELF), pt) + 8 * i;
    var n := s * 512 + pt;
    assert a == 4096 * n + 8 * i;
    ModUnique(a, PAGE_SIZE, n, 8 * i);
    ModUnique(n, ENTRIES, s, pt);
    ModUnique(a, 0x20_0000, s, 4096 * pt + 8 * i);
    ModUnique(a, 8, 512 * n + i, 0);
  }
}
