/**
  The mapping loop of `platform::init`: the available physical pages, in memory-map order, are laid
  out contiguously from ARCH_KMALLOC_BASE.
 */
module DirectMap {
  import opened Bits
  import opened Pages
  import opened BootAllocator
  import opened Paging
  import opened AddressSpace
  import opened Mmu

  const KMALLOC_BASE: nat := 0xC000_0000
  const KMALLOC_LENGTH: nat := 0x2000_0000
  const KMALLOC_PAGES: nat := 0x2_0000
  const BASE_PAGE: nat := 0xC_0000
  const MEMORY_AVAILABLE: nat := 1

  datatype Region = Region(addr: Word64, len: Word64, kind: nat)

  /** Page addresses from `start`, as long as they are below `end`. */
  function PageRun(start: nat, end: nat): seq<nat>
    decreases end - start
  {
    if start >= end then [] else [start] + PageRun(start + PAGE_SIZE, end)
  }

  /** The whole pages of an available region, lowest first. */
  function RegionPages(r: Region): (s: seq<nat>) {
    if r.kind == MEMORY_AVAILABLE then PageRun(AlignUp(r.addr), AlignDown((r.addr + r.len) % TWO64)) else []
  }

  /** The pages that the loop visits; it stops at the first region it cannot address. */
  function AvailablePages(regions: seq<Region>): seq<nat> {
    if regions == [] || regions[0].addr >= 0xFFFF_FFFF then []
    else RegionPages(regions[0]) + AvailablePages(regions[1..])
  }

  /** `v` with the first k pages of `pages` laid over it from ARCH_KMALLOC_BASE. */
  function Overlay(v: seq<Translation>, pages: seq<nat>, k: nat): (r: seq<Translation>)
    requires |v| == SELF * ENTRIES && k <= KMALLOC_PAGES && k <= |pages|
    requires forall p :: p in pages ==> p % PAGE_SIZE == 0
    ensures |r| == |v|
  {
    v[..BASE_PAGE]
    + seq(k, i requires 0 <= i < k => assert pages[i] in pages; Mapped(pages[i], PDE_PR + PDE_RW))
    + v[BASE_PAGE + k..]
  }

  lemma {:induction false} PagesAreAligned(regions: seq<Region>)
    ensures forall p :: p in AvailablePages(regions) ==> p % PAGE_SIZE == 0
  {
    if regions != [] && regions[0].addr < 0xFFFF_FFFF {
      PagesAreAligned(regions[1..]);
      RegionPagesAreAligned(regions[0]);
    }
  }

  lemma RegionPagesAreAligned(r: Region)
    requires r.addr < 0xFFFF_FFFF
    ensures forall p :: p in RegionPages(r) ==> p % PAGE_SIZE == 0
  {
    UpIsAligned(r.addr);
    forall p | p in RegionPages(r)
      ensures p % PAGE_SIZE == 0
    {
      InPageRun(AlignUp(r.addr), AlignDown((r.addr + r.len) % TWO64), p);
    }
  }

  lemma {:induction false} InPageRun(start: nat, end: nat, p: nat)
    requires start % PAGE_SIZE == 0
    ensures p in PageRun(start, end) <==> p % PAGE_SIZE == 0 && start <= p < end
    decreases end - start
  {
    if start < end {
      InPageRun(start + PAGE_SIZE, end, p);
    }
  }

  lemma OverlayNext(v: seq<Translation>, pages: seq<nat>, k: nat)
    requires |v| == SELF * ENTRIES && k < KMALLOC_PAGES && k < |pages|
    requires forall p :: p in pages ==> p % PAGE_SIZE == 0
    ensures pages[k] % PAGE_SIZE == 0
    ensures Overlay(v, pages, k + 1) == Overlay(v, pages, k)[BASE_PAGE + k := Mapped(pages[k], PDE_PR + PDE_RW)]
  {
    assert pages[k] in pages;
  }

  /** The largest page end among the first k pages, or `max0` if that is larger. */
  function MaxEnd(pages: seq<nat>, k: nat, max0: nat): nat
    requires k <= |pages|
  {
    if k == 0 then max0
    else
      var m := MaxEnd(pages, k - 1, max0);
      if pages[k - 1] + PAGE_SIZE > m then pages[k - 1] + PAGE_SIZE else m
  }

  /** What holds once the first k pages are laid out over the translations v0. */
  ghost predicate LaidOut(mmu: Mmu32Nopae, alloc: BootAllocator, v0: seq<Translation>, pages: seq<nat>, k: nat)
    reads mmu, alloc, if alloc.allocMap != null then {alloc.allocMap.words} else {}
  {
    && mmu.Valid(alloc)
    && |v0| == SELF * ENTRIES && k <= KMALLOC_PAGES && k <= |pages|
    && (forall p :: p in pages ==> p % PAGE_SIZE == 0)
    && View(mmu.mem, mmu.cr3) == Overlay(v0, pages, k)
  }

  // ---------- What it costs ----------

  const FIRST_SLOT: nat := 768      // the directory slot of ARCH_KMALLOC_BASE

  /** How many directory slots the first k window pages lie in. */
  function SlotsOf(k: nat): nat { (k + (ENTRIES - 1)) / ENTRIES }

  /** How many of the first n window slots of a directory are empty: the tables the loop has to create. */
  function Missing(d: Frame, n: nat): nat
    requires FIRST_SLOT + n <= ENTRIES
  {
    if n == 0 then 0 else Missing(d, n - 1) + if d[FIRST_SLOT + n - 1] == 0 then 1 else 0
  }

  /** It is a number of slots: the empty ones of the n from slot 768 on. */
  lemma {:induction false} MissingCounts(d: Frame, n: nat)
    requires 768 + n <= 1024
    ensures Missing(d, n) == |EmptySlots(d, n)|
  {
    if n > 0 {
      MissingCounts(d, n - 1);
      assert EmptySlots(d, n) == EmptySlots(d, n - 1) + if d[768 + n - 1] == 0 then {768 + n - 1} else {};
    }
  }

  ghost function EmptySlots(d: Frame, n: nat): set<nat>
    requires 768 + n <= 1024
  {
    set s: nat | 768 <= s < 768 + n && d[s] == 0
  }

  /** And these are the slots that the first k window pages lie in. */
  lemma SlotsHoldPages(k: nat, s: nat)
    requires k <= 0x2_0000
    ensures 768 <= s < 768 + SlotsOf(k) <==> exists i: nat :: i < k && LiesInSlot(i, s)
  {
    if 768 <= s < 768 + SlotsOf(k) {
      var i := (s - 768) * 1024;
      assert i < k && LiesInSlot(i, s);
    }
  }

  predicate LiesInSlot(i: nat, s: nat) { (0xC_0000 + i) / 1024 == s }

  lemma {:induction false} MissingGrows(d: Frame, m: nat, n: nat)
    requires m <= n && FIRST_SLOT + n <= ENTRIES
    ensures Missing(d, m) <= Missing(d, n)
  {
    if m < n { MissingGrows(d, m, n - 1); }
  }

  lemma SlotsStep(k: nat)
    requires k < KMALLOC_PAGES
    ensures (BASE_PAGE + k) / ENTRIES == FIRST_SLOT + k / ENTRIES
    ensures SlotsOf(k + 1) == k / ENTRIES + 1 && FIRST_SLOT + SlotsOf(k + 1) < SELF
    ensures SlotsOf(k) == if k % ENTRIES == 0 then k / ENTRIES else k / ENTRIES + 1
  {
  }

  lemma SlotsGrow(k: nat, n: nat)
    requires k <= n <= KMALLOC_PAGES
    ensures SlotsOf(k) <= SlotsOf(n) && FIRST_SLOT + SlotsOf(n) < SELF
  {
  }

  /**
    What k pages have cost: every slot they lie in has a table by now, no other slot has changed, and
    one frame has gone for each slot that was empty.
   */
  ghost predicate Spent(mmu: Mmu32Nopae, alloc: BootAllocator, d0: Frame, free0: nat, k: nat)
    requires alloc.allocMap != null
    reads mmu, alloc, alloc.allocMap.words
  {
    && k <= KMALLOC_PAGES && FIRST_SLOT + SlotsOf(k) < SELF
    && TablesAdded(d0, mmu.mem[mmu.cr3], SlotsOf(k))
    && |alloc.Free()| + Missing(d0, SlotsOf(k)) == free0
  }

  /** The first n window slots are filled; the other slots, and those that had a table, are as before. */
  predicate TablesAdded(d0: Frame, d: Frame, n: nat) {
    && (forall s: Index :: FIRST_SLOT <= s < FIRST_SLOT + n ==> d[s] != 0)
    && (forall s: Index :: d0[s] != 0 || !(FIRST_SLOT <= s < FIRST_SLOT + n) ==> d[s] == d0[s])
  }

  /** One more page: a frame goes if and only if its slot is empty. */
  lemma PageCosts(d0: Frame, d: Frame, d': Frame, k: nat)
    requires k < KMALLOC_PAGES && TablesAdded(d0, d, SlotsOf(k))
    requires var s: Index := FIRST_SLOT + k / ENTRIES;
      (forall t: Index :: t != s ==> d'[t] == d[t]) && d'[s] != 0 && (d[s] != 0 ==> d'[s] == d[s])
    ensures FIRST_SLOT + SlotsOf(k) <= FIRST_SLOT + SlotsOf(k + 1) < SELF
    ensures TablesAdded(d0, d', SlotsOf(k + 1))
    ensures Missing(d0, SlotsOf(k + 1)) == Missing(d0, SlotsOf(k)) + if d[FIRST_SLOT + k / ENTRIES] == 0 then 1 else 0
  {
    SlotsStep(k);
  }

  /** No frame left for the slot of page k: more tables are missing than there were frames. */
  lemma TooFewFrames(d0: Frame, d: Frame, k: nat, n: nat)
    requires k < n <= KMALLOC_PAGES && TablesAdded(d0, d, SlotsOf(k)) && d[FIRST_SLOT + k / ENTRIES] == 0
    ensures FIRST_SLOT + SlotsOf(k) <= FIRST_SLOT + SlotsOf(n) < SELF
    ensures Missing(d0, SlotsOf(n)) > Missing(d0, SlotsOf(k))
  {
    SlotsStep(k);
    SlotsGrow(k + 1, n);
    MissingGrows(d0, SlotsOf(k + 1), SlotsOf(n));
  }

  /** What one step does to the directory and to the number of free frames. */
  lemma StepCosts(s: Space, r: Request, s': Space)
    requires Inv(s) && Mappable(r) && Step(s, r, s')
    ensures var pd: Index := r.virt / 0x40_0000;
      && (forall t: Index :: t != pd ==> s'.mem[s.dir][t] == s.mem[s.dir][t])
      && s'.mem[s.dir][pd] != 0 && (s.mem[s.dir][pd] != 0 ==> s'.mem[s.dir][pd] == s.mem[s.dir][pd])
      && |s.free| == |s'.free| + if s.mem[s.dir][pd] == 0 then 1 else 0
  {
    var tab: FrameNo :| StepWith(s, r, tab, s');
    var m1 := MapInTwoSteps(s.mem, s.dir, tab, r.virt, r.phys, r.flags);
    EntryFields(tab);
  }

  /** What the loop starts from, and the pages it is to lay out. */
  datatype Start = Start(view: seq<Translation>, dir: Frame, free: nat, pages: seq<nat>, max: nat)

  /** Memory and allocator after k pages. */
  ghost predicate Stands(mmu: Mmu32Nopae, alloc: BootAllocator, g: Start, k: nat)
    reads mmu, alloc, if alloc.allocMap != null then {alloc.allocMap.words} else {}
  {
    LaidOut(mmu, alloc, g.view, g.pages, k) && Spent(mmu, alloc, g.dir, g.free, k)
  }

  /** The state of the loops after k pages; what stands in memory is behind a quantifier, out of their sight. */
  ghost predicate At(mmu: Mmu32Nopae, alloc: BootAllocator, g: Start, k: nat, va: nat, maxPa: nat)
    reads mmu, alloc, if alloc.allocMap != null then {alloc.allocMap.words} else {}
  {
    && k <= KMALLOC_PAGES && k <= |g.pages| && va == PAGE_SIZE * k && maxPa == MaxEnd(g.pages, k, g.max)
    && alloc.allocMap != null
    && (forall j {:trigger Stands(mmu, alloc, g, j)} :: j == k ==> Stands(mmu, alloc, g, j))
  }

  lemma AtMeans(mmu: Mmu32Nopae, alloc: BootAllocator, g: Start, k: nat, va: nat, maxPa: nat)
    requires At(mmu, alloc, g, k, va, maxPa)
    ensures Stands(mmu, alloc, g, k)
  {
    var known := Stands(mmu, alloc, g, k);
  }

  /** One `map` call of the loop. */
  method MapPage(mmu: Mmu32Nopae, alloc: BootAllocator, virt: Word, pa: Word64, ghost g: Start, ghost k: nat)
    returns (ok: bool)
    requires Stands(mmu, alloc, g, k) && k < KMALLOC_PAGES && k < |g.pages|
    requires pa == g.pages[k] && virt == PAGE_SIZE * k + KMALLOC_BASE
    modifies mmu, alloc`ptr, alloc.allocMap.words
    ensures alloc.allocMap == old(alloc.allocMap)
    ensures ok ==> Stands(mmu, alloc, g, k + 1)
    ensures !ok ==> alloc.Free() == {} && Short(g)
  {
    OverlayNext(g.view, g.pages, k);
    ghost var s, d := mmu.State(alloc), mmu.mem[mmu.cr3];
    WindowPage(k);
    ok := mmu.Map(virt, pa, PDE_PR + PDE_RW, alloc);
    if ok {
      StepKeepsInv(s, Request(virt, pa, PDE_PR + PDE_RW), mmu.State(alloc));
      StepCosts(s, Request(virt, pa, PDE_PR + PDE_RW), mmu.State(alloc));
      PageCosts(g.dir, d, mmu.mem[mmu.cr3], k);
    } else {
      TooFewFrames(g.dir, d, k, Laid(g.pages));
    }
  }

  /** One pass of the inner loop. */
  method MapNext(mmu: Mmu32Nopae, alloc: BootAllocator, va: nat, pa: Word64, maxPa: nat, ghost g: Start, ghost k: nat)
    returns (ok: bool, va': nat, pa': nat, maxPa': nat)
    requires At(mmu, alloc, g, k, va, maxPa) && k < KMALLOC_PAGES && k < |g.pages| && pa == g.pages[k]
    modifies mmu, alloc`ptr, alloc.allocMap.words
    ensures alloc.allocMap == old(alloc.allocMap)
    ensures ok ==> At(mmu, alloc, g, k + 1, va', maxPa') && pa' == pa + PAGE_SIZE
    ensures !ok ==> alloc.Free() == {} && Short(g)
  {
    AtMeans(mmu, alloc, g, k, va, maxPa);
    WindowPage(k);
    ok := MapPage(mmu, alloc, va + KMALLOC_BASE, pa, g, k);
    pa', va' := pa + PAGE_SIZE, va + PAGE_SIZE;
    maxPa' := if pa' > maxPa then pa' else maxPa;
  }

  /** How many pages the window takes. */
  function Laid(pages: seq<nat>): nat {
    if |pages| < KMALLOC_PAGES then |pages| else KMALLOC_PAGES
  }

  /** There are fewer free frames than tables to create. */
  predicate Short(g: Start) {
    SlotsGrow(0, Laid(g.pages));
    Missing(g.dir, SlotsOf(Laid(g.pages))) > g.free
  }

  lemma WindowPage(k: nat)
    requires k < KMALLOC_PAGES
    ensures var virt := PAGE_SIZE * k + KMALLOC_BASE;
      && virt < TWO32 && virt / PAGE_SIZE == BASE_PAGE + k
      && virt / 0x40_0000 == FIRST_SLOT + k / ENTRIES < SELF
  {
    ModUnique(PAGE_SIZE * k + KMALLOC_BASE, PAGE_SIZE, BASE_PAGE + k, 0);
  }

  /** The pages of one region, as far as the window reaches. */
  method MapRegion(mmu: Mmu32Nopae, alloc: BootAllocator, r: Region, va0: nat, max0: nat,
                   ghost g: Start, ghost k0: nat, ghost later: seq<nat>)
    returns (ok: bool, va: nat, maxPa: nat, ghost k: nat)
    requires At(mmu, alloc, g, k0, va0, max0)
    requires r.kind == MEMORY_AVAILABLE && g.pages[k0..] == RegionPages(r) + later
    modifies mmu, alloc`ptr, alloc.allocMap.words
    ensures alloc.allocMap == old(alloc.allocMap)
    ensures ok ==> At(mmu, alloc, g, k, va, maxPa) && (k < KMALLOC_PAGES ==> g.pages[k..] == later)
    ensures !ok ==> alloc.Free() == {} && Short(g)
  {
    var startAddr := AlignUp(r.addr);
    var endAddr := AlignDown((r.addr + r.len) % TWO64);
    ok, va, maxPa, k := MapRun(mmu, alloc, startAddr, endAddr, va0, max0, g, k0, later);
  }

  /** The inner loop. */
  method MapRun(mmu: Mmu32Nopae, alloc: BootAllocator, startAddr: nat, endAddr: Word64, va0: nat, max0: nat,
                ghost g: Start, ghost k0: nat, ghost later: seq<nat>)
    returns (ok: bool, va: nat, maxPa: nat, ghost k: nat)
    requires At(mmu, alloc, g, k0, va0, max0) && g.pages[k0..] == PageRun(startAddr, endAddr) + later
    modifies mmu, alloc`ptr, alloc.allocMap.words
    ensures alloc.allocMap == old(alloc.allocMap)
    ensures ok ==> At(mmu, alloc, g, k, va, maxPa) && (k < KMALLOC_PAGES ==> g.pages[k..] == later)
    ensures !ok ==> alloc.Free() == {} && Short(g)
  {
    ok, va, maxPa, k := true, va0, max0, k0;
    var pa: nat := startAddr;
    while pa < endAddr && va < KMALLOC_LENGTH
      invariant ok && alloc.allocMap == old(alloc.allocMap) && At(mmu, alloc, g, k, va, maxPa)
      invariant g.pages[k..] == PageRun(pa, endAddr) + later
      decreases KMALLOC_LENGTH - va
    {
      TakePage(g.pages, k, pa, endAddr, later);
      ok, va, pa, maxPa := MapNext(mmu, alloc, va, pa, maxPa, g, k);
      if !ok { return; }
      k := k + 1;
    }
    assert pa >= endAddr ==> PageRun(pa, endAddr) + later == later;
  }

  lemma TakePage(pages: seq<nat>, k: nat, pa: nat, end: nat, later: seq<nat>)
    requires k <= |pages| && pages[k..] == PageRun(pa, end) + later && pa < end
    ensures k < |pages| && pages[k] == pa && pages[k + 1..] == PageRun(pa + PAGE_SIZE, end) + later
  {
    var rest := PageRun(pa + PAGE_SIZE, end) + later;
    assert pages[k..] == [pa] + rest;
    assert pages[k] == pages[k..][0];
    assert pages[k + 1..] == pages[k..][1..] == rest;
  }

  lemma NothingLaid(v: seq<Translation>, pages: seq<nat>)
    requires |v| == SELF * ENTRIES && forall p :: p in pages ==> p % PAGE_SIZE == 0
    ensures Overlay(v, pages, 0) == v
  {
  }

  /** The regions from the i-th on hold the pages from the k-th on, unless the window is full. */
  predicate Ahead(pages: seq<nat>, k: nat, regions: seq<Region>, i: nat) {
    k <= |pages| && i <= |regions| && (k < KMALLOC_PAGES ==> pages[k..] == AvailablePages(regions[i..]))
  }

  lemma NextRegion(pages: seq<nat>, k: nat, regions: seq<Region>, i: nat)
    requires Ahead(pages, k, regions, i) && k < KMALLOC_PAGES && i < |regions| && regions[i].addr < 0xFFFF_FFFF
    ensures if regions[i].kind == MEMORY_AVAILABLE
      then pages[k..] == RegionPages(regions[i]) + AvailablePages(regions[i + 1..])
      else Ahead(pages, k, regions, i + 1)
  {
    assert regions[i..][1..] == regions[i + 1..];
  }

  lemma AllLaid(pages: seq<nat>, k: nat, regions: seq<Region>, i: nat)
    requires Ahead(pages, k, regions, i) && k <= KMALLOC_PAGES
    requires i == |regions| || k == KMALLOC_PAGES || regions[i].addr >= 0xFFFF_FFFF
    ensures k == Laid(pages)
  {
    if k < KMALLOC_PAGES { assert |pages| - k == |pages[k..]| == 0; }
  }

  /**
    The allocator panics, which is `!ok`, exactly when more tables are missing than frames are free.
    Otherwise window page k translates to the k-th available page, every other page below slot 1023
    translates as before, and so does every page of slot 1023 that shows an old table.
   */
  method Init(mmu: Mmu32Nopae, alloc: BootAllocator, regions: seq<Region>, maxPa0: nat)
    returns (ok: bool, maxPa: nat)
    requires mmu.Valid(alloc)
    modifies mmu, alloc`ptr, alloc.allocMap.words
    ensures alloc.allocMap == old(alloc.allocMap)
    ensures var pages := AvailablePages(regions);
      ok <==> !Short(Start(old(View(mmu.mem, mmu.cr3)), old(mmu.mem[mmu.cr3]), |old(alloc.Free())|, pages, maxPa0))
    ensures ok ==>
      var pages := AvailablePages(regions);
      var n := Laid(pages);
      && LaidOut(mmu, alloc, old(View(mmu.mem, mmu.cr3)), pages, n) && maxPa == MaxEnd(pages, n, maxPa0)
      && TablesAdded(old(mmu.mem[mmu.cr3]), mmu.mem[mmu.cr3], SlotsOf(n))
    ensures ok ==>
      var pages := AvailablePages(regions);
      var n := if |pages| < 0x2_0000 then |pages| else 0x2_0000;
      && (forall k :: 0 <= k < n ==>
            Walk(mmu.mem, mmu.cr3, 0xC000_0000 + k * 4096) == Page(pages[k] % 0x1_0000_0000 / 4096, 3, true))
      && (forall vp :: 0 <= vp < 0xF_FC00 && !(0xC_0000 <= vp < 0xC_0000 + n) ==>
            View(mmu.mem, mmu.cr3)[vp] == old(View(mmu.mem, mmu.cr3))[vp])
    ensures !ok ==> alloc.Free() == {}
  {
    ghost var g := Start(View(mmu.mem, mmu.cr3), mmu.mem[mmu.cr3], |alloc.Free()|, AvailablePages(regions), maxPa0);
    PagesAreAligned(regions);
    NothingLaid(g.view, g.pages);
    ok, maxPa := MapRegions(mmu, alloc, regions, maxPa0, g);
    if ok {
      AtMeans(mmu, alloc, g, Laid(g.pages), PAGE_SIZE * Laid(g.pages), maxPa);
      WindowInFull(mmu.mem, mmu.cr3, g.view, g.pages);
    }
  }

  /** The window and what lies around it, in numbers. */
  lemma WindowInFull(m: Memory, cr3: FrameNo, v0: seq<Translation>, pages: seq<nat>)
    requires |v0| == SELF * ENTRIES && (forall p :: p in pages ==> p % PAGE_SIZE == 0)
    requires View(m, cr3) == Overlay(v0, pages, Laid(pages))
    ensures var n := if |pages| < 0x2_0000 then |pages| else 0x2_0000;
      && (forall k :: 0 <= k < n ==>
            Walk(m, cr3, 0xC000_0000 + k * 4096) == Page(pages[k] % 0x1_0000_0000 / 4096, 3, true))
      && (forall vp :: 0 <= vp < 0xF_FC00 && !(0xC_0000 <= vp < 0xC_0000 + n) ==> View(m, cr3)[vp] == v0[vp])
  {
    var n := Laid(pages);
    forall k | 0 <= k < n
      ensures Walk(m, cr3, 0xC000_0000 + k * 4096) == Page(pages[k] % 0x1_0000_0000 / 4096, 3, true)
    {
      WindowTranslates(m, cr3, v0, pages, n, k);
    }
  }

  /** One pass of the outer loop. */
  method MapIfAvailable(mmu: Mmu32Nopae, alloc: BootAllocator, regions: seq<Region>, i: nat, va0: nat, max0: nat,
                        ghost g: Start, ghost k0: nat)
    returns (ok: bool, va: nat, maxPa: nat, ghost k: nat)
    requires At(mmu, alloc, g, k0, va0, max0) && Ahead(g.pages, k0, regions, i)
    requires i < |regions| && regions[i].addr < 0xFFFF_FFFF && k0 < KMALLOC_PAGES
    modifies mmu, alloc`ptr, alloc.allocMap.words
    ensures alloc.allocMap == old(alloc.allocMap)
    ensures ok ==> At(mmu, alloc, g, k, va, maxPa) && Ahead(g.pages, k, regions, i + 1)
    ensures !ok ==> alloc.Free() == {} && Short(g)
  {
    ok, va, maxPa, k := true, va0, max0, k0;
    NextRegion(g.pages, k, regions, i);
    if regions[i].kind == MEMORY_AVAILABLE {
      ok, va, maxPa, k := MapRegion(mmu, alloc, regions[i], va, maxPa, g, k, AvailablePages(regions[i + 1..]));
    }
  }

  /** The outer loop. */
  method MapRegions(mmu: Mmu32Nopae, alloc: BootAllocator, regions: seq<Region>, max0: nat, ghost g: Start)
    returns (ok: bool, maxPa: nat)
    requires At(mmu, alloc, g, 0, 0, max0) && g.pages == AvailablePages(regions)
    modifies mmu, alloc`ptr, alloc.allocMap.words
    ensures alloc.allocMap == old(alloc.allocMap)
    ensures ok ==> At(mmu, alloc, g, Laid(g.pages), PAGE_SIZE * Laid(g.pages), maxPa)
    ensures !ok ==> alloc.Free() == {} && Short(g)
  {
    ok, maxPa := true, max0;
    var va: nat, i: nat := 0, 0;
    ghost var k: nat := 0;
    assert g.pages[0..] == g.pages && regions[0..] == regions;
    while i < |regions|
      invariant 0 <= i <= |regions| && ok && alloc.allocMap == old(alloc.allocMap)
      invariant At(mmu, alloc, g, k, va, maxPa) && Ahead(g.pages, k, regions, i)
    {
      if va >= KMALLOC_LENGTH { break; }
      if regions[i].addr >= 0xFFFF_FFFF { break; }
      ok, va, maxPa, k := MapIfAvailable(mmu, alloc, regions, i, va, maxPa, g, k);
      if !ok { return; }
      i := i + 1;
    }
    AllLaid(g.pages, k, regions, i);
  }

  // ---------- What the laid-out window means ----------

  /** Window page k translates to the k-th available page (its low 32 bits, which is all `map` keeps). */
  lemma WindowTranslates(m: Memory, cr3: FrameNo, v0: seq<Translation>, pages: seq<nat>, n: nat, k: nat)
    requires |v0| == SELF * ENTRIES && n <= KMALLOC_PAGES && n <= |pages| && k < n
    requires forall p :: p in pages ==> p % PAGE_SIZE == 0
    requires View(m, cr3) == Overlay(v0, pages, n)
    ensures Walk(m, cr3, KMALLOC_BASE + k * PAGE_SIZE) ==
      Page(pages[k] % TWO32 / PAGE_SIZE, PDE_PR + PDE_RW, true)
  {
    assert pages[k] in pages;
    assert View(m, cr3)[BASE_PAGE + k] == Mapped(pages[k], PDE_PR + PDE_RW);
    assert (BASE_PAGE + k) * PAGE_SIZE == KMALLOC_BASE + k * PAGE_SIZE;
    assert And(3, PG_FLAG_MASK) == 3;
  }

  /** It is the page itself exactly when that page lies below 4 GiB. */
  lemma WindowReaches(m: Memory, cr3: FrameNo, v0: seq<Translation>, pages: seq<nat>, n: nat, k: nat)
    requires |v0| == SELF * ENTRIES && n <= KMALLOC_PAGES && n <= |pages| && k < n
    requires forall p :: p in pages ==> p % PAGE_SIZE == 0
    requires View(m, cr3) == Overlay(v0, pages, n)
    ensures var w := Walk(m, cr3, KMALLOC_BASE + k * PAGE_SIZE);
      w.Page? && (w.frame == pages[k] / PAGE_SIZE <==> pages[k] < TWO32)
  {
    WindowTranslates(m, cr3, v0, pages, n, k);
    assert pages[k] in pages;
  }

  lemma OutsideWindowUndisturbed(m: Memory, cr3: FrameNo, v0: seq<Translation>, pages: seq<nat>, n: nat, vp: nat)
    requires |v0| == SELF * ENTRIES && n <= KMALLOC_PAGES && n <= |pages|
    requires forall p :: p in pages ==> p % PAGE_SIZE == 0
    requires View(m, cr3) == Overlay(v0, pages, n)
    requires vp < SELF * ENTRIES && !(BASE_PAGE <= vp < BASE_PAGE + n)
    ensures Walk(m, cr3, vp * PAGE_SIZE) == v0[vp]
  {
    assert View(m, cr3)[vp] == v0[vp];
  }

  /**
    A page of slot 1023 shows the table of one directory slot.  It is as before unless that slot is one
    of the window's and was empty; then it shows the new table.
   */
  lemma TablePagesUndisturbed(m0: Memory, m: Memory, cr3: FrameNo, n: nat, s: Index)
    requires Recursive(m0, cr3) && Recursive(m, cr3) && TablesAdded(m0[cr3], m[cr3], n)
    ensures var w0, w := Walk(m0, cr3, Virt(SELF, s)), Walk(m, cr3, Virt(SELF, s));
      if m0[cr3][s] != 0 || !(FIRST_SLOT <= s < FIRST_SLOT + n) then w == w0
      else w0 == Fault && w == Page(FrameOf(m[cr3][s]), PDE_PR + PDE_RW, true)
  {
    EntryFields(cr3);
    VirtSplit(SELF, s);
    if m[cr3][s] != 0 { TableEntryFields(m[cr3][s]); }
  }

  /** A page of type-1 memory that lies wholly inside the region; its end is a 64-bit sum. */
  predicate WholePageOf(r: Region, p: nat) {
    && r.kind == 1 && p % 4096 == 0
    && r.addr <= p && p + 4096 <= (r.addr + r.len) % 0x1_0000_0000_0000_0000
  }

  /** The pages of a region are exactly the aligned pages that lie wholly inside it. */
  lemma RegionPagesAreItsWholePages(r: Region, p: nat)
    requires r.addr + 4095 < 0x1_0000_0000_0000_0000
    ensures p in RegionPages(r) <==> WholePageOf(r, p)
  {
    var b: Word64 := (r.addr + r.len) % TWO64;
    UpIsAligned(r.addr);
    UpIsAligned(b);
    InPageRun(AlignUp(r.addr), AlignDown(b), p);
    WholePages(AlignUp(r.addr), AlignDown(b), r.addr, b, p);
  }

  lemma WholePages(start: nat, end: nat, a: nat, b: nat, p: nat)
    requires start % 4096 == 0 && a <= start < a + 4096 && end % 4096 == 0 && end <= b < end + 4096
    ensures p % 4096 == 0 ==> (start <= p < end <==> a <= p && p + 4096 <= b)
  {
  }

  /** The listed pages are those of the type-1 regions before the first one that starts at the top of 32 bits. */
  lemma {:induction false} AvailableAreWholePages(regions: seq<Region>, p: nat)
    ensures p in AvailablePages(regions) <==> exists i ::
      0 <= i < |regions| && (forall j :: 0 <= j <= i ==> regions[j].addr < 0xFFFF_FFFF) && WholePageOf(regions[i], p)
  {
    if regions != [] && regions[0].addr < 0xFFFF_FFFF {
      var rest := regions[1..];
      AvailableAreWholePages(rest, p);
      RegionPagesAreItsWholePages(regions[0], p);
      if i :| 0 <= i < |rest| && (forall j :: 0 <= j <= i ==> rest[j].addr < 0xFFFF_FFFF) && WholePageOf(rest[i], p) {
        assert forall j :: 0 <= j <= i + 1 ==> regions[j] == if j == 0 then regions[0] else rest[j - 1];
        assert WholePageOf(regions[i + 1], p);
      }
      if i :| 0 <= i < |regions| && (forall j :: 0 <= j <= i ==> regions[j].addr < 0xFFFF_FFFF) && WholePageOf(regions[i], p) {
        if i > 0 {
          assert rest[i - 1] == regions[i];
          assert forall j :: 0 <= j <= i - 1 ==> rest[j] == regions[j + 1];
        }
      }
    }
  }

  /** Consecutive pages of a run are one page size apart. */
  lemma {:induction false} PageRunSteps(start: nat, end: nat, j: nat)
    requires j < |PageRun(start, end)|
    ensures PageRun(start, end)[j] == start + j * PAGE_SIZE
    decreases j
  {
    if j > 0 { PageRunSteps(start + PAGE_SIZE, end, j - 1); }
  }

  /** A region's pages stay together: physically contiguous memory is contiguous in the window. */
  lemma {:induction false} RegionStaysTogether(regions: seq<Region>, i: nat)
    returns (before: seq<nat>, after: seq<nat>)
    requires i < |regions| && forall j :: 0 <= j <= i ==> regions[j].addr < 0xFFFF_FFFF
    ensures AvailablePages(regions) == before + RegionPages(regions[i]) + after
    ensures before == AvailablePages(regions[..i]) && after == AvailablePages(regions[i + 1..])
    decreases i
  {
    if i == 0 {
      before, after := [], AvailablePages(regions[1..]);
    } else {
      var between;
      between, after := RegionStaysTogether(regions[1..], i - 1);
      before := RegionPages(regions[0]) + between;
      assert regions[1..][..i - 1] == regions[..i][1..] && regions[1..][i..] == regions[i + 1..];
      ThreeParts(RegionPages(regions[0]), between, RegionPages(regions[i]), after);
    }
  }

  lemma ThreeParts(a: seq<nat>, b: seq<nat>, c: seq<nat>, d: seq<nat>)
    ensures a + (b + c + d) == a + b + c + d
  {
  }

  /** `max_pa` ends up as the largest page end that was mapped. */
  lemma {:induction false} MaxEndIsMaximum(pages: seq<nat>, k: nat, max0: nat)
    requires k <= |pages|
    ensures var m := MaxEnd(pages, k, max0);
      && max0 <= m && (forall j :: 0 <= j < k ==> pages[j] + PAGE_SIZE <= m)
      && (m == max0 || exists j :: 0 <= j < k && m == pages[j] + PAGE_SIZE)
  {
    if k > 0 { MaxEndIsMaximum(pages, k - 1, max0); }
  }
}
