/**
  The first phase of the loader's `init_bootmm32`: the bitmap of free pages is built from the memory
  map, the usable bytes are added up on the way, and an assertion compares the two.
 */
module BootMem {
  import opened Bits
  import opened Pages
  import opened Bitmap
  import opened DirectMap

  /** An available region whose page numbers fit in 32 bits. */
  predicate Addressable(r: Region) {
    r.kind == MEMORY_AVAILABLE ==> r.addr + r.len < 0x1000_0000_0000
  }

  // ---------- What the memory map says ----------

  predicate Stops(r: Region, pae: bool) { !pae && r.addr >= 0xFFFF_FFFF }

  /** The regions that are looked at. */
  function Processed(regions: seq<Region>, pae: bool): seq<Region> {
    if regions == [] || Stops(regions[0], pae) then [] else [regions[0]] + Processed(regions[1..], pae)
  }

  /** Their whole pages, in memory-map order, as often as they are listed. */
  function ListedPages(regions: seq<Region>): seq<nat> {
    if regions == [] then [] else RegionPages(regions[0]) + ListedPages(regions[1..])
  }

  /** Page number k is listed. */
  predicate IsListed(k: nat, regions: seq<Region>) { k * PAGE_SIZE in ListedPages(regions) }

  predicate IsPageOf(k: nat, r: Region) { k * PAGE_SIZE in RegionPages(r) }

  /** An available region inside one page, touching neither of its ends: rounding makes its start pass its end. */
  predicate Sliver(r: Region) {
    r.kind == MEMORY_AVAILABLE && AlignUp(r.addr) > AlignDown((r.addr + r.len) % TWO64)
  }

  function Slivers(regions: seq<Region>): nat {
    if regions == [] then 0 else (if Sliver(regions[0]) then 1 else 0) + Slivers(regions[1..])
  }

  /** MAX_MEM: the largest region end, each a 64-bit sum. */
  function Top(regions: seq<Region>): (t: Word64) {
    if regions == [] then 0
    else
      var t := Top(regions[..|regions| - 1]);
      var r := regions[|regions| - 1];
      if (r.addr + r.len) % TWO64 > t then (r.addr + r.len) % TWO64 else t
  }

  /** The number of pages indexed, kept in 32 bits. */
  function NumPages(regions: seq<Region>): nat {
    AlignUp(Top(regions)) / PAGE_SIZE % TWO32
  }

  lemma {:induction false} TopIsLargest(regions: seq<Region>, i: nat)
    requires i < |regions|
    ensures (regions[i].addr + regions[i].len) % TWO64 <= Top(regions)
  {
    if i < |regions| - 1 { TopIsLargest(regions[..|regions| - 1], i); }
  }

  /** The bits of every available region that is looked at lie in the bitmap. */
  predicate Indexed(regions: seq<Region>, pae: bool) {
    forall i :: 0 <= i < |Processed(regions, pae)| ==>
      var r := Processed(regions, pae)[i];
      r.kind == MEMORY_AVAILABLE ==> r.addr + r.len < TWO64 && EndPage(r) <= NumPages(regions)
  }

  /** So it is for every map whose regions end below 2^44 less a page. */
  lemma OrdinaryMapIsIndexed(regions: seq<Region>, pae: bool)
    requires forall r :: r in regions ==> r.addr + r.len <= 0xFFFF_FFFF * PAGE_SIZE
    ensures Indexed(regions, pae)
  {
    TopIsBounded(regions);
    ProcessedAreRegions(regions, pae);
    forall i | 0 <= i < |Processed(regions, pae)|
      ensures var r := Processed(regions, pae)[i]; r.addr + r.len < TWO64 && EndPage(r) <= NumPages(regions)
    {
      assert Processed(regions, pae)[i] == regions[i];
      OneIsIndexed(regions, i);
    }
  }

  lemma OneIsIndexed(regions: seq<Region>, i: nat)
    requires i < |regions| && Top(regions) <= 0xFFFF_FFFF * PAGE_SIZE
    requires forall r :: r in regions ==> r.addr + r.len <= 0xFFFF_FFFF * PAGE_SIZE
    ensures regions[i].addr + regions[i].len < TWO64 && EndPage(regions[i]) <= NumPages(regions)
  {
    var r, top := regions[i], Top(regions);
    assert r in regions;
    TopIsLargest(regions, i);
    Small(r.addr + r.len, TWO64);
    FitsBelow(r, top);
    Small(AlignUp(top) / PAGE_SIZE, TWO32);
  }

  lemma Small(n: nat, m: nat)
    requires n < m
    ensures n % m == n
  {
  }

  lemma {:induction false} ProcessedAreRegions(regions: seq<Region>, pae: bool)
    ensures Processed(regions, pae) <= regions
  {
    if regions != [] && !Stops(regions[0], pae) { ProcessedAreRegions(regions[1..], pae); }
  }

  /** Without PAE these are the pages that `platform::init` later lays out. */
  lemma {:induction false} ListedAreAvailable(regions: seq<Region>)
    ensures ListedPages(Processed(regions, false)) == AvailablePages(regions)
  {
    if regions != [] && !Stops(regions[0], false) {
      ListedAreAvailable(regions[1..]);
      assert Processed(regions, false)[1..] == Processed(regions[1..], false);
    }
  }

  // ---------- The same in numbers ----------

  /** Region i is looked at: with PAE every one, otherwise those before the first that starts too high. */
  predicate Reached(regions: seq<Region>, pae: bool, i: nat) {
    i < |regions| && (pae || forall j :: 0 <= j <= i ==> regions[j].addr < 0xFFFF_FFFF)
  }

  /** Page number k lies wholly inside an available region. */
  predicate HoldsPage(r: Region, k: nat) {
    r.kind == 1 && r.addr <= k * 4096 && k * 4096 + 4096 <= r.addr + r.len
  }

  ghost predicate Usable(regions: seq<Region>, pae: bool, k: nat) {
    exists i: nat :: Reached(regions, pae, i) && HoldsPage(regions[i], k)
  }

  lemma {:induction false} ProcessedAreReached(regions: seq<Region>, pae: bool, i: nat)
    ensures i < |Processed(regions, pae)| <==> Reached(regions, pae, i)
    ensures i < |Processed(regions, pae)| ==> Processed(regions, pae)[i] == regions[i]
  {
    if regions != [] && !Stops(regions[0], pae) && i > 0 {
      var rest := regions[1..];
      ProcessedAreReached(rest, pae, i - 1);
      assert forall j :: 0 <= j <= i < |regions| ==> regions[j] == if j == 0 then regions[0] else rest[j - 1];
      assert Reached(rest, pae, i - 1) && !pae ==> forall j :: 0 <= j <= i ==> regions[j].addr < 0xFFFF_FFFF;
      assert Reached(regions, pae, i) && !pae ==> forall j :: 0 <= j <= i - 1 ==> rest[j] == regions[j + 1];
    }
  }

  lemma {:induction false} ListedInSome(rs: seq<Region>, k: nat)
    ensures IsListed(k, rs) <==> exists i: nat :: i < |rs| && IsPageOf(k, rs[i])
  {
    if rs != [] {
      var rest := rs[1..];
      ListedInSome(rest, k);
      if i: nat :| i < |rest| && IsPageOf(k, rest[i]) { assert IsPageOf(k, rs[i + 1]); }
      if i: nat :| i < |rs| && IsPageOf(k, rs[i]) { assert i > 0 ==> rest[i - 1] == rs[i]; }
    }
  }

  lemma HeldPages(r: Region, n: nat, k: nat)
    requires r.kind == MEMORY_AVAILABLE ==> r.addr + r.len < TWO64 && EndPage(r) <= n < TWO32
    ensures IsPageOf(k, r) <==> HoldsPage(r, k)
  {
    if r.kind == MEMORY_AVAILABLE {
      EndsBelow(r, n);
      Rounded(r);
      RegionPagesAreItsWholePages(r, k * PAGE_SIZE);
      HeldIsWhole(r, k);
    }
  }

  lemma HeldIsWhole(r: Region, k: nat)
    requires r.kind == MEMORY_AVAILABLE && (r.addr + r.len) % TWO64 == r.addr + r.len
    ensures WholePageOf(r, k * PAGE_SIZE) <==> HoldsPage(r, k)
  {
    assert k * PAGE_SIZE % 4096 == 0;
  }

  /** The pages listed are those that lie wholly inside an available region that is looked at. */
  lemma ListedAreUsable(regions: seq<Region>, pae: bool, k: nat)
    requires Indexed(regions, pae)
    ensures IsListed(k, Processed(regions, pae)) <==> Usable(regions, pae, k)
  {
    var rs := Processed(regions, pae);
    ListedInSome(rs, k);
    forall i: nat
      ensures i < |rs| && IsPageOf(k, rs[i]) <==> Reached(regions, pae, i) && HoldsPage(regions[i], k)
    {
      ProcessedAreReached(regions, pae, i);
      if i < |rs| { HeldPages(rs[i], NumPages(regions), k); }
    }
  }

  /** A sliver holds no page boundary, at its ends either. */
  lemma SliverHasNoBoundary(r: Region)
    requires Addressable(r)
    ensures Sliver(r) <==> r.kind == 1 && forall k: nat :: !InReach(r, k)
  {
    if r.kind == MEMORY_AVAILABLE {
      Rounded(r);
      var start, end := AlignUp(r.addr), AlignDown(r.addr + r.len);
      assert !Sliver(r) ==> InReach(r, end / 4096);
      forall k: nat | InReach(r, k)
        ensures start <= k * 4096 <= end
      {
        Rounding(start, end, r.addr, r.addr + r.len, k);
      }
    }
  }

  predicate InReach(r: Region, k: nat) { r.addr <= k * 4096 <= r.addr + r.len }

  lemma Rounding(start: nat, end: nat, a: nat, b: nat, k: nat)
    requires start % 4096 == 0 && end % 4096 == 0 && start < a + 4096 && b < end + 4096
    requires a <= k * 4096 <= b
    ensures start <= k * 4096 <= end
  {
  }

  /** The bitmap reaches to the end of the last page that any region ends in. */
  lemma {:induction false} TopIsAttained(regions: seq<Region>)
    ensures Top(regions) == 0 || exists i :: 0 <= i < |regions| && (regions[i].addr + regions[i].len) % TWO64 == Top(regions)
  {
    if regions != [] { TopIsAttained(regions[..|regions| - 1]); }
  }

  lemma {:induction false} OneMoreListed(regions: seq<Region>, r: Region)
    ensures ListedPages(regions + [r]) == ListedPages(regions) + RegionPages(r)
  {
    var more := regions + [r];
    if regions == [] {
      assert more[1..] == [] && more[0] == r;
    } else {
      assert more[1..] == regions[1..] + [r] && more[0] == regions[0];
      OneMoreListed(regions[1..], r);
      PagesJoin(RegionPages(regions[0]), ListedPages(regions[1..]), RegionPages(r));
    }
  }

  lemma PagesJoin(a: seq<nat>, b: seq<nat>, c: seq<nat>)
    ensures a + (b + c) == (a + b) + c
  {
  }

  lemma {:induction false} OneMoreSliver(regions: seq<Region>, r: Region)
    ensures Slivers(regions + [r]) == Slivers(regions) + if Sliver(r) then 1 else 0
  {
    var more := regions + [r];
    if regions == [] {
      assert more[1..] == [] && more[0] == r;
    } else {
      assert more[1..] == regions[1..] + [r] && more[0] == regions[0];
      OneMoreSliver(regions[1..], r);
    }
  }

  lemma {:induction false} PageRunLength(start: nat, end: nat, n: nat)
    requires end == start + n * PAGE_SIZE
    ensures |PageRun(start, end)| == n
    decreases n
  {
    if n > 0 { PageRunLength(start + PAGE_SIZE, end, n - 1); }
  }

  /** The page numbers between which a region's bits are cleared. */
  function FirstPage(r: Region): nat { AlignUp(r.addr) / PAGE_SIZE }
  function EndPage(r: Region): nat { AlignDown((r.addr + r.len) % TWO64) / PAGE_SIZE }

  /** Rounding up overtakes rounding down by at most one page. */
  lemma RoundedExtent(start: nat, end: nat, a: nat, b: nat)
    requires start % 4096 == 0 && end % 4096 == 0 && start < a + 4096 && a <= b < end + 4096
    ensures start / 4096 <= end / 4096 + 1
    ensures start / 4096 > end / 4096 <==> start > end
    ensures start <= end ==> end == start + (end / 4096 - start / 4096) * 4096
  {
  }

  lemma RunExtent(start: nat, end: nat, a: nat, b: nat)
    requires start % 4096 == 0 && end % 4096 == 0 && start < a + 4096 && a <= b < end + 4096
    ensures end / 4096 - start / 4096 == |PageRun(start, end)| - if start > end then 1 else 0
  {
    RoundedExtent(start, end, a, b);
    if start <= end { PageRunLength(start, end, end / 4096 - start / 4096); }
  }

  lemma Rounded(r: Region)
    requires Addressable(r) && r.kind == MEMORY_AVAILABLE
    ensures (r.addr + r.len) % TWO64 == r.addr + r.len
    ensures AlignUp(r.addr) % 4096 == 0 && AlignUp(r.addr) < r.addr + 4096
    ensures AlignDown(r.addr + r.len) % 4096 == 0
    ensures r.addr + r.len - 4096 < AlignDown(r.addr + r.len) <= r.addr + r.len
  {
    UpIsAligned(r.addr);
    UpIsAligned(r.addr + r.len);
  }

  lemma RegionExtent(r: Region)
    requires Addressable(r) && r.kind == MEMORY_AVAILABLE
    ensures EndPage(r) - FirstPage(r) == |RegionPages(r)| - if Sliver(r) then 1 else 0
    ensures EndPage(r) * PAGE_SIZE <= r.addr + r.len
  {
    Rounded(r);
    RunExtent(AlignUp(r.addr), AlignDown(r.addr + r.len), r.addr, r.addr + r.len);
  }

  lemma Scaled(start: nat, end: nat, k: nat)
    requires start % 4096 == 0 && end % 4096 == 0
    ensures k * 4096 % 4096 == 0
    ensures start <= k * 4096 < end <==> start / 4096 <= k < end / 4096
  {
  }

  lemma RegionPageNumbers(r: Region, k: nat)
    requires Addressable(r) && r.kind == MEMORY_AVAILABLE
    ensures IsPageOf(k, r) <==> FirstPage(r) <= k < EndPage(r)
  {
    Rounded(r);
    Scaled(AlignUp(r.addr), AlignDown(r.addr + r.len), k);
    InPageRun(AlignUp(r.addr), AlignDown(r.addr + r.len), k * PAGE_SIZE);
  }

  // ---------- The code ----------

  /** Clears the bits of one region. */
  method ClearRegion(bt: Bitmap, r: Region)
    requires Addressable(r) && r.kind == MEMORY_AVAILABLE
    requires bt.Sized() && EndPage(r) <= bt.bitCount
    modifies bt.words
    ensures forall k: nat :: bt.Has(k) <==> old(bt.Has(k)) && !IsPageOf(k, r)
  {
    var i := FirstPage(r);
    while i < EndPage(r)
      invariant FirstPage(r) <= i && (i <= EndPage(r) || i == FirstPage(r))
      invariant forall k: nat :: bt.Has(k) <==> old(bt.Has(k)) && !(FirstPage(r) <= k < i)
      decreases EndPage(r) - i
    {
      bt.Reset(i);
      i := i + 1;
    }
    forall k: nat
      ensures IsPageOf(k, r) <==> FirstPage(r) <= k < EndPage(r)
    {
      RegionPageNumbers(r, k);
    }
  }

  /** Adds up a page size, in 32 bits, for every clear bit. */
  method CountClear(bt: Bitmap) returns (a: Word)
    requires bt.Sized()
    ensures a == PAGE_SIZE * |bt.Clear()| % TWO32
  {
    a := 0;
    var i := 0;
    ghost var seen: set<nat> := {};
    while i < bt.bitCount
      invariant 0 <= i <= bt.bitCount
      invariant seen == set k: nat | k < i && !bt.Has(k)
      invariant a == PAGE_SIZE * |seen| % TWO32
    {
      var b := bt.Test(i);
      if !b {
        assert i !in seen && |seen + {i}| == |seen| + 1;
        AddPage(a, |seen|);
        seen := seen + {i};
        a := (a + PAGE_SIZE) % TWO32;
      }
      i := i + 1;
    }
    assert seen == bt.Clear();
  }

  lemma AddPage(a: nat, n: nat)
    requires a == PAGE_SIZE * n % TWO32
    ensures (a + PAGE_SIZE) % TWO32 == PAGE_SIZE * (n + 1) % TWO32
  {
  }

  method MaxMem(regions: seq<Region>) returns (top: Word64)
    ensures top == Top(regions)
  {
    top := 0;
    var i := 0;
    while i < |regions|
      invariant 0 <= i <= |regions| && top == Top(regions[..i])
    {
      var r := regions[i];
      assert regions[..i + 1][..i] == regions[..i];
      var end := (r.addr + r.len) % TWO64;
      top := if end > top then end else top;
      i := i + 1;
    }
    assert regions[..i] == regions;
  }

  /** What holds once the regions `done` have been looked at. */
  ghost predicate Reflects(bt: Bitmap, avail: Word64, done: seq<Region>)
    reads bt.words
  {
    && bt.Sized()
    && (forall k: nat :: k < WORD_BITS * bt.words.Length ==> (bt.Has(k) <==> !IsListed(k, done)))
    && (forall k: nat :: IsListed(k, done) ==> k < bt.bitCount)
    && avail == PAGE_SIZE * (|ListedPages(done)| - Slivers(done)) % TWO64
  }

  lemma AddUp(avail: int, n: int, m: int)
    requires avail == PAGE_SIZE * n % TWO64
    ensures (avail + m * PAGE_SIZE) % TWO64 == PAGE_SIZE * (n + m) % TWO64
  {
  }

  lemma ListedMore(done: seq<Region>, r: Region)
    requires ListedPages(done + [r]) == ListedPages(done) + RegionPages(r)
    ensures forall k: nat :: IsListed(k, done + [r]) <==> IsListed(k, done) || IsPageOf(k, r)
  {
  }

  lemma NoPages(r: Region)
    requires r.kind != MEMORY_AVAILABLE
    ensures forall k: nat :: !IsPageOf(k, r)
    ensures |RegionPages(r)| == 0
  {
  }

  lemma NumbersAreListed(rs: seq<Region>)
    ensures forall k: nat :: k in PageNumbers(ListedPages(rs)) <==> IsListed(k, rs)
  {
  }

  lemma EndsBelow(r: Region, n: nat)
    requires r.addr + r.len < TWO64 && EndPage(r) <= n < TWO32
    ensures Addressable(r)
  {
    UpIsAligned(r.addr + r.len);
  }

  method TakeRegion(bt: Bitmap, avail0: Word64, r: Region, ghost done: seq<Region>) returns (avail: Word64)
    requires Reflects(bt, avail0, done) && bt.bitCount < TWO32
    requires r.kind == MEMORY_AVAILABLE ==> r.addr + r.len < TWO64 && EndPage(r) <= bt.bitCount
    modifies bt.words
    ensures Reflects(bt, avail, done + [r])
  {
    OneMoreListed(done, r);
    OneMoreSliver(done, r);
    if r.kind == MEMORY_AVAILABLE {
      avail := TakeAvailable(bt, avail0, r, done);
    } else {
      avail := avail0;
      ListedMore(done, r);
      NoPages(r);
    }
  }

  method TakeAvailable(bt: Bitmap, avail0: Word64, r: Region, ghost done: seq<Region>) returns (avail: Word64)
    requires Reflects(bt, avail0, done) && bt.bitCount < TWO32
    requires r.kind == MEMORY_AVAILABLE && r.addr + r.len < TWO64 && EndPage(r) <= bt.bitCount
    requires ListedPages(done + [r]) == ListedPages(done) + RegionPages(r)
    requires Slivers(done + [r]) == Slivers(done) + if Sliver(r) then 1 else 0
    modifies bt.words
    ensures Reflects(bt, avail, done + [r])
  {
    EndsBelow(r, bt.bitCount);
    RegionExtent(r);
    AddUp(avail0, |ListedPages(done)| - Slivers(done), EndPage(r) - FirstPage(r));
    avail := (avail0 + (EndPage(r) - FirstPage(r)) * PAGE_SIZE) % TWO64;
    ListedMore(done, r);
    forall k: nat | IsPageOf(k, r)
      ensures k < bt.bitCount
    {
      RegionPageNumbers(r, k);
    }
    ClearRegion(bt, r);
    assert forall k: nat :: k < WORD_BITS * bt.words.Length ==>
      (bt.Has(k) <==> !IsListed(k, done) && !IsPageOf(k, r));
  }

  /** The bitmap over all of memory, all ones, with the bits of the processed regions cleared. */
  method BuildBitmap(regions: seq<Region>, pae: bool) returns (bt: Bitmap, avail: Word64)
    requires Indexed(regions, pae)
    ensures fresh(bt.words) && Reflects(bt, avail, Processed(regions, pae))
    ensures bt.bitCount == NumPages(regions)
  {
    var top := MaxMem(regions);
    var numPages := AlignUp(top) / PAGE_SIZE % TWO32;
    bt := new Bitmap(numPages);
    avail := 0;
    var i := 0;
    NoneProcessed(regions, pae);
    while i < |regions| && !Stops(regions[i], pae)
      invariant LookedAt(regions, pae, i)
      invariant fresh(bt.words) && bt.bitCount == numPages && Reflects(bt, avail, regions[..i])
    {
      OneMoreProcessed(regions, pae, i);
      avail := TakeRegion(bt, avail, regions[i], regions[..i]);
      i := i + 1;
    }
    AllProcessed(regions, pae, i);
  }

  /** The first i regions are among those looked at. */
  predicate LookedAt(regions: seq<Region>, pae: bool, i: nat) {
    i <= |regions| && Processed(regions, pae) == regions[..i] + Processed(regions[i..], pae)
  }

  lemma NoneProcessed(regions: seq<Region>, pae: bool)
    ensures LookedAt(regions, pae, 0) && regions[..0] == [] && ListedPages([]) == [] && Slivers([]) == 0
  {
    assert regions[0..] == regions;
  }

  lemma OneMoreProcessed(regions: seq<Region>, pae: bool, i: nat)
    requires LookedAt(regions, pae, i) && i < |regions| && !Stops(regions[i], pae)
    ensures LookedAt(regions, pae, i + 1) && regions[..i + 1] == regions[..i] + [regions[i]]
    ensures i < |Processed(regions, pae)| && Processed(regions, pae)[i] == regions[i]
  {
    FirstOfRest(regions, pae, i);
    ShiftOne(regions[..i], regions[i], Processed(regions[i + 1..], pae));
    assert regions[..i + 1] == regions[..i] + [regions[i]];
  }

  lemma FirstOfRest(regions: seq<Region>, pae: bool, i: nat)
    requires i < |regions| && !Stops(regions[i], pae)
    ensures Processed(regions[i..], pae) == [regions[i]] + Processed(regions[i + 1..], pae)
  {
    assert regions[i..][1..] == regions[i + 1..];
  }

  lemma ShiftOne(a: seq<Region>, r: Region, rest: seq<Region>)
    ensures a + ([r] + rest) == (a + [r]) + rest && (a + ([r] + rest))[|a|] == r
  {
  }

  lemma AllProcessed(regions: seq<Region>, pae: bool, i: nat)
    requires LookedAt(regions, pae, i) && (i < |regions| ==> Stops(regions[i], pae))
    ensures Processed(regions, pae) == regions[..i]
  {
    assert Processed(regions[i..], pae) == [];
  }

  /**
    Bit k ends up clear exactly when page k lies in a processed available region.  `ok` is the outcome
    of the assertion.
   */
  method InitPhaseOne(regions: seq<Region>, pae: bool) returns (bt: Bitmap, avail: Word64, ok: bool)
    requires Indexed(regions, pae)
    ensures fresh(bt.words) && bt.Sized() && bt.Padded() && bt.bitCount == NumPages(regions)
    ensures forall k: nat :: k in bt.Clear() <==> Usable(regions, pae, k)
    ensures bt.Clear() == PageNumbers(ListedPages(Processed(regions, pae)))
    ensures avail == PAGE_SIZE * (|ListedPages(Processed(regions, pae))| - Slivers(Processed(regions, pae))) % TWO64
    ensures ok <==> TotalsAgree(Processed(regions, pae))
  {
    bt, avail := BuildBitmap(regions, pae);
    NumbersAreListed(Processed(regions, pae));
    assert bt.Clear() == PageNumbers(ListedPages(Processed(regions, pae)));
    forall k: nat
      ensures k in bt.Clear() <==> Usable(regions, pae, k)
    {
      ListedAreUsable(regions, pae, k);
    }
    var a := CountClear(bt);
    ok := avail == a;
    AssertionHolds(Processed(regions, pae));
  }

  lemma {:induction false} TopIsBounded(regions: seq<Region>)
    requires forall r :: r in regions ==> r.addr + r.len <= 0xFFFF_FFFF * PAGE_SIZE
    ensures Top(regions) <= 0xFFFF_FFFF * PAGE_SIZE
  {
    if regions != [] {
      assert regions[|regions| - 1] in regions;
      TopIsBounded(regions[..|regions| - 1]);
    }
  }

  lemma FitsBelow(r: Region, top: nat)
    requires r.addr + r.len <= top <= 0xFFFF_FFFF * PAGE_SIZE
    ensures EndPage(r) <= AlignUp(top) / PAGE_SIZE < TWO32
  {
    UpIsAligned(top);
    Small(r.addr + r.len, TWO64);
    Between(AlignDown(r.addr + r.len), top, AlignUp(top));
  }

  lemma Between(low: nat, top: nat, high: nat)
    requires low <= top <= high < top + 4096 && high % 4096 == 0 && top <= 0xFFFF_FFFF * 4096
    ensures low / 4096 <= high / 4096 <= 0xFFFF_FFFF
  {
  }

  // ---------- When the assertion holds ----------

  /** The numbers of the listed pages, each once: by `InitPhaseOne`, the clear bits. */
  ghost function PageNumbers(pages: seq<nat>): (s: set<nat>)
    ensures forall k: nat :: k in s <==> k * PAGE_SIZE in pages
  {
    set p | p in pages && p % PAGE_SIZE == 0 :: p / PAGE_SIZE
  }

  predicate NoDuplicates(pages: seq<nat>) {
    forall i, j :: 0 <= i < j < |pages| ==> pages[i] != pages[j]
  }

  lemma {:induction false} DisjointCount(pages: seq<nat>)
    requires forall p :: p in pages ==> p % PAGE_SIZE == 0
    ensures |PageNumbers(pages)| <= |pages|
    ensures NoDuplicates(pages) <==> |PageNumbers(pages)| == |pages|
  {
    if pages != [] {
      var n := |pages| - 1;
      var front, last := pages[..n], pages[n];
      assert forall p :: p in front ==> p in pages;
      DisjointCount(front);
      assert last in pages;
      assert pages == front + [last];
      NumbersOfMore(front, last);
      assert NoDuplicates(pages) <==> NoDuplicates(front) && last !in front by {
        assert forall i :: 0 <= i < n ==> front[i] == pages[i];
      }
    }
  }

  lemma NumbersOfMore(front: seq<nat>, p: nat)
    requires p % PAGE_SIZE == 0
    ensures PageNumbers(front + [p]) == PageNumbers(front) + {p / PAGE_SIZE}
    ensures p / PAGE_SIZE in PageNumbers(front) <==> p in front
  {
    assert p / PAGE_SIZE * PAGE_SIZE == p;
    forall k: nat
      ensures k in PageNumbers(front + [p]) <==> k in PageNumbers(front) || k == p / PAGE_SIZE
    {
      OneNumber(k, p);
    }
  }

  lemma OneNumber(k: nat, p: nat)
    requires p % PAGE_SIZE == 0
    ensures k * PAGE_SIZE == p <==> k == p / PAGE_SIZE
  {
  }

  lemma ScaledMods(x: int, c: nat)
    ensures PAGE_SIZE * x % TWO64 == PAGE_SIZE * (x % 0x10_0000_0000_0000)
    ensures PAGE_SIZE * c % TWO32 == PAGE_SIZE * (c % 0x10_0000)
  {
  }

  /**
    The listed pages, less one for every sliver, come to the number of clear bits less what the 32-bit
    counter dropped.
   */
  ghost predicate TotalsAgree(rs: seq<Region>) {
    Agree(|ListedPages(rs)|, Slivers(rs), |PageNumbers(ListedPages(rs))|)
  }

  predicate Agree(listed: nat, slivers: nat, clear: nat) {
    (listed - slivers) % 0x10_0000_0000_0000 == clear % 0x10_0000
  }

  lemma AgreeScaled(listed: nat, slivers: nat, clear: nat)
    ensures PAGE_SIZE * (listed - slivers) % TWO64 == PAGE_SIZE * clear % TWO32 <==> Agree(listed, slivers, clear)
  {
    ScaledMods(listed - slivers, clear);
  }

  lemma AssertionHolds(rs: seq<Region>)
    ensures PAGE_SIZE * (|ListedPages(rs)| - Slivers(rs)) % TWO64 == PAGE_SIZE * |PageNumbers(ListedPages(rs))| % TWO32
      <==> TotalsAgree(rs)
  {
    AgreeScaled(|ListedPages(rs)|, Slivers(rs), |PageNumbers(ListedPages(rs))|);
  }

  lemma {:induction false} ListedAreAligned(rs: seq<Region>)
    requires forall r :: r in rs ==> Addressable(r)
    ensures forall p :: p in ListedPages(rs) ==> p % PAGE_SIZE == 0
  {
    if rs != [] {
      var r := rs[0];
      ListedAreAligned(rs[1..]);
      if r.kind == MEMORY_AVAILABLE { Rounded(r); }
      forall p | p in RegionPages(r)
        ensures p % PAGE_SIZE == 0
      {
        InPageRun(AlignUp(r.addr), AlignDown((r.addr + r.len) % TWO64), p);
      }
    }
  }

  lemma {:induction false} FewSlivers(rs: seq<Region>)
    ensures Slivers(rs) <= |rs|
    ensures Slivers(rs) == 0 <==> forall r :: r in rs ==> !Sliver(r)
  {
    if rs != [] { FewSlivers(rs[1..]); }
  }

  /**
    For regions without a page in common that hold less than 4 GiB in all, the assertion holds exactly
    when no available region is a sliver.  The length of a memory map is a 32-bit number.
   */
  lemma DisjointTotals(rs: seq<Region>)
    requires forall r :: r in rs ==> Addressable(r)
    requires NoDuplicates(ListedPages(rs)) && |ListedPages(rs)| < 0x10_0000 && |rs| < TWO32
    ensures TotalsAgree(rs) <==> forall r :: r in rs ==> !Sliver(r)
  {
    ListedAreAligned(rs);
    DisjointCount(ListedPages(rs));
    FewSlivers(rs);
    SmallDifference(|ListedPages(rs)|, Slivers(rs));
  }

  lemma SmallDifference(n: nat, d: nat)
    requires n < 0x10_0000 && d < TWO32
    ensures Agree(n, d, n) <==> d == 0
  {
  }

  /** 4 GiB in all is already too much for the 32-bit counter, disjoint or not. */
  lemma FullTotals(rs: seq<Region>)
    requires forall r :: r in rs ==> Addressable(r) && !Sliver(r)
    requires NoDuplicates(ListedPages(rs)) && |ListedPages(rs)| < 0x10_0000_0000_0000
    ensures TotalsAgree(rs) <==> |ListedPages(rs)| < 0x10_0000
  {
    ListedAreAligned(rs);
    DisjointCount(ListedPages(rs));
    FewSlivers(rs);
    CounterOverflow(|ListedPages(rs)|);
  }

  lemma CounterOverflow(n: nat)
    requires n < 0x10_0000_0000_0000
    ensures Agree(n, 0, n) <==> n < 0x10_0000
  {
  }

  /** One available region of 4 GiB makes the 32-bit counter come out at 0. */
  lemma FourGiBBreaksTotals()
    ensures !TotalsAgree([Region(0, TWO32, MEMORY_AVAILABLE)])
  {
    var r := Region(0, TWO32, MEMORY_AVAILABLE);
    Rounded(r);
    assert AlignUp(0) == 0 && AlignDown(TWO32) == TWO32;
    PageRunLength(0, TWO32, 0x10_0000);
    assert [r][1..] == [] && ListedPages([r]) == PageRun(0, TWO32) + [];
    forall i, j | 0 <= i < j < 0x10_0000
      ensures ListedPages([r])[i] != ListedPages([r])[j]
    {
      PageRunSteps(0, TWO32, i);
      PageRunSteps(0, TWO32, j);
    }
    FullTotals([r]);
  }

  /** An available region from 0x1001 to 0x1FFF makes the assertion fail on its own. */
  lemma SliverBreaksTotals()
    ensures !TotalsAgree([Region(0x1001, 0xFFE, MEMORY_AVAILABLE)])
  {
    var r := Region(0x1001, 0xFFE, MEMORY_AVAILABLE);
    Rounded(r);
    assert Sliver(r) && [r][1..] == [] && Slivers([r]) == 1;
    assert r in [r];
    assert ListedPages([r]) == [];
    DisjointTotals([r]);
  }
}
