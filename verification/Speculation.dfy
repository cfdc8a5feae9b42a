/**
  `map` on a processor that translates speculatively (section 4.10.2.3 of the Intel SDM, Volume 3A).

  Module Mmu lets the TLB keep only pages that the code touches.  A processor may also cache the
  translation of a page nobody touched.  `map` makes a new table reachable before it clears it, so
  in between such a processor may cache whatever the recycled frame happens to hold, and neither of
  the two `invlpg` flushes those pages.  The theorems say exactly when that matters, for one call and
  for any run of calls.
 */
module Speculation {
  import opened Bits
  import opened Pages
  import opened Paging
  import opened AddressSpace
  import opened Mmu

  /** While memory is m the processor may drop any entry and cache any page that translates. */
  ghost predicate FillsFrom(t: Tlb, m: Memory, cr3: FrameNo, t': Tlb) {
    forall vp :: vp in t' ==>
      || (vp in t && t'[vp] == t[vp])
      || (vp < FRAMES && t'[vp] == Walk(m, cr3, vp * PAGE_SIZE) && t'[vp] != Fault)
  }

  datatype Call = Call(m: Memory, cr3: FrameNo, tab: FrameNo, virt: Word, phys: nat, flags: nat)

  /** A call for a page outside slot 1023; the allocator has a frame for it if it needs one. */
  ghost predicate MayMap(c: Call) {
    Recursive(c.m, c.cr3) && Fresh(c.m, c.cr3, c.tab, c.virt) && c.virt / 0x40_0000 != SELF
  }

  /** Whether the call has to create a table. */
  predicate Creates(c: Call) {
    c.m[c.cr3][c.virt / 0x40_0000] == 0
  }

  /** Memory with the directory slot filled and the first k words of the table cleared. */
  function Stage(c: Call, k: nat): (r: Memory)
    requires k <= ENTRIES
    ensures forall f: FrameNo :: f != c.tab && f != c.cr3 ==> r[f] == c.m[f]
    ensures c.tab != c.cr3 ==> r[c.cr3] == c.m[c.cr3][c.virt / 0x40_0000 := TableWord(c.tab)]
    ensures forall i: Index :: c.tab != c.cr3 ==> r[c.tab][i] == if i < k then 0 else c.m[c.tab][i]
  {
    var m1 := Poke(c.m, c.cr3, c.virt / 0x40_0000, TableWord(c.tab));
    m1[c.tab := Zeros()[..k] + m1[c.tab][k..]]
  }

  function After(c: Call): Memory {
    MapTo(c.m, c.cr3, c.tab, c.virt, c.phys, c.flags)
  }

  function Steps(c: Call): nat {
    if Creates(c) then ENTRIES + 4 else 3
  }

  /** What memory holds during the j-th step: before, filling the slot, clearing, after the store. */
  function MemoryAt(c: Call, j: nat): Memory {
    if j == 0 then c.m else if Creates(c) && j <= ENTRIES + 1 then Stage(c, j - 1) else After(c)
  }

  /** One behaviour of the TLB during the call, with the flushes: one more if a table is created. */
  ghost predicate Behaviour(c: Call, ts: seq<Tlb>) {
    && |ts| == Steps(c) + 1
    && (forall j :: 0 <= j < Steps(c) ==> FillsFrom(ts[j], MemoryAt(c, j), c.cr3, ts[j + 1]))
    && (Creates(c) ==> SELF * ENTRIES + c.virt / 0x40_0000 !in ts[2])
    && c.virt / PAGE_SIZE !in ts[Steps(c) - 1]
  }

  /** The frame taken for a new table holds no present entry, except where `map` stores its own. */
  predicate CleanFrame(c: Call) {
    Creates(c) ==> forall i: Index :: i != c.virt / PAGE_SIZE % ENTRIES ==> !Present(c.m[c.tab][i])
  }

  // ---------- One call ----------

  /**
    The TLB agrees with the walk after the call, whatever the processor cached meanwhile, if and only
    if no table was created or its frame was clean.
   */
  lemma AgreementIffCleanFrame(c: Call)
    requires MayMap(c)
    ensures CleanFrame(c) <==>
      forall ts :: Behaviour(c, ts) && Agrees(ts[0], c.m, c.cr3) ==> Agrees(ts[Steps(c)], After(c), c.cr3)
  {
    if CleanFrame(c) {
      forall ts | Behaviour(c, ts) && Agrees(ts[0], c.m, c.cr3)
        ensures Agrees(ts[Steps(c)], After(c), c.cr3)
      {
        CleanFrameAgrees(c, ts);
      }
    } else {
      var i: Index :| i != c.virt / PAGE_SIZE % ENTRIES && Present(c.m[c.tab][i]);
      var ts := StaleBehaviour(c, i);
    }
  }

  lemma NamesDiffer(c: Call)
    requires MayMap(c) && Creates(c)
    ensures c.tab != c.cr3
    ensures forall i: Index :: c.m[c.cr3][i] != 0 ==> FrameOf(c.m[c.cr3][i]) != c.tab
  {
    NamedFramesDiffer(c.m, c.cr3, c.tab);
    EntryFields(c.tab);
  }

  /** On a clean frame a page other than the mapped one never translates to anything it will not keep. */
  lemma StageWalk(c: Call, j: nat, vp: nat)
    requires MayMap(c) && CleanFrame(c) && vp < FRAMES && vp != c.virt / PAGE_SIZE
    ensures var w := Walk(MemoryAt(c, j), c.cr3, vp * PAGE_SIZE);
      w == Fault || w == Walk(After(c), c.cr3, vp * PAGE_SIZE)
  {
    var pd: Index := c.virt / 0x40_0000;
    var a := vp * PAGE_SIZE;
    assert a / PAGE_SIZE == vp;
    WithTableKeepsRecursive(c.m, c.cr3, c.tab, c.virt);
    MapKeepsOtherPages(c.m, c.cr3, c.tab, c.virt, c.phys, c.flags, a);
    if Creates(c) {
      NamesDiffer(c);
      SamePageSplit(a, c.virt);
      SamePageSplit(a, Virt(SELF, pd));
      VirtSplit(SELF, pd);
    }
  }

  lemma {:induction false} EntriesAgree(c: Call, ts: seq<Tlb>, j: nat)
    requires MayMap(c) && CleanFrame(c) && Behaviour(c, ts) && Agrees(ts[0], c.m, c.cr3) && j <= Steps(c)
    ensures forall vp :: vp in ts[j] && vp != c.virt / PAGE_SIZE ==>
      vp < FRAMES && ts[j][vp] == Walk(After(c), c.cr3, vp * PAGE_SIZE) && ts[j][vp] != Fault
  {
    if j > 0 { EntriesAgree(c, ts, j - 1); }
    forall vp | vp in ts[j] && vp != c.virt / PAGE_SIZE
      ensures vp < FRAMES && ts[j][vp] == Walk(After(c), c.cr3, vp * PAGE_SIZE) && ts[j][vp] != Fault
    {
      if j == 0 {
        StageWalk(c, 0, vp);
      } else {
        assert FillsFrom(ts[j - 1], MemoryAt(c, j - 1), c.cr3, ts[j]);
        if vp < FRAMES { StageWalk(c, j - 1, vp); }
      }
    }
  }

  lemma CleanFrameAgrees(c: Call, ts: seq<Tlb>)
    requires MayMap(c) && CleanFrame(c) && Behaviour(c, ts) && Agrees(ts[0], c.m, c.cr3)
    ensures Agrees(ts[Steps(c)], After(c), c.cr3)
  {
    EntriesAgree(c, ts, Steps(c));
    assert FillsFrom(ts[Steps(c) - 1], MemoryAt(c, Steps(c) - 1), c.cr3, ts[Steps(c)]);
  }

  /** A present word left in the frame: its page is cached before the clearing and stays cached. */
  lemma StaleBehaviour(c: Call, i: Index) returns (ts: seq<Tlb>)
    requires MayMap(c) && Creates(c) && i != c.virt / PAGE_SIZE % ENTRIES && Present(c.m[c.tab][i])
    ensures Behaviour(c, ts) && ts[0] == map[] && !Agrees(ts[Steps(c)], After(c), c.cr3)
  {
    var pd: Index := c.virt / 0x40_0000;
    var vp := pd * ENTRIES + i;
    NamesDiffer(c);
    EntryFields(c.tab);
    assert vp * PAGE_SIZE / 0x40_0000 == pd && vp * PAGE_SIZE / PAGE_SIZE % ENTRIES == i;
    var stale := Walk(Stage(c, 0), c.cr3, vp * PAGE_SIZE);
    assert stale != Fault;
    var held: Tlb := map[vp := stale];
    ts := seq(Steps(c) + 1, j => if j <= 1 then map[] else held);
    assert FillsFrom(ts[1], MemoryAt(c, 1), c.cr3, ts[2]);
    assert Walk(After(c), c.cr3, vp * PAGE_SIZE) == Fault;
    assert vp in ts[Steps(c)];
  }

  // ---------- Runs of calls ----------

  /** Each call starts in the memory that the one before it left. */
  ghost predicate Chained(cs: seq<Call>) {
    && (forall i :: 0 <= i < |cs| ==> MayMap(cs[i]))
    && (forall i :: 0 < i < |cs| ==> cs[i].m == After(cs[i - 1]) && cs[i].cr3 == cs[i - 1].cr3)
  }

  ghost predicate RunBehaviour(cs: seq<Call>, tss: seq<seq<Tlb>>) {
    && |tss| == |cs|
    && (forall i :: 0 <= i < |cs| ==> Behaviour(cs[i], tss[i]))
    && (forall i :: 0 < i < |cs| ==> tss[i][0] == tss[i - 1][Steps(cs[i - 1])])
  }

  /** The TLB agrees with the walk after each of the calls. */
  ghost predicate StaysInAgreement(cs: seq<Call>, tss: seq<seq<Tlb>>)
    requires RunBehaviour(cs, tss)
  {
    forall i :: 0 <= i < |cs| ==> Agrees(tss[i][Steps(cs[i])], After(cs[i]), cs[i].cr3)
  }

  /** However the TLB behaves, it agrees after every call if it did before the first. */
  ghost predicate AlwaysAgrees(cs: seq<Call>)
    requires cs != []
  {
    forall tss :: RunBehaviour(cs, tss) && Agrees(tss[0][0], cs[0].m, cs[0].cr3) ==> StaysInAgreement(cs, tss)
  }

  /** Over any run: agreement after every call, for all behaviours, iff every new table's frame was clean. */
  lemma RunAgreesIffCleanFrames(cs: seq<Call>)
    requires Chained(cs) && cs != []
    ensures AlwaysAgrees(cs) <==> forall i :: 0 <= i < |cs| ==> CleanFrame(cs[i])
  {
    if i :| 0 <= i < |cs| && !CleanFrame(cs[i]) {
      var tss := StaleRun(cs, i);
    } else {
      forall tss | RunBehaviour(cs, tss) && Agrees(tss[0][0], cs[0].m, cs[0].cr3)
        ensures StaysInAgreement(cs, tss)
      {
        forall i | 0 <= i < |cs|
          ensures Agrees(tss[i][Steps(cs[i])], After(cs[i]), cs[i].cr3)
        {
          CleanFramesAgree(cs, tss, i);
        }
      }
    }
  }

  lemma {:induction false} CleanFramesAgree(cs: seq<Call>, tss: seq<seq<Tlb>>, i: nat)
    requires Chained(cs) && RunBehaviour(cs, tss) && i < |cs| && Agrees(tss[0][0], cs[0].m, cs[0].cr3)
    requires forall k :: 0 <= k < |cs| ==> CleanFrame(cs[k])
    ensures Agrees(tss[i][Steps(cs[i])], After(cs[i]), cs[i].cr3)
  {
    if i > 0 { CleanFramesAgree(cs, tss, i - 1); }
    CleanFrameAgrees(cs[i], tss[i]);
  }

  /** A TLB that starts a call with t and then stays empty. */
  function Emptied(c: Call, t: Tlb): (ts: seq<Tlb>)
    ensures Behaviour(c, ts) && ts[0] == t && ts[Steps(c)] == map[]
  {
    seq(Steps(c) + 1, j => if j == 0 then t else map[])
  }

  /** Nothing is cached until the i-th call, which leaves a stale entry behind. */
  lemma StaleRun(cs: seq<Call>, i: nat) returns (tss: seq<seq<Tlb>>)
    requires Chained(cs) && i < |cs| && !CleanFrame(cs[i])
    ensures RunBehaviour(cs, tss) && tss[0][0] == map[] && !StaysInAgreement(cs, tss)
  {
    var c := cs[i];
    var e: Index :| e != c.virt / PAGE_SIZE % ENTRIES && Present(c.m[c.tab][e]);
    var stale := StaleBehaviour(c, e);
    tss := StaleTlbs(cs, i, stale);
    assert !Agrees(tss[i][Steps(cs[i])], After(cs[i]), cs[i].cr3);
  }

  lemma StaleTlbs(cs: seq<Call>, i: nat, stale: seq<Tlb>) returns (tss: seq<seq<Tlb>>)
    requires i < |cs| && Behaviour(cs[i], stale) && stale[0] == map[]
    ensures RunBehaviour(cs, tss) && tss[i] == stale && tss[0][0] == map[]
  {
    tss := seq(|cs|, k requires 0 <= k < |cs| => StaleAt(cs, i, stale, k));
    forall k | 0 <= k < |cs|
      ensures Behaviour(cs[k], tss[k]) && (k > 0 ==> tss[k][0] == tss[k - 1][Steps(cs[k - 1])])
    {
      StaleStep(cs, i, stale, k);
    }
  }

  /** The k-th call of a run in which only the i-th caches anything. */
  function StaleAt(cs: seq<Call>, i: nat, stale: seq<Tlb>, k: nat): seq<Tlb>
    requires i < |cs| && k < |cs| && |stale| == Steps(cs[i]) + 1
  {
    if k == i then stale else Emptied(cs[k], if k == i + 1 then stale[Steps(cs[i])] else map[])
  }

  lemma StaleStep(cs: seq<Call>, i: nat, stale: seq<Tlb>, k: nat)
    requires i < |cs| && k < |cs| && Behaviour(cs[i], stale) && stale[0] == map[]
    ensures Behaviour(cs[k], StaleAt(cs, i, stale, k))
    ensures k > 0 ==> StaleAt(cs, i, stale, k)[0] == StaleAt(cs, i, stale, k - 1)[Steps(cs[k - 1])]
  {
  }

  // ---------- Where the frames come from ----------

  lemma InvAt(trace: seq<Space>, rs: seq<Request>, i: nat)
    requires Run(trace, rs) && Inv(trace[0]) && i <= |rs|
    ensures Inv(trace[i]) && trace[i].dir == trace[0].dir
  {
    RunIsUpdates(trace[..i + 1], rs[..i]);
  }

  function CallOf(s: Space, r: Request, tab: FrameNo): Call {
    Call(s.mem, s.dir, tab, r.virt, r.phys, r.flags)
  }

  /** The call takes a frame of s, if it needs one, and leaves the memory of s'. */
  ghost predicate Matches(c: Call, s: Space, r: Request, s': Space) {
    MayMap(c) && c == CallOf(s, r, c.tab) && After(c) == s'.mem && s'.dir == s.dir && (Creates(c) ==> c.tab in s.free)
  }

  lemma CallOfStep(s: Space, r: Request, tab: FrameNo, s': Space)
    requires Inv(s) && Mappable(r) && StepWith(s, r, tab, s')
    ensures Matches(CallOf(s, r, tab), s, r, s')
  {
  }

  /** The calls of a run of the address space, each with the frame it takes. */
  lemma {:induction false} CallsOfRun(trace: seq<Space>, rs: seq<Request>, n: nat) returns (cs: seq<Call>)
    requires Run(trace, rs) && Inv(trace[0]) && n <= |rs|
    ensures |cs| == n && forall i :: 0 <= i < n ==> Matches(cs[i], trace[i], rs[i], trace[i + 1])
  {
    cs := [];
    if n > 0 {
      var front := CallsOfRun(trace, rs, n - 1);
      var s, r, s' := trace[n - 1], rs[n - 1], trace[n];
      InvAt(trace, rs, n - 1);
      assert Step(s, r, s');
      var tab: FrameNo :| StepWith(s, r, tab, s');
      CallOfStep(s, r, tab, s');
      cs := front + [CallOf(s, r, tab)];
    }
  }

  /** A frame that is still free holds what it held at the start. */
  lemma {:induction false} FreeFramesUntouched(trace: seq<Space>, rs: seq<Request>, i: nat, f: FrameNo)
    requires Run(trace, rs) && Inv(trace[0]) && i <= |rs| && f in trace[i].free
    ensures f in trace[0].free && trace[i].mem[f] == trace[0].mem[f]
  {
    if i > 0 {
      var s, r, s' := trace[i - 1], rs[i - 1], trace[i];
      assert Step(s, r, s');
      var tab: FrameNo :| StepWith(s, r, tab, s');
      InvAt(trace, rs, i - 1);
      InvAt(trace, rs, i);
      assert !InUse(s'.mem, s'.dir, f);
      MapKeepsOtherFrames(s.mem, s.dir, tab, r.virt, r.phys, r.flags, f);
      FreeFramesUntouched(trace, rs, i - 1, f);
    }
  }

  lemma MatchingCallsChain(trace: seq<Space>, rs: seq<Request>, cs: seq<Call>)
    requires |trace| == |rs| + 1 && |cs| == |rs|
    requires forall i :: 0 <= i < |rs| ==> Matches(cs[i], trace[i], rs[i], trace[i + 1])
    ensures Chained(cs)
  {
    forall i | 0 <= i < |cs|
      ensures MayMap(cs[i]) && (i > 0 ==> cs[i].m == After(cs[i - 1]) && cs[i].cr3 == cs[i - 1].cr3)
    {
      assert Matches(cs[i], trace[i], rs[i], trace[i + 1]);
      if i > 0 { assert Matches(cs[i - 1], trace[i - 1], rs[i - 1], trace[i - 1 + 1]); }
    }
  }

  /** If no free frame holds a present word when the run starts, every frame is clean when it is taken. */
  lemma ClearedFramesSuffice(trace: seq<Space>, rs: seq<Request>) returns (cs: seq<Call>)
    requires Run(trace, rs) && Inv(trace[0])
    requires forall f: FrameNo, i: Index :: f in trace[0].free ==> !Present(trace[0].mem[f][i])
    ensures |cs| == |rs| && (forall i :: 0 <= i < |rs| ==> Matches(cs[i], trace[i], rs[i], trace[i + 1]))
    ensures Chained(cs) && forall i :: 0 <= i < |cs| ==> CleanFrame(cs[i])
  {
    cs := CallsOfRun(trace, rs, |rs|);
    MatchingCallsChain(trace, rs, cs);
    forall i | 0 <= i < |cs|
      ensures CleanFrame(cs[i])
    {
      assert Matches(cs[i], trace[i], rs[i], trace[i + 1]);
      if Creates(cs[i]) { FreeFramesUntouched(trace, rs, i, cs[i].tab); }
    }
  }

  /** Directory in frame 0, one present word in the free frame 2: the entry of that word can outlive the call. */
  lemma DirtyFrameIsCached(m: Memory) returns (ts: seq<Tlb>)
    requires m[0] == Zeros()[SELF := TableWord(0)] && m[2] == Zeros()[5 := 0x1003]
    ensures var c := Call(m, 0, 2, 0, 0, 3);
      MayMap(c) && Behaviour(c, ts) && Agrees(ts[0], c.m, 0) && !Agrees(ts[Steps(c)], After(c), 0)
  {
    var c := Call(m, 0, 2, 0, 0, 3);
    EntryFields(0);
    EntryFields(2);
    assert forall i: Index :: m[0][i] == if i == SELF then TableWord(0) else 0;
    assert m[2][5] == 0x1003;
    ts := StaleBehaviour(c, 5);
  }
}
