/** Runs of `map` calls with PAE, outside the self-map: the counterpart of AddressSpace. */
module PaeSpace {
  import opened Bits
  import opened Pages
  import opened PaePaging

  datatype Space = Space(mem: Memory, dirs: Directories, free: set<nat>)

  /** The pages `map` is meant for: outside the self-map, backed by a whole frame. */
  predicate Mappable(c: Call) {
    SlotOf(c.virt) < SELF && c.phys % PAGE_SIZE == 0
  }

  ghost predicate Inv(s: Space) {
    && Recursive(Dir(s.mem, s.dirs), s.dirs)
    && (forall f: FrameNo :: InUse(Dir(s.mem, s.dirs), f) ==> f !in s.free)
  }

  /** One `map` call.  A zero directory slot consumes a free frame, a present one consumes nothing. */
  ghost predicate Step(s: Space, c: Call, s': Space) {
    exists tab: FrameNo :: StepWith(s, c, tab, s')
  }

  predicate StepWith(s: Space, c: Call, tab: FrameNo, s': Space) {
    var creates := Entry(s.mem, s.dirs, SlotOf(c.virt)) == 0;
    && (creates ==> tab in s.free)
    && s' == Space(MapTo(s.mem, s.dirs, tab, c), s.dirs, if creates then s.free - {tab} else s.free)
  }

  ghost predicate Run(trace: seq<Space>, cs: seq<Call>) {
    && |trace| == |cs| + 1
    && (forall i :: 0 <= i < |cs| ==> Mappable(cs[i]) && Step(trace[i], cs[i], trace[i + 1]))
  }

  /** A frame known to the paging code: still free, or read by the walk. */
  ghost predicate Accounted(s: Space, f: FrameNo) {
    f in s.free || InUse(Dir(s.mem, s.dirs), f)
  }

  /** The simple model of an address space: a table of translations, overwritten page by page. */
  function Updates(v: seq<Translation>, cs: seq<Call>): (v': seq<Translation>)
    requires |v| == SELF * ENTRIES
    requires forall i :: 0 <= i < |cs| ==> Mappable(cs[i])
    ensures |v'| == |v|
  {
    if cs == [] then v
    else
      var c := cs[|cs| - 1];
      assert Mappable(c);
      PageBelowSelf(c.virt);
      Updates(v, cs[..|cs| - 1])[c.virt / PAGE_SIZE := Mapped(c)]
  }

  lemma PageBelowSelf(virt: Word)
    requires SlotOf(virt) < SELF
    ensures virt / PAGE_SIZE < SELF * ENTRIES
  {
  }

  lemma StepKeepsInv(s: Space, c: Call, s': Space)
    requires Inv(s) && Mappable(c) && Step(s, c, s')
    ensures Inv(s') && s'.dirs == s.dirs && c.virt / PAGE_SIZE < SELF * ENTRIES
    ensures View(s'.mem, s'.dirs) == View(s.mem, s.dirs)[c.virt / PAGE_SIZE := Mapped(c)]
    ensures forall f: FrameNo :: Accounted(s', f) <==> Accounted(s, f)
  {
    var tab: FrameNo :| StepWith(s, c, tab, s');
    PageBelowSelf(c.virt);
    MapKeepsRecursive(s.mem, s.dirs, tab, c);
    MapUpdatesView(s.mem, s.dirs, tab, c);
  }

  /**
    Every run of `map` calls keeps the directories recursive, never hands a table frame back to the
    free set, neither loses nor invents a frame, and leaves the hardware seeing exactly the simple
    model after the same updates.
   */
  lemma {:induction false} RunIsUpdates(trace: seq<Space>, cs: seq<Call>)
    requires Run(trace, cs) && Inv(trace[0])
    ensures forall i :: 0 <= i < |cs| ==> Mappable(cs[i])
    ensures Inv(trace[|cs|]) && trace[|cs|].dirs == trace[0].dirs
    ensures View(trace[|cs|].mem, trace[0].dirs) == Updates(View(trace[0].mem, trace[0].dirs), cs)
    ensures forall f: FrameNo :: Accounted(trace[|cs|], f) <==> Accounted(trace[0], f)
    decreases |cs|
  {
    if cs != [] {
      var n := |cs| - 1;
      RunIsUpdates(trace[..n + 1], cs[..n]);
      StepKeepsInv(trace[n], cs[n], trace[n + 1]);
    }
  }
}
