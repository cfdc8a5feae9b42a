/**
  Runs of `map` calls: a transition system over memory and the allocator's free frames.

  Which free frame becomes a new table is left to the allocator; the theorems hold for any choice.
 */
module AddressSpace {
  import opened Bits
  import opened Pages
  import opened Paging

  datatype Request = Request(virt: Word, phys: nat, flags: nat)

  datatype Space = Space(mem: Memory, dir: FrameNo, free: set<nat>)

  /** The pages `map` is meant for: outside the recursive slot, backed by a whole frame. */
  predicate Mappable(r: Request) {
    r.virt / 0x40_0000 != SELF && r.phys % PAGE_SIZE == 0
  }

  ghost predicate Inv(s: Space) {
    && Recursive(s.mem, s.dir)
    && (forall f: FrameNo :: InUse(s.mem, s.dir, f) ==> f !in s.free)
  }

  /** One `map` call.  A zero directory slot consumes a free frame, a present one consumes nothing. */
  ghost predicate Step(s: Space, r: Request, s': Space) {
    exists tab: FrameNo :: StepWith(s, r, tab, s')
  }

  predicate StepWith(s: Space, r: Request, tab: FrameNo, s': Space) {
    && (s.mem[s.dir][r.virt / 0x40_0000] == 0 ==> tab in s.free)
    && s' == Space(MapTo(s.mem, s.dir, tab, r.virt, r.phys, r.flags), s.dir,
                   if s.mem[s.dir][r.virt / 0x40_0000] == 0 then s.free - {tab} else s.free)
  }

  ghost predicate Run(trace: seq<Space>, rs: seq<Request>) {
    && |trace| == |rs| + 1
    && (forall i :: 0 <= i < |rs| ==> Mappable(rs[i]) && Step(trace[i], rs[i], trace[i + 1]))
  }

  /** A frame known to the paging code: still free, or read by the walk. */
  ghost predicate Accounted(s: Space, f: FrameNo) {
    f in s.free || InUse(s.mem, s.dir, f)
  }

  /** The simple model of an address space: a table of translations, overwritten page by page. */
  function Updates(v: seq<Translation>, rs: seq<Request>): (v': seq<Translation>)
    requires |v| == SELF * ENTRIES
    requires forall i :: 0 <= i < |rs| ==> Mappable(rs[i])
    ensures |v'| == |v|
  {
    if rs == [] then v
    else
      var r := rs[|rs| - 1];
      assert Mappable(r);
      Updates(v, rs[..|rs| - 1])[r.virt / PAGE_SIZE := Mapped(r.phys, r.flags)]
  }

  lemma StepKeepsInv(s: Space, r: Request, s': Space)
    requires Inv(s) && Mappable(r) && Step(s, r, s')
    ensures Inv(s') && s'.dir == s.dir
    ensures View(s'.mem, s'.dir) == View(s.mem, s.dir)[r.virt / PAGE_SIZE := Mapped(r.phys, r.flags)]
    ensures forall f: FrameNo :: Accounted(s', f) <==> Accounted(s, f)
  {
    var tab: FrameNo :| StepWith(s, r, tab, s');
    MapKeepsRecursive(s.mem, s.dir, tab, r.virt, r.phys, r.flags);
    MapUpdatesView(s.mem, s.dir, tab, r.virt, r.phys, r.flags);
  }

  /**
    Every run of `map` calls keeps the directory recursive, never hands a table frame back to the
    free set, neither loses nor invents a frame, and leaves the hardware seeing exactly the simple
    model after the same updates.
   */
  lemma {:induction false} RunIsUpdates(trace: seq<Space>, rs: seq<Request>)
    requires Run(trace, rs) && Inv(trace[0])
    ensures forall i :: 0 <= i < |rs| ==> Mappable(rs[i])
    ensures Inv(trace[|rs|]) && trace[|rs|].dir == trace[0].dir
    ensures View(trace[|rs|].mem, trace[0].dir) == Updates(View(trace[0].mem, trace[0].dir), rs)
    ensures forall f: FrameNo :: Accounted(trace[|rs|], f) <==> Accounted(trace[0], f)
    decreases |rs|
  {
    if rs != [] {
      var n := |rs| - 1;
      RunIsUpdates(trace[..n + 1], rs[..n]);
      StepKeepsInv(trace[n], rs[n], trace[n + 1]);
    }
  }
}
